/**
 * How the logical contents of a ring buffer sit in its slots: item `i` of the contents, counted
 * from the oldest, lives in slot `(start + i) % |slots|`, where `start` is the reader's count.
 */
module Ring {
  import opened Bits

  ghost predicate Mirrors<T>(contents: seq<T>, slots: seq<T>, start: nat)
  {
    |slots| > 0 && |contents| <= |slots| &&
    forall i :: 0 <= i < |contents| ==> contents[i] == slots[(start + i) % |slots|]
  }

  /** Writing the next free slot (the writer's slot) appends to the contents and disturbs no live item. */
  lemma MirrorsAfterWrite<T>(contents: seq<T>, slots: seq<T>, start: nat, x: T)
    requires Mirrors(contents, slots, start) && |contents| < |slots|
    ensures Mirrors(contents + [x], slots[(start + |contents|) % |slots| := x], start)
  {
    var n, w := |slots|, (start + |contents|) % |slots|;
    var slots' := slots[w := x];
    forall i | 0 <= i < |contents|
      ensures (contents + [x])[i] == slots'[(start + i) % n]
    {
      ModDistinct(start + i, start + |contents|, n);
    }
  }

  /** The oldest item sits in the reader's slot; once the reader moves on, the rest still mirror. */
  lemma MirrorsAfterRead<T>(contents: seq<T>, slots: seq<T>, start: nat)
    requires Mirrors(contents, slots, start) && |contents| > 0
    ensures contents[0] == slots[start % |slots|]
    ensures Mirrors(contents[1..], slots, start + 1)
  {
    forall i | 0 <= i < |contents| - 1
      ensures contents[1..][i] == slots[(start + 1 + i) % |slots|]
    {
      assert contents[1..][i] == contents[i + 1];
    }
  }
}
