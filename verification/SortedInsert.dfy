// Insertion into an array kept in key order, ahead of equal keys: what the memtable and the request
// batches both do.
module SortedInsert {
  import opened Entries

  /** Insert before the first entry whose key is not smaller: ahead of older entries of the same key. */
  function Put<T>(c: seq<Keyed<T>>, e: Keyed<T>): (r: seq<Keyed<T>>)
    ensures |r| == |c| + 1
  {
    if c == [] then [e]
    else if c[0].key < e.key then [c[0]] + Put(c[1..], e)
    else [e] + c
  }

  lemma {:induction false} PutMultiset<T>(c: seq<Keyed<T>>, e: Keyed<T>)
    ensures multiset(Put(c, e)) == multiset(c) + multiset{e}
  {
    if c != [] && c[0].key < e.key {
      PutMultiset(c[1..], e);
      assert c == [c[0]] + c[1..];
    }
  }

  /** A lower-bound position is where Put inserts. */
  lemma {:induction false} PutAtLowerBound<T>(c: seq<Keyed<T>>, e: Keyed<T>, p: nat)
    requires p <= |c|
    requires forall j :: 0 <= j < p ==> c[j].key < e.key
    requires p < |c| ==> c[p].key >= e.key
    ensures Put(c, e) == InsertAt(c, p, e)
    decreases p
  {
    if p > 0 {
      PutAtLowerBound(c[1..], e, p - 1);
      assert InsertAt(c, p, e) == [c[0]] + InsertAt(c[1..], p - 1, e);
    } else {
      assert InsertAt(c, 0, e) == [e] + c;
    }
  }

  lemma {:induction false} LowerBoundExists<T>(c: seq<Keyed<T>>, key: Key) returns (p: nat)
    requires Sorted(c)
    ensures p <= |c|
    ensures forall j :: 0 <= j < p ==> c[j].key < key
    ensures forall j :: p <= j < |c| ==> c[j].key >= key
  {
    if c == [] || c[0].key >= key {
      p := 0;
    } else {
      var q := LowerBoundExists(c[1..], key);
      p := q + 1;
      assert forall j :: 1 <= j < |c| ==> c[j] == c[1..][j - 1];
    }
  }

  lemma PutSorted<T>(c: seq<Keyed<T>>, e: Keyed<T>)
    requires Sorted(c)
    ensures Sorted(Put(c, e))
  {
    var p := LowerBoundExists(c, e.key);
    PutAtLowerBound(c, e, p);
  }

  /** The array after a sequence of insertions, oldest first. */
  function PutAll<T>(items: seq<Keyed<T>>): (c: seq<Keyed<T>>)
    ensures |c| == |items|
  {
    if items == [] then [] else Put(PutAll(items[..|items| - 1]), items[|items| - 1])
  }

  /** Any sequence of insertions leaves a sorted permutation of what was inserted. */
  lemma {:induction false} PutAllSorted<T>(items: seq<Keyed<T>>)
    ensures Sorted(PutAll(items)) && multiset(PutAll(items)) == multiset(items)
  {
    if items != [] {
      var older, e := items[..|items| - 1], items[|items| - 1];
      PutAllSorted(older);
      PutSorted(PutAll(older), e);
      PutMultiset(PutAll(older), e);
      assert items == older + [e];
    }
  }
}
