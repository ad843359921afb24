// The in-memory level: a sorted array that takes every write, newest first among equal keys.
module MemTable {
  import opened Entries
  import opened SortedInsert

  /** Reading back: the new entry answers for its key, every other key is unaffected. */
  lemma {:induction false} LookupPut(c: seq<Entry>, e: Entry, key: Key)
    ensures Lookup(Put(c, e), key) == if key == e.key then Some(e.value) else Lookup(c, key)
  {
    if c == [] {
      LookupCons([e], key);
    } else if c[0].key < e.key {
      LookupPut(c[1..], e, key);
      LookupCons(c, key);
      LookupCons(Put(c, e), key);
      assert Put(c, e)[1..] == Put(c[1..], e);
    } else {
      LookupCons(Put(c, e), key);
      assert Put(c, e)[1..] == c;
    }
  }

  lemma LookupCons(c: seq<Entry>, key: Key)
    requires c != []
    ensures Lookup(c, key) == if c[0].key == key then Some(c[0].value) else Lookup(c[1..], key)
  {
    LookupShift(c, 1, |c|, key);
  }

  lemma {:induction false} LookupShift(c: seq<Entry>, lo: nat, hi: nat, key: Key)
    requires 1 <= lo <= hi <= |c|
    ensures LookupIn(c, lo, hi, key) == LookupIn(c[1..], lo - 1, hi - 1, key)
    decreases hi - lo
  {
    if lo < hi {
      LookupShift(c, lo + 1, hi, key);
    }
  }

  // ----- Any sequence of writes -----

  /** The value of the latest write of a key. */
  function LastWrite(writes: seq<Entry>, key: Key): (r: Option<Value>) {
    if writes == [] then None
    else if writes[|writes| - 1].key == key then Some(writes[|writes| - 1].value)
    else LastWrite(writes[..|writes| - 1], key)
  }

  /** Last write wins: the table stays sorted, holds exactly the writes, and answers with the latest one. */
  lemma {:induction false} LastWriteWins(writes: seq<Entry>, key: Key)
    ensures Sorted(PutAll(writes))
    ensures multiset(PutAll(writes)) == multiset(writes)
    ensures Lookup(PutAll(writes), key) == LastWrite(writes, key)
  {
    if writes != [] {
      var older, e := writes[..|writes| - 1], writes[|writes| - 1];
      LastWriteWins(older, key);
      LookupPut(PutAll(older), e, key);
    }
    PutAllSorted(writes);
  }

  lemma {:induction false} LastWriteConcat(a: seq<Entry>, b: seq<Entry>, key: Key)
    ensures LastWrite(a + b, key) == if LastWrite(b, key).Some? then LastWrite(b, key) else LastWrite(a, key)
  {
    if b == [] {
      assert a + b == a;
    } else {
      assert (a + b)[..|a + b| - 1] == a + b[..|b| - 1];
      LastWriteConcat(a, b[..|b| - 1], key);
    }
  }

  // ----- Where the writes of a key lie -----

  /** The values written for a key, newest first. */
  function Versions(writes: seq<Entry>, key: Key): (values: seq<Value>) {
    if writes == [] then []
    else
      var older, e := Versions(writes[..|writes| - 1], key), writes[|writes| - 1];
      if e.key == key then [e.value] + older else older
  }

  /** How many writes have a smaller key. */
  function Smaller(writes: seq<Entry>, key: Key): (n: nat) {
    if writes == [] then 0
    else Smaller(writes[..|writes| - 1], key) + if writes[|writes| - 1].key < key then 1 else 0
  }

  /** The versions of a key are at the positions from a on, newest first. */
  ghost predicate HoldsVersions(c: seq<Entry>, key: Key, a: nat, values: seq<Value>) {
    KeyRun(c, key, a, a + |values|) && forall j :: 0 <= j < |values| ==> c[a + j].value == values[j]
  }

  lemma InsertNewest(c: seq<Entry>, key: Key, a: nat, value: Value, values: seq<Value>)
    requires HoldsVersions(c, key, a, values)
    ensures HoldsVersions(InsertAt(c, a, Entry(key, value)), key, a, [value] + values)
  {
  }

  lemma InsertBefore(c: seq<Entry>, e: Entry, p: nat, key: Key, a: nat, values: seq<Value>)
    requires HoldsVersions(c, key, a, values) && p <= a && e.key < key
    ensures HoldsVersions(InsertAt(c, p, e), key, a + 1, values)
  {
  }

  lemma InsertBehind(c: seq<Entry>, e: Entry, p: nat, key: Key, a: nat, values: seq<Value>)
    requires HoldsVersions(c, key, a, values) && a + |values| <= p <= |c| && e.key > key
    ensures HoldsVersions(InsertAt(c, p, e), key, a, values)
  {
  }

  lemma PutVersion(c: seq<Entry>, e: Entry, key: Key, a: nat, values: seq<Value>)
    requires Sorted(c) && HoldsVersions(c, key, a, values)
    ensures e.key == key ==> HoldsVersions(Put(c, e), key, a, [e.value] + values)
    ensures e.key < key ==> HoldsVersions(Put(c, e), key, a + 1, values)
    ensures e.key > key ==> HoldsVersions(Put(c, e), key, a, values)
  {
    var p := LowerBoundExists(c, e.key);
    PutAtLowerBound(c, e, p);
    assert a < |c| ==> c[a].key >= key;
    if e.key == key {
      assert p < |c| ==> c[p].key >= key;
      InsertNewest(c, key, a, e.value, values);
    } else if e.key < key {
      InsertBefore(c, e, p, key, a, values);
    } else {
      assert p < |c| ==> c[p].key > key;
      InsertBehind(c, e, p, key, a, values);
    }
  }

  /** In the table the writes of a key stand together, newest first, behind those of smaller keys. */
  lemma {:induction false} VersionsInTable(writes: seq<Entry>, key: Key)
    ensures HoldsVersions(PutAll(writes), key, Smaller(writes, key), Versions(writes, key))
    ensures LastWrite(writes, key) == (var v := Versions(writes, key); if v == [] then None else Some(v[0]))
  {
    if writes != [] {
      var older, e := writes[..|writes| - 1], writes[|writes| - 1];
      VersionsInTable(older, key);
      PutAllSorted(older);
      PutVersion(PutAll(older), e, key, Smaller(older, key), Versions(older, key));
    }
  }

  // ----- When a flushed table has no repeated key -----

  ghost predicate DistinctKeys(writes: seq<Entry>) {
    forall i, j :: 0 <= i < j < |writes| ==> writes[i].key != writes[j].key
  }

  lemma PutStrict(c: seq<Entry>, e: Entry)
    requires Sorted(c)
    ensures StrictlySorted(Put(c, e)) <==> StrictlySorted(c) && !Contains(c, e.key)
  {
    var p := LowerBoundExists(c, e.key);
    PutAtLowerBound(c, e, p);
    var r := InsertAt(c, p, e);
    if StrictlySorted(r) {
      assert r[p] == e;
      forall i | 0 <= i < |c| ensures c[i].key != e.key {
        assert r[if i < p then i else i + 1] == c[i];
      }
      forall i, j | 0 <= i < j < |c| ensures c[i].key < c[j].key {
        assert r[if i < p then i else i + 1] == c[i] && r[if j < p then j else j + 1] == c[j];
      }
    }
  }

  /** A table has strictly increasing keys, as the descent of its SSTable needs, exactly if no key was written twice. */
  lemma {:induction false} StrictExactlyIfDistinct(writes: seq<Entry>)
    ensures StrictlySorted(PutAll(writes)) <==> DistinctKeys(writes)
  {
    if writes != [] {
      var older, e := writes[..|writes| - 1], writes[|writes| - 1];
      StrictExactlyIfDistinct(older);
      LastWriteWins(older, e.key);
      PutStrict(PutAll(older), e);
      SameKeys(older, e.key);
      assert DistinctKeys(writes) <==> DistinctKeys(older) && !Contains(older, e.key) by {
        assert forall i :: 0 <= i < |older| ==> writes[i] == older[i];
        assert DistinctKeys(writes) ==> forall i :: 0 <= i < |older| ==> writes[i].key != writes[|older|].key;
      }
    }
  }

  lemma SameKeys(writes: seq<Entry>, key: Key)
    ensures Contains(PutAll(writes), key) <==> Contains(writes, key)
  {
    LastWriteWins(writes, key);
    var c := PutAll(writes);
    if Contains(c, key) {
      var i :| 0 <= i < |c| && c[i].key == key;
      assert c[i] in multiset(writes);
    }
    if Contains(writes, key) {
      var i :| 0 <= i < |writes| && writes[i].key == key;
      assert writes[i] in multiset(c);
    }
  }

  class Table {
    const data: array<Entry>
    var size: nat

    ghost predicate Valid()
      reads this, data
    {
      size <= data.Length && Sorted(data[..size])
    }

    ghost function Contents(): (c: seq<Entry>)
      requires size <= data.Length
      reads this, data
    {
      data[..size]
    }

    constructor (capacity: nat)
      ensures Valid() && fresh(data) && data.Length == capacity && Contents() == []
    {
      data := new Entry[capacity](_ => NULL_ENTRY);
      size := 0;
    }

    method LowerBound(key: Key) returns (left: nat)
      requires Valid()
      ensures left <= size
      ensures forall j :: 0 <= j < left ==> data[j].key < key
      ensures forall j :: left <= j < size ==> data[j].key >= key
    {
      left := 0;
      var right := size;
      while left < right
        invariant left <= right <= size
        invariant forall j :: 0 <= j < left ==> data[j].key < key
        invariant forall j :: right <= j < size ==> data[j].key >= key
      {
        var mid := (left + right) / 2;
        if data[mid].key < key {
          assert forall j :: 0 <= j < mid ==> data[..size][j].key <= data[..size][mid].key;
          left := mid + 1;
        } else {
          assert forall j :: mid < j < size ==> data[..size][mid].key <= data[..size][j].key;
          right := mid;
        }
      }
    }

    method Read(key: Key) returns (r: Option<Value>)
      requires Valid()
      ensures r == Lookup(Contents(), key)
    {
      var left := LowerBound(key);
      if left < size && data[left].key == key {
        r := Some(data[left].value);
        LookupInFirst(Contents(), 0, size, key, left);
      } else {
        r := None;
        LookupInAbsent(Contents(), 0, size, key);
      }
    }

    /** Callers flush a full table before writing, so there is room for one more entry. */
    method Write(key: Key, value: Value)
      requires Valid() && size < data.Length
      modifies this`size, data
      ensures Valid() && size == old(size) + 1
      ensures Contents() == Put(old(Contents()), Entry(key, value))
    {
      ghost var c := Contents();
      var left := LowerBound(key);
      PutAtLowerBound(c, Entry(key, value), left);
      PutSorted(c, Entry(key, value));
      ShiftIn(left, Entry(key, value));
      size := size + 1;
    }

    /** Carry each entry from `left` on into the next place. */
    method ShiftIn(left: nat, e: Entry)
      requires left <= size < data.Length
      modifies data
      ensures data[..size + 1] == InsertAt(old(data[..size]), left, e)
    {
      ghost var c, after := data[..size], InsertAt(data[..size], left, e);
      var carry, i := e, left;
      while i < size
        invariant left <= i <= size
        invariant carry == after[i]
        invariant forall j :: 0 <= j < i ==> data[j] == after[j]
        invariant forall j :: i <= j < size ==> data[j] == c[j]
      {
        var next := data[i];
        data[i] := carry;
        carry := next;
        i := i + 1;
      }
      data[size] := carry;
      assert data[..size + 1] == after;
    }

    method EmptyOut()
      modifies this`size, data
      ensures Valid() && Contents() == []
      ensures forall j :: 0 <= j < data.Length ==> data[j] == NULL_ENTRY
    {
      for i := 0 to data.Length
        modifies data
        invariant forall j :: 0 <= j < i ==> data[j] == NULL_ENTRY
      {
        data[i] := NULL_ENTRY;
      }
      size := 0;
    }
  }
}
