// Keys, values and table entries shared by the memtable, the SSTables and the request batches.
module Entries {

  datatype Option<+T> = None | Some(value: T)

  /** Fixed-length byte strings, read as big-endian numbers; zero is the all-null string. */
  type Key = nat
  type Value = nat

  const NULL_KEY: Key := 0

  /** Anything kept in key order: table entries, and requests in a batch. */
  datatype Keyed<+T> = Entry(key: Key, value: T)

  type Entry = Keyed<Value>

  const NULL_ENTRY: Entry := Entry(NULL_KEY, 0)

  ghost predicate Sorted<T>(table: seq<Keyed<T>>) {
    forall i, j :: 0 <= i < j < |table| ==> table[i].key <= table[j].key
  }

  ghost predicate StrictlySorted(table: seq<Entry>) {
    forall i, j :: 0 <= i < j < |table| ==> table[i].key < table[j].key
  }

  ghost predicate NonNull(table: seq<Entry>) {
    forall i :: 0 <= i < |table| ==> table[i].key != NULL_KEY
  }

  ghost predicate Contains(table: seq<Entry>, key: Key) {
    exists i :: 0 <= i < |table| && table[i].key == key
  }

  /** The entries of `key` lie at the positions [a, b), smaller keys before and greater keys after them. */
  ghost predicate KeyRun(table: seq<Entry>, key: Key, a: nat, b: nat) {
    && a <= b <= |table|
    && (forall i :: 0 <= i < a ==> table[i].key < key)
    && (forall i :: a <= i < b ==> table[i].key == key)
    && (forall i :: b <= i < |table| ==> table[i].key > key)
  }

  /** The first entry holding `key` at a position in [lo, hi): the plain linear-scan reference. */
  function LookupIn(table: seq<Entry>, lo: nat, hi: nat, key: Key): (r: Option<Value>)
    requires lo <= hi <= |table|
    decreases hi - lo
  {
    if lo == hi then None
    else if table[lo].key == key then Some(table[lo].value)
    else LookupIn(table, lo + 1, hi, key)
  }

  function Lookup(table: seq<Entry>, key: Key): (r: Option<Value>) {
    LookupIn(table, 0, |table|, key)
  }

  lemma {:induction false} LookupInAbsent(table: seq<Entry>, lo: nat, hi: nat, key: Key)
    requires lo <= hi <= |table|
    ensures LookupIn(table, lo, hi, key).None? <==> forall i :: lo <= i < hi ==> table[i].key != key
    decreases hi - lo
  {
    if lo < hi {
      LookupInAbsent(table, lo + 1, hi, key);
    }
  }

  lemma {:induction false} LookupInFirst(table: seq<Entry>, lo: nat, hi: nat, key: Key, i: nat)
    requires lo <= i < hi <= |table|
    requires table[i].key == key
    requires forall j :: lo <= j < i ==> table[j].key != key
    ensures LookupIn(table, lo, hi, key) == Some(table[i].value)
    decreases hi - lo
  {
    if lo < i {
      LookupInFirst(table, lo + 1, hi, key, i);
    }
  }

  /** Scanning a range is scanning its two halves in turn. */
  lemma {:induction false} LookupInSplit(table: seq<Entry>, lo: nat, mid: nat, hi: nat, key: Key)
    requires lo <= mid <= hi <= |table|
    ensures LookupIn(table, lo, hi, key) ==
            (var left := LookupIn(table, lo, mid, key);
             if left.Some? then left else LookupIn(table, mid, hi, key))
    decreases mid - lo
  {
    if lo < mid {
      LookupInSplit(table, lo + 1, mid, hi, key);
    }
  }

  /** Insertion at a position, element by element. */
  function InsertAt<T>(c: seq<T>, p: nat, x: T): (r: seq<T>)
    requires p <= |c|
    ensures |r| == |c| + 1
    ensures forall j :: 0 <= j < |r| ==> r[j] == if j < p then c[j] else if j == p then x else c[j - 1]
  {
    c[..p] + [x] + c[p..]
  }
}
