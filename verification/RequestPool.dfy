// The sorted array of client requests inside a request batch.
module RequestPool {
  import opened Entries
  import opened SortedInsert

  datatype Kind = READ | WRITE

  /** A client socket waiting for an answer, and the batch whose pool holds it; -1 marks a moved request. */
  datatype Client = Client(sock: int, kind: Kind, batch: nat)

  type Request = Keyed<Client>

  const MOVED := -1

  predicate Live(r: Request) {
    r.value.sock != MOVED
  }

  ghost predicate OwnedBy(c: seq<Request>, batch: nat) {
    forall j :: 0 <= j < |c| ==> c[j].value.batch == batch
  }

  class Pool {
    const batch: nat
    const data: array<Request>
    var length: nat
    var numSent: nat

    ghost predicate Valid()
      reads this, data
    {
      length <= data.Length && Sorted(data[..length]) && OwnedBy(data[..length], batch)
    }

    ghost function Contents(): (c: seq<Request>)
      requires length <= data.Length
      reads this, data
    {
      data[..length]
    }

    constructor (batch: nat, capacity: nat)
      ensures Valid() && fresh(data) && data.Length == capacity && this.batch == batch
      ensures Contents() == [] && numSent == 0
    {
      this.batch := batch;
      data := new Request[capacity](_ => Entry(NULL_KEY, Client(MOVED, READ, batch)));
      length, numSent := 0, 0;
    }

    /** find_index_starting_from as a lower bound: the first index from `start` on whose key is not smaller. */
    method FindIndexStartingFrom(start: nat, key: Key) returns (left: nat)
      requires Valid() && start <= length
      ensures start <= left <= length
      ensures forall j :: start <= j < left ==> data[j].key < key
      ensures forall j :: left <= j < length ==> data[j].key >= key
    {
      left := start;
      var right := length;
      while left < right
        invariant start <= left <= right <= length
        invariant forall j :: start <= j < left ==> data[j].key < key
        invariant forall j :: right <= j < length ==> data[j].key >= key
      {
        var mid := (left + right) / 2;
        if data[mid].key < key {
          assert forall j :: start <= j < mid ==> data[..length][j].key <= data[..length][mid].key;
          left := mid + 1;
        } else {
          assert forall j :: mid < j < length ==> data[..length][mid].key <= data[..length][j].key;
          right := mid;
        }
      }
    }

    /**
     * The search as written gives up with -1 when the lower bound is the end of the pool, and on an inexact
     * match at the very front; otherwise it is the lower bound.
     */
    method FindIndexAsWritten(start: nat, key: Key) returns (r: int)
      requires Valid() && start <= length
      ensures r == -1 <==> (forall j :: start <= j < length ==> data[j].key < key)
                           || (start == 0 < length && data[0].key > key)
      ensures r != -1 ==>
        && start <= r < length
        && (forall j :: start <= j < r ==> data[j].key < key)
        && (forall j :: r <= j < length ==> data[j].key >= key)
    {
      var left := FindIndexStartingFrom(start, key);
      if left == length || (left == 0 && data[0].key != key) {
        r := -1;
      } else {
        assert data[left].key >= key && (start < left ==> data[start].key < key);
        r := left;
      }
    }

    /** Insert a request of this batch in key order. */
    method InsertReadWrite(key: Key, sock: int, kind: Kind)
      requires Valid() && length < data.Length
      modifies this`length, data
      ensures Valid() && length == old(length) + 1
      ensures Contents() == Put(old(Contents()), Entry(key, Client(sock, kind, batch)))
    {
      ghost var c := Contents();
      var left := FindIndexStartingFrom(0, key);
      var r := Entry(key, Client(sock, kind, batch));
      PutAtLowerBound(c, r, left);
      PutSorted(c, r);
      ShiftIn(left, r);
      length := length + 1;
      assert OwnedBy(Contents(), batch);
    }

    /**
     * The shift loop as written: the carried copy takes over buffer, socket and type of the displaced
     * entry but assigns its own batch reference to itself. Since all entries of a pool belong to the
     * same batch, the result is the plain shift.
     */
    method ShiftIn(left: nat, r: Request)
      requires left <= length < data.Length
      requires OwnedBy(Contents(), batch) && r.value.batch == batch
      modifies data
      ensures data[..length + 1] == InsertAt(old(Contents()), left, r)
    {
      ghost var c, after := Contents(), InsertAt(Contents(), left, r);
      var carry, i := r, left;
      while i < length
        invariant left <= i <= length
        invariant carry == after[i]
        invariant forall j :: 0 <= j < i ==> data[j] == after[j]
        invariant forall j :: i <= j < length ==> data[j] == c[j]
      {
        var next := data[i];
        data[i] := carry;
        carry := Entry(next.key, Client(next.value.sock, next.value.kind, carry.value.batch));
        i := i + 1;
      }
      data[length] := carry;
      assert data[..length + 1] == after;
    }

    /** remove_via_index: the request lives on elsewhere; the slot and the length stay. */
    method RemoveViaIndex(index: nat)
      requires Valid() && index < length
      modifies data
      ensures Valid()
      ensures Contents() == old(Contents())[index := Moved(old(data[index]))]
      ensures data[index].value.sock == MOVED && data[index].key == old(data[index].key)
      ensures data[index].value.kind == old(data[index].value.kind) && data[index].value.batch == batch
    {
      data[index] := Moved(data[index]);
    }
  }

  function Moved(r: Request): (m: Request) {
    Entry(r.key, Client(MOVED, r.value.kind, r.value.batch))
  }

  // ----- Any sequence of inserts -----

  /** The pool is a sorted permutation of what was inserted, every entry still naming its own batch. */
  lemma PoolIsSortedPermutation(requests: seq<Request>, batch: nat)
    requires OwnedBy(requests, batch)
    ensures Sorted(PutAll(requests))
    ensures multiset(PutAll(requests)) == multiset(requests)
    ensures OwnedBy(PutAll(requests), batch)
  {
    PutAllSorted(requests);
    var c := PutAll(requests);
    forall j | 0 <= j < |c| ensures c[j].value.batch == batch {
      assert c[j] in multiset(c);
      assert c[j] in requests;
    }
  }
}
