// The main thread: each request of a network batch is answered from the memtable, passed on to the SSTables,
// or written; a full memtable is compacted first.
module FrontEnd {
  import opened Entries
  import opened SortedInsert
  import opened MemTable
  import opened RequestPool
  import opened Multisets
  import opened CompactionPlacement
  import opened NewestWins
  import opened LatestReads

  /** A client request with its value field; the field of a read is filled in by whoever finds the key. */
  datatype Req = Req(key: Key, value: Value, kind: Kind, sock: int)

  // ----- What the writes amount to -----

  /** The writes of the memtables compacted so far, each in order, and those since the last compaction. */
  datatype Front = Front(epochs: seq<seq<Entry>>, recent: seq<Entry>)

  ghost function History(f: Front): (writes: seq<Entry>) {
    Flatten(f.epochs) + f.recent
  }

  function AfterWrite(f: Front, e: Entry, capacity: nat): (f': Front) {
    if |f.recent| < capacity then Front(f.epochs, f.recent + [e]) else Front(f.epochs + [f.recent], [e])
  }

  predicate IsWrite(r: Req) {
    r.key != NULL_KEY && r.kind.WRITE?
  }

  function AfterRequest(f: Front, r: Req, capacity: nat): (f': Front) {
    if IsWrite(r) then AfterWrite(f, Entry(r.key, r.value), capacity) else f
  }

  function AfterBatch(f: Front, batch: seq<Req>, n: nat, capacity: nat): (f': Front)
    requires n <= |batch|
  {
    if n == 0 then f
    else AfterRequest(AfterBatch(f, batch, n - 1, capacity), batch[n - 1], capacity)
  }

  function WritesOf(batch: seq<Req>, n: nat): (writes: seq<Entry>)
    requires n <= |batch|
  {
    if n == 0 then []
    else
      var before, r := WritesOf(batch, n - 1), batch[n - 1];
      if IsWrite(r) then before + [Entry(r.key, r.value)] else before
  }

  lemma AfterWriteHistory(f: Front, e: Entry, capacity: nat)
    ensures History(AfterWrite(f, e, capacity)) == History(f) + [e]
  {
    if |f.recent| < capacity {
      assert Flatten(f.epochs) + (f.recent + [e]) == (Flatten(f.epochs) + f.recent) + [e];
    } else {
      assert (f.epochs + [f.recent])[..|f.epochs|] == f.epochs;
    }
  }

  /** Compactions only cut the history into pieces: no write is lost, doubled or reordered. */
  lemma {:induction false} BatchHistory(f: Front, batch: seq<Req>, n: nat, capacity: nat)
    requires n <= |batch|
    ensures History(AfterBatch(f, batch, n, capacity)) == History(f) + WritesOf(batch, n)
  {
    if n == 0 {
      assert History(f) + [] == History(f);
    } else {
      BatchHistory(f, batch, n - 1, capacity);
      var before, r := AfterBatch(f, batch, n - 1, capacity), batch[n - 1];
      if IsWrite(r) {
        var e := Entry(r.key, r.value);
        AfterWriteHistory(before, e, capacity);
        assert (History(f) + WritesOf(batch, n - 1)) + [e] == History(f) + (WritesOf(batch, n - 1) + [e]);
      }
    }
  }

  /** Only full memtables are compacted, and only when the next write comes. */
  ghost predicate FullEpochs(f: Front, capacity: nat) {
    && |f.recent| <= capacity && (f.recent == [] ==> f.epochs == [])
    && forall n :: 0 <= n < |f.epochs| ==> |f.epochs[n]| == capacity
  }

  /** Request i is the last of the first n that writes the key. */
  predicate WritesLast(batch: seq<Req>, n: nat, key: Key, i: nat) {
    && i < n <= |batch| && batch[i].kind == WRITE && batch[i].key == key
    && NoWrite(batch, i + 1, n, key)
  }

  predicate NoWrite(batch: seq<Req>, lo: nat, hi: nat, key: Key)
    requires hi <= |batch|
  {
    forall j :: lo <= j < hi ==> !(batch[j].kind == WRITE && batch[j].key == key)
  }

  /** After a batch a key has the value of its last write in the batch, and without one the value it had. */
  lemma {:induction false} BatchLeavesLastValue(f: Front, batch: seq<Req>, n: nat, capacity: nat, key: Key)
    requires n <= |batch| && key != NULL_KEY
    ensures var after := LastWrite(History(AfterBatch(f, batch, n, capacity)), key);
            && (forall i: nat :: WritesLast(batch, n, key, i) ==> after == Some(batch[i].value))
            && (NoWrite(batch, 0, n, key) ==> after == LastWrite(History(f), key))
  {
    if n > 0 {
      var before, r := AfterBatch(f, batch, n - 1, capacity), batch[n - 1];
      BatchLeavesLastValue(f, batch, n - 1, capacity, key);
      RequestLeavesLastValue(before, r, capacity, key);
      if r.kind == WRITE && r.key == key {
        assert forall i: nat :: WritesLast(batch, n, key, i) ==> i == n - 1;
      } else {
        forall i: nat | WritesLast(batch, n, key, i) ensures WritesLast(batch, n - 1, key, i) {
        }
      }
    }
  }

  lemma RequestLeavesLastValue(f: Front, r: Req, capacity: nat, key: Key)
    requires key != NULL_KEY
    ensures LastWrite(History(AfterRequest(f, r, capacity)), key) ==
            if r.kind == WRITE && r.key == key then Some(r.value) else LastWrite(History(f), key)
  {
    if r.kind == WRITE && r.key != NULL_KEY {
      var e := Entry(r.key, r.value);
      AfterWriteHistory(f, e, capacity);
      assert (History(f) + [e])[..|History(f)|] == History(f);
    }
  }

  /** The null key is never written. */
  lemma {:induction false} NullKeyNeverWritten(f: Front, batch: seq<Req>, n: nat, capacity: nat)
    requires n <= |batch|
    ensures LastWrite(History(AfterBatch(f, batch, n, capacity)), NULL_KEY) == LastWrite(History(f), NULL_KEY)
  {
    if n > 0 {
      var before, r := AfterBatch(f, batch, n - 1, capacity), batch[n - 1];
      NullKeyNeverWritten(f, batch, n - 1, capacity);
      if r.kind == WRITE && r.key != NULL_KEY {
        var e := Entry(r.key, r.value);
        AfterWriteHistory(before, e, capacity);
        assert (History(before) + [e])[..|History(before)|] == History(before);
      }
    }
  }

  // ----- What a request gets -----

  /** A read the memtable cannot answer is passed on to the SSTables. */
  predicate GoesOn(f: Front, r: Req) {
    r.key != NULL_KEY && r.kind.READ? && LastWrite(f.recent, r.key).None?
  }

  /** The request as the batch keeps it: blanked, answered, marked as moved, or unchanged. */
  function Handled(f: Front, r: Req): (r': Req) {
    if r.key == NULL_KEY then Req(NULL_KEY, 0, r.kind, r.sock)
    else if r.kind.WRITE? then r
    else if GoesOn(f, r) then r.(sock := MOVED)
    else r.(value := LastWrite(f.recent, r.key).value)
  }

  /** A read answered by the memtable gets the last value written in the whole history of the database. */
  lemma MemtableAnswerIsNewest(f: Front, r: Req)
    requires r.key != NULL_KEY && r.kind.READ? && r.sock != MOVED
    ensures Handled(f, r).sock != MOVED ==> LastWrite(History(f), r.key) == Some(Handled(f, r).value)
    ensures Handled(f, r).sock == MOVED ==>
              LastWrite(History(f), r.key) == LastWrite(Flatten(f.epochs), r.key) && Handled(f, r).value == r.value
  {
    LastWriteConcat(Flatten(f.epochs), f.recent, r.key);
  }

  /** The answer to a read: the batch keeps it, or it is what the SSTables give. */
  function Answer(f: Front, r: Req, tree: Option<Value>): (answer: Option<Value>) {
    var kept := Handled(f, r);
    if kept.sock == MOVED then tree else Some(kept.value)
  }

  /**
   * Memtable and SSTables together, when every compaction has landed, for any recorded ranges and any order of
   * answers within a level: every read gets the last write of the whole history exactly if the memtable answers it
   * or FilesAnswerLatest holds.
   */
  lemma EveryReadIsNewest(s: State, db: Store, f: Front, r: Req)
    requires Quiet(s, db, f.epochs)
    requires r.key != NULL_KEY && r.kind.READ? && r.sock != MOVED
    ensures (forall tree :: IsRead(s, db, r.key, tree) ==> Answer(f, r, tree) == LastWrite(History(f), r.key))
            <==> Handled(f, r).sock != MOVED || FilesAnswerLatest(db, f.epochs, s.factor, r.key)
  {
    MemtableAnswerIsNewest(f, r);
    SSTablesReturnLastWrite(s, db, f.epochs, r.key);
  }

  class MainThread {
    const capacity: nat
    const table: Table
    var compactions: seq<seq<Entry>>
    ghost var front: Front

    ghost predicate Valid()
      reads this, table, table.data
    {
      && table.Valid() && table.data.Length == capacity > 0
      && FullEpochs(front, capacity)
      && table.Contents() == PutAll(front.recent)
      && |compactions| == |front.epochs|
      && forall n :: 0 <= n < |compactions| ==> compactions[n] == PutAll(front.epochs[n])
    }

    constructor (capacity: nat)
      requires capacity > 0
      ensures Valid() && front == Front([], []) && this.capacity == capacity && fresh(table) && fresh(table.data)
    {
      this.capacity := capacity;
      table := new Table(capacity);
      compactions, front := [], Front([], []);
    }

    /** A write; a full memtable is compacted and emptied first. */
    method WriteOne(key: Key, value: Value)
      requires Valid()
      modifies this, table, table.data
      ensures Valid() && front == AfterWrite(old(front), Entry(key, value), capacity)
    {
      ghost var e := Entry(key, value);
      if table.size == capacity {
        compactions := compactions + [table.data[..table.size]];
        front := Front(front.epochs + [front.recent], []);
        table.EmptyOut();
      }
      table.Write(key, value);
      front := Front(front.epochs, front.recent + [e]);
      assert front.recent[..|front.recent| - 1] + [e] == front.recent;
    }

    method ReadOne(key: Key) returns (r: Option<Value>)
      requires Valid()
      ensures r == LastWrite(front.recent, key)
    {
      r := table.Read(key);
      LastWriteWins(front.recent, key);
    }

    /** One request: what the batch keeps of it, and whether it is inserted into the read batch. */
    method DispatchOne(r: Req) returns (kept: Req, goesOn: bool)
      requires Valid()
      modifies this, table, table.data
      ensures Valid() && front == AfterRequest(old(front), r, capacity)
      ensures kept == Handled(old(front), r) && goesOn == GoesOn(old(front), r)
    {
      kept, goesOn := r, false;
      if r.key == NULL_KEY {
        kept := Req(NULL_KEY, 0, r.kind, r.sock);
      } else if r.kind.READ? {
        var hit := ReadOne(r.key);
        if hit.Some? {
          kept := r.(value := hit.value);
        } else {
          kept, goesOn := r.(sock := MOVED), true;
        }
      } else {
        WriteOne(r.key, r.value);
      }
    }

    /** The main thread's loop over one batch; `passed` are the reads inserted into the read batch. */
    method Dispatch(batch: seq<Req>) returns (out: seq<Req>, passed: seq<Req>)
      requires Valid()
      modifies this, table, table.data
      ensures Valid() && front == AfterBatch(old(front), batch, |batch|, capacity)
      ensures out == Kept(old(front), batch, |batch|, capacity)
      ensures passed == PassedOn(old(front), batch, |batch|, capacity)
      ensures forall key, i: nat :: key != NULL_KEY && WritesLast(batch, |batch|, key, i) ==>
        LastWrite(History(front), key) == Some(batch[i].value)
      ensures forall key :: key != NULL_KEY && NoWrite(batch, 0, |batch|, key) ==>
        LastWrite(History(front), key) == LastWrite(History(old(front)), key)
      ensures |out| == |batch| && forall i :: 0 <= i < |batch| ==> out[i].key == batch[i].key && out[i].kind == batch[i].kind
    {
      out, passed := [], [];
      for i := 0 to |batch|
        invariant Valid() && front == AfterBatch(old(front), batch, i, capacity)
        invariant out == Kept(old(front), batch, i, capacity)
        invariant passed == PassedOn(old(front), batch, i, capacity)
      {
        var kept, goesOn := DispatchOne(batch[i]);
        BatchUnfold(old(front), batch, i, capacity);
        out := out + [kept];
        if goesOn {
          passed := passed + [batch[i]];
        }
      }
      forall key | key != NULL_KEY ensures
        var after := LastWrite(History(front), key);
        && (forall i: nat :: WritesLast(batch, |batch|, key, i) ==> after == Some(batch[i].value))
        && (NoWrite(batch, 0, |batch|, key) ==> after == LastWrite(History(old(front)), key))
      {
        BatchLeavesLastValue(old(front), batch, |batch|, capacity, key);
      }
      forall i | 0 <= i < |batch| ensures out[i].key == batch[i].key && out[i].kind == batch[i].kind {
        KeptExactly(old(front), batch, |batch|, capacity, i);
      }
    }
  }

  lemma BatchUnfold(f: Front, batch: seq<Req>, n: nat, capacity: nat)
    requires n < |batch|
    ensures var before := AfterBatch(f, batch, n, capacity);
            && AfterBatch(f, batch, n + 1, capacity) == AfterRequest(before, batch[n], capacity)
            && Kept(f, batch, n + 1, capacity) == Kept(f, batch, n, capacity) + [Handled(before, batch[n])]
            && PassedOn(f, batch, n + 1, capacity) ==
                 PassedOn(f, batch, n, capacity) + if GoesOn(before, batch[n]) then [batch[n]] else []
  {
  }

  // ----- Every request is kept or passed on -----

  /** Those of the first n requests that are passed on. */
  function PassedOn(f: Front, batch: seq<Req>, n: nat, capacity: nat): (passed: seq<Req>)
    requires n <= |batch|
  {
    if n == 0 then []
    else
      var before, r := PassedOn(f, batch, n - 1, capacity), batch[n - 1];
      if GoesOn(AfterBatch(f, batch, n - 1, capacity), r) then before + [r] else before
  }

  /** The first n requests as the batch keeps them. */
  function Kept(f: Front, batch: seq<Req>, n: nat, capacity: nat): (out: seq<Req>)
    requires n <= |batch|
    ensures |out| == n
  {
    if n == 0 then []
    else Kept(f, batch, n - 1, capacity) + [Handled(AfterBatch(f, batch, n - 1, capacity), batch[n - 1])]
  }

  lemma {:induction false} KeptAt(f: Front, batch: seq<Req>, n: nat, capacity: nat, i: nat)
    requires i < n <= |batch|
    ensures Kept(f, batch, n, capacity)[i] == Handled(AfterBatch(f, batch, i, capacity), batch[i])
  {
    if i < n - 1 {
      KeptAt(f, batch, n - 1, capacity, i);
    }
  }

  /**
   * What the batch keeps of request i: the key and kind it came with, a write as it came, nothing under the null
   * key. A read that stays has the value of the last write of its key before it in the batch, or else of the
   * history before the batch; one that is passed on has its field untouched, and its key is not in the memtable.
   */
  lemma KeptExactly(f: Front, batch: seq<Req>, n: nat, capacity: nat, i: nat)
    requires i < n <= |batch|
    ensures var kept, r := Kept(f, batch, n, capacity)[i], batch[i];
            && kept.key == r.key && kept.kind == r.kind
            && (r.key == NULL_KEY ==> kept.value == 0 && kept.sock == r.sock)
            && (r.key != NULL_KEY && r.kind == WRITE ==> kept == r)
            && (r.key != NULL_KEY && r.kind == READ && r.sock != MOVED ==>
                  && (kept.sock == MOVED <==> LastWrite(AfterBatch(f, batch, i, capacity).recent, r.key).None?)
                  && (kept.sock == MOVED ==> kept.value == r.value)
                  && (kept.sock != MOVED ==> kept.sock == r.sock && AnsweredBefore(f, batch, i, kept.value)))
  {
    KeptAt(f, batch, n, capacity, i);
    var before, r := AfterBatch(f, batch, i, capacity), batch[i];
    if r.key != NULL_KEY && r.kind == READ && r.sock != MOVED {
      MemtableAnswerIsNewest(before, r);
      BatchLeavesLastValue(f, batch, i, capacity, r.key);
    }
  }

  /** The value is the last one written of the key of request i before it. */
  ghost predicate AnsweredBefore(f: Front, batch: seq<Req>, i: nat, value: Value)
    requires i < |batch|
  {
    var key := batch[i].key;
    && (forall j: nat :: WritesLast(batch, i, key, j) ==> value == batch[j].value)
    && (NoWrite(batch, 0, i, key) ==> LastWrite(History(f), key) == Some(value))
  }

  function MovedAmong(reqs: seq<Req>, n: nat): (count: nat)
    requires n <= |reqs|
  {
    if n == 0 then 0 else MovedAmong(reqs, n - 1) + if reqs[n - 1].sock == MOVED then 1 else 0
  }

  lemma {:induction false} MovedAmongPrefix(reqs: seq<Req>, more: seq<Req>, n: nat)
    requires n <= |reqs|
    ensures MovedAmong(reqs + more, n) == MovedAmong(reqs, n) <= n
  {
    if n > 0 {
      MovedAmongPrefix(reqs, more, n - 1);
    }
  }

  /** Exactly the requests marked in the batch are passed on, as they came and in their order. */
  ghost predicate PassedInOrder(batch: seq<Req>, kept: seq<Req>, passed: seq<Req>) {
    && |kept| <= |batch| && |passed| == MovedAmong(kept, |kept|)
    && forall i :: 0 <= i < |kept| && kept[i].sock == MOVED ==>
         MovedAmong(kept, i) < |passed| && passed[MovedAmong(kept, i)] == batch[i]
  }

  lemma {:induction false} PassedExactly(f: Front, batch: seq<Req>, n: nat, capacity: nat)
    requires n <= |batch| && forall i :: 0 <= i < |batch| ==> batch[i].sock != MOVED
    ensures PassedInOrder(batch, Kept(f, batch, n, capacity), PassedOn(f, batch, n, capacity))
  {
    if n > 0 {
      PassedExactly(f, batch, n - 1, capacity);
      PassedNext(f, batch, n - 1, capacity);
    }
  }

  lemma PassedNext(f: Front, batch: seq<Req>, n: nat, capacity: nat)
    requires n < |batch| && batch[n].sock != MOVED
    requires PassedInOrder(batch, Kept(f, batch, n, capacity), PassedOn(f, batch, n, capacity))
    ensures PassedInOrder(batch, Kept(f, batch, n + 1, capacity), PassedOn(f, batch, n + 1, capacity))
  {
    var before, r := AfterBatch(f, batch, n, capacity), batch[n];
    var kept, passed := Kept(f, batch, n, capacity), PassedOn(f, batch, n, capacity);
    BatchUnfold(f, batch, n, capacity);
    PassedOneMore(batch, kept, passed, Handled(before, r), GoesOn(before, r));
    assert passed + [] == passed;
  }

  lemma PassedOneMore(batch: seq<Req>, kept: seq<Req>, passed: seq<Req>, last: Req, goesOn: bool)
    requires PassedInOrder(batch, kept, passed) && |kept| < |batch| && (goesOn <==> last.sock == MOVED)
    ensures PassedInOrder(batch, kept + [last], if goesOn then passed + [batch[|kept|]] else passed)
  {
    forall i | 0 <= i <= |kept| ensures MovedAmong(kept + [last], i) == MovedAmong(kept, i) {
      MovedAmongPrefix(kept, [last], i);
    }
  }

  /** The sockets with a live entry. */
  function Sockets(reqs: seq<Req>): (m: multiset<int>) {
    if reqs == [] then multiset{}
    else
      var last := reqs[|reqs| - 1].sock;
      Sockets(reqs[..|reqs| - 1]) + if last != MOVED then multiset{last} else multiset{}
  }

  lemma SocketsAppend(reqs: seq<Req>, r: Req)
    ensures Sockets(reqs + [r]) == Sockets(reqs) + if r.sock != MOVED then multiset{r.sock} else multiset{}
  {
    assert (reqs + [r])[..|reqs|] == reqs;
  }

  /** No client is lost or doubled: each is still live in the batch, or in the read batch, never in both. */
  lemma {:induction false} DispatchKeepsClients(f: Front, batch: seq<Req>, n: nat, capacity: nat)
    requires n <= |batch| && forall i :: 0 <= i < |batch| ==> batch[i].sock != MOVED
    ensures Sockets(Kept(f, batch, n, capacity)) + Sockets(PassedOn(f, batch, n, capacity)) == Sockets(batch[..n])
  {
    for i := 0 to n
      invariant Accounted(f, batch, i, capacity)
    {
      AccountedStep(f, batch, i, capacity);
    }
  }

  ghost predicate Accounted(f: Front, batch: seq<Req>, n: nat, capacity: nat)
    requires n <= |batch|
  {
    Sockets(Kept(f, batch, n, capacity)) + Sockets(PassedOn(f, batch, n, capacity)) == Sockets(batch[..n])
  }

  lemma AccountedStep(f: Front, batch: seq<Req>, n: nat, capacity: nat)
    requires n < |batch| && batch[n].sock != MOVED && Accounted(f, batch, n, capacity)
    ensures Accounted(f, batch, n + 1, capacity)
  {
    assert batch[..n + 1] == batch[..n] + [batch[n]];
    ClientKeptOrPassed(Kept(f, batch, n, capacity), PassedOn(f, batch, n, capacity), batch[..n], batch[n],
                       AfterBatch(f, batch, n, capacity));
  }

  lemma ClientKeptOrPassed(kept: seq<Req>, passed: seq<Req>, all: seq<Req>, r: Req, f: Front)
    requires Sockets(kept) + Sockets(passed) == Sockets(all) && r.sock != MOVED
    ensures Sockets(kept + [Handled(f, r)]) + Sockets(if GoesOn(f, r) then passed + [r] else passed) == Sockets(all + [r])
  {
    SocketsAppend(kept, Handled(f, r));
    SocketsAppend(passed, r);
    SocketsAppend(all, r);
    Regroup(Sockets(kept), Sockets(passed), multiset{r.sock});
    Unit(Sockets(kept));
  }

  // ----- The order inside a batch -----

  lemma {:induction false} LastWritePut(c: seq<Entry>, e: Entry, key: Key)
    ensures LastWrite(Put(c, e), key) ==
            if LastWrite(c, key).Some? then LastWrite(c, key) else if e.key == key then Some(e.value) else None
    decreases |c|
  {
    LastWriteOne(e, key);
    if c != [] {
      assert c == [c[0]] + c[1..];
      LastWriteConcat([c[0]], c[1..], key);
      LastWriteOne(c[0], key);
      if c[0].key < e.key {
        LastWritePut(c[1..], e, key);
        LastWriteConcat([c[0]], Put(c[1..], e), key);
      } else {
        LastWriteConcat([e], c, key);
      }
    }
  }

  lemma LastWriteOne(e: Entry, key: Key)
    ensures LastWrite([e], key) == if e.key == key then Some(e.value) else None
  {
    assert [e][..0] == [];
    assert LastWrite([], key) == None;
  }

  lemma LookupAppend(writes: seq<Entry>, e: Entry, key: Key)
    ensures Lookup(writes + [e], key) ==
            if Lookup(writes, key).Some? then Lookup(writes, key) else if e.key == key then Some(e.value) else None
  {
    var n, all := |writes|, writes + [e];
    LookupInSplit(all, 0, n, n + 1, key);
    LookupSame(writes, e, 0, key);
  }

  lemma {:induction false} LookupSame(writes: seq<Entry>, e: Entry, lo: nat, key: Key)
    requires lo <= |writes|
    ensures LookupIn(writes + [e], lo, |writes|, key) == LookupIn(writes, lo, |writes|, key)
    decreases |writes| - lo
  {
    if lo < |writes| {
      LookupSame(writes, e, lo + 1, key);
    }
  }

  /**
   * A batch keeps its requests in key order, later arrivals ahead of earlier ones with the same key, and is
   * handled from the front. Of several writes of a key in one batch the first to arrive is handled last.
   */
  lemma {:induction false} FirstArrivalWins(arrivals: seq<Entry>, key: Key)
    ensures LastWrite(PutAll(arrivals), key) == Lookup(arrivals, key)
  {
    if arrivals != [] {
      var older, e := arrivals[..|arrivals| - 1], arrivals[|arrivals| - 1];
      FirstArrivalWins(older, key);
      LastWritePut(PutAll(older), e, key);
      assert arrivals == older + [e];
      LookupAppend(older, e, key);
    }
  }

  /**
   * So a batch has the effect of its writes in order of arrival exactly when, for every key, the first and
   * the last value that arrived are the same.
   */
  lemma BatchOrderHarmlessExactly(arrivals: seq<Entry>)
    ensures (forall key :: LastWrite(PutAll(arrivals), key) == LastWrite(arrivals, key))
            <==> (forall key :: Lookup(arrivals, key) == LastWrite(arrivals, key))
  {
    forall key ensures LastWrite(PutAll(arrivals), key) == Lookup(arrivals, key) {
      FirstArrivalWins(arrivals, key);
    }
  }

  /** Two writes of one key in one batch: the database keeps the older value. */
  lemma OlderWriteOfBatchSurvives(key: Key, old_: Value, new_: Value)
    requires old_ != new_
    ensures var arrivals := [Entry(key, old_), Entry(key, new_)];
            LastWrite(PutAll(arrivals), key) == Some(old_) && LastWrite(arrivals, key) == Some(new_)
  {
    FirstArrivalWins([Entry(key, old_), Entry(key, new_)], key);
  }
}
