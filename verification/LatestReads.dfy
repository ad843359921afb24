// The memtable in front of the SSTables: when a client's read returns the last value written.
module LatestReads {
  import opened Entries
  import opened SSTableTree
  import opened SortedInsert
  import opened MemTable
  import opened LevelRouting
  import opened CompactionPlacement
  import opened NewestWins

  function Flatten(epochs: seq<seq<Entry>>): (writes: seq<Entry>) {
    if epochs == [] then [] else Flatten(epochs[..|epochs| - 1]) + epochs[|epochs| - 1]
  }

  /** The last write of a key over whole memtables is in the latest one that has it. */
  lemma {:induction false} LastWriteIsInLatestEpoch(epochs: seq<seq<Entry>>, key: Key) returns (n: nat)
    ensures n <= |epochs|
    ensures n == |epochs| ==> LastWrite(Flatten(epochs), key) == None
    ensures n == |epochs| ==> forall m :: 0 <= m < |epochs| ==> LastWrite(epochs[m], key) == None
    ensures n < |epochs| ==>
      && LastWrite(epochs[n], key).Some?
      && LastWrite(Flatten(epochs), key) == LastWrite(epochs[n], key)
      && forall m :: n < m < |epochs| ==> LastWrite(epochs[m], key) == None
  {
    if epochs == [] {
      n := 0;
    } else {
      var older, last := epochs[..|epochs| - 1], epochs[|epochs| - 1];
      LastWriteConcat(Flatten(older), last, key);
      if LastWrite(last, key).Some? {
        n := |epochs| - 1;
      } else {
        var k := LastWriteIsInLatestEpoch(older, key);
        n := if k < |older| then k else |epochs|;
        assert forall m :: 0 <= m < |older| ==> epochs[m] == older[m];
      }
    }
  }

  /** The compactions are the memtables that filled up, each built by its own writes. */
  ghost predicate BuiltBy(db: Store, epochs: seq<seq<Entry>>) {
    |epochs| == |db.history| && forall n :: 0 <= n < |epochs| ==> db.history[n] == PutAll(epochs[n])
  }

  /** A client's answer: from the memtable, or else what the SSTables gave. */
  function ClientAnswer(recent: seq<Entry>, key: Key, r: Option<Value>): (answer: Option<Value>) {
    var here := Lookup(PutAll(recent), key);
    if here.Some? then here else r
  }

  /**
   * The file made from these writes answers with the latest one: the first midpoint of the halving that meets
   * the key's versions is the newest of them, or has its value.
   */
  ghost predicate AnswersLatest(writes: seq<Entry>, key: Key) {
    var v, a := Versions(writes, key), Smaller(writes, key);
    v != [] && a + |v| <= |writes| ==> v[FirstMidpoint(Span(0, |writes|), a, a + |v|) - a] == v[0]
  }

  /** The version a descent meets, of the versions v of a key at positions a on in a table of n entries. */
  ghost function Met(v: seq<Value>, a: nat, n: nat): (r: Option<Value>) {
    if v == [] || a + |v| > n then None else Some(v[FirstMidpoint(Span(0, n), a, a + |v|) - a])
  }

  ghost function MetVersion(writes: seq<Entry>, key: Key): (r: Option<Value>) {
    Met(Versions(writes, key), Smaller(writes, key), |writes|)
  }

  lemma DescentMeetsVersion(table: seq<Entry>, capacity: nat, key: Key, a: nat, v: seq<Value>)
    requires Sorted(table) && NonNull(table) && Fits(|table|, capacity) && HoldsVersions(table, key, a, v)
    ensures Find(Layout(table, capacity), 0, key) == Met(v, a, |table|)
    ensures Contains(table, key) <==> v != []
  {
    RepeatedKeysExactly(table, capacity, key, a, a + |v|);
    if v != [] {
      assert table[a].key == key;
      var p := FirstMidpoint(Span(0, |table|), a, a + |v|);
      assert table[a + (p - a)].value == v[p - a];
    }
  }

  /** What a file answers, in terms of the writes that made it. */
  lemma FileAnswersVersion(db: Store, n: nat, writes: seq<Entry>, key: Key)
    requires StoreOk(db) && n < |db.history| && db.history[n] == PutAll(writes)
    ensures FileAnswer(db, n, key) == MetVersion(writes, key)
    ensures FileAnswer(db, n, key) == LastWrite(writes, key) <==> AnswersLatest(writes, key)
    ensures Contains(db.history[n], key) <==> LastWrite(writes, key).Some?
  {
    VersionsInTable(writes, key);
    DescentMeetsVersion(db.history[n], db.capacity, key, Smaller(writes, key), Versions(writes, key));
    MetIsLatestExactly(writes, key);
  }

  lemma MetIsLatestExactly(writes: seq<Entry>, key: Key)
    ensures MetVersion(writes, key) == LastWrite(writes, key) <==> AnswersLatest(writes, key)
  {
    VersionsInTable(writes, key);
  }

  /** One write of the key, or equal values throughout, is always answered right. */
  lemma OneVersionAnswersLatest(writes: seq<Entry>, key: Key)
    requires forall i :: 0 <= i < |Versions(writes, key)| ==> Versions(writes, key)[i] == Versions(writes, key)[0]
    ensures AnswersLatest(writes, key)
  {
  }

  /** The latest memtable that took a write of the key. */
  ghost predicate LatestEpoch(epochs: seq<seq<Entry>>, key: Key, n: nat) {
    && n < |epochs| && LastWrite(epochs[n], key).Some?
    && forall m :: n < m < |epochs| ==> LastWrite(epochs[m], key) == None
  }

  /** The file of a memtable that took a write of the key, and whose recorded range covers it. */
  ghost predicate Answering(db: Store, epochs: seq<seq<Entry>>, key: Key, n: nat) {
    n < |epochs| && n < |db.recorded| && LastWrite(epochs[n], key).Some? && db.recorded[n].Covers(key)
  }

  /** ... on the deepest level with such a file. */
  ghost predicate AnsweringDeepest(db: Store, epochs: seq<seq<Entry>>, factor: nat, key: Key, n: nat)
    requires factor > 0
  {
    Answering(db, epochs, key, n) && forall m: nat :: Answering(db, epochs, key, m) ==> m / factor <= n / factor
  }

  /**
   * The SSTables answer with the last write: the key was never written, or there are files that can answer, and
   * those on the deepest level all meet a version with the value of the last write.
   */
  ghost predicate FilesAnswerLatest(db: Store, epochs: seq<seq<Entry>>, factor: nat, key: Key)
    requires factor > 0
  {
    var latest := LastWrite(Flatten(epochs), key);
    || latest.None?
    || ((exists n: nat :: Answering(db, epochs, key, n))
        && forall m: nat :: AnsweringDeepest(db, epochs, factor, key, m) ==> MetVersion(epochs[m], key) == latest)
  }

  /** Every compaction has landed. */
  ghost predicate Quiet(s: State, db: Store, epochs: seq<seq<Entry>>) {
    && Consistent(s, db) && BuiltBy(db, epochs) && s.arrived == |epochs| <= Base(s.factor, |s.slots|)
    && forall l :: 0 <= l < |s.slots| ==> s.waiting[l] == []
  }

  lemma FoundIsAnswering(s: State, db: Store, epochs: seq<seq<Entry>>, key: Key, n: nat)
    requires Quiet(s, db, epochs)
    ensures Found(s, db, key, n) <==> Answering(db, epochs, key, n)
    ensures n < |epochs| ==> FileAnswer(db, n, key) == MetVersion(epochs[n], key)
  {
    if n < |epochs| {
      QuiescentAllLanded(s, n);
      FileAnswersVersion(db, n, epochs[n], key);
      AnswersExactly(db, n, key);
    }
  }

  lemma DeepestIsAnswering(s: State, db: Store, epochs: seq<seq<Entry>>, key: Key)
    requires Quiet(s, db, epochs)
    ensures forall n: nat ::
      Deepest(Still(s, db), db, s.factor, key, n) <==> AnsweringDeepest(db, epochs, s.factor, key, n)
    ensures forall n: nat :: Reached(Still(s, db), db, s.factor, key, n) <==> Answering(db, epochs, key, n)
  {
    FoundIsReached(s, db, key);
    forall n: nat ensures Found(s, db, key, n) <==> Answering(db, epochs, key, n) {
      FoundIsAnswering(s, db, epochs, key, n);
    }
  }

  lemma ReadExists(s: State, db: Store, key: Key) returns (r: Option<Value>)
    requires Consistent(s, db)
    ensures IsRead(s, db, key, r)
  {
    var hits := OutcomeOf(Still(s, db), db, s.factor, key, |s.slots|, None);
    r := LastHit(hits, |hits|);
  }

  /** If no file can answer, every read of the SSTables comes back empty. */
  lemma NoFileNoAnswer(s: State, db: Store, epochs: seq<seq<Entry>>, key: Key, r: Option<Value>)
    requires Quiet(s, db, epochs) && IsRead(s, db, key, r) && forall n: nat :: !Answering(db, epochs, key, n)
    ensures r == None
  {
    forall n: nat ensures !Found(s, db, key, n) {
      FoundIsAnswering(s, db, epochs, key, n);
    }
    NothingWhenNoHolder(s, db, key, r);
  }

  lemma {:induction false} DeepestAnswering(
    db: Store, epochs: seq<seq<Entry>>, factor: nat, key: Key, n: nat, hi: nat) returns (m: nat)
    requires factor > 0 && Answering(db, epochs, key, n) && n < hi <= |epochs|
    ensures m < hi && Answering(db, epochs, key, m) && forall k: nat :: m < k < hi ==> !Answering(db, epochs, key, k)
  {
    if n == hi - 1 || Answering(db, epochs, key, hi - 1) {
      m := hi - 1;
    } else {
      m := DeepestAnswering(db, epochs, factor, key, n, hi - 1);
    }
  }

  lemma LatestAnsweringIsDeepest(db: Store, epochs: seq<seq<Entry>>, factor: nat, key: Key, m: nat)
    requires factor > 0 && Answering(db, epochs, key, m)
    requires forall k: nat :: m < k < |epochs| ==> !Answering(db, epochs, key, k)
    ensures AnsweringDeepest(db, epochs, factor, key, m)
  {
    forall k: nat | Answering(db, epochs, key, k) ensures k / factor <= m / factor {
      QuotientOrder(factor, k, m);
    }
  }

  /** Whatever order the files answer in, the SSTables give the last write exactly under FilesAnswerLatest. */
  lemma SSTablesReturnLastWrite(s: State, db: Store, epochs: seq<seq<Entry>>, key: Key)
    requires Quiet(s, db, epochs)
    ensures (forall r :: IsRead(s, db, key, r) ==> r == LastWrite(Flatten(epochs), key))
            <==> FilesAnswerLatest(db, epochs, s.factor, key)
    ensures forall r :: IsRead(s, db, key, r) ==> (r.Some? <==> exists n: nat :: Answering(db, epochs, key, n))
  {
    var latest := LastWrite(Flatten(epochs), key);
    if n: nat :| Answering(db, epochs, key, n) {
      WithAnswers(s, db, epochs, key, n);
      NeverWritten(epochs, key, n);
    } else {
      forall r | IsRead(s, db, key, r) ensures r == None {
        NoFileNoAnswer(s, db, epochs, key, r);
      }
      var some := ReadExists(s, db, key);
    }
  }

  lemma NeverWritten(epochs: seq<seq<Entry>>, key: Key, n: nat)
    requires n < |epochs| && LastWrite(epochs[n], key).Some?
    ensures LastWrite(Flatten(epochs), key).Some?
  {
    var m := LastWriteIsInLatestEpoch(epochs, key);
  }

  lemma WithAnswers(s: State, db: Store, epochs: seq<seq<Entry>>, key: Key, n: nat)
    requires Quiet(s, db, epochs) && Answering(db, epochs, key, n)
    ensures forall r :: IsRead(s, db, key, r) ==> r.Some?
    ensures (forall r :: IsRead(s, db, key, r) ==> r == LastWrite(Flatten(epochs), key))
            <==> forall m: nat :: AnsweringDeepest(db, epochs, s.factor, key, m) ==>
                   MetVersion(epochs[m], key) == LastWrite(Flatten(epochs), key)
  {
    var states, latest := Still(s, db), LastWrite(Flatten(epochs), key);
    DeepestIsAnswering(s, db, epochs, key);
    var m := DeepestAnswering(db, epochs, s.factor, key, n, |epochs|);
    LatestAnsweringIsDeepest(db, epochs, s.factor, key, m);
    EveryOrderExactly(states, db, s.factor, key, m, latest);
    forall k: nat | k < |epochs| ensures FileAnswer(db, k, key) == MetVersion(epochs[k], key) {
      FoundIsAnswering(s, db, epochs, key, k);
    }
    ReadsAreOutcomes(s, db, key, latest);
    forall r | IsRead(s, db, key, r) ensures r.Some? {
      var hits :| IsOutcome(states, db, s.factor, key, hits) && r == LastHit(hits, |hits|);
      var k := ReadEndsOnDeepest(states, db, s.factor, key, hits, m);
    }
  }

  lemma ReadsAreOutcomes(s: State, db: Store, key: Key, value: Option<Value>)
    requires Consistent(s, db)
    ensures (forall r :: IsRead(s, db, key, r) ==> r == value)
            <==> forall hits :: IsOutcome(Still(s, db), db, s.factor, key, hits) ==> LastHit(hits, |hits|) == value
  {
    if forall r :: IsRead(s, db, key, r) ==> r == value {
      forall hits | IsOutcome(Still(s, db), db, s.factor, key, hits) ensures LastHit(hits, |hits|) == value {
        assert IsRead(s, db, key, LastHit(hits, |hits|));
      }
    }
  }

  /**
   * End to end, once every compaction has landed, for any recorded ranges and any order of answers within a
   * level: every client read returns the last value written over the whole history of the database exactly if
   * the memtable has the key or FilesAnswerLatest holds.
   */
  lemma ReadReturnsLastWrite(s: State, db: Store, epochs: seq<seq<Entry>>, recent: seq<Entry>, key: Key)
    requires Quiet(s, db, epochs)
    ensures (forall r :: IsRead(s, db, key, r) ==>
               ClientAnswer(recent, key, r) == LastWrite(Flatten(epochs) + recent, key))
            <==> LastWrite(recent, key).Some? || FilesAnswerLatest(db, epochs, s.factor, key)
  {
    LastWriteWins(recent, key);
    LastWriteConcat(Flatten(epochs), recent, key);
    SSTablesReturnLastWrite(s, db, epochs, key);
    forall r ensures ClientAnswer(recent, key, r) == if LastWrite(recent, key).Some? then LastWrite(recent, key) else r {
    }
  }

  // ----- The recorded ranges -----

  /** As designed: a flushed table's range is recorded. */
  ghost predicate RangesRecorded(db: Store) {
    && |db.recorded| == |db.history|
    && forall n :: 0 <= n < |db.history| && db.history[n] != [] ==>
         db.recorded[n] == Range(db.history[n][0].key, db.history[n][|db.history[n]| - 1].key)
  }

  lemma RecordedCovers(db: Store, n: nat, key: Key)
    requires StoreOk(db) && RangesRecorded(db) && n < |db.history| && Contains(db.history[n], key)
    ensures db.recorded[n].Covers(key)
  {
    var t := db.history[n];
    var j :| 0 <= j < |t| && t[j].key == key;
    assert t[0].key <= t[j].key <= t[|t| - 1].key;
  }

  /**
   * With recorded ranges every file that took a write of the key can answer, so a key that was ever written is
   * found; and with ranges disjoint within each level only the latest such file matters.
   */
  lemma RecordedRangesReadLatest(s: State, db: Store, epochs: seq<seq<Entry>>, key: Key)
    requires Quiet(s, db, epochs) && RangesRecorded(db)
    ensures forall r :: IsRead(s, db, key, r) ==> (r.Some? <==> LastWrite(Flatten(epochs), key).Some?)
    ensures LevelsDisjoint(s, db) ==>
              (FilesAnswerLatest(db, epochs, s.factor, key)
               <==> forall n: nat :: LatestEpoch(epochs, key, n) ==> AnswersLatest(epochs[n], key))
  {
    SSTablesReturnLastWrite(s, db, epochs, key);
    var n := LastWriteIsInLatestEpoch(epochs, key);
    if n < |epochs| {
      WrittenIsAnswering(s, db, epochs, key, n);
      if LevelsDisjoint(s, db) {
        OnlyLatestIsDeepest(s, db, epochs, key, n);
        OneDeepest(db, epochs, s.factor, key, n);
      }
    }
  }

  lemma OneDeepest(db: Store, epochs: seq<seq<Entry>>, factor: nat, key: Key, n: nat)
    requires factor > 0 && LatestEpoch(epochs, key, n) && AnsweringDeepest(db, epochs, factor, key, n)
    requires forall m: nat :: AnsweringDeepest(db, epochs, factor, key, m) ==> m == n
    requires LastWrite(Flatten(epochs), key) == LastWrite(epochs[n], key)
    ensures FilesAnswerLatest(db, epochs, factor, key)
            <==> forall m: nat :: LatestEpoch(epochs, key, m) ==> AnswersLatest(epochs[m], key)
  {
    MetIsLatestExactly(epochs[n], key);
    forall m: nat | LatestEpoch(epochs, key, m) ensures m == n {
    }
  }

  lemma WrittenIsAnswering(s: State, db: Store, epochs: seq<seq<Entry>>, key: Key, n: nat)
    requires Quiet(s, db, epochs) && RangesRecorded(db) && n < |epochs| && LastWrite(epochs[n], key).Some?
    ensures Answering(db, epochs, key, n)
  {
    FileAnswersVersion(db, n, epochs[n], key);
    RecordedCovers(db, n, key);
  }

  lemma OnlyLatestIsDeepest(s: State, db: Store, epochs: seq<seq<Entry>>, key: Key, n: nat)
    requires Quiet(s, db, epochs) && LevelsDisjoint(s, db) && Answering(db, epochs, key, n)
    requires forall m :: n < m < |epochs| ==> LastWrite(epochs[m], key) == None
    ensures AnsweringDeepest(db, epochs, s.factor, key, n)
    ensures forall m: nat :: AnsweringDeepest(db, epochs, s.factor, key, m) ==> m == n
  {
    LatestAnsweringIsDeepest(db, epochs, s.factor, key, n);
    DeepestIsAnswering(s, db, epochs, key);
    StillDisjoint(s, db);
    forall m: nat | AnsweringDeepest(db, epochs, s.factor, key, m) ensures m == n {
      OneAnswerPerLevel(Still(s, db), db, s.factor, key, m, n);
    }
  }

  /** The range of a file that was empty at start-up, and the one an index starts with. */
  function StartUpRange(greatest: Key): (r: Range) {
    Range(greatest, NULL_KEY)
  }

  const ZERO_RANGE := Range(NULL_KEY, NULL_KEY)

  /**
   * As written, nothing records the range of a table that is flushed while the database is up: the sparse index
   * keeps the range of the empty file. No such range covers a key, so from an empty database every read of the
   * SSTables comes back empty, and a client gets the last write exactly if the memtable has the key or no
   * compacted memtable ever took it.
   */
  lemma UnrecordedRangesReadNothing(
    s: State, db: Store, epochs: seq<seq<Entry>>, recent: seq<Entry>, key: Key, greatest: Key)
    requires Quiet(s, db, epochs) && key != NULL_KEY && greatest != NULL_KEY
    requires forall n :: 0 <= n < |db.recorded| ==> db.recorded[n] == StartUpRange(greatest) || db.recorded[n] == ZERO_RANGE
    ensures forall r :: IsRead(s, db, key, r) ==> r == None
    ensures (forall r :: IsRead(s, db, key, r) ==>
               ClientAnswer(recent, key, r) == LastWrite(Flatten(epochs) + recent, key))
            <==> LastWrite(recent, key).Some? || forall n :: 0 <= n < |epochs| ==> LastWrite(epochs[n], key) == None
  {
    forall r | IsRead(s, db, key, r) ensures r == None {
      NoFileNoAnswer(s, db, epochs, key, r);
    }
    ReadReturnsLastWrite(s, db, epochs, recent, key);
    NeverWrittenExactly(db, epochs, s.factor, key);
  }

  lemma NeverWrittenExactly(db: Store, epochs: seq<seq<Entry>>, factor: nat, key: Key)
    requires factor > 0 && forall n: nat :: !Answering(db, epochs, key, n)
    ensures FilesAnswerLatest(db, epochs, factor, key)
            <==> forall n :: 0 <= n < |epochs| ==> LastWrite(epochs[n], key) == None
  {
    var n := LastWriteIsInLatestEpoch(epochs, key);
  }

  // ----- Every run -----

  /**
   * The same from the empty database, for every run of compactions and any interleaving of the threads
   * that pass them on, when nothing is waiting any more.
   */
  lemma EveryRunReadsLastWrite(
    factor: nat, levels: nat, steps: seq<Step>, db: Store, epochs: seq<seq<Entry>>, recent: seq<Entry>, key: Key)
    requires factor > 0 && levels > 0 && IsRun(Init(factor, levels), steps) && StoreOk(db) && BuiltBy(db, epochs)
    ensures var s := Final(Init(factor, levels), steps);
            s.arrived == |epochs| <= factor * levels && |s.waiting| == levels
            && (forall l :: 0 <= l < levels ==> s.waiting[l] == []) ==>
              && Quiet(s, db, epochs) && s.factor == factor
              && ((forall r :: IsRead(s, db, key, r) ==>
                     ClientAnswer(recent, key, r) == LastWrite(Flatten(epochs) + recent, key))
                  <==> LastWrite(recent, key).Some? || FilesAnswerLatest(db, epochs, factor, key))
  {
    var s := Final(Init(factor, levels), steps);
    InitInv(factor, levels);
    RunKeepsInv(Init(factor, levels), steps);
    ShapeKept(Init(factor, levels), steps);
    BaseIsProduct(factor, levels);
    if Quiet(s, db, epochs) {
      ReadReturnsLastWrite(s, db, epochs, recent, key);
    }
  }
}
