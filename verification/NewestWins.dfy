// A read visits the levels in order and copies the value on every hit. What it ends with, whatever key ranges
// are recorded for the SSTables and in whatever order those of one level answer, and when that is the last write.
module NewestWins {
  import opened Entries
  import opened Products
  import opened SSTableTree
  import Bloom = BloomFilter
  import opened RequestPool
  import opened LevelRouting
  import opened CompactionPlacement

  /**
   * Everything a read depends on besides the placement, by compaction number: the contents, the key range
   * recorded in the sparse index, and the filters.
   */
  datatype Store = Store(
    history: seq<seq<Entry>>, recorded: seq<Range>, capacity: nat, hash: Key -> seq<nat>, bits: nat)

  ghost predicate StoreOk(db: Store) {
    && db.bits > 0 && |db.recorded| == |db.history|
    && forall n :: 0 <= n < |db.history| ==>
         && db.history[n] != [] && Sorted(db.history[n]) && NonNull(db.history[n])
         && Fits(|db.history[n]|, db.capacity)
  }

  /** The keys of a table go into its filter one by one. */
  ghost function FilterOf(table: seq<Entry>): (h: Bloom.History) {
    if table == [] then Bloom.Empty
    else Bloom.After(Bloom.AddKey(table[|table| - 1].key), FilterOf(table[..|table| - 1]))
  }

  lemma {:induction false} FilterHasKeys(table: seq<Entry>, i: nat)
    requires i < |table|
    ensures Bloom.Inserted(FilterOf(table), table[i].key)
  {
    if i < |table| - 1 {
      FilterHasKeys(table[..|table| - 1], i);
    }
  }

  ghost predicate MaybeHolds(db: Store, n: nat, key: Key)
    requires StoreOk(db) && n < |db.history|
  {
    Bloom.Positive(Bloom.Bits(FilterOf(db.history[n]), db.hash, db.bits), key, db.hash, db.bits)
  }

  /** What the file of compaction n answers. */
  ghost function FileAnswer(db: Store, n: nat, key: Key): (r: Option<Value>)
    requires n < |db.history|
  {
    Find(Layout(db.history[n], db.capacity), 0, key)
  }

  // ----- Which files a read searches -----

  /** The recorded range and the filter let the read into the file. */
  ghost predicate Searched(db: Store, n: nat, key: Key)
    requires StoreOk(db) && n < |db.history|
  {
    db.recorded[n].Covers(key) && MaybeHolds(db, n, key)
  }

  /** The file is searched and has an answer. */
  ghost predicate Answers(db: Store, n: nat, key: Key)
    requires StoreOk(db) && n < |db.history|
  {
    Searched(db, n, key) && FileAnswer(db, n, key).Some?
  }

  lemma HolderIsAdmitted(db: Store, n: nat, key: Key)
    requires StoreOk(db) && n < |db.history| && Contains(db.history[n], key)
    ensures MaybeHolds(db, n, key)
  {
    var t := db.history[n];
    var j :| 0 <= j < |t| && t[j].key == key;
    FilterHasKeys(t, j);
    Bloom.NoFalseNegatives(FilterOf(t), key, db.hash, db.bits);
  }

  /** A file that holds the key is searched, and answers, exactly when its recorded range covers the key. */
  lemma AnswersExactly(db: Store, n: nat, key: Key)
    requires StoreOk(db) && n < |db.history|
    ensures Answers(db, n, key) <==> Contains(db.history[n], key) && db.recorded[n].Covers(key)
    ensures Contains(db.history[n], key) ==> (Searched(db, n, key) <==> db.recorded[n].Covers(key))
  {
    FindWithRepeatedKeys(db.history[n], db.capacity, key);
    if Contains(db.history[n], key) {
      HolderIsAdmitted(db, n, key);
    }
  }

  // ----- One level -----

  /** The SSTables of level l that are filled, from the left. */
  function Filled(s: State, l: nat): (count: nat)
    requires l < |s.slots|
  {
    FirstEmpty(s.slots[l], 0)
  }

  ghost predicate Consistent(s: State, db: Store) {
    Inv(s) && StoreOk(db) && s.arrived <= |db.history|
  }

  lemma FilledNumbers(s: State, db: Store, l: nat, i: nat)
    requires Consistent(s, db) && l < |s.slots| && i < s.factor
    ensures s.slots[l][i].Some? <==> i < Filled(s, l)
    ensures i < Filled(s, l) ==> s.slots[l][i] == Some(Base(s.factor, l) + i) && Base(s.factor, l) + i < |db.history|
  {
    assert LevelOk(s, l);
    FirstEmptyIsTaken(s, l);
    GivenBounded(s, l);
  }

  /** The number of the compaction in SSTable i of level l. */
  function Number(s: State, l: nat, i: nat): (n: nat) {
    Base(s.factor, l) + i
  }

  /** The sparse index and the filters of a level. */
  ghost function LevelView(s: State, db: Store, l: nat): (view: Level)
    requires Consistent(s, db) && l < |s.slots|
    ensures |view.ranges| == Filled(s, l)
  {
    Level(
      seq(Filled(s, l), i requires 0 <= i < Filled(s, l) =>
        FilledNumbers(s, db, l, i); db.recorded[Number(s, l, i)]),
      (i: nat, key: Key) => i < Filled(s, l) && Number(s, l, i) < |db.history| && MaybeHolds(db, Number(s, l, i), key))
  }

  /** A decomposition puts a copy of a request into the part of exactly the files the read searches. */
  lemma SearchedIsAdmitted(s: State, db: Store, l: nat, i: nat, q: Request)
    requires Consistent(s, db) && l < |s.slots| && i < Filled(s, l)
    ensures Number(s, l, i) < |db.history|
    ensures var level := LevelView(s, db, l);
            Searched(db, Number(s, l, i), q.key) <==> AdmitsAs(level, q, i, Copy(level, q, i))
  {
    FilledNumbers(s, db, l, i);
  }

  /** SSTable i of level l is flushed, searched for the key, and has an answer. */
  ghost predicate HitAt(s: State, db: Store, key: Key, l: nat, i: nat)
    requires Consistent(s, db)
  {
    && l < |s.slots| && i < Filled(s, l) && Number(s, l, i) < |db.history|
    && Answers(db, Number(s, l, i), key)
  }

  /** Each hit of a level overwrites the field, in any order: one of the answers stays, or there is none. */
  ghost predicate IsHit(s: State, db: Store, key: Key, l: nat, hit: Option<Value>)
    requires Consistent(s, db)
  {
    if hit.None? then forall i: nat :: !HitAt(s, db, key, l, i)
    else exists i: nat :: HitAt(s, db, key, l, i) && hit == FileAnswer(db, Number(s, l, i), key)
  }

  // ----- All levels -----

  /** The states in which a read visits the levels, level l in states[l]. */
  ghost predicate Visits(states: seq<State>, db: Store, factor: nat) {
    && factor > 0
    && forall l :: 0 <= l < |states| ==>
         Consistent(states[l], db) && states[l].factor == factor && |states[l].slots| == |states|
  }

  /** What a value field ends with when every hit overwrites it. */
  function LastHit(hits: seq<Option<Value>>, n: nat): (r: Option<Value>)
    requires n <= |hits|
  {
    if n == 0 then None else if hits[n - 1].Some? then hits[n - 1] else LastHit(hits, n - 1)
  }

  lemma {:induction false} LastHitIs(hits: seq<Option<Value>>, home: nat, n: nat)
    requires home < n <= |hits| && hits[home].Some? && forall l :: home < l < n ==> hits[l] == None
    ensures LastHit(hits, n) == hits[home]
  {
    if home < n - 1 {
      LastHitIs(hits, home, n - 1);
    }
  }

  lemma {:induction false} NoHit(hits: seq<Option<Value>>, n: nat)
    requires n <= |hits| && forall l :: 0 <= l < n ==> hits[l] == None
    ensures LastHit(hits, n) == None
  {
    if n > 0 {
      NoHit(hits, n - 1);
    }
  }

  /** What the levels leave in the field, one after the other. */
  ghost predicate IsOutcome(states: seq<State>, db: Store, factor: nat, key: Key, hits: seq<Option<Value>>)
    requires Visits(states, db, factor)
  {
    |hits| == |states| && forall l :: 0 <= l < |states| ==> IsHit(states[l], db, key, l, hits[l])
  }

  /** Compaction n had been flushed when the read visited its level. */
  ghost predicate Seen(states: seq<State>, db: Store, factor: nat, n: nat)
    requires Visits(states, db, factor)
  {
    n / factor < |states| && Landed(states[n / factor], n)
  }

  /** ... and its file answered. */
  ghost predicate Reached(states: seq<State>, db: Store, factor: nat, key: Key, n: nat)
    requires Visits(states, db, factor)
  {
    n < |db.history| && Seen(states, db, factor, n) && StoreOk(db) && Answers(db, n, key)
  }

  /** The level of compaction n is the deepest with an answer. */
  ghost predicate Deepest(states: seq<State>, db: Store, factor: nat, key: Key, n: nat)
    requires Visits(states, db, factor)
  {
    Reached(states, db, factor, key, n) && forall m: nat :: Reached(states, db, factor, key, m) ==> m / factor <= n / factor
  }

  ghost predicate Landed(s: State, n: nat)
    requires Inv(s)
  {
    n / s.factor < |s.slots| && s.slots[n / s.factor][n % s.factor] == Some(n)
  }

  lemma ReachedIsHit(states: seq<State>, db: Store, factor: nat, key: Key, n: nat, l: nat)
    requires Visits(states, db, factor) && Reached(states, db, factor, key, n) && l == n / factor
    ensures HitAt(states[l], db, key, l, n % factor) && Number(states[l], l, n % factor) == n
  {
    FilledNumbers(states[l], db, l, n % factor);
  }

  lemma HitIsReached(states: seq<State>, db: Store, factor: nat, key: Key, l: nat, i: nat) returns (n: nat)
    requires Visits(states, db, factor) && l < |states| && HitAt(states[l], db, key, l, i)
    ensures n == Number(states[l], l, i) && n / factor == l && Reached(states, db, factor, key, n)
  {
    n := Number(states[l], l, i);
    FilledNumbers(states[l], db, l, i);
    BaseIsProduct(factor, l);
    LevelAndIndex(factor, l, i);
  }

  /** What a level leaves is the answer of a compaction reached on it, and nothing only if there is none. */
  lemma HitOfLevel(states: seq<State>, db: Store, factor: nat, key: Key, hits: seq<Option<Value>>, l: nat) returns (n: nat)
    requires Visits(states, db, factor) && IsOutcome(states, db, factor, key, hits) && l < |states|
    ensures hits[l].Some? ==> Reached(states, db, factor, key, n) && n / factor == l && hits[l] == FileAnswer(db, n, key)
    ensures hits[l].None? ==> forall m: nat :: Reached(states, db, factor, key, m) ==> m / factor != l
  {
    n := 0;
    assert IsHit(states[l], db, key, l, hits[l]);
    if hits[l].Some? {
      var i: nat :| HitAt(states[l], db, key, l, i) && hits[l] == FileAnswer(db, Number(states[l], l, i), key);
      n := HitIsReached(states, db, factor, key, l, i);
    } else {
      forall m: nat | Reached(states, db, factor, key, m) ensures m / factor != l {
        if m / factor == l {
          ReachedIsHit(states, db, factor, key, m, l);
        }
      }
    }
  }

  /** In whatever order the files of a level answer, a read ends with an answer from the deepest level with one. */
  lemma ReadEndsOnDeepest(states: seq<State>, db: Store, factor: nat, key: Key, hits: seq<Option<Value>>, n: nat)
    returns (m: nat)
    requires Visits(states, db, factor) && IsOutcome(states, db, factor, key, hits)
    requires Deepest(states, db, factor, key, n)
    ensures Deepest(states, db, factor, key, m) && m / factor == n / factor
    ensures LastHit(hits, |hits|) == FileAnswer(db, m, key) && FileAnswer(db, m, key).Some?
  {
    var home := n / factor;
    m := HitOfLevel(states, db, factor, key, hits, home);
    forall l | home < l < |hits| ensures hits[l] == None {
      var k := HitOfLevel(states, db, factor, key, hits, l);
    }
    LastHitIs(hits, home, |hits|);
  }

  /** A read to which no file answers leaves the field alone. */
  lemma ReadFindsNothing(states: seq<State>, db: Store, factor: nat, key: Key, hits: seq<Option<Value>>)
    requires Visits(states, db, factor) && IsOutcome(states, db, factor, key, hits)
    requires forall m: nat :: !Reached(states, db, factor, key, m)
    ensures LastHit(hits, |hits|) == None
  {
    forall l | 0 <= l < |hits| ensures hits[l] == None {
      var k := HitOfLevel(states, db, factor, key, hits, l);
    }
    NoHit(hits, |hits|);
  }

  ghost function SomeHit(s: State, db: Store, key: Key, l: nat): (hit: Option<Value>)
    requires Consistent(s, db)
    ensures IsHit(s, db, key, l, hit)
  {
    if exists i: nat :: HitAt(s, db, key, l, i) then
      var i: nat :| HitAt(s, db, key, l, i);
      AnswersExactly(db, Number(s, l, i), key);
      FileAnswer(db, Number(s, l, i), key)
    else None
  }

  /** Any compaction reached on the deepest level can have the last word, and some outcome always exists. */
  lemma OutcomeOf(states: seq<State>, db: Store, factor: nat, key: Key, home: nat, hit: Option<Value>)
    returns (hits: seq<Option<Value>>)
    requires Visits(states, db, factor) && (home < |states| ==> IsHit(states[home], db, key, home, hit))
    ensures IsOutcome(states, db, factor, key, hits) && (home < |states| ==> hits[home] == hit)
  {
    hits := seq(|states|, l requires 0 <= l < |states| => if l == home then hit else SomeHit(states[l], db, key, l));
  }

  lemma DeepestCanStay(states: seq<State>, db: Store, factor: nat, key: Key, m: nat) returns (hits: seq<Option<Value>>)
    requires Visits(states, db, factor) && Deepest(states, db, factor, key, m)
    ensures IsOutcome(states, db, factor, key, hits) && LastHit(hits, |hits|) == FileAnswer(db, m, key)
  {
    var home := m / factor;
    ReachedIsHit(states, db, factor, key, m, home);
    assert IsHit(states[home], db, key, home, FileAnswer(db, m, key));
    hits := OutcomeOf(states, db, factor, key, home, FileAnswer(db, m, key));
    forall l | home < l < |hits| ensures hits[l] == None {
      var k := HitOfLevel(states, db, factor, key, hits, l);
    }
    LastHitIs(hits, home, |hits|);
  }

  /**
   * In every order a read ends with one particular value exactly when all compactions reached on the deepest
   * level answer it; in particular with the answer of the newest one exactly when the others of its level
   * answer the same.
   */
  lemma EveryOrderExactly(states: seq<State>, db: Store, factor: nat, key: Key, n: nat, value: Option<Value>)
    requires Visits(states, db, factor) && Deepest(states, db, factor, key, n)
    ensures (forall hits :: IsOutcome(states, db, factor, key, hits) ==> LastHit(hits, |hits|) == value)
            <==> forall m: nat :: Deepest(states, db, factor, key, m) ==> FileAnswer(db, m, key) == value
  {
    if forall m: nat :: Deepest(states, db, factor, key, m) ==> FileAnswer(db, m, key) == value {
      forall hits | IsOutcome(states, db, factor, key, hits) ensures LastHit(hits, |hits|) == value {
        var m := ReadEndsOnDeepest(states, db, factor, key, hits, n);
      }
    }
    if forall hits :: IsOutcome(states, db, factor, key, hits) ==> LastHit(hits, |hits|) == value {
      forall m: nat | Deepest(states, db, factor, key, m) ensures FileAnswer(db, m, key) == value {
        var hits := DeepestCanStay(states, db, factor, key, m);
      }
    }
  }

  // ----- With disjoint ranges -----

  ghost predicate AllDisjoint(states: seq<State>, db: Store, factor: nat)
    requires Visits(states, db, factor)
  {
    forall l :: 0 <= l < |states| ==> Disjoint(LevelView(states[l], db, l).ranges)
  }

  /** Of the files of one level at most one can answer. */
  lemma OneAnswerPerLevel(states: seq<State>, db: Store, factor: nat, key: Key, m: nat, n: nat)
    requires Visits(states, db, factor) && AllDisjoint(states, db, factor) && m / factor == n / factor
    requires Reached(states, db, factor, key, m) && Reached(states, db, factor, key, n)
    ensures m == n
  {
    var l, i := PlaceOf(states, db, factor, key, m);
    var l', j := PlaceOf(states, db, factor, key, n);
    OneNumber(states[l], db, l, key, i, j, m, n);
  }

  lemma PlaceOf(states: seq<State>, db: Store, factor: nat, key: Key, n: nat) returns (l: nat, i: nat)
    requires Visits(states, db, factor) && Reached(states, db, factor, key, n)
    ensures l == n / factor && l < |states| && HitAt(states[l], db, key, l, i) && n == Number(states[l], l, i)
  {
    l, i := n / factor, n % factor;
    ReachedIsHit(states, db, factor, key, n, l);
  }

  lemma OneNumber(s: State, db: Store, l: nat, key: Key, i: nat, j: nat, m: nat, n: nat)
    requires Consistent(s, db) && l < |s.slots| && Disjoint(LevelView(s, db, l).ranges)
    requires HitAt(s, db, key, l, i) && HitAt(s, db, key, l, j) && m == Number(s, l, i) && n == Number(s, l, j)
    ensures m == n
  {
    SameCover(s, db, l, key, i, j);
  }

  lemma SameCover(s: State, db: Store, l: nat, key: Key, i: nat, j: nat)
    requires Consistent(s, db) && l < |s.slots| && Disjoint(LevelView(s, db, l).ranges)
    requires HitAt(s, db, key, l, i) && HitAt(s, db, key, l, j)
    ensures i == j
  {
    var ranges := LevelView(s, db, l).ranges;
    assert ranges[i].Covers(key) && ranges[j].Covers(key);
  }

  /** The newest compaction that answers, given one. */
  lemma {:induction false} NewestReached(states: seq<State>, db: Store, factor: nat, key: Key, n: nat, hi: nat)
    returns (m: nat)
    requires Visits(states, db, factor) && n < hi <= |db.history| && Reached(states, db, factor, key, n)
    ensures n <= m < hi && Reached(states, db, factor, key, m)
    ensures forall k: nat :: m < k < hi ==> !Reached(states, db, factor, key, k)
  {
    if n == hi - 1 || Reached(states, db, factor, key, hi - 1) {
      m := hi - 1;
    } else {
      m := NewestReached(states, db, factor, key, n, hi - 1);
    }
  }

  lemma NewestIsDeepest(states: seq<State>, db: Store, factor: nat, key: Key, n: nat)
    requires Visits(states, db, factor) && Reached(states, db, factor, key, n)
    requires forall m: nat :: n < m < |db.history| ==> !Reached(states, db, factor, key, m)
    ensures Deepest(states, db, factor, key, n)
  {
    forall m: nat | Reached(states, db, factor, key, m) ensures m / factor <= n / factor {
      QuotientOrder(factor, m, n);
    }
  }

  lemma QuotientOrder(factor: nat, m: nat, n: nat)
    requires factor > 0 && m <= n
    ensures m / factor <= n / factor
  {
    Quotient(m, factor);
    Quotient(n, factor);
    if n / factor < m / factor {
      ProductStep(factor, n / factor, m / factor);
    }
  }

  // ----- A read in one state -----

  ghost function Still(s: State, db: Store): (states: seq<State>)
    requires Consistent(s, db)
    ensures |states| == |s.slots| && Visits(states, db, s.factor)
  {
    seq(|s.slots|, _ => s)
  }

  lemma StillSees(s: State, db: Store)
    requires Consistent(s, db)
    ensures forall n: nat :: Seen(Still(s, db), db, s.factor, n) <==> Landed(s, n)
  {
    forall n: nat ensures Seen(Still(s, db), db, s.factor, n) <==> Landed(s, n) {
      StillSeesOne(s, db, n, n / s.factor);
    }
  }

  lemma StillSeesOne(s: State, db: Store, n: nat, l: nat)
    requires Consistent(s, db) && l == n / s.factor
    ensures Seen(Still(s, db), db, s.factor, n) <==> Landed(s, n)
  {
    if l < |s.slots| {
      assert Still(s, db)[l] == s;
    }
  }

  /** A read in state s can end with r. */
  ghost predicate IsRead(s: State, db: Store, key: Key, r: Option<Value>)
    requires Consistent(s, db)
  {
    exists hits :: IsOutcome(Still(s, db), db, s.factor, key, hits) && r == LastHit(hits, |hits|)
  }

  /** Compaction n is flushed and its file answers. */
  ghost predicate Found(s: State, db: Store, key: Key, n: nat)
    requires Consistent(s, db)
  {
    n < |db.history| && Landed(s, n) && Answers(db, n, key)
  }

  lemma FoundIsReached(s: State, db: Store, key: Key)
    requires Consistent(s, db)
    ensures forall n: nat :: Reached(Still(s, db), db, s.factor, key, n) <==> Found(s, db, key, n)
  {
    StillSees(s, db);
  }

  ghost predicate LevelsDisjoint(s: State, db: Store)
    requires Consistent(s, db)
  {
    forall l :: 0 <= l < |s.slots| ==> Disjoint(LevelView(s, db, l).ranges)
  }

  lemma StillDisjoint(s: State, db: Store)
    requires Consistent(s, db) && LevelsDisjoint(s, db)
    ensures AllDisjoint(Still(s, db), db, s.factor)
  {
    forall l | 0 <= l < |s.slots| ensures Disjoint(LevelView(Still(s, db)[l], db, l).ranges) {
      assert Still(s, db)[l] == s;
    }
  }

  /**
   * Newest wins: in every reachable placement whose recorded ranges are disjoint within each level, a read ends
   * with the answer of the flushed compaction with the greatest number that holds the key inside its range.
   */
  lemma NewestCompactionWins(s: State, db: Store, key: Key, n: nat, r: Option<Value>)
    requires Consistent(s, db) && LevelsDisjoint(s, db) && IsRead(s, db, key, r)
    requires Found(s, db, key, n) && forall m: nat :: n < m < |db.history| ==> !Found(s, db, key, m)
    ensures r == FileAnswer(db, n, key) && r.Some?
  {
    var states := Still(s, db);
    FoundIsReached(s, db, key);
    StillDisjoint(s, db);
    NewestIsDeepest(states, db, s.factor, key, n);
    var hits :| IsOutcome(states, db, s.factor, key, hits) && r == LastHit(hits, |hits|);
    var m := ReadEndsOnDeepest(states, db, s.factor, key, hits, n);
    OneAnswerPerLevel(states, db, s.factor, key, m, n);
  }

  /** If no flushed compaction holds the key inside its range, the request is left untouched. */
  lemma NothingWhenNoHolder(s: State, db: Store, key: Key, r: Option<Value>)
    requires Consistent(s, db) && IsRead(s, db, key, r) && forall m: nat :: !Found(s, db, key, m)
    ensures r == None
  {
    FoundIsReached(s, db, key);
    var hits :| IsOutcome(Still(s, db), db, s.factor, key, hits) && r == LastHit(hits, |hits|);
    ReadFindsNothing(Still(s, db), db, s.factor, key, hits);
  }

  // ----- A read while compactions go on -----

  /** Everything flushed in s is still where it was in t. */
  ghost predicate Grows(s: State, t: State)
    requires Inv(s) && Inv(t)
  {
    t.factor == s.factor && |t.slots| == |s.slots| && forall n: nat :: Landed(s, n) ==> Landed(t, n)
  }

  lemma StepOnlyGrows(s: State, step: Step, n: nat)
    requires Inv(s) && Enabled(s, step) && Landed(s, n)
    ensures Inv(Apply(s, step)) && Landed(Apply(s, step), n)
  {
    StepKeepsInv(s, step);
    StepFillsOnlyEmpty(s, step, n / s.factor, n % s.factor);
  }

  lemma RunOnlyGrows(s: State, steps: seq<Step>)
    requires Inv(s) && IsRun(s, steps)
    ensures Inv(Final(s, steps)) && Grows(s, Final(s, steps))
    decreases |steps|
  {
    RunKeepsInv(s, steps);
    ShapeKept(s, steps);
    forall n: nat | Landed(s, n) ensures Landed(Final(s, steps), n) {
      LandedStays(s, steps, n);
    }
  }

  lemma {:induction false} LandedStays(s: State, steps: seq<Step>, n: nat)
    requires Inv(s) && IsRun(s, steps) && Landed(s, n)
    ensures Inv(Final(s, steps)) && Landed(Final(s, steps), n)
    decreases |steps|
  {
    if steps != [] {
      StepOnlyGrows(s, steps[0], n);
      LandedStays(Apply(s, steps[0]), steps[1..], n);
    }
  }

  /** The read's visits happen one after the other. */
  ghost predicate InOrder(states: seq<State>, db: Store, factor: nat)
    requires Visits(states, db, factor)
  {
    forall a, b :: 0 <= a <= b < |states| ==> Grows(states[a], states[b])
  }

  /**
   * Never stale: a read that visits the levels while compactions land under it ends with the answer of a
   * compaction at least as deep as any that could answer when it began, and flushed by the time it ends; with
   * disjoint ranges, at least as new.
   */
  lemma InterleavedReadNotStale(
    states: seq<State>, db: Store, factor: nat, key: Key, n: nat, hits: seq<Option<Value>>) returns (m: nat)
    requires Visits(states, db, factor) && states != [] && InOrder(states, db, factor)
    requires IsOutcome(states, db, factor, key, hits)
    requires n < |db.history| && Landed(states[0], n) && Answers(db, n, key)
    ensures m < |db.history| && Landed(states[|states| - 1], m) && Answers(db, m, key)
    ensures m / factor >= n / factor && (AllDisjoint(states, db, factor) ==> m >= n)
    ensures LastHit(hits, |hits|) == FileAnswer(db, m, key) && FileAnswer(db, m, key).Some?
  {
    var last := |states| - 1;
    assert Grows(states[0], states[n / factor]);
    assert Reached(states, db, factor, key, n);
    var newest := NewestReached(states, db, factor, key, n, |db.history|);
    NewestIsDeepest(states, db, factor, key, newest);
    m := ReadEndsOnDeepest(states, db, factor, key, hits, newest);
    if AllDisjoint(states, db, factor) {
      OneAnswerPerLevel(states, db, factor, key, m, newest);
    }
    assert Grows(states[m / factor], states[last]);
  }
}
