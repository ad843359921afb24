// Where compacted memtables land: levels fill top down and left to right, whatever the interleaving of
// the threads that pass overflowing compactions on.
module CompactionPlacement {
  import opened Entries
  import opened Products

  /**
   * slots[l][i] is the number of the compaction flushed to SSTable i of level l; waiting[l] is the FIFO of
   * compactions on their way into level l (level 0 is fed by the main thread, level l + 1 by the wait queue
   * of the first SSTable of level l). taken[l] counts those level l has dealt with.
   */
  datatype State = State(
    factor: nat, arrived: nat, slots: seq<seq<Option<nat>>>, waiting: seq<seq<nat>>, taken: seq<nat>, dropped: seq<nat>)

  function Init(factor: nat, levels: nat): (s: State) {
    State(factor, 0, seq(levels, _ => seq(factor, _ => None)), seq(levels, _ => []), seq(levels, _ => 0), [])
  }

  datatype Step = Arrive | Advance(level: nat)

  ghost predicate WellFormed(s: State) {
    && s.factor > 0 && |s.slots| == |s.waiting| == |s.taken| > 0
    && forall l :: 0 <= l < |s.slots| ==> |s.slots[l]| == s.factor
  }

  /** The first SSTable of a level whose filter is still empty, or the number of SSTables. */
  function FirstEmpty(slots: seq<Option<nat>>, i: nat): (r: nat)
    requires i <= |slots|
    ensures i <= r <= |slots|
    ensures forall j :: i <= j < r ==> slots[j].Some?
    ensures r < |slots| ==> slots[r].None?
    decreases |slots| - i
  {
    if i == |slots| || slots[i].None? then i else FirstEmpty(slots, i + 1)
  }

  predicate Enabled(s: State, step: Step) {
    |s.slots| == |s.waiting| == |s.taken| > 0
    && match step
       case Arrive => true
       case Advance(l) => l < |s.waiting| && s.waiting[l] != []
  }

  /** A full memtable is compacted, or a level takes the next compaction from its queue. */
  function Apply(s: State, step: Step): (s': State)
    requires Enabled(s, step)
  {
    match step
    case Arrive => s.(arrived := s.arrived + 1, waiting := s.waiting[0 := s.waiting[0] + [s.arrived]])
    case Advance(l) =>
      var n := s.waiting[l][0];
      var e := FirstEmpty(s.slots[l], 0);
      var t := s.(waiting := s.waiting[l := s.waiting[l][1..]], taken := s.taken[l := s.taken[l] + 1]);
      if e < |s.slots[l]| then t.(slots := s.slots[l := s.slots[l][e := Some(n)]])
      else if l + 1 < |s.waiting| then t.(waiting := t.waiting[l + 1 := t.waiting[l + 1] + [n]])
      else t.(dropped := s.dropped + [n])
  }

  ghost predicate IsRun(s: State, steps: seq<Step>)
    decreases |steps|
  {
    steps == [] || (Enabled(s, steps[0]) && IsRun(Apply(s, steps[0]), steps[1..]))
  }

  ghost function Final(s: State, steps: seq<Step>): State
    requires IsRun(s, steps)
    decreases |steps|
  {
    if steps == [] then s else Final(Apply(s, steps[0]), steps[1..])
  }

  // ----- The invariant -----

  /** The number of the first SSTable of level l. */
  function Base(factor: nat, l: nat): (b: nat) {
    if l == 0 then 0 else Base(factor, l - 1) + factor
  }

  function Excess(taken: nat, factor: nat): (n: nat) {
    if taken <= factor then 0 else taken - factor
  }

  /** How many compactions level l has been given so far. */
  function Given(s: State, l: nat): (n: nat)
    requires l < |s.taken|
  {
    if l == 0 then s.arrived else Excess(s.taken[l - 1], s.factor)
  }

  ghost predicate LevelOk(s: State, l: nat)
    requires WellFormed(s) && l < |s.slots|
  {
    && (forall i :: 0 <= i < s.factor ==>
          s.slots[l][i] == if i < s.taken[l] then Some(Base(s.factor, l) + i) else None)
    && (forall j :: 0 <= j < |s.waiting[l]| ==> s.waiting[l][j] == Base(s.factor, l) + s.taken[l] + j)
    && s.taken[l] + |s.waiting[l]| == Given(s, l)
  }

  ghost predicate DropsOk(s: State)
    requires WellFormed(s)
  {
    var depth := |s.slots|;
    && |s.dropped| == Excess(s.taken[depth - 1], s.factor)
    && forall j :: 0 <= j < |s.dropped| ==> s.dropped[j] == Base(s.factor, depth) + j
  }

  ghost predicate Inv(s: State) {
    && WellFormed(s)
    && (forall l :: 0 <= l < |s.slots| ==> LevelOk(s, l))
    && DropsOk(s)
  }

  lemma InitInv(factor: nat, levels: nat)
    requires factor > 0 && levels > 0
    ensures Inv(Init(factor, levels))
  {
  }

  /** A level in order has its first empty SSTable right after the ones taken. */
  lemma FirstEmptyIsTaken(s: State, l: nat)
    requires WellFormed(s) && l < |s.slots| && LevelOk(s, l)
    ensures FirstEmpty(s.slots[l], 0) == if s.taken[l] < s.factor then s.taken[l] else s.factor
  {
    var e := FirstEmpty(s.slots[l], 0);
    if e < s.factor {
      assert s.slots[l][e].None?;
    }
    if s.taken[l] < s.factor {
      assert s.slots[l][s.taken[l]].None?;
    }
  }

  lemma ArriveKeepsInv(s: State)
    requires Inv(s)
    ensures Inv(Apply(s, Arrive))
  {
    var s' := Apply(s, Arrive);
    forall l | 0 <= l < |s'.slots| ensures LevelOk(s', l) {
      assert LevelOk(s, l);
    }
  }

  lemma AdvanceKeepsOwnLevel(s: State, l: nat)
    requires Inv(s) && Enabled(s, Advance(l))
    ensures WellFormed(Apply(s, Advance(l))) && LevelOk(Apply(s, Advance(l)), l)
  {
    assert LevelOk(s, l);
    FirstEmptyIsTaken(s, l);
  }

  lemma AdvanceKeepsLevel(s: State, l: nat, k: nat)
    requires Inv(s) && Enabled(s, Advance(l)) && k < |s.slots| && k != l
    ensures WellFormed(Apply(s, Advance(l))) && LevelOk(Apply(s, Advance(l)), k)
  {
    assert LevelOk(s, l) && LevelOk(s, k);
    FirstEmptyIsTaken(s, l);
    assert Base(s.factor, l + 1) == Base(s.factor, l) + s.factor;
  }

  lemma AdvanceKeepsInv(s: State, l: nat)
    requires Inv(s) && Enabled(s, Advance(l))
    ensures Inv(Apply(s, Advance(l)))
  {
    var s' := Apply(s, Advance(l));
    forall k | 0 <= k < |s'.slots| ensures WellFormed(s') && LevelOk(s', k) {
      if k == l {
        AdvanceKeepsOwnLevel(s, l);
      } else {
        AdvanceKeepsLevel(s, l, k);
      }
    }
    AdvanceKeepsOwnLevel(s, l);
    assert LevelOk(s, l);
    FirstEmptyIsTaken(s, l);
    assert Base(s.factor, l + 1) == Base(s.factor, l) + s.factor;
  }

  lemma StepKeepsInv(s: State, step: Step)
    requires Inv(s) && Enabled(s, step)
    ensures Inv(Apply(s, step))
  {
    match step
    case Arrive => ArriveKeepsInv(s);
    case Advance(l) => AdvanceKeepsInv(s, l);
  }

  lemma {:induction false} RunKeepsInv(s: State, steps: seq<Step>)
    requires Inv(s) && IsRun(s, steps)
    ensures Inv(Final(s, steps))
    decreases |steps|
  {
    if steps != [] {
      StepKeepsInv(s, steps[0]);
      RunKeepsInv(Apply(s, steps[0]), steps[1..]);
    }
  }

  // ----- The theorems -----

  lemma {:induction false} BaseIsProduct(factor: nat, l: nat)
    ensures Base(factor, l) == l * factor
  {
    if l > 0 {
      BaseIsProduct(factor, l - 1);
    }
  }

  lemma LevelAndIndex(factor: nat, l: nat, i: nat)
    requires i < factor
    ensures (l * factor + i) / factor == l && (l * factor + i) % factor == i
  {
    QuotientOf(factor, l, i);
  }

  /**
   * Placement: after any run from the empty database, a flushed SSTable holds the compaction whose number
   * is its own, that is, compaction n can only be at level n / factor, index n % factor.
   */
  lemma CompactionLandsInOrder(factor: nat, levels: nat, steps: seq<Step>, l: nat, i: nat)
    requires factor > 0 && levels > 0 && IsRun(Init(factor, levels), steps)
    ensures var s := Final(Init(factor, levels), steps);
            && WellFormed(s) && s.factor == factor && |s.slots| == levels
            && (l < levels && i < factor && s.slots[l][i].Some? ==>
                  var n := s.slots[l][i].value;
                  n == l * factor + i && n / factor == l && n % factor == i && n < s.arrived)
  {
    var s0 := Init(factor, levels);
    InitInv(factor, levels);
    RunKeepsInv(s0, steps);
    ShapeKept(s0, steps);
    var s := Final(s0, steps);
    if l < levels && i < factor && s.slots[l][i].Some? {
      assert LevelOk(s, l);
      BaseIsProduct(factor, l);
      LevelAndIndex(factor, l, i);
      GivenBounded(s, l);
    }
  }

  lemma {:induction false} ShapeKept(s: State, steps: seq<Step>)
    requires IsRun(s, steps)
    ensures Final(s, steps).factor == s.factor && |Final(s, steps).slots| == |s.slots|
    decreases |steps|
  {
    if steps != [] {
      ShapeKept(Apply(s, steps[0]), steps[1..]);
    }
  }

  /** What reaches level l has passed over every SSTable above it. */
  lemma {:induction false} GivenBounded(s: State, l: nat)
    requires Inv(s) && l < |s.slots|
    ensures s.taken[l] > 0 ==> Base(s.factor, l) + s.taken[l] <= s.arrived
    ensures s.taken[l] > 0 ==> forall k :: 0 <= k < l ==> s.taken[k] >= s.factor
    decreases l
  {
    assert LevelOk(s, l);
    if l > 0 {
      assert LevelOk(s, l - 1);
      GivenBounded(s, l - 1);
    }
  }

  /** No SSTable is written twice: a step fills at most one SSTable, an empty one, and changes no other. */
  lemma StepFillsOnlyEmpty(s: State, step: Step, l: nat, i: nat)
    requires Inv(s) && Enabled(s, step) && l < |s.slots| && i < s.factor
    ensures |Apply(s, step).slots| == |s.slots| && |Apply(s, step).slots[l]| == s.factor
    ensures s.slots[l][i].Some? ==> Apply(s, step).slots[l][i] == s.slots[l][i]
  {
  }

  /** A compaction is dropped only when every SSTable of the database already holds one. */
  lemma DropOnlyWhenFull(s: State, l: nat, k: nat, i: nat)
    requires Inv(s) && Enabled(s, Advance(l))
    requires |Apply(s, Advance(l)).dropped| > |s.dropped|
    requires k < |s.slots| && i < s.factor
    ensures s.slots[k][i].Some?
  {
    assert LevelOk(s, l) && LevelOk(s, k);
    FirstEmptyIsTaken(s, l);
    GivenBounded(s, l);
  }

  /** With nothing waiting and no more compactions than SSTables, each one has landed. */
  lemma QuiescentAllLanded(s: State, n: nat)
    requires Inv(s) && n < s.arrived && s.arrived <= Base(s.factor, |s.slots|)
    requires forall l :: 0 <= l < |s.slots| ==> s.waiting[l] == []
    ensures n / s.factor < |s.slots|
    ensures s.slots[n / s.factor][n % s.factor] == Some(n)
  {
    var depth := |s.slots|;
    BaseIsProduct(s.factor, depth);
    QuotientBelow(s.factor, n, depth);
    BaseIsProduct(s.factor, n / s.factor);
    LandedWhenQuiet(s, n / s.factor, n % s.factor);
  }

  lemma LandedWhenQuiet(s: State, l: nat, i: nat)
    requires Inv(s) && l < |s.slots| && i < s.factor && Base(s.factor, l) + i < s.arrived
    requires forall k :: 0 <= k < |s.slots| ==> s.waiting[k] == []
    ensures s.slots[l][i] == Some(Base(s.factor, l) + i)
  {
    TakenWhenQuiet(s, l);
    assert LevelOk(s, l);
  }

  lemma {:induction false} TakenWhenQuiet(s: State, l: nat)
    requires Inv(s) && l < |s.slots|
    requires forall k :: 0 <= k < |s.slots| ==> s.waiting[k] == []
    ensures s.taken[l] == if s.arrived <= Base(s.factor, l) then 0 else s.arrived - Base(s.factor, l)
    decreases l
  {
    assert LevelOk(s, l);
    if l > 0 {
      TakenWhenQuiet(s, l - 1);
    }
  }

  // ----- The search for an empty SSTable as written -----

  /**
   * As written, `i` is incremented past the empty SSTable before the loop stops, so the next SSTable is
   * chosen and its filter filled; if there is none the compaction overflows. `full` are the filters.
   */
  function ClaimAsWritten(full: seq<bool>): (after: seq<bool>)
    ensures |after| == |full|
  {
    var e := FirstFalse(full, 0);
    if e + 1 < |full| then full[e + 1 := true] else full
  }

  function FirstFalse(full: seq<bool>, i: nat): (r: nat)
    requires i <= |full|
    ensures i <= r <= |full|
    ensures i < |full| && !full[i] ==> r == i
    decreases |full| - i
  {
    if i == |full| || !full[i] then i else FirstFalse(full, i + 1)
  }

  function ClaimManyAsWritten(full: seq<bool>, n: nat): (after: seq<bool>)
    ensures |after| == |full|
  {
    if n == 0 then full else ClaimAsWritten(ClaimManyAsWritten(full, n - 1))
  }

  /**
   * As written, no number of compactions ever fills the first filter of an empty level; every one of them
   * picks the second SSTable. A read stops at the first empty filter, so it reaches no SSTable at all.
   */
  lemma {:induction false} WrittenClaimsMissFirst(factor: nat, n: nat)
    requires factor > 0
    ensures var after := ClaimManyAsWritten(seq(factor, _ => false), n);
            && FirstFalse(after, 0) == 0
            && forall i :: 0 <= i < factor ==> (after[i] <==> i == 1 && n > 0)
  {
    if n > 0 {
      WrittenClaimsMissFirst(factor, n - 1);
    }
  }
}
