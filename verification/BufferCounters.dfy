// The counter cur_num_buffers against the buffers really there: what it promises is covered when it is kept in
// step, and exactly when not otherwise.
module BufferCounters {
  import opened BufferQueue
  import opened BufferShares
  import opened BufferTransfer
  import opened BufferRoom

  /** By how much the counter differs from the buffers really there. */
  function Drift(t: Table, exact: bool): (d: int) {
    if exact then 0 else t.handedDown - t.adopted - t.missing - t.kept
  }

  ghost predicate CounterOk(t: Table, exact: bool) {
    t.cur == |t.stock| + |t.queue| + Drift(t, exact)
  }

  ghost predicate CountersOk(s: State) {
    forall k :: 0 <= k < |s.tables| ==> CounterOk(s.tables[k], s.exact)
  }

  // ----- The law of the counter -----

  lemma ServeCounters(t: Turn, k: nat, j: nat, due: Due, hand: seq<Buffer>)
    requires k < |t.s.tables| && j < |t.s.tables| && k != j && t.used <= |hand| && t.s.ring > 0 && CountersOk(t.s)
    ensures CountersOk(Serve(t, k, j, due, hand).s)
  {
    assert CounterOk(t.s.tables[k], t.s.exact) && CounterOk(t.s.tables[j], t.s.exact);
  }

  lemma {:induction false} HandOutCounters(s: State, k: nat, base: nat, dues: seq<Due>, hand: seq<Buffer>, n: nat)
    requires k < base && base + |dues| <= |s.tables| && n <= |dues| && s.ring > 0 && CountersOk(s)
    ensures CountersOk(HandOut(s, k, base, dues, hand, n).s)
  {
    if n > 0 {
      HandOutCounters(s, k, base, dues, hand, n - 1);
      HandOutUnfold(s, k, base, dues, hand, n - 1);
      ServeCounters(HandOut(s, k, base, dues, hand, n - 1), k, base + n - 1, dues[n - 1], hand);
    }
  }

  lemma LeaveRestCounters(s: State, k: nat, to: int, hand: seq<Buffer>)
    requires k < |s.tables| && to < |s.tables| && s.ring > 0 && CountersOk(s)
    ensures CountersOk(LeaveRest(s, k, to, hand))
  {
    assert CounterOk(s.tables[k], s.exact);
  }

  lemma SetAsideCounters(s: State, k: nat, m: nat)
    requires k < |s.tables| && m <= |s.tables[k].queue| && CountersOk(s)
    ensures CountersOk(s.(tables := s.tables[k := SetAside(s.tables[k], m, s.exact)]))
  {
    assert CounterOk(s.tables[k], s.exact);
  }

  lemma HandDownCounters(s: State, k: nat, base: nat, dues: seq<Due>, m: nat)
    requires k < base && base + |dues| <= |s.tables| && m <= |s.tables[k].queue| && s.ring > 0 && CountersOk(s)
    ensures CountersOk(HandDown(s, k, base, dues, m))
  {
    var hand := s.tables[k].queue[..m];
    var s0 := s.(tables := s.tables[k := SetAside(s.tables[k], m, s.exact)]);
    SetAsideCounters(s, k, m);
    HandOutCounters(s0, k, base, dues, hand, |dues|);
    var t := HandOut(s0, k, base, dues, hand, |dues|);
    LeaveRestCounters(t.s, k, t.last, hand[t.used..]);
  }

  lemma TwoCounters(s: State, k: nat, t: Table, j: nat, u: Table)
    requires CountersOk(s) && k < |s.tables| && j < |s.tables| && CounterOk(t, s.exact) && CounterOk(u, s.exact)
    ensures CountersOk(s.(tables := s.tables[k := t][j := u]))
  {
  }

  lemma ForwardCounters(s: State, k: nat)
    requires CountersOk(s) && Enabled(s, Forward(k))
    ensures CountersOk(Transfer(s, Forward(k)))
  {
    var j, t, m := k - s.factor, s.tables[k], Min(s.height, |s.tables[k].queue|);
    assert CounterOk(t, s.exact) && CounterOk(s.tables[j], s.exact);
    TwoCounters(s, k, Unqueued(t, m), j, Pushed(s.tables[j], Reverse(t.queue[..m]), s.ring));
  }

  lemma GiveCounters(s: State, k: nat)
    requires CountersOk(s) && Enabled(s, Give(k))
    ensures CountersOk(Transfer(s, Give(k)))
  {
    var j, t, n := k - s.factor, s.tables[k], Gift(s, k);
    assert CounterOk(t, s.exact) && CounterOk(s.tables[j], s.exact);
    TwoCounters(s, k, Lighter(t, n, s.exact), j, Pushed(s.tables[j], TopOf(t.stock, Min(n, |t.stock|)), s.ring));
  }

  /** Every step keeps the counter at the buffers there plus the drift. */
  lemma StepKeepsCounters(s: State, step: Step)
    requires Enabled(s, step) && CountersOk(s)
    ensures CountersOk(Apply(s, step))
  {
    TransferShape(s, step);
    TransferKeepsCounters(s, step);
    KeptCounters(Transfer(s, step), step.k, KeptOf(s, step));
    if s.exact {
      assert KeptOf(s, step) == [];
    }
  }

  lemma KeptCounters(s: State, k: nat, kept: seq<Buffer>)
    requires k < |s.tables| && CountersOk(s) && (s.exact ==> kept == [])
    ensures CountersOk(WithKept(s, k, kept))
  {
    assert CounterOk(s.tables[k], s.exact);
  }

  lemma TransferKeepsCounters(s: State, step: Step)
    requires Enabled(s, step) && CountersOk(s)
    ensures CountersOk(Transfer(s, step))
  {
    match step
    case Forward(k) => ForwardCounters(s, k);
    case Give(k) => GiveCounters(s, k);
    case TakeIn(k) =>
      assert CounterOk(s.tables[k], s.exact);
    case Down(k, base, sizes, total) =>
      var m := NewLimit(s.tables[k], s.factor, s.height);
      HandDownCounters(s, k, base, Dues(sizes, total, OldLimit(s.tables[k], s.factor), m), m);
  }

  /** Over every run, as designed and as written, each counter is the buffers there plus its drift. */
  lemma {:induction false} CountersOverRuns(s: State, steps: seq<Step>)
    requires CountersOk(s) && IsRun(s, steps)
    ensures CountersOk(Final(s, steps)) && SameShape(s, Final(s, steps))
    decreases |steps|
  {
    if steps != [] {
      StepKeepsCounters(s, steps[0]);
      StepShape(s, steps[0]);
      CountersOverRuns(Apply(s, steps[0]), steps[1..]);
    }
  }

  // ----- Is the gift covered? -----

  /**
   * As written the counter drifts. An idle SSTable with an empty queue has what it gives exactly when its counter
   * is not positive, or it has a buffer and the fraction the counter asks for is in stock.
   */
  lemma GiftCoveredExactly(s: State, k: nat)
    requires k < |s.tables| && s.factor > 0 && CounterOk(s.tables[k], s.exact) && s.tables[k].queue == []
    ensures var t := s.tables[k];
            var counted := |t.stock| + Drift(t, s.exact);
            Gift(s, k) <= |t.stock|
            <==> counted <= 0 || (|t.stock| >= 1 && Min(counted, s.height) / s.factor <= |t.stock|)
  {
  }

  /** With exact counters it always has, after any run. */
  lemma GiftAlwaysCovered(s: State, steps: seq<Step>, k: nat)
    requires CountersOk(s) && s.exact && s.factor > 0 && IsRun(s, steps) && k < |s.tables|
    ensures var t := Final(s, steps);
            && |t.tables| == |s.tables| && t.factor > 0
            && (t.tables[k].queue == [] ==> Gift(t, k) <= |t.tables[k].stock|)
  {
    CountersOverRuns(s, steps);
    var t := Final(s, steps);
    assert CounterOk(t.tables[k], true);
    if t.tables[k].queue == [] {
      GiftCovered(t, k);
    }
  }

  // ----- Is every share covered? -----

  lemma {:induction false} HandOutLeaves(
    s: State, k: nat, base: nat, dues: seq<Due>, olds: seq<nat>, news: seq<nat>, hand: seq<Buffer>, n: nat)
    requires k < base && base + |dues| <= |s.tables| && n <= |dues| && s.ring > 0 && |olds| == |news| == |dues|
    requires forall i :: 0 <= i < |dues| ==> dues[i].oldShare == olds[i] && dues[i].newShare == news[i]
    ensures var t := HandOut(s, k, base, dues, hand, n);
            && |s.tables[k].stock| <= |t.s.tables[k].stock| + Sum(olds[..n])
            && t.used <= Sum(news[..n])
  {
    if n > 0 {
      HandOutLeaves(s, k, base, dues, olds, news, hand, n - 1);
      HandOutUnfold(s, k, base, dues, hand, n - 1);
      ServeLeaves(HandOut(s, k, base, dues, hand, n - 1), k, base + n - 1, dues[n - 1], hand);
      SumStep(olds, n - 1);
      SumStep(news, n - 1);
    }
  }

  lemma ServeLeaves(t: Turn, k: nat, j: nat, due: Due, hand: seq<Buffer>)
    requires k < |t.s.tables| && j < |t.s.tables| && k != j && t.used <= |hand| && t.s.ring > 0
    ensures var t' := Serve(t, k, j, due, hand);
            |t.s.tables[k].stock| <= |t'.s.tables[k].stock| + due.oldShare && t'.used <= t.used + due.newShare
  {
  }

  lemma SumStep(s: seq<nat>, n: nat)
    requires n < |s|
    ensures Sum(s[..n + 1]) == Sum(s[..n]) + s[n]
  {
    assert s[..n + 1][..n] == s[..n];
  }

  lemma OldLimitCovered(t: Table, factor: nat)
    requires factor > 0 && CounterOk(t, true)
    ensures OldLimit(t, factor) <= |t.stock|
  {
    if |t.stock| > 0 {
      DivideAtMost(|t.stock|, factor);
    }
  }

  /**
   * With exact counters and batches that fit the total, every turn of the hand-out loop finds its whole
   * share: neither the giver's stock nor the new buffers set aside can run short.
   */
  lemma EveryShareCovered(s: State, k: nat, base: nat, sizes: seq<nat>, total: nat, n: nat)
    requires Enabled(s, Down(k, base, sizes, total)) && CountersOk(s) && s.exact
    requires Sum(sizes) <= total && n < |sizes|
    ensures var m, old_ := NewLimit(s.tables[k], s.factor, s.height), OldLimit(s.tables[k], s.factor);
            var hand, dues := s.tables[k].queue[..m], Dues(sizes, total, old_, m);
            var t := HandOut(s.(tables := s.tables[k := SetAside(s.tables[k], m, s.exact)]), k, base, dues, hand, n);
            && dues[n].oldShare <= |t.s.tables[k].stock|
            && t.used + dues[n].newShare <= |hand|
  {
    var m, old_ := NewLimit(s.tables[k], s.factor, s.height), OldLimit(s.tables[k], s.factor);
    assert CounterOk(s.tables[k], s.exact);
    OldLimitCovered(s.tables[k], s.factor);
    HandOutLeaves(s.(tables := s.tables[k := SetAside(s.tables[k], m, s.exact)]), k, base, Dues(sizes, total, old_, m),
                  Shares(sizes, total, old_), Shares(sizes, total, m), s.tables[k].queue[..m], n);
    NoShareCutShort(sizes, total, old_, n);
    NoShareCutShort(sizes, total, m, n);
  }

  // ----- Nobody takes from an empty stock -----

  ghost predicate NoneMissing(s: State) {
    forall k :: 0 <= k < |s.tables| ==> s.tables[k].missing == 0
  }

  /** The sizes of the batches in a hand-down fit the total they are shares of. */
  predicate Fair(step: Step) {
    step.Down? ==> Sum(step.sizes) <= step.total
  }

  lemma ServeMissing(t: Turn, k: nat, j: nat, due: Due, hand: seq<Buffer>)
    requires k < |t.s.tables| && j < |t.s.tables| && k != j && t.used <= |hand| && t.s.ring > 0
    requires NoneMissing(t.s) && due.oldShare <= |t.s.tables[k].stock|
    ensures NoneMissing(Serve(t, k, j, due, hand).s)
  {
  }

  lemma DownMissing(s: State, k: nat, base: nat, sizes: seq<nat>, total: nat)
    requires Enabled(s, Down(k, base, sizes, total)) && CountersOk(s) && s.exact && NoneMissing(s)
    requires Sum(sizes) <= total
    ensures NoneMissing(Transfer(s, Down(k, base, sizes, total)))
  {
    var m, old_ := NewLimit(s.tables[k], s.factor, s.height), OldLimit(s.tables[k], s.factor);
    var hand, dues := s.tables[k].queue[..m], Dues(sizes, total, old_, m);
    var s0 := s.(tables := s.tables[k := SetAside(s.tables[k], m, s.exact)]);
    for n := 0 to |sizes|
      invariant NoneMissing(HandOut(s0, k, base, dues, hand, n).s)
    {
      EveryShareCovered(s, k, base, sizes, total, n);
      HandOutUnfold(s0, k, base, dues, hand, n);
      ServeMissing(HandOut(s0, k, base, dues, hand, n), k, base + n, dues[n], hand);
    }
  }

  lemma GiveMissing(s: State, k: nat, j: nat, n: nat)
    requires k < |s.tables| && j < |s.tables| && k != j && s.ring > 0 && NoneMissing(s) && n <= |s.tables[k].stock|
    ensures NoneMissing(GiveUp(s, k, j, n))
  {
  }

  lemma GiftCovered(s: State, k: nat)
    requires k < |s.tables| && s.factor > 0 && CounterOk(s.tables[k], true) && s.tables[k].queue == []
    ensures Gift(s, k) <= |s.tables[k].stock|
  {
    if s.tables[k].cur > 0 {
      GiftWithinStock(s.tables[k].cur, s.height, s.factor);
    }
  }

  lemma StepMissesNothing(s: State, step: Step)
    requires Enabled(s, step) && CountersOk(s) && s.exact && NoneMissing(s) && Fair(step)
    ensures NoneMissing(Apply(s, step))
  {
    NothingKept(s, step);
    match step
    case Forward(k) => ForwardMissing(s, k);
    case Give(k) =>
      assert CounterOk(s.tables[k], true);
      GiftCovered(s, k);
      GiveMissing(s, k, k - s.factor, Gift(s, k));
    case TakeIn(k) =>
    case Down(k, base, sizes, total) => DownMissing(s, k, base, sizes, total);
  }

  lemma ForwardMissing(s: State, k: nat)
    requires Enabled(s, Forward(k)) && NoneMissing(s)
    ensures NoneMissing(Transfer(s, Forward(k)))
  {
  }

  /** With exact counters and fair hand-downs, no transfer of any run takes a buffer that is not there. */
  lemma {:induction false} NeverMissing(s: State, steps: seq<Step>)
    requires CountersOk(s) && s.exact && NoneMissing(s) && IsRun(s, steps)
    requires forall i :: 0 <= i < |steps| ==> Fair(steps[i])
    ensures NoneMissing(Final(s, steps))
    decreases |steps|
  {
    if steps != [] {
      StepKeepsCounters(s, steps[0]);
      StepShape(s, steps[0]);
      StepMissesNothing(s, steps[0]);
      NeverMissing(Apply(s, steps[0]), steps[1..]);
    }
  }

  // ----- Concrete runs -----

  /** As written a gift can exceed the stock: handing buffers down leaves the counter where it was. */
  lemma WrittenCounterOverstates() returns (s: State, step: Step)
    ensures CountersOk(s) && !s.exact && Enabled(s, step)
    ensures var t := Apply(s, step);
            |t.tables| > 1 && t.factor > 0 && t.tables[1].queue == [] && Gift(t, 1) > |t.tables[1].stock|
  {
    var none := Table([], [], 0, 0, 0, 0, 0);
    s := State([none, Table([7, 8], [], 2, 0, 0, 0, 0), none], 1, 4, 4, 4, false);
    step := Down(1, 2, [1], 1);
    assert CountersOk(s) && Enabled(s, step);
    CounterLeftBehind(s, step);
  }

  lemma CounterLeftBehind(s: State, step: Step)
    requires |s.tables| == 3 && s.tables[1] == Table([7, 8], [], 2, 0, 0, 0, 0) && s.tables[2].cur < s.height == 4
    requires !s.exact && s.factor == 1 && step == Down(1, 2, [1], 1) && Enabled(s, step)
    ensures var t := Apply(s, step);
            |t.tables| > 1 && t.factor > 0 && t.tables[1].queue == [] && Gift(t, 1) > |t.tables[1].stock|
  {
    assert Dues([1], 1, 2, 0) == [Due(1, 2, 0)];
    assert NewLimit(s.tables[1], 1, 4) == 0 && OldLimit(s.tables[1], 1) == 2;
    var s' := TwoHandedDown(s);
    assert Transfer(s, step) == s';
    GiftAfterKept(s', KeptOf(s, step));
  }

  lemma GiftAfterKept(s: State, kept: seq<Buffer>)
    requires |s.tables| == 3 && s.tables[1] == Table([], [], 2, 0, 2, 0, 0) && s.factor == 1 && s.height == 4 && |kept| <= 1
    ensures var t := WithKept(s, 1, kept);
            t.tables[1].queue == [] && Gift(t, 1) > |t.tables[1].stock|
  {
  }

  /** Both buffers of SSTable 1 go down; as written its counter stays at two, and one buffer is kept as well. */
  lemma TwoHandedDown(s: State) returns (s': State)
    requires |s.tables| == 3 && s.tables[1] == Table([7, 8], [], 2, 0, 0, 0, 0) && s.tables[2].cur < s.height
    requires !s.exact && s.ring > 0
    ensures s' == HandDown(s, 1, 2, [Due(1, 2, 0)], 0) && SameShape(s, s')
    ensures s'.tables[1] == Table([], [], 2, 0, 2, 0, 0)
  {
    s' := HandDown(s, 1, 2, [Due(1, 2, 0)], 0);
    HandDownShape(s, 1, 2, [Due(1, 2, 0)], 0);
    assert SetAside(s.tables[1], 0, false) == s.tables[1];
    assert s.tables[1].queue[..0] == [] && s.(tables := s.tables[1 := s.tables[1]]) == s;
    var dues := [Due(1, 2, 0)];
    HandOutUnfold(s, 1, 2, dues, [], 0);
    assert HandOut(s, 1, 2, dues, [], 0) == Turn(s, 0, -1);
    var t := HandOut(s, 1, 2, dues, [], 1);
    assert t.s.tables[1] == Table([], [], 2, 0, 2, 0, 0);
  }

  /**
   * Rings do fill up. Three SSTables of one buffer each, one above the other, with rings of one place: both lower
   * ones give their buffer up, and passing the lowest one's on to the top overwrites the other.
   */
  lemma FullRingLosesBuffer() returns (s: State, steps: seq<Step>, t: State)
    ensures CountersOk(s) && s.exact && Bounded(s) && s.ring == s.height * s.factor
    ensures steps == [Give(1), Give(2), Forward(1)] && IsRun(s, steps) && Final(s, steps) == t
    ensures |t.tables| == 3 && |t.tables[0].queue| == 2 > t.ring
    ensures InPlace(s)[11] == 1 && InPlace(t)[11] == 0
  {
    s := Column(Owns(10), Owns(11), Owns(12));
    var s1 := FirstGift(s);
    var s2 := SecondGift(s1);
    t := Overwritten(s2);
    steps := ThreeSteps(s, s1, s2, t, Give(1), Give(2), Forward(1));
    BeforeOverflow(s);
    AfterOverflow(t);
  }

  lemma BeforeOverflow(s: State)
    requires s == Column(Owns(10), Owns(11), Owns(12))
    ensures CountersOk(s) && s.exact && Bounded(s) && s.ring == s.height * s.factor && InPlace(s)[11] == 1
  {
    TimesInColumn(Owns(10), Owns(11), Owns(12), 11);
  }

  lemma AfterOverflow(t: State)
    requires t == Column(Table([10], [12, 12], 3, 0, 0, 0, 0), NOTHING, NOTHING)
    ensures |t.tables| == 3 && |t.tables[0].queue| == 2 > t.ring && InPlace(t)[11] == 0
  {
    TimesInColumn(Table([10], [12, 12], 3, 0, 0, 0, 0), NOTHING, NOTHING, 11);
  }

  lemma ThreeSteps(s: State, s1: State, s2: State, s3: State, a: Step, b: Step, c: Step)
    returns (steps: seq<Step>)
    requires Enabled(s, a) && Apply(s, a) == s1 && Enabled(s1, b) && Apply(s1, b) == s2
    requires Enabled(s2, c) && Apply(s2, c) == s3
    ensures steps == [a, b, c] && IsRun(s, steps) && Final(s, steps) == s3
  {
    steps := [a, b, c];
    var abc, bc := [a, b, c], [b, c];
    assert abc[1..] == bc && bc[1..] == [c] && [c][1..] == [];
    assert IsRun(s3, []) && Final(s3, []) == s3;
    assert IsRun(s2, [c]) && Final(s2, [c]) == s3;
    assert IsRun(s1, bc) && Final(s1, bc) == s3;
  }

  lemma TimesInColumn(a: Table, b: Table, c: Table, x: Buffer)
    requires |a.stock| <= 1 && |b.stock| <= 1 && |c.stock| <= 1
    ensures InPlace(Column(a, b, c))[x] == Holding(a)[x] + Holding(b)[x] + Holding(c)[x]
  {
    var tables := Column(a, b, c).tables;
    var cut := Cut(tables, 1);
    forall i | 0 <= i < 3 ensures cut[i] == tables[i] {
      assert tables[i].stock[..|tables[i].stock|] == tables[i].stock;
    }
    HeldOfThree(cut, x);
  }

  function Owns(b: Buffer): (t: Table) {
    Table([b], [], 1, 0, 0, 0, 0)
  }

  function Received(t: Table, b: Buffer): (t': Table) {
    t.(queue := t.queue + [b], cur := t.cur + 1)
  }

  const NOTHING := Table([], [], 0, 0, 0, 0, 0)

  /** Three SSTables one above the other, with rings and stocks of one place. */
  function Column(a: Table, b: Table, c: Table): (s: State) {
    State([a, b, c], 1, 1, 1, 1, true)
  }

  lemma FirstGift(s: State) returns (s': State)
    requires s == Column(Owns(10), Owns(11), Owns(12))
    ensures Enabled(s, Give(1)) && s' == Apply(s, Give(1))
    ensures s' == Column(Table([10], [11], 2, 0, 0, 0, 0), NOTHING, Owns(12))
  {
    s' := GivesOne(s, 1, 11);
    assert [] + [11] == [11];
    ColumnUpdated(Owns(10), Owns(11), Owns(12), 1, NOTHING, Table([10], [11], 2, 0, 0, 0, 0));
  }

  lemma SecondGift(s: State) returns (s': State)
    requires s == Column(Table([10], [11], 2, 0, 0, 0, 0), NOTHING, Owns(12))
    ensures Enabled(s, Give(2)) && s' == Apply(s, Give(2))
    ensures s' == Column(Table([10], [11], 2, 0, 0, 0, 0), Table([], [12], 1, 0, 0, 0, 0), NOTHING)
  {
    s' := GivesOne(s, 2, 12);
    assert [] + [12] == [12];
    ColumnUpdated(Table([10], [11], 2, 0, 0, 0, 0), NOTHING, Owns(12), 2, NOTHING, Table([], [12], 1, 0, 0, 0, 0));
  }

  lemma Overwritten(s: State) returns (s': State)
    requires s == Column(Table([10], [11], 2, 0, 0, 0, 0), Table([], [12], 1, 0, 0, 0, 0), NOTHING)
    ensures Enabled(s, Forward(1)) && s' == Apply(s, Forward(1))
    ensures s' == Column(Table([10], [12, 12], 3, 0, 0, 0, 0), NOTHING, NOTHING)
  {
    s' := ForwardsOne(s, 1, 12);
    RingPushExactly([11], 12, 1);
    assert [12] + [11][1..] + [12] == [12, 12];
  }

  lemma ColumnUpdated(a: Table, b: Table, c: Table, k: nat, t: Table, u: Table)
    requires 1 <= k < 3
    ensures var s := Column(a, b, c);
            s.(tables := s.tables[k := t][k - 1 := u]) == if k == 1 then Column(u, t, c) else Column(a, u, t)
  {
  }

  lemma GivesOne(s: State, k: nat, b: Buffer) returns (s': State)
    requires 1 <= k < |s.tables| && s.factor == 1 && s.height == 1 && s.ring > 0 && s.exact
    requires s.tables[k] == Owns(b) && |s.tables[k - 1].queue| < s.ring
    ensures Enabled(s, Give(k)) && s' == Apply(s, Give(k))
    ensures s' == s.(tables := s.tables[k := NOTHING][k - 1 := Received(s.tables[k - 1], b)])
  {
    assert Gift(s, k) == 1;
    NothingKept(s, Give(k));
    s' := Transfer(s, Give(k));
    OneTaken(b);
    OneReceived(s.tables[k - 1], b, s.ring);
  }

  lemma OneTaken(b: Buffer)
    ensures Lighter(Owns(b), 1, true) == NOTHING && TopOf([b], 1) == [b]
  {
    assert [b][0..] == [b] && [b][..0] == [];
    assert TopOf([b], 1) == Reverse([b]) == [b] + Reverse([]);
  }

  lemma OneReceived(t: Table, b: Buffer, ring: nat)
    requires |t.queue| < ring
    ensures Pushed(t, [b], ring) == Received(t, b)
  {
    RingPushOne(t.queue, b, ring);
    RingPushExactly(t.queue, b, ring);
  }

  lemma ForwardsOne(s: State, k: nat, b: Buffer) returns (s': State)
    requires 1 <= k < |s.tables| && s.factor == 1 && s.height == 1 && s.ring > 0
    requires s.tables[k] == Table([], [b], 1, 0, 0, 0, 0) && s.exact
    ensures Enabled(s, Forward(k)) && s' == Apply(s, Forward(k))
    ensures s' ==
            s.(tables := s.tables[k := Table([], [], 0, 0, 0, 0, 0)]
                                 [k - 1 := s.tables[k - 1].(queue := RingPush(s.tables[k - 1].queue, b, s.ring),
                                                            cur := s.tables[k - 1].cur + 1)])
  {
    NothingKept(s, Forward(k));
    s' := Transfer(s, Forward(k));
    assert [b][..1] == [b] && [b][1..] == [] && [b][..0] == [];
    assert Reverse([b]) == [b] + Reverse([]);
    RingPushOne(s.tables[k - 1].queue, b, s.ring);
  }

  lemma HeldOfThree(tables: seq<Table>, x: Buffer)
    requires |tables| == 3
    ensures Held(tables)[x] == Holding(tables[0])[x] + Holding(tables[1])[x] + Holding(tables[2])[x]
  {
    assert HeldBelow(tables, 0) == multiset{};
    assert HeldBelow(tables, 1) == HeldBelow(tables, 0) + Holding(tables[0]);
    assert HeldBelow(tables, 2) == HeldBelow(tables, 1) + Holding(tables[1]);
  }
}
