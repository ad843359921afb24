// When a transfer of buffers keeps them all: exactly when every ring and every stock has room for what it gets.
module BufferRoom {
  import opened Multisets
  import opened BufferQueue
  import opened BufferShares
  import opened BufferTransfer

  // ----- How many buffers there are -----

  function Size(t: Table): (n: nat) {
    |t.stock| + |t.queue|
  }

  function TotalBelow(tables: seq<Table>, n: nat): (total: nat)
    requires n <= |tables|
  {
    if n == 0 then 0 else TotalBelow(tables, n - 1) + Size(tables[n - 1])
  }

  function Total(tables: seq<Table>): (total: nat) {
    TotalBelow(tables, |tables|)
  }

  lemma {:induction false} TotalBelowUpdate(tables: seq<Table>, i: nat, t: Table, n: nat)
    requires i < |tables| && n <= |tables|
    ensures TotalBelow(tables[i := t], n) == TotalBelow(tables, n) + if i < n then Size(t) - Size(tables[i]) else 0
    ensures i < n ==> TotalBelow(tables, n) >= Size(tables[i])
  {
    if n > 0 {
      TotalBelowUpdate(tables, i, t, n - 1);
    }
  }

  lemma TotalUpdate(tables: seq<Table>, i: nat, t: Table)
    requires i < |tables|
    ensures Total(tables[i := t]) == Total(tables) + Size(t) - Size(tables[i])
    ensures Total(tables) >= Size(tables[i])
  {
    TotalBelowUpdate(tables, i, t, |tables|);
  }

  lemma TotalUpdateTwo(tables: seq<Table>, i: nat, t: Table, j: nat, u: Table)
    requires i < |tables| && j < |tables| && i != j
    ensures Total(tables[i := t][j := u]) == Total(tables) + Size(t) - Size(tables[i]) + Size(u) - Size(tables[j])
  {
    TotalUpdate(tables, i, t);
    TotalUpdate(tables[i := t], j, u);
  }

  lemma {:induction false} TotalIsHeld(tables: seq<Table>, n: nat)
    requires n <= |tables|
    ensures |HeldBelow(tables, n)| == TotalBelow(tables, n)
  {
    if n > 0 {
      TotalIsHeld(tables, n - 1);
      assert |Holding(tables[n - 1])| == Size(tables[n - 1]);
    }
  }

  lemma ServeTotal(t: Turn, k: nat, j: nat, due: Due, hand: seq<Buffer>)
    requires k < |t.s.tables| && j < |t.s.tables| && k != j && t.used <= |hand| && t.s.ring > 0
    ensures var t' := Serve(t, k, j, due, hand);
            Total(t'.s.tables) == Total(t.s.tables) + (t'.used - t.used)
  {
    if due.size > 0 && t.s.tables[j].cur < t.s.height {
      var giver, used' := t.s.tables[k], Min(t.used + due.newShare, |hand|);
      var given := TopOf(giver.stock, Min(due.oldShare, |giver.stock|)) + hand[t.used..used'];
      TotalUpdateTwo(t.s.tables, k, Shortened(giver, due.oldShare, t.s.exact),
                     j, Pushed(t.s.tables[j], given, t.s.ring));
    }
  }

  lemma {:induction false} HandOutTotal(s: State, k: nat, base: nat, dues: seq<Due>, hand: seq<Buffer>, n: nat)
    requires k < base && base + |dues| <= |s.tables| && n <= |dues| && s.ring > 0
    ensures var t := HandOut(s, k, base, dues, hand, n);
            Total(t.s.tables) == Total(s.tables) + t.used
  {
    if n > 0 {
      HandOutTotal(s, k, base, dues, hand, n - 1);
      HandOutUnfold(s, k, base, dues, hand, n - 1);
      ServeTotal(HandOut(s, k, base, dues, hand, n - 1), k, base + n - 1, dues[n - 1], hand);
    }
  }

  lemma LeaveRestTotal(s: State, k: nat, to: int, hand: seq<Buffer>)
    requires k < |s.tables| && to < |s.tables| && s.ring > 0
    ensures Total(LeaveRest(s, k, to, hand).tables) == Total(s.tables) + |hand|
  {
    if to >= 0 {
      TotalUpdate(s.tables, to, Pushed(s.tables[to], hand, s.ring));
    } else {
      TotalUpdate(s.tables, k, LeaveRest(s, k, to, hand).tables[k]);
    }
  }

  lemma HandDownTotal(s: State, k: nat, base: nat, dues: seq<Due>, m: nat)
    requires k < base && base + |dues| <= |s.tables| && m <= |s.tables[k].queue| && s.ring > 0
    ensures Total(HandDown(s, k, base, dues, m).tables) == Total(s.tables)
  {
    var t' := SetAside(s.tables[k], m, s.exact);
    var hand := s.tables[k].queue[..m];
    var s0 := s.(tables := s.tables[k := t']);
    TotalUpdate(s.tables, k, t');
    HandOutTotal(s0, k, base, dues, hand, |dues|);
    var t := HandOut(s0, k, base, dues, hand, |dues|);
    LeaveRestTotal(t.s, k, t.last, hand[t.used..]);
  }

  /** Every transfer keeps the number of buffers counted, room or not: a full ring counts one it has overwritten. */
  lemma TransferKeepsTotal(s: State, step: Step)
    requires Enabled(s, step)
    ensures Total(Transfer(s, step).tables) == Total(s.tables)
  {
    match step
    case Forward(k) =>
      var t, m := s.tables[k], Min(s.height, |s.tables[k].queue|);
      TotalUpdateTwo(s.tables, k, Unqueued(t, m), k - s.factor,
                     Pushed(s.tables[k - s.factor], Reverse(t.queue[..m]), s.ring));
    case Give(k) =>
      var t, n := s.tables[k], Gift(s, k);
      TotalUpdateTwo(s.tables, k, Lighter(t, n, s.exact), k - s.factor,
                     Pushed(s.tables[k - s.factor], TopOf(t.stock, Min(n, |t.stock|)), s.ring));
    case TakeIn(k) => TotalUpdate(s.tables, k, Adopted(s.tables[k], s.exact));
    case Down(k, base, sizes, total) =>
      var m := NewLimit(s.tables[k], s.factor, s.height);
      HandDownTotal(s, k, base, Dues(sizes, total, OldLimit(s.tables[k], s.factor), m), m);
  }

  // ----- Rings are periodic -----

  ghost predicate AllPeriodic(s: State) {
    s.ring > 0 && forall i :: 0 <= i < |s.tables| ==> Periodic(s.tables[i].queue, s.ring)
  }

  lemma BoundedIsPeriodic(s: State)
    requires Bounded(s) && s.ring > 0
    ensures AllPeriodic(s)
  {
    forall i | 0 <= i < |s.tables| ensures Periodic(s.tables[i].queue, s.ring) {
      ShortIsPeriodic(s.tables[i].queue, s.ring);
    }
  }

  lemma SuffixPeriodic(c: seq<Buffer>, m: nat, length: nat)
    requires length > 0 && m <= |c| && Periodic(c, length)
    ensures Periodic(c[m..], length)
  {
    forall i, j | 0 <= i < j < |c[m..]| && Place(i, length) == Place(j, length) ensures c[m..][i] == c[m..][j] {
      PlaceEqual(i, j, m, length);
    }
  }

  lemma ServePeriodic(t: Turn, k: nat, j: nat, due: Due, hand: seq<Buffer>)
    requires k < |t.s.tables| && j < |t.s.tables| && k != j && t.used <= |hand| && AllPeriodic(t.s)
    ensures AllPeriodic(Serve(t, k, j, due, hand).s)
  {
    var giver, used' := t.s.tables[k], Min(t.used + due.newShare, |hand|);
    var given := TopOf(giver.stock, Min(due.oldShare, |giver.stock|)) + hand[t.used..used'];
    RingPushAllPeriodic(t.s.tables[j].queue, given, t.s.ring);
  }

  lemma {:induction false} HandOutPeriodic(s: State, k: nat, base: nat, dues: seq<Due>, hand: seq<Buffer>, n: nat)
    requires k < base && base + |dues| <= |s.tables| && n <= |dues| && AllPeriodic(s)
    ensures AllPeriodic(HandOut(s, k, base, dues, hand, n).s)
  {
    if n > 0 {
      HandOutPeriodic(s, k, base, dues, hand, n - 1);
      HandOutUnfold(s, k, base, dues, hand, n - 1);
      ServePeriodic(HandOut(s, k, base, dues, hand, n - 1), k, base + n - 1, dues[n - 1], hand);
    }
  }

  lemma HandDownPeriodic(s: State, k: nat, base: nat, dues: seq<Due>, m: nat)
    requires k < base && base + |dues| <= |s.tables| && m <= |s.tables[k].queue| && AllPeriodic(s)
    ensures AllPeriodic(HandDown(s, k, base, dues, m))
  {
    var hand := s.tables[k].queue[..m];
    var s0 := s.(tables := s.tables[k := SetAside(s.tables[k], m, s.exact)]);
    HandOutPeriodic(s0, k, base, dues, hand, |dues|);
    var t := HandOut(s0, k, base, dues, hand, |dues|);
    if t.last >= 0 {
      RingPushAllPeriodic(t.s.tables[t.last].queue, hand[t.used..], s.ring);
    }
  }

  lemma TwoPeriodic(s: State, k: nat, t: Table, j: nat, u: Table)
    requires AllPeriodic(s) && k < |s.tables| && j < |s.tables| && Periodic(t.queue, s.ring) && Periodic(u.queue, s.ring)
    ensures AllPeriodic(s.(tables := s.tables[k := t][j := u]))
  {
  }

  lemma ForwardPeriodic(s: State, k: nat, j: nat, m: nat)
    requires AllPeriodic(s) && k < |s.tables| && j < |s.tables| && k != j && m <= |s.tables[k].queue|
    ensures AllPeriodic(ForwardNew(s, k, j, m))
  {
    var t := s.tables[k];
    SuffixPeriodic(t.queue, m, s.ring);
    RingPushAllPeriodic(s.tables[j].queue, Reverse(t.queue[..m]), s.ring);
    TwoPeriodic(s, k, Unqueued(t, m), j, Pushed(s.tables[j], Reverse(t.queue[..m]), s.ring));
  }

  lemma GivePeriodic(s: State, k: nat, j: nat, n: nat)
    requires AllPeriodic(s) && k < |s.tables| && j < |s.tables| && k != j
    ensures AllPeriodic(GiveUp(s, k, j, n))
  {
    var t := s.tables[k];
    var given := TopOf(t.stock, Min(n, |t.stock|));
    RingPushAllPeriodic(s.tables[j].queue, given, s.ring);
    TwoPeriodic(s, k, Lighter(t, n, s.exact), j, Pushed(s.tables[j], given, s.ring));
  }

  lemma MoveUpPeriodic(s: State, k: nat)
    requires AllPeriodic(s)
    ensures Enabled(s, Forward(k)) ==> AllPeriodic(Transfer(s, Forward(k)))
  {
    if Enabled(s, Forward(k)) {
      ForwardPeriodic(s, k, k - s.factor, Min(s.height, |s.tables[k].queue|));
    }
  }

  lemma GiftPeriodic(s: State, k: nat)
    requires AllPeriodic(s)
    ensures Enabled(s, Give(k)) ==> AllPeriodic(Transfer(s, Give(k)))
  {
    if Enabled(s, Give(k)) {
      GivePeriodic(s, k, k - s.factor, Gift(s, k));
    }
  }

  lemma DownPeriodic(s: State, k: nat, base: nat, sizes: seq<nat>, total: nat)
    requires AllPeriodic(s) && Enabled(s, Down(k, base, sizes, total))
    ensures AllPeriodic(Transfer(s, Down(k, base, sizes, total)))
  {
    var m := NewLimit(s.tables[k], s.factor, s.height);
    HandDownPeriodic(s, k, base, Dues(sizes, total, OldLimit(s.tables[k], s.factor), m), m);
  }

  lemma AdoptPeriodic(s: State, k: nat)
    requires AllPeriodic(s) && k < |s.tables|
    ensures AllPeriodic(Adopt(s, k))
  {
  }

  lemma StepKeepsPeriodic(s: State, step: Step)
    requires Enabled(s, step) && AllPeriodic(s)
    ensures AllPeriodic(Transfer(s, step))
  {
    match step
    case Forward(k) => MoveUpPeriodic(s, k);
    case Give(k) => GiftPeriodic(s, k);
    case TakeIn(k) => AdoptPeriodic(s, k);
    case Down(k, base, sizes, total) => DownPeriodic(s, k, base, sizes, total);
  }

  // ----- Conserved exactly when nothing overflows -----

  /** What lies in the arrays: a stock keeps only what its array has places for. */
  function Cut(tables: seq<Table>, slots: nat): (cut: seq<Table>)
    ensures |cut| == |tables|
  {
    seq(|tables|, i requires 0 <= i < |tables| => CutTable(tables[i], slots))
  }

  function CutTable(t: Table, slots: nat): (t': Table) {
    t.(stock := t.stock[..Min(slots, |t.stock|)])
  }

  /** All buffers in place. */
  function InPlace(s: State): (m: multiset<Buffer>) {
    Held(Cut(s.tables, s.slots))
  }

  /** Every buffer is in one place only. */
  ghost predicate Distinct(s: State) {
    forall x :: InPlace(s)[x] <= 1
  }

  lemma BoundedInPlace(s: State)
    requires Bounded(s)
    ensures InPlace(s) == Held(s.tables)
  {
    var cut := Cut(s.tables, s.slots);
    forall i | 0 <= i < |cut| ensures cut[i] == s.tables[i] {
      assert s.tables[i].stock[..|s.tables[i].stock|] == s.tables[i].stock;
    }
    assert cut == s.tables;
  }

  lemma {:induction false} HeldHas(tables: seq<Table>, j: nat, n: nat, x: Buffer)
    requires j < n <= |tables|
    ensures HeldBelow(tables, n)[x] >= multiset(tables[j].queue)[x]
  {
    if j < n - 1 {
      HeldHas(tables, j, n - 1, x);
    }
  }

  lemma {:induction false} CutLoses(tables: seq<Table>, slots: nat, n: nat, j: nat)
    requires n <= |tables| && j < |tables|
    ensures TotalBelow(Cut(tables, slots), n) <= TotalBelow(tables, n)
    ensures j < n && |tables[j].stock| > slots ==> TotalBelow(Cut(tables, slots), n) < TotalBelow(tables, n)
  {
    if n > 0 {
      CutLoses(tables, slots, n - 1, j);
    }
  }

  /** An overfull ring or stock has lost a buffer. */
  lemma OverflowLoses(s: State, s': State)
    requires Bounded(s) && Distinct(s) && AllPeriodic(s') && SameShape(s, s') && Total(s'.tables) == Total(s.tables)
    requires !Bounded(s')
    ensures InPlace(s') != InPlace(s)
  {
    var j :| 0 <= j < |s'.tables| && !(|s'.tables[j].queue| <= s'.ring && |s'.tables[j].stock| <= s'.slots);
    var cut := Cut(s'.tables, s'.slots);
    if |s'.tables[j].queue| > s'.ring {
      var q := s'.tables[j].queue;
      OverfullRepeats(q, s'.ring);
      HeldHas(cut, j, |cut|, q[0]);
      assert InPlace(s')[q[0]] >= 2;
    } else {
      CutLoses(s'.tables, s'.slots, |s'.tables|, j);
      TotalIsHeld(cut, |cut|);
      TotalIsHeld(s.tables, |s.tables|);
      BoundedInPlace(s);
    }
  }

  lemma TransferShape(s: State, step: Step)
    requires Enabled(s, step)
    ensures SameShape(s, Transfer(s, step))
  {
    if step.Down? {
      DownKeepsRing(s, step.k, step.base, step.sizes, step.total);
    }
  }

  // ----- Room, read off the state before -----

  predicate IsServed(s: State, j: nat, due: Due)
    requires j < |s.tables|
  {
    due.size > 0 && s.tables[j].cur < s.height
  }

  /** After n turns of the hand-out: the size of the giver's stock, the new buffers used, the last SSTable served. */
  datatype Plan = Plan(stock: nat, used: nat, last: int)

  function PlanAfter(s: State, base: nat, dues: seq<Due>, stock: nat, hand: nat, n: nat): (p: Plan)
    requires base + |dues| <= |s.tables| && n <= |dues|
    ensures p.used <= hand
  {
    if n == 0 then Plan(stock, 0, -1)
    else
      var j, due := base + n - 1, dues[n - 1];
      PlanNext(PlanAfter(s, base, dues, stock, hand, n - 1), IsServed(s, j, due), due, hand, j)
  }

  function PlanNext(p: Plan, served: bool, due: Due, hand: nat, j: nat): (p': Plan)
    requires p.used <= hand
    ensures p'.used <= hand
  {
    if served then Plan(p.stock - Min(due.oldShare, p.stock), Min(p.used + due.newShare, hand), j) else p
  }

  lemma {:induction false} PlanBounds(s: State, base: nat, dues: seq<Due>, stock: nat, hand: nat, n: nat)
    requires base + |dues| <= |s.tables| && n <= |dues|
    ensures var p := PlanAfter(s, base, dues, stock, hand, n);
            p.stock <= stock && (p.last < 0 ==> p.stock == stock)
  {
    if n > 0 {
      PlanBounds(s, base, dues, stock, hand, n - 1);
    }
  }

  /** The plan as far as a turn has got. */
  function PlanOf(t: Turn, k: nat): (p: Plan)
    requires k < |t.s.tables|
  {
    Plan(|t.s.tables[k].stock|, t.used, t.last)
  }

  /** How many buffers the i-th SSTable of the next level is given in its turn. */
  function Receives(s: State, base: nat, dues: seq<Due>, stock: nat, hand: nat, i: nat): (n: int)
    requires base + |dues| <= |s.tables| && i < |dues|
  {
    var p, p' := PlanAfter(s, base, dues, stock, hand, i), PlanAfter(s, base, dues, stock, hand, i + 1);
    (p.stock - p'.stock) + (p'.used - p.used)
  }

  /** Each SSTable of the next level has room for its share and the last one served for the rest as well. */
  ghost predicate DownRoom(s: State, k: nat, base: nat, dues: seq<Due>, m: nat)
    requires k < base && base + |dues| <= |s.tables| && m <= |s.tables[k].queue|
  {
    var stock := Size(s.tables[k]) - m;
    && (forall i: nat :: i < |dues| ==> ReceiverRoom(s, base, dues, stock, m, i))
    && GiverRoom(s, base, dues, stock, m)
  }

  predicate GiverRoom(s: State, base: nat, dues: seq<Due>, stock: nat, hand: nat)
    requires base + |dues| <= |s.tables|
  {
    var p := PlanAfter(s, base, dues, stock, hand, |dues|);
    p.stock + (if p.last < 0 then hand - p.used else 0) <= s.slots
  }

  predicate ReceiverRoom(s: State, base: nat, dues: seq<Due>, stock: nat, hand: nat, i: nat)
    requires base + |dues| <= |s.tables| && i < |dues|
  {
    var p := PlanAfter(s, base, dues, stock, hand, |dues|);
    |s.tables[base + i].queue| + Receives(s, base, dues, stock, hand, i)
    + (if p.last == base + i then hand - p.used else 0) <= s.ring
  }

  /** Everyone who receives buffers in this transfer has room for them. */
  ghost predicate HasRoom(s: State, step: Step)
    requires Enabled(s, step)
  {
    match step
    case Forward(k) => |s.tables[k - s.factor].queue| + Min(s.height, |s.tables[k].queue|) <= s.ring
    case Give(k) => |s.tables[k - s.factor].queue| + Min(Gift(s, k), |s.tables[k].stock|) <= s.ring
    case TakeIn(k) => |s.tables[k].stock| + |s.tables[k].queue| <= s.slots
    case Down(k, base, sizes, total) =>
      var m := NewLimit(s.tables[k], s.factor, s.height);
      DownRoom(s, k, base, Dues(sizes, total, OldLimit(s.tables[k], s.factor), m), m)
  }

  lemma ServeLengths(t: Turn, k: nat, j: nat, due: Due, hand: seq<Buffer>)
    requires k < |t.s.tables| && j < |t.s.tables| && k != j && t.used <= |hand| && t.s.ring > 0
    ensures var t' := Serve(t, k, j, due, hand);
            && PlanOf(t', k) == PlanNext(PlanOf(t, k), IsServed(t.s, j, due), due, |hand|, j)
            && |t'.s.tables[j].queue| ==
               |t.s.tables[j].queue| + (|t.s.tables[k].stock| - |t'.s.tables[k].stock|) + (t'.used - t.used)
            && t'.s.tables[j].stock == t.s.tables[j].stock && t'.s.tables[k].queue == t.s.tables[k].queue
  {
  }

  /** The hand-out goes by the plan. */
  lemma {:induction false} PlanIsKept(s: State, k: nat, base: nat, dues: seq<Due>, hand: seq<Buffer>, n: nat)
    requires k < base && base + |dues| <= |s.tables| && n <= |dues| && s.ring > 0
    ensures var t := HandOut(s, k, base, dues, hand, n);
            && PlanOf(t, k) == PlanAfter(s, base, dues, |s.tables[k].stock|, |hand|, n)
            && t.s.tables[k].queue == s.tables[k].queue
  {
    if n > 0 {
      PlanIsKept(s, k, base, dues, hand, n - 1);
      var t, t' := PlanTurn(s, k, base, dues, hand, n - 1);
    }
  }

  /** One turn of the hand-out, before and after. */
  lemma PlanTurn(s: State, k: nat, base: nat, dues: seq<Due>, hand: seq<Buffer>, n: nat) returns (t: Turn, t': Turn)
    requires k < base && base + |dues| <= |s.tables| && n < |dues| && s.ring > 0
    ensures t == HandOut(s, k, base, dues, hand, n) && t' == HandOut(s, k, base, dues, hand, n + 1)
    ensures PlanOf(t', k) == PlanNext(PlanOf(t, k), IsServed(s, base + n, dues[n]), dues[n], |hand|, base + n)
    ensures t'.s.tables[k].queue == t.s.tables[k].queue
  {
    t, t' := HandOut(s, k, base, dues, hand, n), HandOut(s, k, base, dues, hand, n + 1);
    HandOutOthers(s, k, base, dues, hand, n, base + n);
    HandOutShape(s, k, base, dues, hand, n);
    HandOutUnfold(s, k, base, dues, hand, n);
    ServeLengths(t, k, base + n, dues[n], hand);
  }

  lemma ReceivedInTurn(s: State, k: nat, base: nat, dues: seq<Due>, hand: seq<Buffer>, i: nat)
    requires k < base && base + |dues| <= |s.tables| && i < |dues| && s.ring > 0
    ensures var t := HandOut(s, k, base, dues, hand, |dues|).s.tables[base + i];
            && |t.queue| == |s.tables[base + i].queue| + Receives(s, base, dues, |s.tables[k].stock|, |hand|, i)
            && t.stock == s.tables[base + i].stock
  {
    HandOutSettled(s, k, base, dues, hand, i, |dues|);
    HandOutOthers(s, k, base, dues, hand, i, base + i);
    HandOutUnfold(s, k, base, dues, hand, i);
    ServeLengths(HandOut(s, k, base, dues, hand, i), k, base + i, dues[i], hand);
    PlanIsKept(s, k, base, dues, hand, i);
    PlanIsKept(s, k, base, dues, hand, i + 1);
  }

  lemma PlanSame(s: State, s0: State, base: nat, dues: seq<Due>, stock: nat, hand: nat, n: nat)
    requires SameShape(s, s0) && base + |dues| <= |s.tables| && n <= |dues|
    requires forall j :: base <= j < base + |dues| ==> s0.tables[j] == s.tables[j]
    ensures PlanAfter(s0, base, dues, stock, hand, n) == PlanAfter(s, base, dues, stock, hand, n)
  {
    if n > 0 {
      PlanSame(s, s0, base, dues, stock, hand, n - 1);
    }
  }

  /** The tables after a hand-down: the giver, a receiver, and any other. */
  lemma DownLengths(s: State, k: nat, base: nat, dues: seq<Due>, m: nat, j: nat)
    requires k < base && base + |dues| <= |s.tables| && m <= |s.tables[k].queue| && s.ring > 0 && j < |s.tables|
    ensures var t, stock := HandDown(s, k, base, dues, m).tables[j], Size(s.tables[k]) - m;
            var p := PlanAfter(s, base, dues, stock, m, |dues|);
            if j == k then |t.queue| == 0 && |t.stock| == p.stock + (if p.last < 0 then m - p.used else 0)
            else if base <= j < base + |dues| then
              && t.stock == s.tables[j].stock
              && |t.queue| == |s.tables[j].queue| + Receives(s, base, dues, stock, m, j - base)
                              + (if p.last == j then m - p.used else 0)
            else t == s.tables[j]
  {
    var hand := s.tables[k].queue[..m];
    var s0 := s.(tables := s.tables[k := SetAside(s.tables[k], m, s.exact)]);
    var stock := Size(s.tables[k]) - m;
    var t := HandOut(s0, k, base, dues, hand, |dues|);
    PlanIsKept(s0, k, base, dues, hand, |dues|);
    PlanSame(s, s0, base, dues, stock, m, |dues|);
    RestLengths(t.s, k, t.last, hand[t.used..], j);
    if base <= j < base + |dues| {
      ReceivedInTurn(s0, k, base, dues, hand, j - base);
      PlanSame(s, s0, base, dues, stock, m, j - base);
      PlanSame(s, s0, base, dues, stock, m, j - base + 1);
    } else if j != k {
      HandOutOthers(s0, k, base, dues, hand, |dues|, j);
    }
  }

  lemma RestLengths(s: State, k: nat, to: int, rest: seq<Buffer>, j: nat)
    requires k < |s.tables| && to < |s.tables| && to != k && s.ring > 0 && j < |s.tables|
    ensures var t := LeaveRest(s, k, to, rest).tables[j];
            && |t.queue| == |s.tables[j].queue| + (if j == to then |rest| else 0)
            && |t.stock| == |s.tables[j].stock| + (if j == k && to < 0 then |rest| else 0)
            && (j != k ==> t.stock == s.tables[j].stock)
            && (j != k && j != to ==> t == s.tables[j])
  {
  }

  lemma DownRoomExactly(s: State, k: nat, base: nat, dues: seq<Due>, m: nat)
    requires k < base && base + |dues| <= |s.tables| && m <= |s.tables[k].queue| && s.ring > 0 && Bounded(s)
    ensures Bounded(HandDown(s, k, base, dues, m)) <==> DownRoom(s, k, base, dues, m)
  {
    var s' := HandDown(s, k, base, dues, m);
    HandDownShape(s, k, base, dues, m);
    forall j | 0 <= j < |s.tables| ensures Fits(s'.tables[j], s) <==> DownFits(s, k, base, dues, m, j) {
      DownFitsExactly(s, k, base, dues, m, j);
    }
    DownRoomIsFit(s, k, base, dues, m);
    BoundedIsFit(s, s');
  }

  predicate Fits(t: Table, s: State) {
    |t.queue| <= s.ring && |t.stock| <= s.slots
  }

  lemma BoundedIsFit(s: State, s': State)
    requires SameShape(s, s')
    ensures Bounded(s') <==> forall j :: 0 <= j < |s.tables| ==> Fits(s'.tables[j], s)
  {
  }

  /** What a hand-down asks of table j: of the giver, of a receiver, and of any other. */
  ghost predicate DownFits(s: State, k: nat, base: nat, dues: seq<Due>, m: nat, j: nat)
    requires k < base && base + |dues| <= |s.tables| && m <= |s.tables[k].queue|
  {
    var stock := Size(s.tables[k]) - m;
    && (j == k ==> GiverRoom(s, base, dues, stock, m))
    && (base <= j < base + |dues| ==> ReceiverRoom(s, base, dues, stock, m, j - base))
  }

  lemma DownFitsExactly(s: State, k: nat, base: nat, dues: seq<Due>, m: nat, j: nat)
    requires k < base && base + |dues| <= |s.tables| && m <= |s.tables[k].queue| && s.ring > 0 && Bounded(s)
    requires j < |s.tables|
    ensures Fits(HandDown(s, k, base, dues, m).tables[j], s) <==> DownFits(s, k, base, dues, m, j)
  {
    DownLengths(s, k, base, dues, m, j);
    assert |s.tables[j].queue| <= s.ring && |s.tables[j].stock| <= s.slots;
  }

  lemma DownRoomIsFit(s: State, k: nat, base: nat, dues: seq<Due>, m: nat)
    requires k < base && base + |dues| <= |s.tables| && m <= |s.tables[k].queue|
    ensures DownRoom(s, k, base, dues, m) <==> forall j: nat :: j < |s.tables| ==> DownFits(s, k, base, dues, m, j)
  {
    var stock := Size(s.tables[k]) - m;
    if forall j: nat :: j < |s.tables| ==> DownFits(s, k, base, dues, m, j) {
      assert DownFits(s, k, base, dues, m, k);
      forall i: nat | i < |dues| ensures ReceiverRoom(s, base, dues, stock, m, i) {
        assert DownFits(s, k, base, dues, m, base + i);
      }
    }
  }

  lemma RoomIsBound(s: State, step: Step)
    requires Enabled(s, step) && Bounded(s)
    ensures Bounded(Transfer(s, step)) <==> HasRoom(s, step)
  {
    match step
    case Forward(k) => PairBound(s, Transfer(s, step), k, k - s.factor);
    case Give(k) => PairBound(s, Transfer(s, step), k, k - s.factor);
    case TakeIn(k) =>
      var s' := Transfer(s, step);
      assert |s'.tables[k].queue| == 0 && |s'.tables[k].stock| == Size(s.tables[k]);
    case Down(k, base, sizes, total) =>
      var m := NewLimit(s.tables[k], s.factor, s.height);
      DownRoomExactly(s, k, base, Dues(sizes, total, OldLimit(s.tables[k], s.factor), m), m);
  }

  lemma PairBound(s: State, s': State, k: nat, j: nat)
    requires Bounded(s) && SameShape(s, s') && k < |s.tables| && j < |s.tables|
    requires forall i :: 0 <= i < |s.tables| && i != k && i != j ==> s'.tables[i] == s.tables[i]
    requires |s'.tables[k].queue| <= |s.tables[k].queue| && |s'.tables[k].stock| <= |s.tables[k].stock|
    requires s'.tables[j].stock == s.tables[j].stock
    ensures Bounded(s') <==> |s'.tables[j].queue| <= s.ring
  {
  }

  // ----- The raised stock index -----

  /**
   * As written, after a gift or a hand-down the index one past the stock is raised by one again, so the last
   * buffer given away is still in the stock. This is its place there.
   */
  function KeptPlace(s: State, step: Step): (place: nat)
    requires Enabled(s, step)
  {
    match step
    case Forward(k) => 0
    case TakeIn(k) => 0
    case Give(k) => |s.tables[k].stock| - Min(Gift(s, k), |s.tables[k].stock|)
    case Down(k, base, sizes, total) =>
      var m := NewLimit(s.tables[k], s.factor, s.height);
      var dues := Dues(sizes, total, OldLimit(s.tables[k], s.factor), m);
      PlanAfter(s, base, dues, Size(s.tables[k]) - m, m, |dues|).stock
  }

  /** The stock the buffers are given from. */
  function GivenFrom(s: State, step: Step): (stock: seq<Buffer>)
    requires Enabled(s, step)
    ensures step.Give? || step.Down? ==> KeptPlace(s, step) <= |stock|
  {
    match step
    case Forward(k) => []
    case TakeIn(k) => []
    case Give(k) => s.tables[k].stock
    case Down(k, base, sizes, total) =>
      var m := NewLimit(s.tables[k], s.factor, s.height);
      var dues := Dues(sizes, total, OldLimit(s.tables[k], s.factor), m);
      PlanBounds(s, base, dues, Size(s.tables[k]) - m, m, |dues|);
      SetAside(s.tables[k], m, s.exact).stock
  }

  /** The buffer that is given and kept: none as designed, and none if none was given. */
  function KeptOf(s: State, step: Step): (kept: seq<Buffer>)
    requires Enabled(s, step)
  {
    var from, place := GivenFrom(s, step), KeptPlace(s, step);
    if !s.exact && place < |from| then [from[place]] else []
  }

  function WithKept(s: State, k: nat, kept: seq<Buffer>): (s': State)
    requires k < |s.tables|
  {
    var t := s.tables[k];
    s.(tables := s.tables[k := t.(stock := t.stock + kept, kept := t.kept + |kept|)])
  }

  /** A whole step. */
  function Apply(s: State, step: Step): (s': State)
    requires Enabled(s, step)
  {
    TransferShape(s, step);
    WithKept(Transfer(s, step), step.k, KeptOf(s, step))
  }

  lemma NothingKept(s: State, step: Step)
    requires Enabled(s, step) && KeptOf(s, step) == []
    ensures Apply(s, step) == Transfer(s, step)
  {
    TransferShape(s, step);
    var s' := Transfer(s, step);
    assert s'.tables[step.k].stock + [] == s'.tables[step.k].stock;
    assert s'.tables[step.k := s'.tables[step.k]] == s'.tables;
  }

  lemma StepShape(s: State, step: Step)
    requires Enabled(s, step)
    ensures SameShape(s, Apply(s, step))
  {
    TransferShape(s, step);
  }

  /** Every step keeps the number of buffers counted, room or not, but for the one kept. */
  lemma StepKeepsTotal(s: State, step: Step)
    requires Enabled(s, step)
    ensures Total(Apply(s, step).tables) == Total(s.tables) + |KeptOf(s, step)|
  {
    TransferShape(s, step);
    TransferKeepsTotal(s, step);
    var s' := Transfer(s, step);
    TotalUpdate(s'.tables, step.k, WithKept(s', step.k, KeptOf(s, step)).tables[step.k]);
  }

  /** Where a buffer is kept, the giver's stock ends just before it. */
  lemma KeptBehindStock(s: State, step: Step)
    requires Enabled(s, step) && KeptOf(s, step) != []
    ensures |Transfer(s, step).tables| == |s.tables|
    ensures |Transfer(s, step).tables[step.k].stock| == KeptPlace(s, step)
  {
    TransferShape(s, step);
    if step.Give? {
      KeptBehindGift(s, step.k);
    } else if step.Down? {
      KeptBehindDown(s, step.k, step.base, step.sizes, step.total);
    }
  }

  lemma KeptBehindGift(s: State, k: nat)
    requires Enabled(s, Give(k))
    ensures |Transfer(s, Give(k)).tables| == |s.tables|
    ensures |Transfer(s, Give(k)).tables[k].stock| == KeptPlace(s, Give(k))
  {
    GiversStock(s, k, k - s.factor, Gift(s, k));
  }

  lemma KeptBehindDown(s: State, k: nat, base: nat, sizes: seq<nat>, total: nat)
    requires Enabled(s, Down(k, base, sizes, total))
    ensures var step := Down(k, base, sizes, total);
            && |Transfer(s, step).tables| == |s.tables|
            && (KeptPlace(s, step) < |GivenFrom(s, step)| ==> |Transfer(s, step).tables[k].stock| == KeptPlace(s, step))
  {
    var m := NewLimit(s.tables[k], s.factor, s.height);
    DownGiversStock(s, k, base, Dues(sizes, total, OldLimit(s.tables[k], s.factor), m), m);
  }

  lemma GiversStock(s: State, k: nat, j: nat, n: nat)
    requires k < |s.tables| && j < |s.tables| && k != j && s.ring > 0
    ensures |GiveUp(s, k, j, n).tables[k].stock| == |s.tables[k].stock| - Min(n, |s.tables[k].stock|)
  {
  }

  lemma DownGiversStock(s: State, k: nat, base: nat, dues: seq<Due>, m: nat)
    requires k < base && base + |dues| <= |s.tables| && m <= |s.tables[k].queue| && s.ring > 0
    ensures var stock := Size(s.tables[k]) - m;
            var left := PlanAfter(s, base, dues, stock, m, |dues|).stock;
            && |HandDown(s, k, base, dues, m).tables| == |s.tables|
            && (left < stock ==> |HandDown(s, k, base, dues, m).tables[k].stock| == left)
  {
    HandDownShape(s, k, base, dues, m);
    DownLengths(s, k, base, dues, m, k);
    PlanBounds(s, base, dues, Size(s.tables[k]) - m, m, |dues|);
  }

  lemma CutUpdate(tables: seq<Table>, slots: nat, k: nat, t: Table) returns (cut: seq<Table>, u: Table)
    requires k < |tables|
    ensures cut == Cut(tables, slots) && |cut| == |tables| && cut[k] == CutTable(tables[k], slots)
    ensures u == CutTable(t, slots) && Cut(tables[k := t], slots) == cut[k := u]
  {
    cut, u := Cut(tables, slots), CutTable(t, slots);
  }

  /** A buffer put behind the stock is one more in place if the array reaches that far, and otherwise none. */
  lemma KeptInPlace(s: State, k: nat, b: Buffer)
    requires k < |s.tables|
    ensures InPlace(WithKept(s, k, [b])) ==
            InPlace(s) + if |s.tables[k].stock| < s.slots then multiset{b} else multiset{}
  {
    var cut, t', u := KeptTables(s, k, b);
    CutHolding(s.tables[k], t', b, s.slots);
    HeldPut(cut, k, u, if |s.tables[k].stock| < s.slots then multiset{b} else multiset{});
  }

  lemma KeptTables(s: State, k: nat, b: Buffer) returns (cut: seq<Table>, t': Table, u: Table)
    requires k < |s.tables|
    ensures t'.stock == s.tables[k].stock + [b] && t'.queue == s.tables[k].queue && u == CutTable(t', s.slots)
    ensures InPlace(s) == Held(cut) && k < |cut| && cut[k] == CutTable(s.tables[k], s.slots)
    ensures InPlace(WithKept(s, k, [b])) == Held(cut[k := u])
  {
    var t := s.tables[k];
    t' := t.(stock := t.stock + [b], kept := t.kept + 1);
    cut, u := CutUpdate(s.tables, s.slots, k, t');
    assert WithKept(s, k, [b]) == s.(tables := s.tables[k := t']);
  }

  /** What the stock array holds with one buffer more. */
  lemma CutHolding(t: Table, t': Table, b: Buffer, slots: nat)
    requires t'.stock == t.stock + [b] && t'.queue == t.queue
    ensures Holding(CutTable(t', slots)) ==
            Holding(CutTable(t, slots)) + if |t.stock| < slots then multiset{b} else multiset{}
  {
    var cut, cut' := CutTable(t, slots), CutTable(t', slots);
    if |t.stock| < slots {
      assert cut'.stock == cut.stock + [b];
      StockGrown(cut, cut', [b]);
    } else {
      assert cut'.stock == cut.stock;
      Unit(Holding(cut));
    }
  }

  lemma StepInPlace(s: State, step: Step)
    requires Enabled(s, step)
    ensures InPlace(Apply(s, step)) ==
            InPlace(Transfer(s, step))
            + if KeptPlace(s, step) < s.slots then multiset(KeptOf(s, step)) else multiset{}
  {
    TransferShape(s, step);
    if KeptOf(s, step) == [] {
      NothingKept(s, step);
      Unit(InPlace(Transfer(s, step)));
    } else {
      KeptBehindStock(s, step);
      KeptInPlace(Transfer(s, step), step.k, KeptOf(s, step)[0]);
    }
  }

  /** With room, a step leaves in place what was there, and the kept buffer once more. */
  lemma RoomyStepInPlace(s: State, step: Step)
    requires Enabled(s, step) && Bounded(s) && Bounded(Transfer(s, step))
    ensures InPlace(Apply(s, step)) ==
            InPlace(s) + if KeptPlace(s, step) < s.slots then multiset(KeptOf(s, step)) else multiset{}
  {
    StepInPlace(s, step);
    TransferConserves(s, step);
    BoundedInPlace(s);
    BoundedInPlace(Transfer(s, step));
  }

  /**
   * A step keeps every buffer in exactly its one place if and only if everyone who receives buffers has room and
   * none is given and kept as well, unless the place it is kept in lies past the stock array. As designed nothing
   * is kept; as written something is with every gift. The condition can be read off the state before the step.
   */
  lemma StepConservesExactly(s: State, step: Step)
    requires Enabled(s, step) && Bounded(s) && Distinct(s)
    ensures InPlace(Apply(s, step)) == InPlace(s)
            <==> HasRoom(s, step) && (KeptOf(s, step) == [] || KeptPlace(s, step) >= s.slots)
  {
    RoomIsBound(s, step);
    if Bounded(Transfer(s, step)) {
      RoomyStepInPlace(s, step);
      Unit(InPlace(s));
      if KeptOf(s, step) != [] && KeptPlace(s, step) < s.slots {
        assert |InPlace(s) + multiset(KeptOf(s, step))| == |InPlace(s)| + 1;
      }
    } else {
      OverflowStays(s, step);
    }
  }

  /** What overflows is not made up for by the buffer kept. */
  lemma OverflowStays(s: State, step: Step)
    requires Enabled(s, step) && Bounded(s) && Distinct(s) && !Bounded(Transfer(s, step))
    ensures InPlace(Apply(s, step)) != InPlace(s)
  {
    var s' := Transfer(s, step);
    TransferShape(s, step);
    TransferKeepsTotal(s, step);
    BoundedIsPeriodic(s);
    StepKeepsPeriodic(s, step);
    StepInPlace(s, step);
    if j :| 0 <= j < |s'.tables| && |s'.tables[j].queue| > s'.ring {
      var q, cut := s'.tables[j].queue, Cut(s'.tables, s'.slots);
      OverfullRepeats(q, s'.ring);
      HeldHas(cut, j, |cut|, q[0]);
      assert InPlace(Apply(s, step))[q[0]] >= 2;
    } else {
      OverflowLoses(s, s');
      StockOverflowIsGivers(s, step);
      if KeptOf(s, step) != [] {
        KeptBehindStock(s, step);
      }
      Unit(InPlace(s'));
    }
  }

  /** Only the giver's own stock can overflow. */
  lemma StockOverflowIsGivers(s: State, step: Step)
    requires Enabled(s, step) && Bounded(s) && !Bounded(Transfer(s, step))
    requires forall j :: 0 <= j < |Transfer(s, step).tables| ==> |Transfer(s, step).tables[j].queue| <= Transfer(s, step).ring
    ensures |Transfer(s, step).tables| == |s.tables| && |Transfer(s, step).tables[step.k].stock| > s.slots
  {
    var s' := Transfer(s, step);
    TransferShape(s, step);
    var j :| 0 <= j < |s'.tables| && |s'.tables[j].stock| > s'.slots;
    assert |s.tables[j].stock| <= s.slots;
    if j != step.k {
      OtherStocksKept(s, step, j);
    }
  }

  lemma OtherStocksKept(s: State, step: Step, j: nat)
    requires Enabled(s, step) && j < |s.tables| && j != step.k
    ensures |Transfer(s, step).tables| == |s.tables| && Transfer(s, step).tables[j].stock == s.tables[j].stock
  {
    TransferShape(s, step);
    if step.Down? {
      var m := NewLimit(s.tables[step.k], s.factor, s.height);
      DownLengths(s, step.k, step.base, Dues(step.sizes, step.total, OldLimit(s.tables[step.k], s.factor), m), m, j);
    }
  }

  /** As written, with room, a gift is in two places afterwards exactly when there was one. */
  lemma WrittenGiftIsKeptExactly(s: State, k: nat)
    requires Enabled(s, Give(k)) && Bounded(s) && HasRoom(s, Give(k)) && !s.exact
    ensures var n := Min(Gift(s, k), |s.tables[k].stock|);
            && InPlace(Apply(s, Give(k))) ==
               InPlace(s) + (if n == 0 then multiset{} else multiset{s.tables[k].stock[|s.tables[k].stock| - n]})
            && (InPlace(Apply(s, Give(k))) == InPlace(s) <==> n == 0)
  {
    RoomIsBound(s, Give(k));
    RoomyStepInPlace(s, Give(k));
    var n := Min(Gift(s, k), |s.tables[k].stock|);
    Unit(InPlace(s));
    if n > 0 {
      assert |s.tables[k].stock| <= s.slots;
      assert |InPlace(s) + multiset(KeptOf(s, Give(k)))| == |InPlace(s)| + 1;
    }
  }

  /** The same for a hand-down: the last old buffer given stays in the stock as well, exactly when one was given. */
  lemma WrittenHandDownIsKeptExactly(s: State, k: nat, base: nat, sizes: seq<nat>, total: nat)
    requires Enabled(s, Down(k, base, sizes, total)) && Bounded(s) && HasRoom(s, Down(k, base, sizes, total)) && !s.exact
    ensures var step := Down(k, base, sizes, total);
            var from, place := GivenFrom(s, step), KeptPlace(s, step);
            && InPlace(Apply(s, step)) ==
               InPlace(s) + (if place < |from| && place < s.slots then multiset{from[place]} else multiset{})
            && (InPlace(Apply(s, step)) == InPlace(s) <==> place == |from| || place >= s.slots)
  {
    var step := Down(k, base, sizes, total);
    RoomIsBound(s, step);
    RoomyStepInPlace(s, step);
    Unit(InPlace(s));
    if KeptPlace(s, step) < |GivenFrom(s, step)| && KeptPlace(s, step) < s.slots {
      assert |InPlace(s) + multiset(KeptOf(s, step))| == |InPlace(s)| + 1;
    }
  }

  // ----- Whole runs -----

  ghost predicate IsRun(s: State, steps: seq<Step>)
    decreases |steps|
  {
    steps == [] || (Enabled(s, steps[0]) && IsRun(Apply(s, steps[0]), steps[1..]))
  }

  ghost function Final(s: State, steps: seq<Step>): State
    requires IsRun(s, steps)
    decreases |steps|
  {
    if steps == [] then s else Final(Apply(s, steps[0]), steps[1..])
  }

  /** Nobody overflows and every buffer keeps its one place, all along a run. */
  ghost predicate StaysIntact(s: State, steps: seq<Step>, all: multiset<Buffer>)
    requires IsRun(s, steps)
    decreases |steps|
  {
    Bounded(s) && InPlace(s) == all && (steps == [] || StaysIntact(Apply(s, steps[0]), steps[1..], all))
  }

  /** Every step finds room, and none keeps a buffer that it gives. */
  ghost predicate AllRoomy(s: State, steps: seq<Step>)
    requires IsRun(s, steps)
    decreases |steps|
  {
    steps == []
    || (HasRoom(s, steps[0]) && KeptOf(s, steps[0]) == [] && AllRoomy(Apply(s, steps[0]), steps[1..]))
  }

  lemma StepIntactExactly(s: State, step: Step)
    requires Enabled(s, step) && Bounded(s) && Distinct(s)
    ensures Bounded(Apply(s, step)) && InPlace(Apply(s, step)) == InPlace(s)
            <==> HasRoom(s, step) && KeptOf(s, step) == []
  {
    StepConservesExactly(s, step);
    RoomIsBound(s, step);
    if KeptOf(s, step) == [] {
      NothingKept(s, step);
    } else {
      KeptBehindStock(s, step);
      StepShape(s, step);
      assert |Apply(s, step).tables[step.k].stock| == KeptPlace(s, step) + 1;
    }
  }

  /**
   * Over a whole run every buffer stays in exactly its one place if and only if every step finds room and keeps
   * nothing that it gives.
   */
  lemma {:induction false} RunIntactExactly(s: State, steps: seq<Step>)
    requires IsRun(s, steps) && Bounded(s) && Distinct(s)
    ensures StaysIntact(s, steps, InPlace(s)) <==> AllRoomy(s, steps)
    decreases |steps|
  {
    if steps != [] {
      StepIntactExactly(s, steps[0]);
      if HasRoom(s, steps[0]) && KeptOf(s, steps[0]) == [] {
        RunIntactExactly(Apply(s, steps[0]), steps[1..]);
      }
    }
  }

  /** The buffers given and kept along a run. */
  ghost function KeptAlong(s: State, steps: seq<Step>): (kept: seq<Buffer>)
    requires IsRun(s, steps)
    decreases |steps|
  {
    if steps == [] then [] else KeptOf(s, steps[0]) + KeptAlong(Apply(s, steps[0]), steps[1..])
  }

  lemma {:induction false} ExactKeepsNothing(s: State, steps: seq<Step>)
    requires IsRun(s, steps) && s.exact
    ensures KeptAlong(s, steps) == []
    decreases |steps|
  {
    if steps != [] {
      StepShape(s, steps[0]);
      ExactKeepsNothing(Apply(s, steps[0]), steps[1..]);
    }
  }

  lemma SmallIsBounded(s: State)
    requires Total(s.tables) <= s.ring && Total(s.tables) <= s.slots
    ensures Bounded(s)
  {
    forall i | 0 <= i < |s.tables| ensures |s.tables[i].queue| <= s.ring && |s.tables[i].stock| <= s.slots {
      TotalUpdate(s.tables, i, s.tables[i]);
    }
  }

  lemma SmallStep(s: State, step: Step, spare: nat)
    requires Enabled(s, step)
    requires Total(s.tables) + |KeptOf(s, step)| + spare <= s.ring && Total(s.tables) + |KeptOf(s, step)| + spare <= s.slots
    ensures InPlace(Apply(s, step)) == InPlace(s) + multiset(KeptOf(s, step))
    ensures SameShape(s, Apply(s, step)) && Total(Apply(s, step).tables) == Total(s.tables) + |KeptOf(s, step)|
  {
    var s' := Transfer(s, step);
    TransferShape(s, step);
    TransferKeepsTotal(s, step);
    StepShape(s, step);
    StepKeepsTotal(s, step);
    SmallIsBounded(s);
    SmallIsBounded(s');
    RoomyStepInPlace(s, step);
    if KeptOf(s, step) != [] {
      KeptBehindStock(s, step);
      TotalUpdate(s'.tables, step.k, s'.tables[step.k]);
    }
  }

  /**
   * If all buffers, and those a run keeps twice, fit a ring and a stock, then the run leaves in place what was
   * there and the kept ones once more.
   */
  lemma {:induction false} RunAddsKept(s: State, steps: seq<Step>)
    requires IsRun(s, steps)
    requires Total(s.tables) + |KeptAlong(s, steps)| <= s.ring && Total(s.tables) + |KeptAlong(s, steps)| <= s.slots
    ensures InPlace(Final(s, steps)) == InPlace(s) + multiset(KeptAlong(s, steps))
    ensures Bounded(Final(s, steps))
    decreases |steps|
  {
    if steps == [] {
      SmallIsBounded(s);
      Unit(InPlace(s));
    } else {
      var kept, later := KeptOf(s, steps[0]), KeptAlong(Apply(s, steps[0]), steps[1..]);
      SmallStep(s, steps[0], |later|);
      RunAddsKept(Apply(s, steps[0]), steps[1..]);
      assert multiset(kept + later) == multiset(kept) + multiset(later);
      Regroup(InPlace(s), multiset(kept), multiset(later));
    }
  }

  /**
   * Where there is that much room, a run keeps every buffer in exactly one stock or one queue if and only if it
   * keeps none that it gives; as designed it never does.
   */
  lemma BuffersConserved(s: State, steps: seq<Step>)
    requires IsRun(s, steps)
    requires Total(s.tables) + |KeptAlong(s, steps)| <= s.ring && Total(s.tables) + |KeptAlong(s, steps)| <= s.slots
    ensures InPlace(Final(s, steps)) == InPlace(s) <==> KeptAlong(s, steps) == []
    ensures s.exact ==> InPlace(Final(s, steps)) == InPlace(s)
    ensures Bounded(Final(s, steps))
  {
    RunAddsKept(s, steps);
    Unit(InPlace(s));
    if s.exact {
      ExactKeepsNothing(s, steps);
    }
    if KeptAlong(s, steps) != [] {
      assert |InPlace(s) + multiset(KeptAlong(s, steps))| == |InPlace(s)| + |KeptAlong(s, steps)|;
    }
  }
}
