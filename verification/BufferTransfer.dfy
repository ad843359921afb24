// Page-cache buffers moving between SSTables: idle SSTables pass buffers up a level, busy ones hand shares
// down with the request batches. A transfer keeps every buffer exactly when each ring and stock has room.
module BufferTransfer {
  import opened Multisets
  import opened BufferQueue
  import opened BufferShares

  /**
   * The buffers an SSTable owns (stock), those lying in its buffer queue, and its counter cur_num_buffers.
   * `adopted` and `handedDown` record how many buffers went from its queue into its own stock, and how many it
   * meant to hand from its stock to the next level; `missing` how many it meant to give and did not have, and
   * `kept` how many it gave and kept as well.
   */
  datatype Table = Table(
    stock: seq<Buffer>, queue: seq<Buffer>, cur: int, adopted: nat, handedDown: nat, missing: nat, kept: nat)

  /**
   * `ring` and `slots` are the lengths of the queue and stock arrays. `exact`: adopting and handing down keep
   * the counter in step, and a buffer given away has left the stock; as written neither is so.
   */
  datatype State = State(tables: seq<Table>, factor: nat, height: nat, ring: nat, slots: nat, exact: bool)

  function Reverse(s: seq<Buffer>): (r: seq<Buffer>)
    ensures |r| == |s|
  {
    if s == [] then [] else [s[|s| - 1]] + Reverse(s[..|s| - 1])
  }

  lemma {:induction false} ReverseMultiset(s: seq<Buffer>)
    ensures multiset(Reverse(s)) == multiset(s)
  {
    if s != [] {
      ReverseMultiset(s[..|s| - 1]);
      assert s == s[..|s| - 1] + [s[|s| - 1]];
    }
  }

  // ----- What is held where -----

  function Holding(t: Table): (m: multiset<Buffer>) {
    multiset(t.stock) + multiset(t.queue)
  }

  function HeldBelow(tables: seq<Table>, n: nat): (m: multiset<Buffer>)
    requires n <= |tables|
  {
    if n == 0 then multiset{} else HeldBelow(tables, n - 1) + Holding(tables[n - 1])
  }

  /** All buffers, wherever they are. */
  function Held(tables: seq<Table>): (m: multiset<Buffer>) {
    HeldBelow(tables, |tables|)
  }

  lemma {:induction false} HeldBelowSame(tables: seq<Table>, i: nat, t: Table, n: nat)
    requires n <= i < |tables|
    ensures HeldBelow(tables[i := t], n) == HeldBelow(tables, n)
  {
    if n > 0 {
      HeldBelowSame(tables, i, t, n - 1);
    }
  }

  lemma {:induction false} HeldBelowUpdate(tables: seq<Table>, i: nat, t: Table, beyond: nat)
    requires i + 1 + beyond <= |tables|
    ensures HeldBelow(tables[i := t], i + 1 + beyond) + Holding(tables[i]) ==
            HeldBelow(tables, i + 1 + beyond) + Holding(t)
    decreases beyond
  {
    if beyond == 0 {
      HeldBelowSame(tables, i, t, i);
      Regroup(HeldBelow(tables, i), Holding(t), Holding(tables[i]));
    } else {
      HeldBelowUpdate(tables, i, t, beyond - 1);
      var next := Holding(tables[i + beyond]);
      Regroup(HeldBelow(tables[i := t], i + beyond), next, Holding(tables[i]));
      Regroup(HeldBelow(tables, i + beyond), next, Holding(t));
    }
  }

  lemma HeldUpdate(tables: seq<Table>, i: nat, t: Table)
    requires i < |tables|
    ensures Held(tables[i := t]) + Holding(tables[i]) == Held(tables) + Holding(t)
  {
    HeldBelowUpdate(tables, i, t, |tables| - i - 1);
  }

  /** Taking buffers out of one table, or putting them into one. */
  lemma HeldTake(tables: seq<Table>, i: nat, t: Table, out: multiset<Buffer>)
    requires i < |tables| && Holding(tables[i]) == Holding(t) + out
    ensures Held(tables) == Held(tables[i := t]) + out
  {
    HeldUpdate(tables, i, t);
    Regroup(Held(tables[i := t]), Holding(t), out);
    Cancel(Held(tables), Held(tables[i := t]) + out, Holding(t));
  }

  lemma HeldPut(tables: seq<Table>, i: nat, t: Table, extra: multiset<Buffer>)
    requires i < |tables| && Holding(t) == Holding(tables[i]) + extra
    ensures Held(tables[i := t]) == Held(tables) + extra
  {
    HeldUpdate(tables, i, t);
    Regroup(Held(tables), Holding(tables[i]), extra);
    Cancel(Held(tables[i := t]), Held(tables) + extra, Holding(tables[i]));
  }

  // ----- Elementary moves -----

  /** push_back of several buffers. */
  function Pushed(t: Table, buffers: seq<Buffer>, ring: nat): (t': Table)
    requires ring > 0
  {
    t.(queue := RingPushAll(t.queue, buffers, ring), cur := t.cur + |buffers|)
  }

  /** The last `n` buffers of the stock, in the order they are taken off its end. */
  function TopOf(stock: seq<Buffer>, n: nat): (s: seq<Buffer>)
    requires n <= |stock|
    ensures |s| == n
  {
    Reverse(stock[|stock| - n..])
  }

  lemma PushedHolding(t: Table, buffers: seq<Buffer>, ring: nat)
    requires ring > 0 && |t.queue| + |buffers| <= ring
    ensures Holding(Pushed(t, buffers, ring)) == Holding(t) + multiset(buffers)
  {
    RingPushAllFits(t.queue, buffers, ring);
    assert multiset(t.queue + buffers) == multiset(t.queue) + multiset(buffers);
    Regroup(multiset(t.stock), multiset(t.queue), multiset(buffers));
  }

  lemma StockSplit(stock: seq<Buffer>, n: nat)
    requires n <= |stock|
    ensures multiset(stock) == multiset(stock[..|stock| - n]) + multiset(TopOf(stock, n))
  {
    var k := |stock| - n;
    assert stock == stock[..k] + stock[k..];
    ReverseMultiset(stock[k..]);
  }

  // ----- The four transfers -----

  function Unqueued(t: Table, m: nat): (t': Table)
    requires m <= |t.queue|
  {
    t.(queue := t.queue[m..], cur := t.cur - m)
  }

  /** An idle SSTable passes the first new buffers of its queue on to the SSTable j above it. */
  function ForwardNew(s: State, k: nat, j: nat, m: nat): (s': State)
    requires k < |s.tables| && j < |s.tables| && k != j && m <= |s.tables[k].queue| && s.ring > 0
  {
    var t := s.tables[k];
    s.(tables := s.tables[k := Unqueued(t, m)][j := Pushed(s.tables[j], Reverse(t.queue[..m]), s.ring)])
  }

  /** What the counter says an idle SSTable with an empty queue should give. */
  function Gift(s: State, k: nat): (n: nat)
    requires k < |s.tables| && s.factor > 0
  {
    if s.tables[k].cur <= 0 then 0 else ToGive(s.tables[k].cur, s.height, s.factor)
  }

  /** The stock after a gift of n, or of all there is. */
  function Lighter(t: Table, n: nat, exact: bool): (t': Table) {
    var taken := Min(n, |t.stock|);
    t.(stock := t.stock[..|t.stock| - taken], cur := t.cur - (if exact then taken else n),
       missing := t.missing + (n - taken))
  }

  /** An idle SSTable passes part of its stock up. */
  function GiveUp(s: State, k: nat, j: nat, n: nat): (s': State)
    requires k < |s.tables| && j < |s.tables| && k != j && s.ring > 0
  {
    var t := s.tables[k];
    s.(tables := s.tables[k := Lighter(t, n, s.exact)]
                         [j := Pushed(s.tables[j], TopOf(t.stock, Min(n, |t.stock|)), s.ring)])
  }

  /** An SSTable takes its new buffers into its own stock. */
  function Adopted(t: Table, exact: bool): (t': Table) {
    t.(stock := t.stock + t.queue, queue := [],
       cur := if exact then t.cur else t.cur - |t.queue|, adopted := t.adopted + |t.queue|)
  }

  function Adopt(s: State, k: nat): (s': State)
    requires k < |s.tables|
  {
    s.(tables := s.tables[k := Adopted(s.tables[k], s.exact)])
  }

  /** Hand `n` buffers of the stock of table k, or all there are, and then `extra`, to table j below it. */
  function HandTo(s: State, k: nat, j: nat, n: nat, extra: seq<Buffer>): (s': State)
    requires k < |s.tables| && j < |s.tables| && k != j && s.ring > 0
    ensures |s'.tables| == |s.tables| && s'.ring == s.ring
  {
    var t := s.tables[k];
    s.(tables := s.tables[k := Shortened(t, n, s.exact)]
                         [j := Pushed(s.tables[j], TopOf(t.stock, Min(n, |t.stock|)) + extra, s.ring)])
  }

  function Shortened(t: Table, n: nat, exact: bool): (t': Table) {
    var taken := Min(n, |t.stock|);
    t.(stock := t.stock[..|t.stock| - taken], handedDown := t.handedDown + n,
       cur := if exact then t.cur - taken else t.cur, missing := t.missing + (n - taken))
  }

  /** What is left of the new buffers: to the last SSTable served, or back into the giver's stock. */
  function LeaveRest(s: State, k: nat, to: int, hand: seq<Buffer>): (s': State)
    requires k < |s.tables| && to < |s.tables| && s.ring > 0
  {
    if to >= 0 then s.(tables := s.tables[to := Pushed(s.tables[to], hand, s.ring)])
    else
      var t := s.tables[k];
      s.(tables := s.tables[k := t.(stock := t.stock + hand, adopted := t.adopted + |hand|,
                                    cur := if s.exact then t.cur + |hand| else t.cur)])
  }

  /** What an SSTable of the next level is due: the size of its batch and its shares of old and new buffers. */
  datatype Due = Due(size: nat, oldShare: nat, newShare: nat)

  /** The hand-out loop so far: the state, how many of the new buffers are used, and the last SSTable served. */
  datatype Turn = Turn(s: State, used: nat, last: int)

  /** An SSTable with a batch and fewer than the fair number of buffers gets its shares, as far as they go. */
  function Serve(t: Turn, k: nat, j: nat, due: Due, hand: seq<Buffer>): (t': Turn)
    requires k < |t.s.tables| && j < |t.s.tables| && k != j && t.used <= |hand| && t.s.ring > 0
    ensures |t'.s.tables| == |t.s.tables| && t.used <= t'.used <= |hand| && (t'.last == t.last || t'.last == j)
    ensures t'.s.ring == t.s.ring
  {
    if due.size > 0 && t.s.tables[j].cur < t.s.height then
      var used' := Min(t.used + due.newShare, |hand|);
      Turn(HandTo(t.s, k, j, due.oldShare, hand[t.used..used']), used', j)
    else t
  }

  /** The hand-out loop over the first n SSTables of the next level, which starts at `base`. */
  function HandOut(s: State, k: nat, base: nat, dues: seq<Due>, hand: seq<Buffer>, n: nat): (t: Turn)
    requires k < base && base + |dues| <= |s.tables| && n <= |dues| && s.ring > 0
    ensures |t.s.tables| == |s.tables| && t.used <= |hand| && t.last < base + n && t.s.ring == s.ring
    ensures t.last < 0 || base <= t.last
  {
    if n == 0 then Turn(s, 0, -1)
    else Serve(HandOut(s, k, base, dues, hand, n - 1), k, base + n - 1, dues[n - 1], hand)
  }

  function OldLimit(t: Table, factor: nat): (n: nat)
    requires factor > 0
  {
    var old_ := t.cur - |t.queue|;
    if old_ <= 0 then 0 else Max(old_ / factor, 1)
  }

  function NewLimit(t: Table, factor: nat, height: nat): (n: nat)
    requires factor > 0
    ensures n <= |t.queue|
  {
    if t.queue == [] then 0
    else
      DivideAtMost(|t.queue|, factor);
      Max(Min(height, |t.queue| / factor), 1)
  }

  function Dues(sizes: seq<nat>, total: nat, oldLimit: nat, newLimit: nat): (d: seq<Due>)
    requires total > 0
    ensures |d| == |sizes|
  {
    var oldShares, newShares := Shares(sizes, total, oldLimit), Shares(sizes, total, newLimit);
    seq(|sizes|, i requires 0 <= i < |sizes| => Due(sizes[i], oldShares[i], newShares[i]))
  }

  /** The giver after it set m new buffers aside and took the others in. */
  function SetAside(t: Table, m: nat, exact: bool): (t': Table)
    requires m <= |t.queue|
  {
    Adopted(Unqueued(t, m), exact)
  }

  /** insert_into_wqs: set some new buffers aside, adopt the others, and hand out to the next level. */
  function HandDown(s: State, k: nat, base: nat, dues: seq<Due>, m: nat): (s': State)
    requires k < base && base + |dues| <= |s.tables| && m <= |s.tables[k].queue| && s.ring > 0
  {
    var hand := s.tables[k].queue[..m];
    var t := HandOut(s.(tables := s.tables[k := SetAside(s.tables[k], m, s.exact)]), k, base, dues, hand, |dues|);
    LeaveRest(t.s, k, t.last, hand[t.used..])
  }

  datatype Step = Forward(k: nat) | Give(k: nat) | TakeIn(k: nat) | Down(k: nat, base: nat, sizes: seq<nat>, total: nat)

  predicate Enabled(s: State, step: Step) {
    s.factor > 0 && s.ring > 0
    && match step
       case Forward(k) => s.factor <= k < |s.tables|
       case Give(k) => s.factor <= k < |s.tables| && s.tables[k].queue == []
       case TakeIn(k) => k < |s.tables|
       case Down(k, base, sizes, total) => k < base && base + |sizes| <= |s.tables| && total > 0
  }

  /** What moves where. */
  function Transfer(s: State, step: Step): (s': State)
    requires Enabled(s, step)
  {
    match step
    case Forward(k) => ForwardNew(s, k, k - s.factor, Min(s.height, |s.tables[k].queue|))
    case Give(k) => GiveUp(s, k, k - s.factor, Gift(s, k))
    case TakeIn(k) => Adopt(s, k)
    case Down(k, base, sizes, total) =>
      var m := NewLimit(s.tables[k], s.factor, s.height);
      HandDown(s, k, base, Dues(sizes, total, OldLimit(s.tables[k], s.factor), m), m)
  }

  // ----- Conservation, where there is room -----

  /** Buffers that leave one table and are pushed to another, with some extra ones from outside. */
  lemma MovedBetween(
    tables: seq<Table>, k: nat, j: nat, t': Table, out: seq<Buffer>, own: multiset<Buffer>, extra: multiset<Buffer>,
    ring: nat)
    requires k < |tables| && j < |tables| && k != j && ring > 0 && |tables[j].queue| + |out| <= ring
    requires multiset(out) == own + extra && Holding(tables[k]) == Holding(t') + own
    ensures Held(tables[k := t'][j := Pushed(tables[j], out, ring)]) == Held(tables) + extra
  {
    var rest := tables[k := t'];
    HeldTake(tables, k, t', own);
    PushedHolding(tables[j], out, ring);
    assert rest[j] == tables[j];
    HeldPut(rest, j, Pushed(tables[j], out, ring), multiset(out));
    Regroup(Held(rest), own, extra);
  }

  lemma MovedWhole(tables: seq<Table>, k: nat, j: nat, t': Table, out: seq<Buffer>, ring: nat)
    requires k < |tables| && j < |tables| && k != j && ring > 0 && |tables[j].queue| + |out| <= ring
    requires Holding(tables[k]) == Holding(t') + multiset(out)
    ensures Held(tables[k := t'][j := Pushed(tables[j], out, ring)]) == Held(tables)
  {
    Unit(multiset(out));
    MovedBetween(tables, k, j, t', out, multiset(out), multiset{}, ring);
    Unit(Held(tables));
  }

  lemma ForwardConserves(s: State, k: nat, j: nat, m: nat)
    requires k < |s.tables| && j < |s.tables| && k != j && m <= |s.tables[k].queue| && s.ring > 0
    requires |s.tables[j].queue| + m <= s.ring
    ensures Held(ForwardNew(s, k, j, m).tables) == Held(s.tables)
  {
    QueueSplit(s.tables[k], m);
    MovedWhole(s.tables, k, j, Unqueued(s.tables[k], m), Reverse(s.tables[k].queue[..m]), s.ring);
  }

  lemma QueueSplit(t: Table, m: nat)
    requires m <= |t.queue|
    ensures Holding(t) == Holding(Unqueued(t, m)) + multiset(Reverse(t.queue[..m]))
  {
    ReverseMultiset(t.queue[..m]);
    assert t.queue == t.queue[..m] + t.queue[m..];
    Regroup(multiset(t.stock), multiset(t.queue[m..]), multiset(t.queue[..m]));
  }

  lemma StockShortened(t: Table, t': Table, n: nat)
    requires n <= |t.stock| && t'.stock == t.stock[..|t.stock| - n] && t'.queue == t.queue
    ensures Holding(t) == Holding(t') + multiset(TopOf(t.stock, n))
  {
    StockSplit(t.stock, n);
    Regroup(multiset(t'.stock), multiset(TopOf(t.stock, n)), multiset(t.queue));
  }

  lemma GiveConserves(s: State, k: nat, j: nat, n: nat)
    requires k < |s.tables| && j < |s.tables| && k != j && s.ring > 0
    requires |s.tables[j].queue| + Min(n, |s.tables[k].stock|) <= s.ring
    ensures Held(GiveUp(s, k, j, n).tables) == Held(s.tables)
  {
    var t, taken := s.tables[k], Min(n, |s.tables[k].stock|);
    StockShortened(t, Lighter(t, n, s.exact), taken);
    MovedWhole(s.tables, k, j, Lighter(t, n, s.exact), TopOf(t.stock, taken), s.ring);
  }

  lemma AdoptedHolding(t: Table, exact: bool)
    ensures Holding(Adopted(t, exact)) == Holding(t)
  {
    assert multiset(t.stock + t.queue) == multiset(t.stock) + multiset(t.queue);
    Unit(Holding(t));
  }

  lemma AdoptConserves(s: State, k: nat)
    requires k < |s.tables|
    ensures Held(Adopt(s, k).tables) == Held(s.tables)
  {
    AdoptedHolding(s.tables[k], s.exact);
    HeldPut(s.tables, k, Adopted(s.tables[k], s.exact), multiset{});
    Unit(Holding(s.tables[k]));
    Unit(Held(s.tables));
  }

  lemma HandToConserves(s: State, k: nat, j: nat, n: nat, extra: seq<Buffer>)
    requires k < |s.tables| && j < |s.tables| && k != j && s.ring > 0
    requires |s.tables[j].queue| + Min(n, |s.tables[k].stock|) + |extra| <= s.ring
    ensures Held(HandTo(s, k, j, n, extra).tables) == Held(s.tables) + multiset(extra)
  {
    var t, taken := s.tables[k], Min(n, |s.tables[k].stock|);
    var top := TopOf(t.stock, taken);
    StockShortened(t, Shortened(t, n, s.exact), taken);
    assert multiset(top + extra) == multiset(top) + multiset(extra);
    MovedBetween(s.tables, k, j, Shortened(t, n, s.exact), top + extra, multiset(top), multiset(extra), s.ring);
  }

  lemma StockGrown(t: Table, t': Table, hand: seq<Buffer>)
    requires t'.stock == t.stock + hand && t'.queue == t.queue
    ensures Holding(t') == Holding(t) + multiset(hand)
  {
    assert multiset(t.stock + hand) == multiset(t.stock) + multiset(hand);
    Regroup(multiset(t.stock), multiset(hand), multiset(t.queue));
  }

  lemma LeaveRestConserves(s: State, k: nat, to: int, hand: seq<Buffer>)
    requires k < |s.tables| && to < |s.tables| && s.ring > 0
    requires to >= 0 ==> |s.tables[to].queue| + |hand| <= s.ring
    ensures Held(LeaveRest(s, k, to, hand).tables) == Held(s.tables) + multiset(hand)
  {
    if to >= 0 {
      PushedHolding(s.tables[to], hand, s.ring);
      HeldPut(s.tables, to, Pushed(s.tables[to], hand, s.ring), multiset(hand));
    } else {
      var t' := LeaveRest(s, k, to, hand).tables[k];
      StockGrown(s.tables[k], t', hand);
      HeldPut(s.tables, k, t', multiset(hand));
    }
  }

  /** From s to s' the tables gain exactly the buffers of `hand`. */
  ghost predicate Gains(s: State, s': State, hand: seq<Buffer>) {
    Held(s'.tables) == Held(s.tables) + multiset(hand)
  }

  lemma GainsChain(s: State, mid: State, s': State, first: seq<Buffer>, second: seq<Buffer>)
    requires Gains(s, mid, first) && Gains(mid, s', second)
    ensures Gains(s, s', first + second)
  {
    assert multiset(first + second) == multiset(first) + multiset(second);
    Regroup(Held(s.tables), multiset(first), multiset(second));
  }

  lemma ServeConserves(t: Turn, k: nat, j: nat, due: Due, hand: seq<Buffer>)
    requires k < |t.s.tables| && j < |t.s.tables| && k != j && t.used <= |hand| && t.s.ring > 0
    requires |Serve(t, k, j, due, hand).s.tables[j].queue| <= t.s.ring
    ensures var t' := Serve(t, k, j, due, hand);
            Gains(t.s, t'.s, hand[t.used..t'.used])
  {
    if due.size > 0 && t.s.tables[j].cur < t.s.height {
      var used' := Min(t.used + due.newShare, |hand|);
      HandToConserves(t.s, k, j, due.oldShare, hand[t.used..used']);
    } else {
      assert hand[t.used..t.used] == [];
      Unit(Held(t.s.tables));
    }
  }

  /** So far the tables gained exactly the new buffers used. */
  ghost predicate TurnGains(s: State, t: Turn, hand: seq<Buffer>) {
    t.used <= |hand| && Gains(s, t.s, hand[..t.used])
  }

  lemma ServeGains(s: State, t: Turn, k: nat, j: nat, due: Due, hand: seq<Buffer>)
    requires k < |t.s.tables| && j < |t.s.tables| && k != j && TurnGains(s, t, hand) && t.s.ring > 0
    requires |Serve(t, k, j, due, hand).s.tables[j].queue| <= t.s.ring
    ensures TurnGains(s, Serve(t, k, j, due, hand), hand)
  {
    var t' := Serve(t, k, j, due, hand);
    ServeConserves(t, k, j, due, hand);
    GainsChain(s, t.s, t'.s, hand[..t.used], hand[t.used..t'.used]);
    assert hand[..t'.used] == hand[..t.used] + hand[t.used..t'.used];
  }

  lemma GainsNothing(s: State, hand: seq<Buffer>)
    ensures TurnGains(s, Turn(s, 0, -1), hand)
  {
    assert hand[..0] == [];
    Unit(Held(s.tables));
  }

  lemma HandOutUnfold(s: State, k: nat, base: nat, dues: seq<Due>, hand: seq<Buffer>, n: nat)
    requires k < base && base + |dues| <= |s.tables| && n < |dues| && s.ring > 0
    ensures HandOut(s, k, base, dues, hand, n + 1) ==
            Serve(HandOut(s, k, base, dues, hand, n), k, base + n, dues[n], hand)
  {
  }

  // ----- Lengths -----

  /** Every ring counts at most as many buffers as it has places, and every stock fits its array. */
  ghost predicate Bounded(s: State) {
    forall i :: 0 <= i < |s.tables| ==> |s.tables[i].queue| <= s.ring && |s.tables[i].stock| <= s.slots
  }

  ghost predicate RingsHold(s: State, lo: nat, hi: nat) {
    hi <= |s.tables| && forall j :: lo <= j < hi ==> |s.tables[j].queue| <= s.ring
  }

  /** The queues of the tables the hand-out has not reached, and of those above, are as they were. */
  lemma {:induction false} HandOutOthers(
    s: State, k: nat, base: nat, dues: seq<Due>, hand: seq<Buffer>, n: nat, j: nat)
    requires k < base && base + |dues| <= |s.tables| && n <= |dues| && s.ring > 0 && j < |s.tables|
    requires j != k && (j < base || base + n <= j)
    ensures HandOut(s, k, base, dues, hand, n).s.tables[j] == s.tables[j]
  {
    if n > 0 {
      HandOutOthers(s, k, base, dues, hand, n - 1, j);
    }
  }

  lemma HandOutStep(s: State, k: nat, base: nat, dues: seq<Due>, hand: seq<Buffer>, n: nat)
    requires k < base && base + |dues| <= |s.tables| && n < |dues| && s.ring > 0
    requires TurnGains(s, HandOut(s, k, base, dues, hand, n), hand)
    requires |HandOut(s, k, base, dues, hand, n + 1).s.tables[base + n].queue| <= s.ring
    ensures TurnGains(s, HandOut(s, k, base, dues, hand, n + 1), hand)
  {
    HandOutUnfold(s, k, base, dues, hand, n);
    ServeGains(s, HandOut(s, k, base, dues, hand, n), k, base + n, dues[n], hand);
  }

  lemma HandOutStart(s: State, k: nat, base: nat, dues: seq<Due>, hand: seq<Buffer>)
    requires k < base && base + |dues| <= |s.tables| && s.ring > 0
    ensures TurnGains(s, HandOut(s, k, base, dues, hand, 0), hand)
  {
    GainsNothing(s, hand);
  }

  /** A table's queue is done when its turn is over. */
  lemma {:induction false} HandOutSettled(
    s: State, k: nat, base: nat, dues: seq<Due>, hand: seq<Buffer>, i: nat, n: nat)
    requires k < base && base + |dues| <= |s.tables| && i < n <= |dues| && s.ring > 0
    ensures HandOut(s, k, base, dues, hand, n).s.tables[base + i] ==
            HandOut(s, k, base, dues, hand, i + 1).s.tables[base + i]
  {
    if i + 1 < n {
      HandOutSettled(s, k, base, dues, hand, i, n - 1);
      HandOutUnfold(s, k, base, dues, hand, n - 1);
    }
  }

  lemma HandOutConserves(s: State, k: nat, base: nat, dues: seq<Due>, hand: seq<Buffer>, n: nat)
    requires k < base && base + |dues| <= |s.tables| && n <= |dues| && s.ring > 0
    requires RingsHold(HandOut(s, k, base, dues, hand, n).s, base, base + n)
    ensures TurnGains(s, HandOut(s, k, base, dues, hand, n), hand)
  {
    HandOutStart(s, k, base, dues, hand);
    for i := 0 to n
      invariant TurnGains(s, HandOut(s, k, base, dues, hand, i), hand)
    {
      HandOutSettled(s, k, base, dues, hand, i, n);
      assert |HandOut(s, k, base, dues, hand, n).s.tables[base + i].queue| <= s.ring;
      HandOutStep(s, k, base, dues, hand, i);
    }
  }

  lemma SetAsideHolding(t: Table, m: nat, exact: bool)
    requires m <= |t.queue|
    ensures Holding(t) == Holding(SetAside(t, m, exact)) + multiset(t.queue[..m])
  {
    AdoptedHolding(Unqueued(t, m), exact);
    assert t.queue == t.queue[..m] + t.queue[m..];
    Regroup(multiset(t.stock), multiset(t.queue[m..]), multiset(t.queue[..m]));
  }

  lemma RestOnlyAdds(s: State, k: nat, to: int, hand: seq<Buffer>, lo: nat, hi: nat)
    requires k < |s.tables| && to < |s.tables| && s.ring > 0 && lo <= hi
    requires RingsHold(LeaveRest(s, k, to, hand), lo, hi)
    ensures RingsHold(s, lo, hi)
    ensures lo <= to < hi ==> |s.tables[to].queue| + |hand| <= s.ring
  {
    var s' := LeaveRest(s, k, to, hand);
    forall j | lo <= j < hi ensures |s.tables[j].queue| <= s.ring {
      assert |s.tables[j].queue| <= |s'.tables[j].queue|;
    }
    if lo <= to < hi {
      assert |s'.tables[to].queue| <= s'.ring;
    }
  }

  lemma HandOutAndRest(s: State, k: nat, base: nat, dues: seq<Due>, hand: seq<Buffer>)
    requires k < base && base + |dues| <= |s.tables| && s.ring > 0
    requires var t := HandOut(s, k, base, dues, hand, |dues|);
             RingsHold(LeaveRest(t.s, k, t.last, hand[t.used..]), base, base + |dues|)
    ensures var t := HandOut(s, k, base, dues, hand, |dues|);
            Gains(s, LeaveRest(t.s, k, t.last, hand[t.used..]), hand)
  {
    var t := HandOut(s, k, base, dues, hand, |dues|);
    var rest := hand[t.used..];
    RestOnlyAdds(t.s, k, t.last, rest, base, base + |dues|);
    HandOutConserves(s, k, base, dues, hand, |dues|);
    LeaveRestConserves(t.s, k, t.last, rest);
    GainsChain(s, t.s, LeaveRest(t.s, k, t.last, rest), hand[..t.used], rest);
    assert hand == hand[..t.used] + rest;
  }

  lemma HandDownConserves(s: State, k: nat, base: nat, dues: seq<Due>, m: nat)
    requires k < base && base + |dues| <= |s.tables| && m <= |s.tables[k].queue| && s.ring > 0
    requires RingsHold(HandDown(s, k, base, dues, m), base, base + |dues|)
    ensures Held(HandDown(s, k, base, dues, m).tables) == Held(s.tables)
  {
    var t' := SetAside(s.tables[k], m, s.exact);
    var hand := s.tables[k].queue[..m];
    SetAsideHolding(s.tables[k], m, s.exact);
    HeldTake(s.tables, k, t', multiset(hand));
    HandOutAndRest(s.(tables := s.tables[k := t']), k, base, dues, hand);
  }

  /** A transfer after which no ring is overfull makes and loses no buffer. */
  lemma TransferConserves(s: State, step: Step)
    requires Enabled(s, step) && Bounded(Transfer(s, step))
    ensures Held(Transfer(s, step).tables) == Held(s.tables)
  {
    var s' := Transfer(s, step);
    match step
    case Forward(k) =>
      assert |s'.tables[k - s.factor].queue| <= s'.ring;
      ForwardConserves(s, k, k - s.factor, Min(s.height, |s.tables[k].queue|));
    case Give(k) =>
      assert |s'.tables[k - s.factor].queue| <= s'.ring;
      GiveConserves(s, k, k - s.factor, Gift(s, k));
    case TakeIn(k) => AdoptConserves(s, k);
    case Down(k, base, sizes, total) =>
      var m := NewLimit(s.tables[k], s.factor, s.height);
      DownKeepsRing(s, k, base, sizes, total);
      HandDownConserves(s, k, base, Dues(sizes, total, OldLimit(s.tables[k], s.factor), m), m);
  }

  lemma DownKeepsRing(s: State, k: nat, base: nat, sizes: seq<nat>, total: nat)
    requires Enabled(s, Down(k, base, sizes, total))
    ensures SameShape(s, Transfer(s, Down(k, base, sizes, total)))
  {
    var m := NewLimit(s.tables[k], s.factor, s.height);
    HandDownShape(s, k, base, Dues(sizes, total, OldLimit(s.tables[k], s.factor), m), m);
  }

  ghost predicate SameShape(s: State, s': State) {
    && |s'.tables| == |s.tables| && s'.factor == s.factor && s'.height == s.height && s'.exact == s.exact
    && s'.ring == s.ring && s'.slots == s.slots
  }

  lemma {:induction false} HandOutShape(s: State, k: nat, base: nat, dues: seq<Due>, hand: seq<Buffer>, n: nat)
    requires k < base && base + |dues| <= |s.tables| && n <= |dues| && s.ring > 0
    ensures SameShape(s, HandOut(s, k, base, dues, hand, n).s)
  {
    if n > 0 {
      HandOutShape(s, k, base, dues, hand, n - 1);
    }
  }

  lemma HandDownShape(s: State, k: nat, base: nat, dues: seq<Due>, m: nat)
    requires k < base && base + |dues| <= |s.tables| && m <= |s.tables[k].queue| && s.ring > 0
    ensures SameShape(s, HandDown(s, k, base, dues, m))
  {
    HandOutShape(s.(tables := s.tables[k := SetAside(s.tables[k], m, s.exact)]), k, base, dues,
                 s.tables[k].queue[..m], |dues|);
  }
}
