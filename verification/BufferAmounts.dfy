// How many buffers each transfer moves, and which ones in which order, without the functions that do it.
module BufferAmounts {
  import opened Products
  import opened BufferQueue
  import opened BufferShares
  import opened BufferTransfer
  import opened BufferCounters

  // ----- One factor-th, at least one -----

  /** One may always go; more may while they are at most the fair number and one factor-th of the whole. */
  ghost predicate Allowed(m: nat, whole: nat, fair: nat, factor: nat) {
    m == 1 || (1 <= m <= fair && m * factor <= whole)
  }

  ghost predicate Greatest(m: nat, whole: nat, fair: nat, factor: nat) {
    Allowed(m, whole, fair, factor) && forall n: nat :: Allowed(n, whole, fair, factor) ==> n <= m
  }

  lemma FractionIsGreatest(whole: nat, fair: nat, factor: nat)
    requires factor > 0
    ensures Greatest(Max(Min(fair, whole / factor), 1), whole, fair, factor)
  {
    var q := whole / factor;
    Quotient(whole, factor);
    ProductStep(factor, Min(fair, q), q);
    forall n: nat | Allowed(n, whole, fair, factor) ensures n <= Max(Min(fair, q), 1) {
      if n > 1 {
        AtMostQuotient(n, whole, factor);
      }
    }
  }

  lemma AtMostQuotient(n: nat, whole: nat, factor: nat)
    requires factor > 0 && n * factor <= whole
    ensures n <= whole / factor
  {
    var q := whole / factor;
    Quotient(whole, factor);
    Distribute(q, 1, factor);
    ProductStep(factor, q, n);
  }

  /** The new buffers an SSTable sets aside for the next level, out of those in its queue. */
  ghost predicate SetsAside(m: nat, queue: nat, height: nat, factor: nat) {
    if queue == 0 then m == 0 else m <= queue && Greatest(m, queue, height, factor)
  }

  /** The old buffers it may give, or passes up when idle; only an idle one heeds the fair number. */
  ghost predicate Gives(n: nat, stock: nat, fair: nat, factor: nat) {
    if stock == 0 then n == 0 else n <= stock && Greatest(n, Min(stock, fair), Min(stock, fair), factor)
  }

  lemma NewLimitSetsAside(t: Table, factor: nat, height: nat)
    requires factor > 0
    ensures SetsAside(NewLimit(t, factor, height), |t.queue|, height, factor)
  {
    FractionIsGreatest(|t.queue|, height, factor);
  }

  lemma OldLimitGives(t: Table, factor: nat)
    requires factor > 0 && CounterOk(t, true)
    ensures Gives(OldLimit(t, factor), |t.stock|, |t.stock|, factor)
  {
    OldLimitCovered(t, factor);
    FractionIsGreatest(|t.stock|, |t.stock|, factor);
    DivideAtMost(|t.stock|, factor);
  }

  lemma ToGiveGives(stock: nat, height: nat, factor: nat)
    requires factor > 0
    ensures Gives(ToGive(stock, height, factor), stock, height, factor)
  {
    var whole := Min(stock, height);
    GiftWithinStock(stock, height, factor);
    FractionIsGreatest(whole, whole, factor);
    DivideAtMost(whole, factor);
  }

  /** The share of a batch is its proportion of the limit, rounded down. */
  lemma ShareIsFloor(size: nat, total: nat, limit: nat)
    requires total > 0
    ensures Share(size, total, limit) * total <= size * limit < (Share(size, total, limit) + 1) * total
  {
    Quotient(size * limit, total);
    Distribute(Share(size, total, limit), 1, total);
  }

  // ----- Up -----

  lemma {:induction false} ReverseAt(s: seq<Buffer>, i: nat)
    requires i < |s|
    ensures Reverse(s)[i] == s[|s| - 1 - i]
  {
    if i > 0 {
      ReverseAt(s[..|s| - 1], i - 1);
    }
  }

  /** Buffers received with room: behind the others, in the order they come. */
  lemma PushedWithRoom(t: Table, buffers: seq<Buffer>, ring: nat)
    requires ring > 0 && |t.queue| + |buffers| <= ring
    ensures Pushed(t, buffers, ring).queue == t.queue + buffers && Pushed(t, buffers, ring).stock == t.stock
  {
    RingPushAllFits(t.queue, buffers, ring);
  }

  /** An idle SSTable passes up the last buffers of its stock, the last one first, and no others. */
  lemma GiveMoves(s: State, k: nat) returns (n: nat, s': State)
    requires Enabled(s, Give(k)) && CounterOk(s.tables[k], true)
    ensures s' == Transfer(s, Give(k)) && Gives(n, |s.tables[k].stock|, s.height, s.factor)
    ensures var stock := s.tables[k].stock;
            Passed(s, s', k, k - s.factor, stock[..|stock| - n], [], LastFirst(stock, n))
  {
    var t, j := s.tables[k], k - s.factor;
    n := Gift(s, k);
    ToGiveGives(|t.stock|, s.height, s.factor);
    GiftCovered(s, k);
    TopIsLastFirst(t.stock, n);
    s' := TwoTables(s, k, Lighter(t, n, s.exact), j, LastFirst(t.stock, n));
  }

  /** The giver keeps this stock and this queue, j gets the buffers behind its own if it has room, nobody else changes. */
  ghost predicate Passed(
    s: State, s': State, k: nat, j: nat, stock: seq<Buffer>, queue: seq<Buffer>, buffers: seq<Buffer>)
    requires k < |s.tables| && j < |s.tables|
  {
    && |s'.tables| == |s.tables| && s'.tables[k].stock == stock && s'.tables[k].queue == queue
    && s'.tables[j].stock == s.tables[j].stock
    && (|s.tables[j].queue| + |buffers| <= s.ring ==> s'.tables[j].queue == s.tables[j].queue + buffers)
    && forall i :: 0 <= i < |s.tables| && i != k && i != j ==> s'.tables[i] == s.tables[i]
  }

  lemma TwoTables(s: State, k: nat, t: Table, j: nat, buffers: seq<Buffer>) returns (s': State)
    requires k < |s.tables| && j < |s.tables| && k != j && s.ring > 0
    ensures s' == s.(tables := s.tables[k := t][j := Pushed(s.tables[j], buffers, s.ring)])
    ensures Passed(s, s', k, j, t.stock, t.queue, buffers)
  {
    s' := s.(tables := s.tables[k := t][j := Pushed(s.tables[j], buffers, s.ring)]);
    if |s.tables[j].queue| + |buffers| <= s.ring {
      PushedWithRoom(s.tables[j], buffers, s.ring);
    }
  }

  /** The last n of a sequence, the last one first. */
  function LastFirst(s: seq<Buffer>, n: nat): (r: seq<Buffer>)
    requires n <= |s|
  {
    seq(n, i requires 0 <= i < n => s[|s| - 1 - i])
  }

  lemma TopIsLastFirst(stock: seq<Buffer>, n: nat)
    requires n <= |stock|
    ensures TopOf(stock, n) == LastFirst(stock, n)
  {
    var last := stock[|stock| - n..];
    forall i | 0 <= i < n ensures TopOf(stock, n)[i] == LastFirst(stock, n)[i] {
      ReverseAt(last, i);
    }
  }

  /** New buffers of an idle SSTable: the first ones of its queue, at most the fair number, go up in reverse. */
  lemma ForwardMoves(s: State, k: nat) returns (s': State)
    requires Enabled(s, Forward(k))
    ensures s' == Transfer(s, Forward(k))
    ensures var t := s.tables[k];
            var m := if |t.queue| < s.height then |t.queue| else s.height;
            Passed(s, s', k, k - s.factor, t.stock, t.queue[m..], LastFirst(t.queue[..m], m))
  {
    var t, j := s.tables[k], k - s.factor;
    var m := if |t.queue| < s.height then |t.queue| else s.height;
    FirstReversed(t.queue, m);
    s' := TwoTables(s, k, Unqueued(t, m), j, LastFirst(t.queue[..m], m));
  }

  lemma FirstReversed(queue: seq<Buffer>, m: nat)
    requires m <= |queue|
    ensures Reverse(queue[..m]) == LastFirst(queue[..m], m)
  {
    var first := queue[..m];
    assert first[0..] == first;
    TopIsLastFirst(first, m);
  }

  /** An SSTable takes all new buffers into its stock, in their order. */
  lemma TakeInMoves(s: State, k: nat)
    requires Enabled(s, TakeIn(k))
    ensures var t, s' := s.tables[k], Transfer(s, TakeIn(k));
            && |s'.tables| == |s.tables| && s'.tables[k].queue == [] && |s'.tables[k].stock| == |t.stock| + |t.queue|
            && (forall i :: 0 <= i < |t.stock| ==> s'.tables[k].stock[i] == t.stock[i])
            && (forall i :: 0 <= i < |t.queue| ==> s'.tables[k].stock[|t.stock| + i] == t.queue[i])
            && forall j :: 0 <= j < |s.tables| && j != k ==> s'.tables[j] == s.tables[j]
  {
  }

  // ----- Down -----

  /** A hand-down: who gives, to whom, the shares of old and new buffers, and how many new ones are set aside. */
  datatype Deal = Deal(k: nat, base: nat, sizes: seq<nat>, olds: seq<nat>, news: seq<nat>, m: nat)

  ghost predicate Sound(s: State, d: Deal) {
    && d.k < d.base && d.base + |d.sizes| <= |s.tables| && |d.olds| == |d.news| == |d.sizes| && s.ring > 0
    && d.m <= |s.tables[d.k].queue| && Sum(d.olds) <= |StockOf(s, d)| && Sum(d.news) <= d.m
  }

  /** The stock the giver hands out from, and the new buffers it set aside. */
  function StockOf(s: State, d: Deal): (stock: seq<Buffer>)
    requires d.k < |s.tables| && d.m <= |s.tables[d.k].queue|
  {
    s.tables[d.k].stock + s.tables[d.k].queue[d.m..]
  }

  function HandOf(s: State, d: Deal): (hand: seq<Buffer>)
    requires d.k < |s.tables| && d.m <= |s.tables[d.k].queue|
    ensures |hand| == d.m
  {
    s.tables[d.k].queue[..d.m]
  }

  /** The i-th SSTable of the next level has a batch and fewer than the fair number of buffers. */
  predicate Eligible(s: State, d: Deal, i: nat) {
    i < |d.sizes| && d.base + i < |s.tables| && d.sizes[i] > 0 && s.tables[d.base + i].cur < s.height
  }

  /** The shares of the eligible ones among the first n. */
  function Given(s: State, d: Deal, shares: seq<nat>, n: nat): (sum: nat)
    requires n <= |shares|
  {
    if n == 0 then 0 else Given(s, d, shares, n - 1) + if Eligible(s, d, n - 1) then shares[n - 1] else 0
  }

  /** The last eligible one among the first n, or -1. */
  function LastEligible(s: State, d: Deal, n: nat): (i: int)
    ensures -1 <= i < n && (i >= 0 ==> Eligible(s, d, i))
    ensures forall j: nat :: i < j < n ==> !Eligible(s, d, j)
  {
    if n == 0 then -1 else if Eligible(s, d, n - 1) then n - 1 else LastEligible(s, d, n - 1)
  }

  lemma {:induction false} GivenWithinSum(s: State, d: Deal, shares: seq<nat>, n: nat)
    requires n <= |shares|
    ensures Given(s, d, shares, n) <= Sum(shares[..n]) <= Sum(shares)
  {
    PrefixSum(shares, n);
    if n > 0 {
      GivenWithinSum(s, d, shares, n - 1);
      SumStep(shares, n - 1);
    }
  }

  /** So no share is cut short. */
  lemma NothingCut(s: State, d: Deal, shares: seq<nat>, i: nat)
    requires i < |shares|
    ensures Given(s, d, shares, i) + shares[i] <= Sum(shares)
  {
    GivenWithinSum(s, d, shares, i);
    SumStep(shares, i);
    PrefixSum(shares, i + 1);
  }

  /** What is left of the giver's stock after n turns. */
  ghost function Left(s: State, d: Deal, n: nat): (stock: seq<Buffer>)
    requires Sound(s, d) && n <= |d.sizes|
    ensures |stock| + Given(s, d, d.olds, n) == |StockOf(s, d)|
  {
    GivenWithinSum(s, d, d.olds, n);
    StockOf(s, d)[..|StockOf(s, d)| - Given(s, d, d.olds, n)]
  }

  /** The new buffers the i-th SSTable gets, and those left after n turns. */
  ghost function NewOf(s: State, d: Deal, i: nat): (got: seq<Buffer>)
    requires Sound(s, d) && i < |d.sizes|
  {
    NothingCut(s, d, d.news, i);
    HandOf(s, d)[Given(s, d, d.news, i)..Given(s, d, d.news, i) + d.news[i]]
  }

  ghost function NewLeft(s: State, d: Deal, n: nat): (left: seq<Buffer>)
    requires Sound(s, d) && n <= |d.sizes|
  {
    GivenWithinSum(s, d, d.news, n);
    HandOf(s, d)[Given(s, d, d.news, n)..]
  }

  /** What the i-th SSTable gets in its turn: old buffers off the end of the stock, the last one first, then new ones. */
  ghost function GotBy(s: State, d: Deal, i: nat): (got: seq<Buffer>)
    requires Sound(s, d) && i < |d.sizes|
  {
    NothingCut(s, d, d.olds, i);
    if Eligible(s, d, i) then LastFirst(Left(s, d, i), d.olds[i]) + NewOf(s, d, i) else []
  }

  // ----- The hand-out, turn by turn -----

  /** The giver and the count of new buffers used after n turns. */
  ghost predicate GiverIs(s: State, d: Deal, t: Turn, n: nat)
    requires Sound(s, d) && n <= |d.sizes|
  {
    && SameShape(s, t.s) && t.used == Given(s, d, d.news, n) <= d.m
    && t.last == (if LastEligible(s, d, n) < 0 then -1 else d.base + LastEligible(s, d, n))
    && t.s.tables[d.k].stock == Left(s, d, n) && t.s.tables[d.k].queue == []
  }

  /** The i-th SSTable has got what is due to it. */
  ghost predicate Dealt(s: State, d: Deal, s': State, i: nat)
    requires Sound(s, d) && |s'.tables| == |s.tables|
  {
    i < |d.sizes|
    && s'.tables[d.base + i].stock == s.tables[d.base + i].stock
    && s'.tables[d.base + i].queue == RingPushAll(s.tables[d.base + i].queue, GotBy(s, d, i), s.ring)
  }

  /** Those who have had their turn have got what is due to them, the others have what they had. */
  ghost predicate OthersAre(s: State, d: Deal, s': State, n: nat)
    requires Sound(s, d) && n <= |d.sizes| && |s'.tables| == |s.tables|
  {
    && (forall i: nat :: i < n ==> Dealt(s, d, s', i))
    && forall j :: 0 <= j < |s.tables| && j != d.k && !(d.base <= j < d.base + n) ==> s'.tables[j] == s.tables[j]
  }

  function DueOf(d: Deal, i: nat): (due: Due)
    requires i < |d.sizes| && i < |d.olds| && i < |d.news|
  {
    Due(d.sizes[i], d.olds[i], d.news[i])
  }

  lemma ServeMoves(s: State, d: Deal, t: Turn, n: nat) returns (t': Turn)
    requires Sound(s, d) && n < |d.sizes| && GiverIs(s, d, t, n) && t.s.tables[d.base + n] == s.tables[d.base + n]
    ensures t' == Serve(t, d.k, d.base + n, DueOf(d, n), HandOf(s, d)) && GiverIs(s, d, t', n + 1)
    ensures Dealt(s, d, t'.s, n)
    ensures forall j :: 0 <= j < |s.tables| && j != d.k && j != d.base + n ==> t'.s.tables[j] == t.s.tables[j]
  {
    if Eligible(s, d, n) {
      t' := ServeEligible(s, d, t, n);
    } else {
      t' := t;
      assert GotBy(s, d, n) == [] && Left(s, d, n + 1) == Left(s, d, n);
    }
  }

  lemma ServeEligible(s: State, d: Deal, t: Turn, n: nat) returns (t': Turn)
    requires Sound(s, d) && n < |d.sizes| && GiverIs(s, d, t, n) && t.s.tables[d.base + n] == s.tables[d.base + n]
    requires Eligible(s, d, n)
    ensures t' == Serve(t, d.k, d.base + n, DueOf(d, n), HandOf(s, d)) && GiverIs(s, d, t', n + 1)
    ensures Dealt(s, d, t'.s, n)
    ensures forall j :: 0 <= j < |s.tables| && j != d.k && j != d.base + n ==> t'.s.tables[j] == t.s.tables[j]
  {
    var stock, got := TurnFacts(s, d, n);
    var giver, served := ServeTables(t, d.k, d.base + n, DueOf(d, n), HandOf(s, d));
    t' := Turn(t.s.(tables := t.s.tables[d.k := giver][d.base + n := served]), t.used + d.news[n], d.base + n);
  }

  /** The stock and the new buffers used after an eligible SSTable's turn, and what it gets. */
  lemma TurnFacts(s: State, d: Deal, n: nat) returns (stock: seq<Buffer>, got: seq<Buffer>)
    requires Sound(s, d) && n < |d.sizes| && Eligible(s, d, n)
    ensures stock == Left(s, d, n) && d.olds[n] <= |stock| && Left(s, d, n + 1) == stock[..|stock| - d.olds[n]]
    ensures LastEligible(s, d, n + 1) == n && Given(s, d, d.news, n + 1) == Given(s, d, d.news, n) + d.news[n] <= d.m
    ensures got == GotBy(s, d, n)
    ensures got == LastFirst(stock, d.olds[n])
                   + HandOf(s, d)[Given(s, d, d.news, n)..Given(s, d, d.news, n) + d.news[n]]
  {
    NothingCut(s, d, d.olds, n);
    NothingCut(s, d, d.news, n);
    stock, got := Left(s, d, n), GotBy(s, d, n);
    assert Given(s, d, d.olds, n + 1) == Given(s, d, d.olds, n) + d.olds[n];
    assert Left(s, d, n + 1) == stock[..|stock| - d.olds[n]];
  }

  /** One turn that finds its whole shares. */
  lemma ServeTables(t: Turn, k: nat, j: nat, due: Due, hand: seq<Buffer>) returns (giver: Table, served: Table)
    requires k < |t.s.tables| && j < |t.s.tables| && k != j && t.s.ring > 0 && t.used + due.newShare <= |hand|
    requires due.oldShare <= |t.s.tables[k].stock| && due.size > 0 && t.s.tables[j].cur < t.s.height
    ensures var stock, was := t.s.tables[k].stock, t.s.tables[j];
            && giver.stock == stock[..|stock| - due.oldShare] && giver.queue == t.s.tables[k].queue
            && served.stock == was.stock
            && served.queue == RingPushAll(was.queue, LastFirst(stock, due.oldShare)
                                                      + hand[t.used..t.used + due.newShare], t.s.ring)
    ensures Serve(t, k, j, due, hand) == Turn(t.s.(tables := t.s.tables[k := giver][j := served]), t.used + due.newShare, j)
  {
    var stock := t.s.tables[k].stock;
    TopIsLastFirst(stock, due.oldShare);
    giver := Shortened(t.s.tables[k], due.oldShare, t.s.exact);
    served := Pushed(t.s.tables[j], LastFirst(stock, due.oldShare) + hand[t.used..t.used + due.newShare], t.s.ring);
  }

  lemma OthersStep(s: State, d: Deal, a: State, b: State, n: nat)
    requires Sound(s, d) && n < |d.sizes| && |a.tables| == |b.tables| == |s.tables|
    requires OthersAre(s, d, a, n) && Dealt(s, d, b, n)
    requires forall j :: 0 <= j < |s.tables| && j != d.k && j != d.base + n ==> b.tables[j] == a.tables[j]
    ensures OthersAre(s, d, b, n + 1)
  {
    forall i: nat | i < n + 1 ensures Dealt(s, d, b, i) {
      assert i < n ==> Dealt(s, d, a, i);
    }
  }

  ghost function TurnsOf(s: State, d: Deal, n: nat): (t: Turn)
    requires Sound(s, d) && n <= |d.sizes|
    ensures |t.s.tables| == |s.tables| && t.used <= d.m && t.last < |s.tables| && t.s.ring == s.ring
  {
    HandOut(s.(tables := s.tables[d.k := SetAside(s.tables[d.k], d.m, s.exact)]), d.k, d.base,
            seq(|d.sizes|, i requires 0 <= i < |d.sizes| => DueOf(d, i)), HandOf(s, d), n)
  }

  lemma TurnsStep(s: State, d: Deal, n: nat)
    requires Sound(s, d) && n < |d.sizes| && GiverIs(s, d, TurnsOf(s, d, n), n) && OthersAre(s, d, TurnsOf(s, d, n).s, n)
    ensures GiverIs(s, d, TurnsOf(s, d, n + 1), n + 1) && OthersAre(s, d, TurnsOf(s, d, n + 1).s, n + 1)
  {
    var t := TurnsOf(s, d, n);
    var t' := ServeMoves(s, d, t, n);
    OthersStep(s, d, t.s, t'.s, n);
    HandOutUnfold(s.(tables := s.tables[d.k := SetAside(s.tables[d.k], d.m, s.exact)]), d.k, d.base,
                  seq(|d.sizes|, i requires 0 <= i < |d.sizes| => DueOf(d, i)), HandOf(s, d), n);
  }

  lemma TurnsDeal(s: State, d: Deal, n: nat)
    requires Sound(s, d) && n <= |d.sizes|
    ensures GiverIs(s, d, TurnsOf(s, d, n), n) && OthersAre(s, d, TurnsOf(s, d, n).s, n)
  {
    assert StockOf(s, d)[..|StockOf(s, d)|] == StockOf(s, d);
    for i := 0 to n
      invariant GiverIs(s, d, TurnsOf(s, d, i), i) && OthersAre(s, d, TurnsOf(s, d, i).s, i)
    {
      TurnsStep(s, d, i);
    }
  }

  // ----- The whole hand-down -----

  /** What a hand-down leaves with table j. */
  ghost predicate HandsDown(s: State, s': State, d: Deal, j: nat)
    requires Sound(s, d) && |s'.tables| == |s.tables| && j < |s.tables|
  {
    var n, was, is_ := |d.sizes|, s.tables[j], s'.tables[j];
    var last, rest := LastEligible(s, d, n), NewLeft(s, d, n);
    if j == d.k then is_.queue == [] && is_.stock == Left(s, d, n) + (if last < 0 then rest else [])
    else if d.base <= j < d.base + n then
      && is_.stock == was.stock
      && is_.queue == RingPushAll(was.queue, GotBy(s, d, j - d.base) + (if last == j - d.base then rest else []), s.ring)
    else is_ == was
  }

  lemma RestGoesOn(s: State, d: Deal, t: Turn, j: nat)
    requires Sound(s, d) && j < |s.tables| && GiverIs(s, d, t, |d.sizes|) && OthersAre(s, d, t.s, |d.sizes|)
    ensures var s' := LeaveRest(t.s, d.k, t.last, HandOf(s, d)[t.used..]);
            |s'.tables| == |s.tables| && HandsDown(s, s', d, j)
  {
    var rest := NewLeft(s, d, |d.sizes|);
    if d.base <= j < d.base + |d.sizes| {
      var i := j - d.base;
      assert Dealt(s, d, t.s, i);
      RingPushAllConcat(s.tables[j].queue, GotBy(s, d, i), rest, s.ring);
      assert GotBy(s, d, i) + [] == GotBy(s, d, i);
    } else {
      assert Left(s, d, |d.sizes|) + [] == Left(s, d, |d.sizes|);
    }
  }

  lemma DealIsHandDown(s: State, d: Deal, j: nat)
    requires Sound(s, d) && j < |s.tables|
    ensures var s' := HandDown(s, d.k, d.base, seq(|d.sizes|, i requires 0 <= i < |d.sizes| => DueOf(d, i)), d.m);
            |s'.tables| == |s.tables| && HandsDown(s, s', d, j)
  {
    TurnsDeal(s, d, |d.sizes|);
    RestGoesOn(s, d, TurnsOf(s, d, |d.sizes|), j);
  }

  /** The shares are the proportions of the limit, rounded down. */
  ghost predicate Floors(shares: seq<nat>, sizes: seq<nat>, total: nat, limit: nat) {
    |shares| == |sizes|
    && forall i :: 0 <= i < |shares| ==> shares[i] * total <= sizes[i] * limit < (shares[i] + 1) * total
  }

  lemma SharesAreFloors(sizes: seq<nat>, total: nat, limit: nat)
    requires total > 0
    ensures Floors(Shares(sizes, total, limit), sizes, total, limit)
  {
    forall i | 0 <= i < |sizes|
      ensures var share := Shares(sizes, total, limit)[i]; share * total <= sizes[i] * limit < (share + 1) * total
    {
      ShareIsFloor(sizes[i], total, limit);
    }
  }

  /**
   * A hand-down, with exact counters and batches that fit the total. The SSTable sets aside the greatest allowed
   * number m of its new buffers, the first ones, and takes the others in. Each eligible SSTable of the next level gets
   * its proportion of the o old buffers that may go and of those set aside, rounded down, and the last of them what
   * is left of the latter as well (the giver itself if there is none). Nobody else gets anything.
   */
  lemma HandDownMoves(s: State, k: nat, base: nat, sizes: seq<nat>, total: nat) returns (o: nat, d: Deal)
    requires Enabled(s, Down(k, base, sizes, total)) && CounterOk(s.tables[k], true) && Sum(sizes) <= total
    ensures Sound(s, d) && d.k == k && d.base == base && d.sizes == sizes
    ensures SetsAside(d.m, |s.tables[k].queue|, s.height, s.factor)
    ensures Gives(o, |s.tables[k].stock|, |s.tables[k].stock|, s.factor)
    ensures Floors(d.olds, sizes, total, o) && Floors(d.news, sizes, total, d.m)
    ensures var s' := Transfer(s, Down(k, base, sizes, total));
            |s'.tables| == |s.tables| && forall j: nat :: j < |s.tables| ==> HandsDown(s, s', d, j)
  {
    var t := s.tables[k];
    o := OldLimit(t, s.factor);
    var m := NewLimit(t, s.factor, s.height);
    NewLimitSetsAside(t, s.factor, s.height);
    OldLimitGives(t, s.factor);
    d := Dealing(s, k, base, sizes, total, o, m);
    forall j: nat | j < |s.tables| ensures HandsDown(s, HandDown(s, k, base, Dues(sizes, total, o, m), m), d, j) {
      DealIsHandDown(s, d, j);
    }
  }

  lemma Dealing(s: State, k: nat, base: nat, sizes: seq<nat>, total: nat, o: nat, m: nat) returns (d: Deal)
    requires Enabled(s, Down(k, base, sizes, total)) && Sum(sizes) <= total
    requires o <= |s.tables[k].stock| && m <= |s.tables[k].queue|
    ensures Sound(s, d) && d.k == k && d.base == base && d.sizes == sizes && d.m == m
    ensures Floors(d.olds, sizes, total, o) && Floors(d.news, sizes, total, m)
    ensures seq(|d.sizes|, i requires 0 <= i < |d.sizes| => DueOf(d, i)) == Dues(sizes, total, o, m)
    ensures |HandDown(s, k, base, Dues(sizes, total, o, m), m).tables| == |s.tables|
  {
    d := Deal(k, base, sizes, Shares(sizes, total, o), Shares(sizes, total, m), m);
    SharesFit(sizes, total, o);
    SharesFit(sizes, total, m);
    SharesAreFloors(sizes, total, o);
    SharesAreFloors(sizes, total, m);
    HandDownShape(s, k, base, Dues(sizes, total, o, m), m);
  }
}
