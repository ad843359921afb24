// The loops that move buffers one by one, proved to do the transfers of BufferTransfer.
module BufferMoves {
  import opened BufferQueue
  import opened BufferShares
  import opened BufferTransfer
  import opened BufferRoom

  lemma {:induction false} ReversePrepend(x: Buffer, s: seq<Buffer>)
    ensures Reverse([x] + s) == Reverse(s) + [x]
  {
    if s != [] {
      var front, last := s[..|s| - 1], s[|s| - 1];
      assert ([x] + s)[..|s|] == [x] + front;
      ReversePrepend(x, front);
      assert Reverse([x] + s) == [last] + Reverse([x] + front);
    } else {
      assert [x] + s == [x];
      assert Reverse([x]) == [x] + Reverse([x][..0]);
    }
  }

  lemma TopOfNext(stock: seq<Buffer>, n: nat)
    requires n < |stock|
    ensures TopOf(stock, n + 1) == TopOf(stock, n) + [stock[|stock| - 1 - n]]
  {
    var k := |stock| - 1 - n;
    assert stock[k..] == [stock[k]] + stock[k + 1..];
    ReversePrepend(stock[k], stock[k + 1..]);
  }

  /** One push_back. */
  function PushedOne(t: Table, b: Buffer, ring: nat): (t': Table)
    requires ring > 0
  {
    t.(queue := RingPush(t.queue, b, ring), cur := t.cur + 1)
  }

  lemma PushedNext(t: Table, buffers: seq<Buffer>, b: Buffer, ring: nat)
    requires ring > 0
    ensures PushedOne(Pushed(t, buffers, ring), b, ring) == Pushed(t, buffers + [b], ring)
  {
    RingPushAllConcat(t.queue, buffers, [b], ring);
    RingPushOne(RingPushAll(t.queue, buffers, ring), b, ring);
  }

  /** Buffers come off the end of the stock (--insert_buffers_from) and are pushed on a queue, full or not. */
  method MoveStock(stock: seq<Buffer>, t: Table, n: nat, ring: nat) returns (insertFrom: nat, t': Table)
    requires n <= |stock| && ring > 0
    ensures insertFrom == |stock| - n && t' == Pushed(t, TopOf(stock, n), ring)
  {
    insertFrom, t' := |stock|, t;
    for i := 0 to n
      invariant insertFrom == |stock| - i && t' == Pushed(t, TopOf(stock, i), ring)
    {
      insertFrom := insertFrom - 1;
      TopOfNext(stock, i);
      PushedNext(t, TopOf(stock, i), stock[insertFrom], ring);
      t' := PushedOne(t', stock[insertFrom], ring);
    }
  }

  /** New buffers are pushed in the order they were popped, as long as there are any left. */
  method MoveNew(hand: seq<Buffer>, given: nat, t: Table, share: nat, ring: nat) returns (given': nat, t': Table)
    requires given <= |hand| && ring > 0
    ensures given' == Min(given + share, |hand|) && t' == Pushed(t, hand[given..given'], ring)
  {
    given', t' := given, t;
    var j := 0;
    while j < share && given' < |hand|
      invariant j <= share && given' == given + j && given' <= |hand|
      invariant t' == Pushed(t, hand[given..given'], ring)
    {
      PushedNext(t, hand[given..given'], hand[given'], ring);
      assert hand[given..given' + 1] == hand[given..given'] + [hand[given']];
      t' := PushedOne(t', hand[given'], ring);
      given' := given' + 1;
      j := j + 1;
    }
  }

  lemma PushedTwice(t: Table, first: seq<Buffer>, second: seq<Buffer>, ring: nat)
    requires ring > 0
    ensures Pushed(Pushed(t, first, ring), second, ring) == Pushed(t, first + second, ring)
  {
    RingPushAllConcat(t.queue, first, second, ring);
  }

  /** One SSTable of the next level is given its shares. */
  method ServeOne(t: Turn, k: nat, j: nat, due: Due, hand: seq<Buffer>) returns (t': Turn)
    requires k < |t.s.tables| && j < |t.s.tables| && k != j && t.used <= |hand| && t.s.ring > 0
    ensures t' == Serve(t, k, j, due, hand)
  {
    t' := t;
    if due.size > 0 && t.s.tables[j].cur < t.s.height {
      var giver := t.s.tables[k];
      var n := Min(due.oldShare, |giver.stock|);
      var from, afterOld := MoveStock(giver.stock, t.s.tables[j], n, t.s.ring);
      var used', afterNew := MoveNew(hand, t.used, afterOld, due.newShare, t.s.ring);
      PushedTwice(t.s.tables[j], TopOf(giver.stock, n), hand[t.used..used'], t.s.ring);
      t' := Turn(t.s.(tables := t.s.tables[k := Shortened(giver, due.oldShare, t.s.exact)][j := afterNew]), used', j);
    }
  }

  /** The whole hand-out of insert_into_wqs: set aside, adopt, serve each SSTable in turn, leave no rest. */
  method HandDownLoop(s: State, k: nat, base: nat, dues: seq<Due>, m: nat) returns (s': State)
    requires k < base && base + |dues| <= |s.tables| && m <= |s.tables[k].queue| && s.ring > 0
    ensures s' == HandDown(s, k, base, dues, m)
    ensures Total(s'.tables) == Total(s.tables)
    ensures Bounded(s) && DownRoom(s, k, base, dues, m) ==> Held(s'.tables) == Held(s.tables)
  {
    var hand := s.tables[k].queue[..m];
    var s0 := s.(tables := s.tables[k := SetAside(s.tables[k], m, s.exact)]);
    var t := Turn(s0, 0, -1);
    for i := 0 to |dues|
      invariant t == HandOut(s0, k, base, dues, hand, i)
    {
      HandOutUnfold(s0, k, base, dues, hand, i);
      t := ServeOne(t, k, base + i, dues[i], hand);
    }
    s' := LeaveRest(t.s, k, t.last, hand[t.used..]);
    HandDownTotal(s, k, base, dues, m);
    DownKeepsWithRoom(s, k, base, dues, m);
  }

  lemma DownKeepsWithRoom(s: State, k: nat, base: nat, dues: seq<Due>, m: nat)
    requires k < base && base + |dues| <= |s.tables| && m <= |s.tables[k].queue| && s.ring > 0
    ensures Bounded(s) && DownRoom(s, k, base, dues, m) ==> Held(HandDown(s, k, base, dues, m).tables) == Held(s.tables)
  {
    if Bounded(s) && DownRoom(s, k, base, dues, m) {
      DownRoomExactly(s, k, base, dues, m);
      HandDownShape(s, k, base, dues, m);
      HandDownConserves(s, k, base, dues, m);
    }
  }

  /** An idle SSTable pops at most the fair number of new buffers and pushes them up in reverse. */
  method ForwardLoop(s: State, k: nat, j: nat) returns (s': State)
    requires k < |s.tables| && j < |s.tables| && k != j && s.ring > 0
    ensures s' == ForwardNew(s, k, j, Min(s.height, |s.tables[k].queue|))
    ensures |s.tables[j].queue| + Min(s.height, |s.tables[k].queue|) <= s.ring ==> Held(s'.tables) == Held(s.tables)
  {
    var t := s.tables[k];
    var m := Min(s.height, |t.queue|);
    var collected: seq<Buffer> := [];
    for i := 0 to m
      invariant collected == t.queue[..i]
    {
      assert t.queue[..i + 1] == t.queue[..i] + [t.queue[i]];
      collected := collected + [t.queue[i]];
    }
    var insertFrom, above := MoveStock(collected, s.tables[j], m, s.ring);
    assert collected[0..] == collected;
    s' := s.(tables := s.tables[k := Unqueued(t, m)][j := above]);
    if |s.tables[j].queue| + m <= s.ring {
      ForwardConserves(s, k, j, m);
    }
  }
}
