// The operations on batches are steps of the batch lifecycle: a decomposition is one split, the main thread's
// dispatch is a run of moves.
module BatchFlow {
  import opened Multisets
  import opened RequestPool
  import opened LevelRouting
  import opened RoutingLaws
  import Life = BatchLifecycle
  import Front = FrontEnd

  // ----- From requests to their sockets -----

  function Socks(requests: seq<Request>): (socks: seq<int>)
    ensures |socks| == |requests|
  {
    if requests == [] then [] else Socks(requests[..|requests| - 1]) + [requests[|requests| - 1].value.sock]
  }

  lemma {:induction false} SocksAt(requests: seq<Request>, i: nat)
    requires i < |requests|
    ensures Socks(requests)[i] == requests[i].value.sock
  {
    if i < |requests| - 1 {
      SocksAt(requests[..|requests| - 1], i);
    }
  }

  lemma {:induction false} SocksConcat(a: seq<Request>, b: seq<Request>)
    ensures Socks(a + b) == Socks(a) + Socks(b)
  {
    if b == [] {
      assert a + b == a;
    } else {
      assert (a + b)[..|a + b| - 1] == a + b[..|b| - 1];
      SocksConcat(a, b[..|b| - 1]);
    }
  }

  /** The requests that still have a client. */
  function LiveRequests(requests: seq<Request>): (live: seq<Request>) {
    if requests == [] then []
    else
      var last := requests[|requests| - 1];
      LiveRequests(requests[..|requests| - 1]) + if Live(last) then [last] else []
  }

  lemma {:induction false} LiveRequestsTimes(requests: seq<Request>, r: Request)
    ensures multiset(LiveRequests(requests))[r] == if Live(r) then multiset(requests)[r] else 0
  {
    if requests != [] {
      LiveRequestsTimes(requests[..|requests| - 1], r);
      assert requests == requests[..|requests| - 1] + [requests[|requests| - 1]];
    }
  }

  /** How often a socket is live. */
  function Times(requests: seq<Request>, sock: int): (n: nat) {
    Life.LiveOf(Socks(requests))[sock]
  }

  lemma {:induction false} LiveRequestsSocks(requests: seq<Request>, sock: int)
    ensures Times(LiveRequests(requests), sock) == Times(requests, sock)
  {
    if requests != [] {
      var front, last := requests[..|requests| - 1], requests[|requests| - 1];
      LiveRequestsSocks(front, sock);
      assert requests == front + [last];
      OneMore(front, last, sock);
      if Live(last) {
        OneMore(LiveRequests(front), last, sock);
      } else {
        assert LiveRequests(front) + [] == LiveRequests(front);
      }
    }
  }

  lemma OneMore(requests: seq<Request>, r: Request, sock: int)
    ensures Times(requests + [r], sock) == Times(requests, sock) + if Live(r) && r.value.sock == sock then 1 else 0
  {
    assert (requests + [r])[..|requests|] == requests;
    var socks := Socks(requests);
    assert (socks + [r.value.sock])[..|socks|] == socks;
  }

  lemma LiveSplit(a: seq<Request>, b: seq<Request>)
    ensures Life.LiveOf(Socks(a + b)) == Life.LiveOf(Socks(a)) + Life.LiveOf(Socks(b))
  {
    SocksConcat(a, b);
    Life.LiveConcat(Socks(a), Socks(b));
  }

  /** Reordering requests does not change which sockets are live. */
  lemma {:induction false} SocksOfPermutation(a: seq<Request>, b: seq<Request>)
    requires multiset(a) == multiset(b)
    ensures Life.LiveOf(Socks(a)) == Life.LiveOf(Socks(b))
    decreases |a|
  {
    if a == [] {
      assert |multiset(b)| == 0;
    } else {
      var front, last := a[..|a| - 1], a[|a| - 1];
      assert a == front + [last];
      assert last in multiset(b);
      var j :| 0 <= j < |b| && b[j] == last;
      var rest := b[..j] + b[j + 1..];
      assert b == b[..j] + ([last] + b[j + 1..]);
      assert multiset(b) == multiset(rest) + multiset{last};
      Cancel(multiset(front), multiset(rest), multiset{last});
      SocksOfPermutation(front, rest);
      LiveSplit(front, [last]);
      LiveSplit(b[..j], [last] + b[j + 1..]);
      LiveSplit([last], b[j + 1..]);
      LiveSplit(b[..j], b[j + 1..]);
      Regroup(Life.LiveOf(Socks(b[..j])), Life.LiveOf(Socks([last])), Life.LiveOf(Socks(b[j + 1..])));
    }
  }

  // ----- A decomposition is a split -----

  function Joined(parts: seq<seq<Request>>, k: nat): (all: seq<Request>)
    requires k <= |parts|
  {
    if k == 0 then [] else Joined(parts, k - 1) + parts[k - 1]
  }

  function SocksOfParts(parts: seq<seq<Request>>): (socks: seq<seq<int>>)
    ensures |socks| == |parts|
  {
    seq(|parts|, t requires 0 <= t < |parts| => Socks(parts[t]))
  }

  lemma {:induction false} JoinedSocks(parts: seq<seq<Request>>, k: nat, sock: int)
    requires k <= |parts|
    ensures Times(Joined(parts, k), sock) == Life.LiveOfAll(SocksOfParts(parts), k)[sock]
  {
    if k > 0 {
      JoinedSocks(parts, k - 1, sock);
      TimesSplit(Joined(parts, k - 1), parts[k - 1], sock);
    }
  }

  lemma TimesSplit(a: seq<Request>, b: seq<Request>, sock: int)
    ensures Times(a + b, sock) == Times(a, sock) + Times(b, sock)
  {
    LiveSplit(a, b);
  }

  lemma {:induction false} JoinedTimes(
    parts: seq<seq<Request>>, input: seq<Request>, level: Level, skip: nat, k: nat, r: Request)
    requires IsDecomposition(parts, input, level, skip) && k <= |parts|
    ensures multiset(Joined(parts, k))[r] == TotalTimes(level, input, skip, k, r)
  {
    if k > 0 {
      JoinedTimes(parts, input, level, skip, k - 1, r);
      assert multiset(parts[k - 1])[r] == PartTimes(level, input, skip, k - 1, r);
    }
  }

  /**
   * What decompose leaves, overlapping ranges or not, is a step of the lifecycle: the parts hold exactly the
   * clients that were live in the input.
   */
  lemma DecompositionIsSplit(parts: seq<seq<Request>>, input: seq<Request>, level: Level, skip: nat)
    requires IsDecomposition(parts, input, level, skip) && |level.ranges| <= skip
    ensures Life.LiveOfAll(SocksOfParts(parts), |parts|) == Life.LiveOf(Socks(input))
  {
    var all := Joined(parts, |parts|);
    forall r ensures multiset(LiveRequests(all))[r] == multiset(LiveRequests(input))[r] {
      LiveRequestsTimes(all, r);
      LiveRequestsTimes(input, r);
      JoinedTimes(parts, input, level, skip, |parts|, r);
      if Live(r) {
        LiveExactlyOnce(level, input, skip, r);
      }
    }
    assert multiset(LiveRequests(all)) == multiset(LiveRequests(input));
    SocksOfPermutation(LiveRequests(all), LiveRequests(input));
    forall sock ensures Life.LiveOfAll(SocksOfParts(parts), |parts|)[sock] == Life.LiveOf(Socks(input))[sock] {
      LiveRequestsSocks(all, sock);
      LiveRequestsSocks(input, sock);
      JoinedSocks(parts, |parts|, sock);
    }
  }

  /** So decomposing a batch of the lifecycle is an enabled step, whatever is left in the input's array. */
  lemma DecomposeIsStep(
    s: Life.State, b: nat, left: seq<int>, parts: seq<seq<Request>>, input: seq<Request>, level: Level, skip: nat,
    capacity: nat)
    requires Life.Inv(s) && b < |s.batches| && b != s.filling && s.batches[b].stage.Active?
    requires s.batches[b].socks == Socks(input) && |left| == |input|
    requires IsDecomposition(parts, input, level, skip) && |level.ranges| <= skip
    ensures var step := Life.Split(b, left, SocksOfParts(parts));
            Life.Enabled(s, step, capacity) && Life.Inv(Life.Apply(s, step, capacity))
  {
    DecompositionIsSplit(parts, input, level, skip);
    Life.StepKeepsInv(s, Life.Split(b, left, SocksOfParts(parts)), capacity);
  }

  // ----- Dispatch is a run of moves -----

  function Owners(batch: seq<Front.Req>): (socks: seq<int>)
    ensures |socks| == |batch| && forall i :: 0 <= i < |socks| ==> socks[i] == batch[i].sock
  {
    seq(|batch|, i requires 0 <= i < |batch| => batch[i].sock)
  }

  /** The lifecycle after n requests of batch b were dispatched, the reads going to batch `to`. */
  ghost predicate Dispatched(
    s: Life.State, now: Life.State, b: nat, to: nat, f: Front.Front, batch: seq<Front.Req>, n: nat, room: nat)
    requires b < |s.batches| && to < |s.batches| && b != to && n <= |batch|
  {
    now == s.(batches :=
      s.batches[b := s.batches[b].(socks := Owners(Front.Kept(f, batch, n, room) + batch[n..]))]
               [to := s.batches[to].(socks := s.batches[to].socks + Owners(Front.PassedOn(f, batch, n, room)))])
  }

  lemma OwnersSplit(a: seq<Front.Req>, b: seq<Front.Req>)
    ensures Owners(a + b) == Owners(a) + Owners(b)
  {
  }

  lemma {:induction false} ExtendRun(s: Life.State, steps: seq<Life.Step>, step: Life.Step, capacity: nat)
    requires Life.IsRun(s, steps, capacity) && Life.Enabled(Life.Final(s, steps, capacity), step, capacity)
    ensures Life.IsRun(s, steps + [step], capacity)
    ensures Life.Final(s, steps + [step], capacity) == Life.Apply(Life.Final(s, steps, capacity), step, capacity)
    decreases |steps|
  {
    if steps == [] {
      assert [step][1..] == [];
    } else {
      assert (steps + [step])[0] == steps[0] && (steps + [step])[1..] == steps[1..] + [step];
      ExtendRun(Life.Apply(s, steps[0], capacity), steps[1..], step, capacity);
    }
  }

  /** A request that stays changes no socket; one that goes on is one move. */
  lemma DispatchStep(
    s: Life.State, now: Life.State, b: nat, to: nat, f: Front.Front, batch: seq<Front.Req>, n: nat, room: nat,
    capacity: nat)
    requires b < |s.batches| && to < |s.batches| && b != to && to != s.filling && n < |batch|
    requires s.batches[b].stage.Active? && s.batches[to].stage.Active? && batch[n].sock != MOVED
    requires Dispatched(s, now, b, to, f, batch, n, room)
    ensures var goesOn := Front.GoesOn(Front.AfterBatch(f, batch, n, room), batch[n]);
            var move := Life.Move(b, n, to, |now.batches[to].socks|);
            && (goesOn ==> Life.Enabled(now, move, capacity)
                           && Dispatched(s, Life.Apply(now, move, capacity), b, to, f, batch, n + 1, room))
            && (!goesOn ==> Dispatched(s, now, b, to, f, batch, n + 1, room))
  {
    Front.BatchUnfold(f, batch, n, room);
    var before := Front.AfterBatch(f, batch, n, room);
    var kept, r := Front.Kept(f, batch, n, room), Front.Handled(before, batch[n]);
    var socks := now.batches[b].socks;
    assert batch[n..] == [batch[n]] + batch[n + 1..];
    assert (kept + [r]) + batch[n + 1..] == kept + ([r] + batch[n + 1..]);
    assert socks[n] == batch[n].sock;
    if Front.GoesOn(before, batch[n]) {
      assert Owners((kept + [r]) + batch[n + 1..]) == socks[n := MOVED];
      OwnersSplit(Front.PassedOn(f, batch, n, room), [batch[n]]);
      var t := now.batches[to].socks;
      assert t[..|t|] + [batch[n].sock] + t[|t|..] == t + [batch[n].sock];
      DispatchMoves(s, now, b, to, n, socks, t, batch[n].sock, capacity);
      assert Owners([batch[n]]) == [batch[n].sock];
      assert s.batches[to].socks + (Owners(Front.PassedOn(f, batch, n, room)) + [batch[n].sock]) == t + [batch[n].sock];
    } else {
      assert Owners((kept + [r]) + batch[n + 1..]) == socks;
      assert Front.PassedOn(f, batch, n, room) + [] == Front.PassedOn(f, batch, n, room);
    }
  }

  lemma DispatchMoves(
    s: Life.State, now: Life.State, b: nat, to: nat, n: nat, socks: seq<int>, t: seq<int>, sock: int, capacity: nat)
    requires b < |s.batches| && to < |s.batches| && b != to && to != s.filling
    requires s.batches[b].stage.Active? && s.batches[to].stage.Active?
    requires now == s.(batches := s.batches[b := s.batches[b].(socks := socks)][to := s.batches[to].(socks := t)])
    requires n < |socks| && socks[n] == sock != MOVED
    ensures var move := Life.Move(b, n, to, |t|);
            && Life.Enabled(now, move, capacity)
            && Life.Apply(now, move, capacity) ==
               s.(batches := s.batches[b := s.batches[b].(socks := socks[n := MOVED])]
                                      [to := s.batches[to].(socks := t + [sock])])
  {
    assert t[..|t|] + [sock] + t[|t|..] == t + [sock];
  }

  /** Dispatching a batch is a run of moves: the reads that go on move to the read batch, nothing else changes. */
  lemma {:induction false} DispatchIsRun(
    s: Life.State, b: nat, to: nat, f: Front.Front, batch: seq<Front.Req>, n: nat, room: nat, capacity: nat)
    returns (steps: seq<Life.Step>, now: Life.State)
    requires b < |s.batches| && to < |s.batches| && b != to && to != s.filling && n <= |batch|
    requires s.batches[b].stage.Active? && s.batches[to].stage.Active? && s.batches[b].socks == Owners(batch)
    requires forall i :: 0 <= i < |batch| ==> batch[i].sock != MOVED
    ensures Life.IsRun(s, steps, capacity) && Life.Final(s, steps, capacity) == now
    ensures Dispatched(s, now, b, to, f, batch, n, room)
  {
    if n == 0 {
      steps, now := [], s;
      assert Front.Kept(f, batch, 0, room) + batch[0..] == batch;
      assert s.batches[to].socks + [] == s.batches[to].socks;
    } else {
      steps, now := DispatchIsRun(s, b, to, f, batch, n - 1, room, capacity);
      DispatchStep(s, now, b, to, f, batch, n - 1, room, capacity);
      if Front.GoesOn(Front.AfterBatch(f, batch, n - 1, room), batch[n - 1]) {
        var move := Life.Move(b, n - 1, to, |now.batches[to].socks|);
        ExtendRun(s, steps, move, capacity);
        steps, now := steps + [move], Life.Apply(now, move, capacity);
      }
    }
  }
}
