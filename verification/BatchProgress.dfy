// Progress of request batches: from every reachable state all clients accepted so far can still be answered.
module BatchProgress {
  import opened Multisets
  import opened BatchLifecycle

  // ----- What the steps at the network thread make possible -----

  /**
   * Handing the full batch on starts another one, active and empty, and changes no batch: a client can be received
   * if a batch has any room, and the batch handed on can come back and be completed.
   */
  lemma HandStartsEmpty(s: State, capacity: nat)
    requires Inv(s) && Enabled(s, Hand, capacity)
    ensures var t := Apply(s, Hand, capacity);
            && t.filling != s.filling && t.filling < |t.batches|
            && t.batches[t.filling].stage.Active? && t.batches[t.filling].socks == []
            && |s.batches| <= |t.batches| && (forall b :: 0 <= b < |s.batches| ==> t.batches[b] == s.batches[b])
            && t.accepted == s.accepted && t.answered == s.answered && t.frees == s.frees
            && (capacity > 0 ==> forall c: nat :: c !in t.accepted ==> Enabled(t, Receive(c, 0), capacity))
            && (s.batches[s.filling].socks != [] ==> Enabled(t, Complete(s.filling), capacity))
  {
  }

  /** A client is received into the batch being filled, at its place, and changes no other batch. */
  lemma ReceiveJoinsFilling(s: State, client: int, p: nat, capacity: nat)
    requires Inv(s) && Enabled(s, Receive(client, p), capacity)
    ensures var t := Apply(s, Receive(client, p), capacity);
            var was, is_ := s.batches[s.filling], t.batches[t.filling];
            && t.filling == s.filling && |t.batches| == |s.batches|
            && (forall b :: 0 <= b < |s.batches| && b != s.filling ==> t.batches[b] == s.batches[b])
            && is_.stage.Active? && |is_.socks| == |was.socks| + 1 && is_.socks[p] == client
            && is_.socks[..p] == was.socks[..p] && is_.socks[p + 1..] == was.socks[p..]
            && t.accepted == s.accepted + multiset{client} && t.answered == s.answered
  {
  }

  /** A decomposition leaves one new active batch for each part, holding just that part, and retires its input. */
  lemma SplitStartsParts(s: State, b: nat, left: seq<int>, parts: seq<seq<int>>, capacity: nat)
    requires Inv(s) && Enabled(s, Split(b, left, parts), capacity)
    ensures var t := Apply(s, Split(b, left, parts), capacity);
            && |t.batches| == |s.batches| + |parts| && t.filling == s.filling && t.batches[b].stage.Retired?
            && (forall i :: 0 <= i < |s.batches| && i != b ==> t.batches[i] == s.batches[i])
            && (forall i :: 0 <= i < |parts| ==>
                  t.batches[|s.batches| + i].stage.Active? && t.batches[|s.batches| + i].socks == parts[i])
            && t.accepted == s.accepted && t.answered == s.answered && t.frees == s.frees
  {
    var t, added := Apply(s, Split(b, left, parts), capacity), NewBatches(parts);
    forall i | 0 <= i < |parts|
      ensures t.batches[|s.batches| + i].stage.Active? && t.batches[|s.batches| + i].socks == parts[i]
    {
      assert t.batches[|s.batches| + i] == added[i];
    }
  }

  // ----- Runs -----

  /** Nothing but receiving, handing on, completing and finished sends. */
  predicate Plain(step: Step) {
    step.Receive? || step.Hand? || step.Complete? || step.SendDone?
  }

  /** A run of plain steps from s to t. */
  ghost predicate Leads(s: State, steps: seq<Step>, t: State, capacity: nat) {
    IsRun(s, steps, capacity) && Final(s, steps, capacity) == t && forall i :: 0 <= i < |steps| ==> Plain(steps[i])
  }

  lemma Prepend(s: State, step: Step, steps: seq<Step>, t: State, capacity: nat)
    requires Enabled(s, step, capacity) && Plain(step) && Leads(Apply(s, step, capacity), steps, t, capacity)
    ensures Leads(s, [step] + steps, t, capacity)
  {
    assert ([step] + steps)[1..] == steps;
  }

  lemma {:induction false} Join(s: State, a: seq<Step>, b: seq<Step>, capacity: nat)
    requires IsRun(s, a, capacity) && IsRun(Final(s, a, capacity), b, capacity)
    ensures IsRun(s, a + b, capacity) && Final(s, a + b, capacity) == Final(Final(s, a, capacity), b, capacity)
    decreases |a|
  {
    if a == [] {
      assert a + b == b;
    } else {
      assert (a + b)[0] == a[0] && (a + b)[1..] == a[1..] + b;
      Join(Apply(s, a[0], capacity), a[1..], b, capacity);
    }
  }

  // ----- Emptying the batch being filled -----

  lemma {:induction false} AboveAll(m: multiset<int>) returns (c: nat)
    ensures forall x :: x in m ==> x < c
    decreases |m|
  {
    c := 0;
    if x :| x in m {
      var rest := AboveAll(m - multiset{x});
      c := if rest > x then rest else x + 1;
      forall y | y in m ensures y < c {
        assert y != x ==> y in m - multiset{x};
      }
    }
  }

  /** With enough more clients the batch being filled is handed on, and an empty one takes its place. */
  lemma {:induction false} FillUp(s: State, capacity: nat) returns (steps: seq<Step>, t: State)
    requires Inv(s)
    ensures Leads(s, steps, t, capacity) && Inv(t) && t.batches[t.filling].socks == [] && s.accepted <= t.accepted
    decreases capacity - |s.batches[s.filling].socks|
  {
    var socks := s.batches[s.filling].socks;
    if socks == [] {
      steps, t := [], s;
    } else if |socks| >= capacity {
      t := Apply(s, Hand, capacity);
      HandStartsEmpty(s, capacity);
      StepKeepsInv(s, Hand, capacity);
      Prepend(s, Hand, [], t, capacity);
      steps := [Hand] + [];
    } else {
      var client := AboveAll(s.accepted);
      var step := Receive(client, 0);
      ReceiveJoinsFilling(s, client, 0, capacity);
      StepKeepsInv(s, step, capacity);
      var rest;
      rest, t := FillUp(Apply(s, step, capacity), capacity);
      Prepend(s, step, rest, t, capacity);
      steps := [step] + rest;
    }
  }

  // ----- Answering everyone -----

  function ActiveCount(batches: seq<Batch>): (n: nat) {
    if batches == [] then 0
    else ActiveCount(batches[..|batches| - 1]) + if batches[|batches| - 1].stage.Active? then 1 else 0
  }

  lemma {:induction false} OneLessActive(batches: seq<Batch>, b: nat, batch: Batch)
    requires b < |batches| && batches[b].stage.Active? && !batch.stage.Active?
    ensures ActiveCount(batches[b := batch]) == ActiveCount(batches) - 1
    decreases |batches|
  {
    var last := |batches| - 1;
    if b == last {
      assert batches[b := batch][..last] == batches[..last];
    } else {
      assert batches[b := batch][..last] == batches[..last][b := batch];
      OneLessActive(batches[..last], b, batch);
    }
  }

  lemma {:induction false} SomeHolder(batches: seq<Batch>) returns (b: nat)
    requires AllClients(batches) != multiset{}
    ensures b < |batches| && Clients(batches[b]) != multiset{}
    decreases |batches|
  {
    var last := |batches| - 1;
    if Clients(batches[last]) != multiset{} {
      b := last;
    } else {
      Unit(AllClients(batches[..last]));
      b := SomeHolder(batches[..last]);
    }
  }

  lemma NoMember(m: multiset<int>)
    ensures (forall x :: x !in m) ==> m == multiset{}
  {
    if forall x :: m[x] == 0 {
      assert m == multiset{};
    }
  }

  lemma SomeMember(m: multiset<int>) returns (x: int)
    requires m != multiset{}
    ensures x in m
  {
    NoMember(m);
    x :| x in m;
  }

  /** Where clients wait, a batch can be completed or a send can finish. */
  lemma NextStep(s: State, capacity: nat) returns (step: Step)
    requires Inv(s) && s.batches[s.filling].socks == [] && s.answered != s.accepted
    ensures Enabled(s, step, capacity) && (step.Complete? || step.SendDone?)
  {
    Unit(s.answered);
    var b := SomeHolder(s.batches);
    var batch := s.batches[b];
    assert BatchOk(batch);
    if batch.stage.Active? {
      step := Complete(b);
    } else {
      var client := SomeMember(batch.sending);
      step := SendDone(b, client);
    }
  }

  /** It leaves the batch being filled alone, and what remains to be done gets less. */
  lemma StepProgresses(s: State, step: Step, capacity: nat)
    requires Inv(s) && Enabled(s, step, capacity) && (step.Complete? || step.SendDone?)
    ensures var t := Apply(s, step, capacity);
            && t.filling == s.filling < |t.batches| && t.batches[s.filling] == s.batches[s.filling]
            && t.accepted == s.accepted
            && (step.Complete? ==> t.answered == s.answered && ActiveCount(t.batches) < ActiveCount(s.batches))
            && (step.SendDone? ==> |t.answered| == |s.answered| + 1)
  {
    match step
    case Complete(b) => OneLessActive(s.batches, b, Completed(s.batches[b]));
    case SendDone(b, client) => assert BatchOk(s.batches[b]);
  }

  lemma {:induction false} AnswerAll(s: State, capacity: nat) returns (steps: seq<Step>, t: State)
    requires Inv(s) && s.batches[s.filling].socks == []
    ensures Leads(s, steps, t, capacity) && t.answered == t.accepted == s.accepted
    decreases |s.accepted| - |s.answered|, ActiveCount(s.batches)
  {
    if s.answered == s.accepted {
      steps, t := [], s;
    } else {
      var step := NextStep(s, capacity);
      var next := Apply(s, step, capacity);
      StepProgresses(s, step, capacity);
      StepKeepsInv(s, step, capacity);
      assert |next.answered| <= |next.accepted| by {
        assert AllClients(next.batches) + next.answered == next.accepted;
      }
      var rest;
      rest, t := AnswerAll(next, capacity);
      Prepend(s, step, rest, t, capacity);
      steps := [step] + rest;
    }
  }

  /**
   * No client is ever stuck: after any run some further run, of arrivals, batches handed on, completions and sends
   * only, answers every client accepted before it (and those who came on the way).
   */
  lemma EveryClientCanBeAnswered(steps: seq<Step>, capacity: nat) returns (more: seq<Step>)
    requires IsRun(Init(), steps, capacity)
    ensures IsRun(Init(), steps + more, capacity) && forall i :: 0 <= i < |more| ==> Plain(more[i])
    ensures var s, t := Final(Init(), steps, capacity), Final(Init(), steps + more, capacity);
            s.accepted <= t.accepted == t.answered
  {
    var s := Final(Init(), steps, capacity);
    InitInv();
    RunKeepsInv(Init(), steps, capacity);
    var fill, full := FillUp(s, capacity);
    var rest, t := AnswerAll(full, capacity);
    Join(s, fill, rest, capacity);
    more := fill + rest;
    Join(Init(), steps, more, capacity);
  }
}
