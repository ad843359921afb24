// Progress of the wait queue: every batch accepted by a push can still be delivered.
module WaitQueueProgress {
  import opened WaitQueue

  /** The step continues something begun, or begins a consumption; it is not a new push. */
  predicate Continues(step: Step) {
    !step.LoadSize? && !step.CheckGuardFirst? && !step.PushSkipBatch?
  }

  /** A disciplined run without new pushes from s to t. */
  ghost predicate Leads(s: State, steps: seq<Step>, t: State) {
    && IsDisciplinedRun(s, steps) && IsRun(s, steps) && Final(s, steps) == t
    && forall i :: 0 <= i < |steps| ==> Continues(steps[i])
  }

  lemma Prepend(s: State, step: Step, steps: seq<Step>, t: State)
    requires Enabled(s, step) && Disciplined(s, step) && Continues(step) && Leads(Apply(s, step), steps, t)
    ensures Leads(s, [step] + steps, t)
  {
    assert ([step] + steps)[1..] == steps;
  }

  lemma {:induction false} Join(s: State, a: seq<Step>, b: seq<Step>)
    requires IsDisciplinedRun(s, a) && IsRun(s, a) && IsDisciplinedRun(Final(s, a), b) && IsRun(Final(s, a), b)
    ensures IsDisciplinedRun(s, a + b) && IsRun(s, a + b) && Final(s, a + b) == Final(Final(s, a), b)
    decreases |a|
  {
    if a == [] {
      assert a + b == b;
    } else {
      assert (a + b)[0] == a[0] && (a + b)[1..] == a[1..] + b;
      Join(Apply(s, a[0]), a[1..], b);
    }
  }

  // ----- A push under way -----

  function StepsLeft(p: Producer): (n: nat) {
    match p
    case Idle => 0
    case Linked => 1
    case Append(_, _, _) => 2
    case Fresh(_) => 2
    case GuardSeenFree(_, _) => 3
    case Loaded(_, _, _, _) => 3
  }

  function NextOfPush(p: Producer): (step: Step)
    requires !p.Idle?
  {
    match p
    case Linked => Count
    case Append(_, _, _) => Link
    case Fresh(_) => Link
    case GuardSeenFree(_, _) => ReadFront
    case Loaded(_, size, _, _) => if 0 <= size <= 1 then CheckGuard else Link
  }

  lemma PushGoesOn(s: State)
    requires Inv(s) && !s.producer.Idle?
    ensures var step := NextOfPush(s.producer);
            && Enabled(s, step) && Disciplined(s, step)
            && StepsLeft(Apply(s, step).producer) < StepsLeft(s.producer)
            && Apply(s, step).consumer == s.consumer && s.pushed <= Apply(s, step).pushed
  {
  }

  /** A push under way comes to its end, whatever the consumer is doing. */
  lemma {:induction false} FinishPush(s: State) returns (steps: seq<Step>, t: State)
    requires Inv(s)
    ensures Leads(s, steps, t) && Inv(t) && t.producer.Idle? && s.pushed <= t.pushed
    decreases StepsLeft(s.producer)
  {
    if s.producer.Idle? {
      steps, t := [], s;
    } else {
      var step := NextOfPush(s.producer);
      PushGoesOn(s);
      StepKeepsInv(s, step);
      var rest;
      rest, t := FinishPush(Apply(s, step));
      Prepend(s, step, rest, t);
      steps := [step] + rest;
    }
  }

  // ----- A consumption under way -----

  function ToRest(c: Consumer): (n: nat) {
    match c
    case Resting => 0
    case Deleting(_) => 1
    case Restored => 1
    case Unlinked(_) => 2
    case Missed => 2
    case HasRead(_, _, _) => 3
    case Claimed => 4
    case Holding => 5
  }

  function NextOfPop(c: Consumer): (step: Step)
    requires !c.Resting?
  {
    match c
    case Deleting(_) => Delete
    case Restored => Release
    case Unlinked(_) => Release
    case Missed => Restore
    case HasRead(_, _, _) => Unlink
    case Claimed => ReadNode
    case Holding => Subtract
  }

  /** The consumption takes a node off the list before it is over. */
  predicate WillTake(s: State) {
    s.consumer.HasRead? || s.consumer.Claimed? || (s.consumer.Holding? && s.size >= 1)
  }

  lemma PopGoesOn(s: State)
    requires Inv(s) && s.producer.Idle? && !s.consumer.Resting?
    ensures var step := NextOfPop(s.consumer);
            && Enabled(s, step) && Disciplined(s, step)
            && ToRest(Apply(s, step).consumer) < ToRest(s.consumer)
            && Apply(s, step).producer.Idle? && Apply(s, step).pushed == s.pushed
            && |Apply(s, step).list| + (if WillTake(s) then 1 else 0) ==
               |s.list| + (if WillTake(Apply(s, step)) then 1 else 0)
  {
  }

  lemma {:induction false} FinishPop(s: State) returns (steps: seq<Step>, t: State)
    requires Inv(s) && s.producer.Idle?
    ensures Leads(s, steps, t) && Inv(t) && t.producer.Idle? && t.consumer.Resting? && t.pushed == s.pushed
    ensures |t.list| + (if WillTake(s) then 1 else 0) == |s.list|
    decreases ToRest(s.consumer)
  {
    if s.consumer.Resting? {
      steps, t := [], s;
    } else {
      var step := NextOfPop(s.consumer);
      PopGoesOn(s);
      StepKeepsInv(s, step);
      var rest;
      rest, t := FinishPop(Apply(s, step));
      Prepend(s, step, rest, t);
      steps := [step] + rest;
    }
  }

  // ----- Everything is delivered -----

  lemma {:induction false} Deliver(s: State) returns (steps: seq<Step>, t: State)
    requires Inv(s) && s.producer.Idle? && s.consumer.Resting?
    ensures Leads(s, steps, t) && Inv(t) && t.producer.Idle? && t.pushed == s.pushed && t.list == []
    decreases |s.list|
  {
    if s.list == [] {
      steps, t := [], s;
    } else {
      var pop, after := DeliverOne(s);
      var rest;
      rest, t := Deliver(after);
      Join(s, pop, rest);
      steps := pop + rest;
    }
  }

  lemma DeliverOne(s: State) returns (steps: seq<Step>, t: State)
    requires Inv(s) && s.producer.Idle? && s.consumer.Resting? && s.list != []
    ensures Leads(s, steps, t) && Inv(t) && t.producer.Idle? && t.consumer.Resting? && t.pushed == s.pushed
    ensures |t.list| == |s.list| - 1
  {
    var next := Apply(s, Acquire);
    StepKeepsInv(s, Acquire);
    var rest;
    rest, t := FinishPop(next);
    Prepend(s, Acquire, rest, t);
    steps := [Acquire] + rest;
  }

  lemma Finish(s: State) returns (steps: seq<Step>, t: State)
    requires Inv(s)
    ensures Leads(s, steps, t) && Inv(t) && t.producer.Idle? && s.pushed <= t.pushed && t.list == []
  {
    var push, a := FinishPush(s);
    var pop, b := FinishPop(a);
    var deliver;
    deliver, t := Deliver(b);
    Join(a, pop, deliver);
    Join(s, push, pop + deliver);
    steps := push + (pop + deliver);
  }

  /**
   * No batch is ever stuck: every disciplined run can go on, with no new push, until every batch of a call that went
   * on has been popped, in the order of the calls.
   */
  lemma EveryBatchCanBeDelivered(steps: seq<Step>) returns (more: seq<Step>)
    requires IsDisciplinedRun(Init(DESIGNED), steps)
    ensures IsDisciplinedRun(Init(DESIGNED), steps + more) && IsRun(Init(DESIGNED), steps + more)
    ensures IsRun(Init(DESIGNED), steps) && forall i :: 0 <= i < |more| ==> Continues(more[i])
    ensures var s, t := Final(Init(DESIGNED), steps), Final(Init(DESIGNED), steps + more);
            t.popped == Offered(Init(DESIGNED), steps + more, []) && s.pushed <= t.popped
  {
    InitInv();
    RunKeepsInv(Init(DESIGNED), steps);
    var t;
    more, t := Finish(Final(Init(DESIGNED), steps));
    Join(Init(DESIGNED), steps, more);
    PushesAsCalled(DESIGNED, steps + more);
    assert Batches(t.mem.heap, []) == [];
    assert t.popped + [] == t.popped;
  }
}
