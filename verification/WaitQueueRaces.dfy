// Why the wait queue needs its scheduling discipline, and what the lines as written do without it.
module WaitQueueRaces {
  import opened Entries
  import opened WaitQueue

  lemma {:induction false} ExtendRun(s: State, steps: seq<Step>, step: Step)
    requires IsRun(s, steps) && Enabled(Final(s, steps), step)
    ensures IsRun(s, steps + [step]) && Final(s, steps + [step]) == Apply(Final(s, steps), step)
    decreases |steps|
  {
    if steps == [] {
      assert [step][1..] == [];
    } else {
      assert (steps + [step])[0] == steps[0] && (steps + [step])[1..] == steps[1..] + [step];
      ExtendRun(Apply(s, steps[0]), steps[1..], step);
    }
  }

  lemma {:induction false} ConcatRun(s: State, a: seq<Step>, b: seq<Step>)
    requires IsRun(s, a) && IsRun(Final(s, a), b)
    ensures IsRun(s, a + b) && Final(s, a + b) == Final(Final(s, a), b)
    decreases |a|
  {
    if a == [] {
      assert a + b == b;
    } else {
      assert (a + b)[0] == a[0] && (a + b)[1..] == a[1..] + b;
      ConcatRun(Apply(s, a[0]), a[1..], b);
    }
  }

  // ----- What the discipline counts -----

  predicate IsConsumerStep(step: Step) {
    step.Acquire? || step.Subtract? || step.ReadNode? || step.Unlink? || step.Release? || step.Delete? || step.Restore?
  }

  /** How many consumptions claim a node in a run. */
  ghost function Claims(s: State, steps: seq<Step>): (n: nat)
    requires IsRun(s, steps)
    decreases |steps|
  {
    if steps == [] then 0
    else (if steps[0].Subtract? && s.size >= 1 then 1 else 0) + Claims(Apply(s, steps[0]), steps[1..])
  }

  lemma {:induction false} SlackFalls(s: State, steps: seq<Step>)
    requires IsRun(s, steps) && s.producer.Loaded? && forall i :: 0 <= i < |steps| ==> IsConsumerStep(steps[i])
    ensures var p := s.producer;
            Final(s, steps).producer == Loaded(p.batch, p.size, p.slack - Claims(s, steps), p.overlap)
    decreases |steps|
  {
    if steps != [] {
      assert IsConsumerStep(steps[0]);
      SlackFalls(Apply(s, steps[0]), steps[1..]);
    }
  }

  /**
   * The discipline is what its comment says: of the consumptions between a size load that saw k and the link, each
   * may claim a node exactly if, with it, fewer than k have.
   */
  lemma DisciplineCounts(s: State, b: Batch, steps: seq<Step>)
    requires s.producer.Idle? && IsRun(Apply(s, LoadSize(b)), steps)
    requires forall i :: 0 <= i < |steps| ==> IsConsumerStep(steps[i])
    ensures var t, claimed := Final(Apply(s, LoadSize(b)), steps), Claims(Apply(s, LoadSize(b)), steps);
            t.size >= 1 ==> (Disciplined(t, Subtract) <==> claimed + 1 < s.size)
  {
    SlackFalls(Apply(s, LoadSize(b)), steps);
  }

  // ----- The slack is tight -----

  const CONSUME: seq<Step> := [Acquire, Subtract, ReadNode, Unlink, Release, Delete]

  /** `count` whole consumptions in a row. */
  function Drain(count: nat): (steps: seq<Step>) {
    if count == 0 then [] else CONSUME + Drain(count - 1)
  }

  /** A producer that loaded a size above one and has not linked yet, and a resting consumer. */
  ghost predicate AboutToAppend(s: State) {
    && s.rules == DESIGNED && !s.touched && MemoryOk(s) && SizeLaw(s) && ConsumerOk(s)
    && s.consumer.Resting? && s.producer.Loaded? && s.producer.size > 1
  }

  /** One more step of a run, with the state it leads to. */
  lemma Go(s: State, run: seq<Step>, now: State, step: Step) returns (run': seq<Step>, next: State)
    requires IsRun(s, run) && Final(s, run) == now && Enabled(now, step)
    ensures run' == run + [step] && next == Apply(now, step)
    ensures IsRun(s, run') && Final(s, run') == next
  {
    ExtendRun(s, run, step);
    run', next := run + [step], Apply(now, step);
  }

  ghost predicate Consumable(s: State) {
    && s.consumer.Resting? && s.guardFree && s.size >= 1 && s.rules.signedSize && s.producer.Loaded?
    && s.list != [] && s.mem.front == Some(s.list[0]) && s.list[0] in s.mem.heap
  }

  /** A whole consumption: the first node leaves the list, its batch is returned, its memory is freed. */
  function Consumed(s: State): (t: State)
    requires Consumable(s)
  {
    var node := s.list[0];
    s.(mem := s.mem.(heap := s.mem.heap - {node}, front := s.mem.heap[node].next),
       size := s.size - 1, producer := OneClaimed(s.producer),
       list := s.list[1..], popped := s.popped + [s.mem.heap[node].batch])
  }

  lemma ClaimRun(s: State) returns (run: seq<Step>, now: State)
    requires Consumable(s)
    ensures run == [Acquire, Subtract, ReadNode] && IsRun(s, run) && Final(s, run) == now
    ensures now == s.(guardFree := false, size := s.size - 1, producer := OneClaimed(s.producer),
                      consumer := HasRead(s.list[0], s.mem.heap[s.list[0]].batch, s.mem.heap[s.list[0]].next))
  {
    run, now := [], s;
    run, now := Go(s, run, now, Acquire);
    run, now := Go(s, run, now, Subtract);
    run, now := Go(s, run, now, ReadNode);
  }

  lemma ConsumeRun(s: State)
    requires Consumable(s)
    ensures IsRun(s, CONSUME) && Final(s, CONSUME) == Consumed(s)
  {
    var run, now := ClaimRun(s);
    run, now := Go(s, run, now, Unlink);
    run, now := Go(s, run, now, Release);
    run, now := Go(s, run, now, Delete);
    assert run == CONSUME;
  }

  lemma ConsumeOne(s: State)
    requires AboutToAppend(s) && s.list != []
    ensures IsRun(s, CONSUME)
    ensures AboutToAppend(Final(s, CONSUME)) && |Final(s, CONSUME).list| == |s.list| - 1
  {
    ConsumeRun(s);
    ConsumedMemory(s);
  }

  lemma ConsumedMemory(s: State)
    requires MemoryOk(s) && Consumable(s)
    ensures MemoryOk(Consumed(s))
  {
    var node, tail, t := s.list[0], s.list[1..], Consumed(s);
    TailChain(s.mem, s.list);
    DeleteChain(s.mem.(front := s.mem.heap[node].next), tail, node);
    assert Chain(t.mem, t.list) && Batches(t.mem.heap, tail) == Batches(s.mem.heap, tail);
    PoppedShifts(s.popped, s.mem.heap[node].batch, Batches(s.mem.heap, tail));
    assert NoLeak(t);
  }

  lemma {:induction false} DrainEmpties(s: State, count: nat)
    requires AboutToAppend(s) && |s.list| == count
    ensures IsRun(s, Drain(count))
    ensures AboutToAppend(Final(s, Drain(count))) && Final(s, Drain(count)).list == []
    decreases count
  {
    if count > 0 {
      ConsumeOne(s);
      DrainEmpties(Final(s, CONSUME), count - 1);
      ConcatRun(s, CONSUME, Drain(count - 1));
    }
  }

  /**
   * One consumption more than the discipline allows is one too many: whatever size above one the
   * producer loaded, if as many consumptions as there are nodes run before its link, the link writes
   * through a deleted node.
   */
  lemma SlackIsTight(s: State)
    requires AboutToAppend(s)
    ensures IsRun(s, Drain(|s.list|) + [Link]) && Final(s, Drain(|s.list|) + [Link]).touched
  {
    var count := |s.list|;
    DrainEmpties(s, count);
    var t := Final(s, Drain(count));
    assert forall a :: a !in t.mem.heap;
    assert Enabled(t, Link);
    ExtendRun(s, Drain(count), Link);
  }

  // ----- What a link needs -----

  /** The list lies in memory as it should, the consumer knows its front node, and nothing deleted was touched. */
  ghost predicate Sound(s: State) {
    MemoryOk(s) && ConsumerOk(s) && !s.touched
  }

  /**
   * A link behind back keeps the queue sound if and only if the list is not empty, and not down to one node whose
   * successor the consumer has read already.
   */
  lemma LinkBehindSoundExactly(s: State, batch: Batch)
    requires Sound(s)
    ensures Sound(LinkBehind(s, batch, true)) <==> s.list != [] && !(s.consumer.HasRead? && |s.list| == 1)
  {
    var t := LinkBehind(s, batch, true);
    if s.list == [] {
      assert t.mem.front == None && t.list != [];
    } else {
      LinkBehindKeepsMemory(s, batch);
      var last := s.list[|s.list| - 1];
      assert s.mem.unused !in s.mem.heap && t.list[0] == s.list[0];
      assert t.mem.heap[last].next == Some(s.mem.unused) && s.mem.heap[last].next == None;
      assert |s.list| > 1 ==> s.list[0] != last;
    }
  }

  /** And a link as the only node if and only if the list is empty. */
  lemma LinkAloneSoundExactly(s: State, batch: Batch)
    requires Sound(s)
    ensures Sound(LinkAlone(s, batch)) <==> s.list == []
  {
    var t := LinkAlone(s, batch);
    if s.list == [] {
      LinkAloneKeepsMemory(s, batch);
      assert s.mem.unused !in s.mem.heap;
    } else {
      assert s.list[0] in s.mem.heap && t.list[0] == s.list[0] && t.mem.front == Some(s.mem.unused);
    }
  }

  /** The producer is about to link behind back. */
  predicate WillAppend(s: State)
    requires Enabled(s, Link)
  {
    s.producer.Append? || (s.producer.Loaded? && s.producer.size > 1)
  }

  /**
   * What a step meets: a link the list it was chosen for, a consumption that goes on a node to take. Every other
   * step is safe by itself.
   */
  predicate Meets(s: State, step: Step)
    requires Enabled(s, step)
  {
    match step
    case Link =>
      if WillAppend(s) then s.list != [] && !(s.consumer.HasRead? && |s.list| == 1) else s.list == []
    case Subtract => s.size >= 1 || !s.rules.signedSize ==> s.list != []
    case _ => true
  }

  lemma StepSoundExactly(s: State, step: Step)
    requires Sound(s) && Enabled(s, step) && s.rules.advanceBack
    ensures Sound(Apply(s, step)) <==> Meets(s, step)
    ensures Apply(s, step).rules == s.rules
  {
    match step
    case Link =>
      if WillAppend(s) {
        LinkBehindSoundExactly(s, s.producer.batch);
      } else {
        LinkAloneSoundExactly(s, s.producer.batch);
      }
    case Unlink => UnlinkSound(s);
    case Delete => DeleteSound(s);
    case _ => OtherSound(s, step);
  }

  lemma UnlinkSound(s: State)
    requires Sound(s) && Enabled(s, Unlink)
    ensures Sound(DoUnlink(s))
  {
    UnlinkKeepsMemory(s);
  }

  lemma DeleteSound(s: State)
    requires Sound(s) && Enabled(s, Delete)
    ensures Sound(DoDelete(s))
  {
    DeleteChain(s.mem, s.list, s.consumer.node);
  }

  lemma OtherSound(s: State, step: Step)
    requires Sound(s) && Enabled(s, step) && !step.Link? && !step.Unlink? && !step.Delete?
    ensures Sound(Apply(s, step)) <==> Meets(s, step)
    ensures Apply(s, step).rules == s.rules
  {
    var t := Apply(s, step);
    assert t.mem == s.mem && t.list == s.list && t.pushed == s.pushed && t.popped == s.popped;
    assert NoLeak(t);
  }

  /** Sound after every step of a run. */
  ghost predicate StaysSound(s: State, steps: seq<Step>)
    requires IsRun(s, steps)
    decreases |steps|
  {
    Sound(s) && (steps == [] || StaysSound(Apply(s, steps[0]), steps[1..]))
  }

  ghost predicate AllMeet(s: State, steps: seq<Step>)
    requires IsRun(s, steps)
    decreases |steps|
  {
    steps == [] || (Meets(s, steps[0]) && AllMeet(Apply(s, steps[0]), steps[1..]))
  }

  /**
   * So over every interleaving, disciplined or not, the queue stays a sound FIFO if and only if each link
   * finds the list it was chosen for and each consumption that goes on finds a node.
   */
  lemma {:induction false} RunSoundExactly(s: State, steps: seq<Step>)
    requires Sound(s) && s.rules.advanceBack && IsRun(s, steps)
    ensures StaysSound(s, steps) <==> AllMeet(s, steps)
    decreases |steps|
  {
    if steps != [] {
      StepSoundExactly(s, steps[0]);
      if Meets(s, steps[0]) {
        RunSoundExactly(Apply(s, steps[0]), steps[1..]);
      }
    }
  }

  // ----- Three undisciplined runs -----

  /** A lone producer pushes `batch` onto an empty queue. */
  lemma PushFirst(batch: Batch, rules: Rules) returns (run: seq<Step>, now: State)
    ensures IsRun(Init(rules), run) && Final(Init(rules), run) == now
    ensures run == [LoadSize(batch), CheckGuard, Link, Count]
    ensures now == State(rules, Memory(map[0 := Node(batch, None)], 1, Some(0), 0), 1, true, Idle, Resting,
                         [0], [batch], [], false)
  {
    var s := Init(rules);
    run, now := [], s;
    run, now := Go(s, run, now, LoadSize(batch));
    run, now := Go(s, run, now, CheckGuard);
    run, now := Go(s, run, now, Link);
    run, now := Go(s, run, now, Count);
  }

  /**
   * The window between the size load and the guard check: the size is loaded as one, a whole
   * consumption empties the queue and frees the guard, and the producer links behind a deleted node.
   */
  lemma SizeOneThenConsumedTouches(a: Batch, b: Batch) returns (run: seq<Step>)
    ensures run == [LoadSize(a), CheckGuard, Link, Count, LoadSize(b)] + CONSUME + [CheckGuard, Link]
    ensures IsRun(Init(DESIGNED), run) && Final(Init(DESIGNED), run).touched
  {
    var s := Init(DESIGNED);
    var now;
    run, now := PushFirst(a, DESIGNED);
    run, now := Go(s, run, now, LoadSize(b));
    ConsumeRun(now);
    ConcatRun(s, run, CONSUME);
    run, now := run + CONSUME, Consumed(now);
    assert now.mem.back !in now.mem.heap;
    run, now := Go(s, run, now, CheckGuard);
    run, now := Go(s, run, now, Link);
  }

  /**
   * A stale zero: a consumption that overlaps the first push finds nothing, the next push loads size
   * zero, the consumption makes its size up and frees the guard, and the push overwrites front and
   * back. The first batch is never returned: the next pop yields the second one.
   */
  lemma StaleZeroLosesBatch(a: Batch, b: Batch) returns (run: seq<Step>)
    ensures IsRun(Init(DESIGNED), run)
    ensures Final(Init(DESIGNED), run).pushed == [a, b] && Final(Init(DESIGNED), run).popped == [b]
  {
    var s := Init(DESIGNED);
    var now;
    run, now := StaleZero(a, b);
    run, now := Go(s, run, now, CheckGuard);
    run, now := Go(s, run, now, Link);
    run, now := Go(s, run, now, Count);
    run, now := Go(s, run, now, Acquire);
    run, now := Go(s, run, now, Subtract);
    run, now := Go(s, run, now, ReadNode);
    run, now := Go(s, run, now, Unlink);
  }

  /** The first push has linked and not counted; a consumption has found nothing. */
  lemma MissedWhileLinked(a: Batch) returns (run: seq<Step>, now: State)
    ensures IsRun(Init(DESIGNED), run) && Final(Init(DESIGNED), run) == now
    ensures now == State(DESIGNED, Memory(map[0 := Node(a, None)], 1, Some(0), 0), -1, false,
                         Linked, Missed, [0], [a], [], false)
  {
    var s := Init(DESIGNED);
    run, now := [], s;
    run, now := Go(s, run, now, LoadSize(a));
    run, now := Go(s, run, now, CheckGuard);
    run, now := Go(s, run, now, Link);
    run, now := Go(s, run, now, Acquire);
    run, now := Go(s, run, now, Subtract);
  }

  lemma StaleZero(a: Batch, b: Batch) returns (run: seq<Step>, now: State)
    ensures IsRun(Init(DESIGNED), run) && Final(Init(DESIGNED), run) == now
    ensures now == State(DESIGNED, Memory(map[0 := Node(a, None)], 1, Some(0), 0), 1, true,
                         Loaded(b, 0, -1, true), Resting, [0], [a], [], false)
  {
    var s := Init(DESIGNED);
    run, now := MissedWhileLinked(a);
    run, now := Go(s, run, now, Count);
    run, now := Go(s, run, now, LoadSize(b));
    run, now := Go(s, run, now, Restore);
    run, now := Go(s, run, now, Release);
  }

  lemma SkipMeetsClaimed(a: Batch, b: Batch) returns (run: seq<Step>, now: State)
    ensures IsRun(Init(DESIGNED), run) && Final(Init(DESIGNED), run) == now
    ensures now == State(DESIGNED, Memory(map[0 := Node(a, None)], 1, Some(0), 0), 0, false,
                         Append(b, -1, false), Claimed, [0], [a], [], false)
  {
    var s := Init(DESIGNED);
    run, now := PushFirst(a, DESIGNED);
    run, now := Go(s, run, now, Acquire);
    run, now := Go(s, run, now, Subtract);
    run, now := Go(s, run, now, PushSkipBatch(b));
  }

  /** The unguarded push of the skip batch meets a list whose only node is claimed, and links behind it. */
  lemma SkipPushTouches(a: Batch, b: Batch) returns (run: seq<Step>)
    ensures IsRun(Init(DESIGNED), run) && Final(Init(DESIGNED), run).touched
  {
    var s := Init(DESIGNED);
    var now;
    run, now := SkipMeetsClaimed(a, b);
    run, now := Go(s, run, now, ReadNode);
    run, now := Go(s, run, now, Unlink);
    run, now := Go(s, run, now, Release);
    run, now := Go(s, run, now, Delete);
    run, now := Go(s, run, now, Link);
  }

  // ----- The lines as written -----

  /**
   * The size is unsigned, so its comparison with zero always succeeds: a consumer that holds the guard
   * reads through a null front exactly when the list is empty.
   */
  lemma UnsignedSizePopsNull(s: State)
    requires s.rules == AS_WRITTEN && !s.touched && s.consumer.Holding? && Chain(s.mem, s.list)
    ensures IsRun(s, [Subtract, ReadNode])
    ensures Final(s, [Subtract, ReadNode]).touched <==> s.list == []
  {
    var run, now := Go(s, [], s, Subtract);
    run, now := Go(s, run, now, ReadNode);
    assert run == [Subtract, ReadNode];
  }

  /**
   * The size-one branch does not move `back`: the third push overwrites the link to the second batch,
   * so the front node leads straight to the third.
   */
  lemma BackLeftBehindLosesBatch(a: Batch, b: Batch, c: Batch) returns (run: seq<Step>)
    ensures IsRun(Init(AS_WRITTEN), run)
    ensures var t := Final(Init(AS_WRITTEN), run);
            && t.pushed == [a, b, c] && t.list == [0, 1, 2] && t.mem.front == Some(0)
            && t.mem.heap == map[0 := Node(a, Some(2)), 1 := Node(b, None), 2 := Node(c, None)]
  {
    var s := Init(AS_WRITTEN);
    var now;
    run, now := PushFirst(a, AS_WRITTEN);
    run, now := Go(s, run, now, LoadSize(b));
    run, now := Go(s, run, now, CheckGuard);
    run, now := Go(s, run, now, Link);
    run, now := Go(s, run, now, Count);
    run, now := Go(s, run, now, LoadSize(c));
    run, now := Go(s, run, now, Link);
    run, now := Go(s, run, now, Count);
  }

  /** The list is linked up in memory, wherever `back` points. */
  ghost predicate LinkedUp(m: Memory, list: seq<Address>) {
    list != [] && Chain(m.(back := list[|list| - 1]), list)
  }

  /** One append: whether it moves `back` or not, it keeps the list linked up exactly when `back` was its last node. */
  lemma AppendKeepsLinksExactly(m: Memory, list: seq<Address>, batch: Batch, advance: bool)
    requires LinkedUp(m, list)
    ensures LinkedUp(m.AppendNode(batch, advance), list + [m.unused]) <==> m.back == list[|list| - 1]
  {
    var m', last, list' := m.AppendNode(batch, advance), |list| - 1, list + [m.unused];
    if m.back == list[last] {
      AppendChain(m, list, batch);
    } else {
      assert list'[last] == list[last] && list'[last + 1] == m.unused;
      assert m'.heap[list[last]].next == None;
    }
  }

  /** A series of appends, each moving `back` or leaving it behind. */
  function Appended(m: Memory, batches: seq<Batch>, moves: seq<bool>): (m': Memory)
    requires |batches| == |moves|
    decreases |batches|
  {
    if batches == [] then m else Appended(m.AppendNode(batches[0], moves[0]), batches[1..], moves[1..])
  }

  /** The addresses such a series allocates. */
  function Addresses(from: Address, count: nat): (list: seq<Address>)
    ensures |list| == count
  {
    seq(count, i => from + i)
  }

  /** A link of the list is wrong, and can only be overwritten with addresses not on the list. */
  ghost predicate Broken(m: Memory, list: seq<Address>) {
    && (forall a :: a in m.heap ==> a < m.unused)
    && exists k :: 0 <= k < |list| - 1 && list[k] in m.heap && list[k + 1] < m.unused
                   && m.heap[list[k]].next != Some(list[k + 1])
  }

  lemma BrokenNotLinked(m: Memory, list: seq<Address>)
    requires Broken(m, list)
    ensures !LinkedUp(m, list)
  {
  }

  lemma AppendKeepsBroken(m: Memory, list: seq<Address>, batch: Batch, advance: bool)
    requires Broken(m, list)
    ensures Broken(m.AppendNode(batch, advance), list + [m.unused])
  {
    var k :| 0 <= k < |list| - 1 && list[k] in m.heap && list[k + 1] < m.unused && m.heap[list[k]].next != Some(list[k + 1]);
    var m', list' := m.AppendNode(batch, advance), list + [m.unused];
    assert list'[k] == list[k] && list'[k + 1] == list[k + 1];
    assert m'.heap[list'[k]].next != Some(list'[k + 1]);
  }

  lemma AddressesFirst(list: seq<Address>, from: Address, count: nat)
    requires count > 0
    ensures list + Addresses(from, count) == (list + [from]) + Addresses(from + 1, count - 1)
  {
  }

  lemma {:induction false} AppendsStayBroken(m: Memory, list: seq<Address>, batches: seq<Batch>, moves: seq<bool>)
    requires |batches| == |moves| && Broken(m, list)
    ensures Broken(Appended(m, batches, moves), list + Addresses(m.unused, |batches|))
    decreases |batches|
  {
    if batches == [] {
      assert list + Addresses(m.unused, 0) == list;
    } else {
      AppendKeepsBroken(m, list, batches[0], moves[0]);
      AddressesFirst(list, m.unused, |batches|);
      AppendsStayBroken(m.AppendNode(batches[0], moves[0]), list + [m.unused], batches[1..], moves[1..]);
    }
  }

  lemma SecondAppendBreaks(m: Memory, list: seq<Address>, batch: Batch, advance: bool)
    requires LinkedUp(m, list) && |list| >= 2 && m.back == list[|list| - 2]
    ensures Broken(m.AppendNode(batch, advance), list + [m.unused])
  {
    var m', k, list' := m.AppendNode(batch, advance), |list| - 2, list + [m.unused];
    assert list'[k] == list[k] && list'[k + 1] == list[k + 1];
    assert m'.heap[list'[k]].next == Some(m.unused);
  }

  /** With `back` one node behind, the next append breaks the list for good. */
  lemma AppendBehindStale(m: Memory, list: seq<Address>, batches: seq<Batch>, moves: seq<bool>)
    requires |batches| == |moves| && LinkedUp(m, list) && |list| >= 2 && m.back == list[|list| - 2] && batches != []
    ensures !LinkedUp(Appended(m, batches, moves), list + Addresses(m.unused, |batches|))
  {
    SecondAppendBreaks(m, list, batches[0], moves[0]);
    BrokenOnceIsBroken(m, list, batches, moves);
    BrokenNotLinked(Appended(m, batches, moves), list + Addresses(m.unused, |batches|));
  }

  lemma BrokenOnceIsBroken(m: Memory, list: seq<Address>, batches: seq<Batch>, moves: seq<bool>)
    requires |batches| == |moves| && batches != []
    requires Broken(m.AppendNode(batches[0], moves[0]), list + [m.unused])
    ensures Broken(Appended(m, batches, moves), list + Addresses(m.unused, |batches|))
  {
    AppendsStayBroken(m.AppendNode(batches[0], moves[0]), list + [m.unused], batches[1..], moves[1..]);
    AddressesFirst(list, m.unused, |batches|);
  }

  /**
   * The list survives a series of appends exactly when every append but the last moved `back`. As written
   * the size-one branch does not, so it is right exactly if nothing is appended behind it before `back` is
   * set anew.
   */
  lemma {:induction false} AppendsKeepLinksExactly(m: Memory, list: seq<Address>, batches: seq<Batch>, moves: seq<bool>)
    requires |batches| == |moves| && LinkedUp(m, list) && m.back == list[|list| - 1]
    ensures LinkedUp(Appended(m, batches, moves), list + Addresses(m.unused, |batches|))
            <==> forall i :: 0 <= i < |moves| - 1 ==> moves[i]
    decreases |batches|
  {
    if batches == [] {
      assert list + Addresses(m.unused, 0) == list;
    } else {
      var m', list' := m.AppendNode(batches[0], moves[0]), list + [m.unused];
      AppendKeepsLinksExactly(m, list, batches[0], moves[0]);
      AddressesFirst(list, m.unused, |batches|);
      if moves[0] {
        AppendsKeepLinksExactly(m', list', batches[1..], moves[1..]);
        AllButLast(moves);
      } else if |batches| == 1 {
        assert list' + Addresses(m'.unused, 0) == list';
      } else {
        AppendBehindStale(m', list', batches[1..], moves[1..]);
      }
    }
  }

  lemma AllButLast(moves: seq<bool>)
    requires moves != [] && moves[0]
    ensures (forall i :: 0 <= i < |moves| - 1 ==> moves[i]) <==>
            (forall i :: 0 <= i < |moves[1..]| - 1 ==> moves[1..][i])
  {
    assert forall i :: 1 <= i < |moves| - 1 ==> moves[i] == moves[1..][i - 1];
    assert forall i :: 0 <= i < |moves[1..]| - 1 ==> moves[1..][i] == moves[i + 1];
  }
}
