// The request-batch wait queue of an SSTable: one producer at a time (the producer guard is held
// around a push) and one consumer, interleaved at the granularity of their shared-memory accesses.
module WaitQueue {
  import opened Entries

  type Batch = nat
  type Address = nat

  datatype Node = Node(batch: Batch, next: Option<Address>)

  /**
   * Where the producer stands inside try_push_back or standard_push_back. `slack` is bookkeeping: how
   * many more consumptions may still claim a node before the link without emptying the list.
   */
  datatype Producer =
    | Idle
    | Loaded(batch: Batch, size: int, slack: int, overlap: bool)  // the size was loaded
    | GuardSeenFree(batch: Batch, slack: int)                     // contended path, front not read yet
    | Append(batch: Batch, slack: int, viaOne: bool)              // about to link behind `back`
    | Fresh(batch: Batch)                                         // about to set front and back
    | Linked                                                      // linked, size not incremented yet

  /** Where the consumer stands inside pop_front. */
  datatype Consumer =
    | Resting
    | Holding                                          // consumer guard acquired
    | Claimed                                          // fetch_sub left a nonnegative size
    | HasRead(node: Address, batch: Batch, next: Option<Address>)
    | Unlinked(node: Address)                          // front advanced, guard still held
    | Deleting(node: Address)                          // guard released, old front not deleted yet
    | Missed                                           // fetch_sub left a negative size
    | Restored                                         // the makeup increment was done

  /** signedSize: the fetch_sub result is compared as signed; advanceBack: every append moves `back`. */
  datatype Rules = Rules(signedSize: bool, advanceBack: bool)

  const DESIGNED := Rules(true, true)
  const AS_WRITTEN := Rules(false, false)

  /** The linked list as it lies in memory. */
  datatype Memory = Memory(heap: map<Address, Node>, unused: Address, front: Option<Address>, back: Address) {

    /** back->next = new Node, and back = back->next if `advance`. */
    function AppendNode(batch: Batch, advance: bool): Memory {
      var patched := if back in heap then heap[back := heap[back].(next := Some(unused))] else heap;
      Memory(patched[unused := Node(batch, None)], unused + 1, front, if advance then unused else back)
    }

    /** front = back = new Node. */
    function OnlyNode(batch: Batch): Memory {
      Memory(heap[unused := Node(batch, None)], unused + 1, Some(unused), unused)
    }
  }

  /**
   * The shared memory and atomics, the two program counters, and the history: `list` is the abstract
   * FIFO of addresses, `pushed` and `popped` the batches linked and returned, `touched` records an
   * access to null or to a deleted node.
   */
  datatype State = State(
    rules: Rules, mem: Memory, size: int, guardFree: bool, producer: Producer, consumer: Consumer,
    list: seq<Address>, pushed: seq<Batch>, popped: seq<Batch>, touched: bool)

  function Init(rules: Rules): State {
    State(rules, Memory(map[], 0, None, 0), 0, true, Idle, Resting, [], [], [], false)
  }

  datatype Step =
    | LoadSize(batch: Batch) | CheckGuard | CheckGuardFirst(batch: Batch) | ReadFront | PushSkipBatch(batch: Batch)
    | Link | Count
    | Acquire | Subtract | ReadNode | Unlink | Release | Delete | Restore

  /** Program order: which access each side may perform next. */
  predicate Enabled(s: State, step: Step) {
    match step
    case LoadSize(_) => s.producer.Idle?
    case CheckGuard => s.producer.Loaded? && 0 <= s.producer.size <= 1
    case CheckGuardFirst(_) => s.producer.Idle?
    case ReadFront => s.producer.GuardSeenFree?
    case PushSkipBatch(_) => s.producer.Idle?
    case Link => s.producer.Append? || s.producer.Fresh?
                 || (s.producer.Loaded? && !(0 <= s.producer.size <= 1))
    case Count => s.producer.Linked?
    case Acquire => s.consumer.Resting? && s.guardFree
    case Subtract => s.consumer.Holding?
    case ReadNode => s.consumer.Claimed?
    case Unlink => s.consumer.HasRead?
    case Release => s.consumer.Unlinked? || s.consumer.Restored?
    case Delete => s.consumer.Deleting?
    case Restore => s.consumer.Missed?
  }

  /** Link a new node behind `back`, or as the only node. */
  function LinkBehind(s: State, batch: Batch, advance: bool): State {
    s.(mem := s.mem.AppendNode(batch, advance), producer := Linked,
       list := s.list + [s.mem.unused], pushed := s.pushed + [batch],
       touched := s.touched || s.mem.back !in s.mem.heap)
  }

  function LinkAlone(s: State, batch: Batch): State {
    s.(mem := s.mem.OnlyNode(batch), producer := Linked,
       list := s.list + [s.mem.unused], pushed := s.pushed + [batch])
  }

  function DoLink(s: State): State
    requires Enabled(s, Link)
  {
    match s.producer
    case Append(batch, _, viaOne) => LinkBehind(s, batch, s.rules.advanceBack || !viaOne)
    case Fresh(batch) => LinkAlone(s, batch)
    case Loaded(batch, size, _, _) => if size > 1 then LinkBehind(s, batch, true) else LinkAlone(s, batch)
  }

  function DoCheckGuard(s: State): State
    requires Enabled(s, CheckGuard)
  {
    var p := s.producer;
    s.(producer := if !s.guardFree then Idle else if p.size == 0 then Fresh(p.batch) else Append(p.batch, p.slack, true))
  }

  function DoReadFront(s: State, batch: Batch, slack: int): State {
    s.(producer := if s.mem.front.None? then Fresh(batch) else Append(batch, slack, false))
  }

  /** A consumption has claimed a node while the producer is on its way to an append. */
  function OneClaimed(p: Producer): Producer {
    match p
    case Loaded(batch, size, slack, overlap) => Loaded(batch, size, slack - 1, overlap)
    case GuardSeenFree(batch, slack) => GuardSeenFree(batch, slack - 1)
    case Append(batch, slack, viaOne) => Append(batch, slack - 1, viaOne)
    case _ => p
  }

  function DoSubtract(s: State): State {
    s.(size := s.size - 1, consumer := if s.size - 1 >= 0 || !s.rules.signedSize then Claimed else Missed,
       producer := if s.size >= 1 then OneClaimed(s.producer) else s.producer)
  }

  function DoReadNode(s: State): State {
    match s.mem.front
    case Some(a) =>
      if a in s.mem.heap then s.(consumer := HasRead(a, s.mem.heap[a].batch, s.mem.heap[a].next))
      else s.(consumer := HasRead(a, 0, None), touched := true)
    case None => s.(consumer := HasRead(0, 0, None), touched := true)
  }

  function DoUnlink(s: State): State
    requires Enabled(s, Unlink)
  {
    var c := s.consumer;
    s.(mem := s.mem.(front := c.next), list := if s.list == [] then [] else s.list[1..],
       popped := s.popped + [c.batch], consumer := Unlinked(c.node))
  }

  function DoDelete(s: State): State
    requires Enabled(s, Delete)
  {
    var node := s.consumer.node;
    s.(mem := s.mem.(heap := s.mem.heap - {node}), consumer := Resting,
       touched := s.touched || node !in s.mem.heap)
  }

  function Apply(s: State, step: Step): State
    requires Enabled(s, step)
  {
    match step
    case LoadSize(b) => s.(producer := Loaded(b, s.size, s.size - 1, s.consumer.Missed?))
    case CheckGuard => DoCheckGuard(s)
    case CheckGuardFirst(b) => if s.guardFree then s.(producer := GuardSeenFree(b, s.size - 1)) else s
    case ReadFront => DoReadFront(s, s.producer.batch, s.producer.slack)
    case PushSkipBatch(b) => DoReadFront(s, b, s.size - 1)
    case Link => DoLink(s)
    case Count => s.(size := s.size + 1, producer := Idle)
    case Acquire => s.(guardFree := false, consumer := Holding)
    case Subtract => DoSubtract(s)
    case ReadNode => DoReadNode(s)
    case Unlink => DoUnlink(s)
    case Release => s.(guardFree := true, consumer := if s.consumer.Unlinked? then Deleting(s.consumer.node) else Resting)
    case Delete => DoDelete(s)
    case Restore => s.(size := s.size + 1, consumer := Restored)
  }

  /**
   * What the code relies on without enforcing it.
   * - Subtract: between the moment a producer commits to appending (the size load, or the guard load on
   *   the contended path, having seen k >= 1) and its link, fewer than k consumptions claim a node.
   * - Restore: a consumption that found nothing, and overlapped the previous push, does not make its
   *   size up between a size load of zero and the guard load after it.
   * - PushSkipBatch: the unguarded push of the skip batch does not meet a list whose only node is
   *   already claimed.
   */
  predicate Disciplined(s: State, step: Step) {
    match step
    case Subtract =>
      s.size >= 1 ==>
        (match s.producer
         case Loaded(_, _, slack, _) => slack >= 1
         case GuardSeenFree(_, slack) => slack >= 1
         case Append(_, slack, _) => slack >= 1
         case _ => true)
    case Restore => !(s.producer.Loaded? && s.producer.size == 0 && s.producer.overlap)
    case PushSkipBatch(_) => s.mem.front.Some? ==> s.size >= 1
    case _ => true
  }

  ghost predicate IsRun(s: State, steps: seq<Step>)
    decreases |steps|
  {
    steps == [] || (Enabled(s, steps[0]) && IsRun(Apply(s, steps[0]), steps[1..]))
  }

  ghost predicate IsDisciplinedRun(s: State, steps: seq<Step>)
    decreases |steps|
  {
    steps == [] || (Enabled(s, steps[0]) && Disciplined(s, steps[0]) && IsDisciplinedRun(Apply(s, steps[0]), steps[1..]))
  }

  ghost function Final(s: State, steps: seq<Step>): State
    requires IsRun(s, steps)
    decreases |steps|
  {
    if steps == [] then s else Final(Apply(s, steps[0]), steps[1..])
  }

  lemma {:induction false} DisciplinedIsRun(s: State, steps: seq<Step>)
    requires IsDisciplinedRun(s, steps)
    ensures IsRun(s, steps)
    decreases |steps|
  {
    if steps != [] {
      DisciplinedIsRun(Apply(s, steps[0]), steps[1..]);
    }
  }

  // ----- The invariant -----

  /** The pointers spell the abstract list: distinct allocated nodes, linked in order, ending in null. */
  ghost predicate Chain(m: Memory, list: seq<Address>) {
    && (forall i :: 0 <= i < |list| ==> list[i] in m.heap)
    && (forall i, j :: 0 <= i < j < |list| ==> list[i] != list[j])
    && (forall i :: 0 <= i < |list| - 1 ==> m.heap[list[i]].next == Some(list[i + 1]))
    && (list != [] ==> m.heap[list[|list| - 1]].next == None && m.back == list[|list| - 1])
    && m.front == (if list == [] then None else Some(list[0]))
    && (forall a :: a in m.heap ==> a < m.unused)
  }

  ghost function Batches(heap: map<Address, Node>, list: seq<Address>): (s: seq<Batch>)
    requires forall i :: 0 <= i < |list| ==> list[i] in heap
  {
    seq(|list|, i requires 0 <= i < |list| => heap[list[i]].batch)
  }

  lemma AppendChain(m: Memory, list: seq<Address>, batch: Batch)
    requires Chain(m, list) && list != []
    ensures var m' := m.AppendNode(batch, true);
            && Chain(m', list + [m.unused])
            && Batches(m'.heap, list + [m.unused]) == Batches(m.heap, list) + [batch]
            && m'.heap.Keys == m.heap.Keys + {m.unused}
            && (forall a :: a in m.heap && a != list[|list| - 1] ==> m'.heap[a] == m.heap[a])
  {
    var m', last := m.AppendNode(batch, true), |list| - 1;
    assert m.unused !in m.heap;
    assert forall i :: 0 <= i < last ==> list[i] != list[last] && m'.heap[list[i]] == m.heap[list[i]];
  }

  lemma OnlyChain(m: Memory, batch: Batch)
    requires Chain(m, [])
    ensures var m' := m.OnlyNode(batch);
            Chain(m', [m.unused]) && Batches(m'.heap, [m.unused]) == [batch] && m'.heap.Keys == m.heap.Keys + {m.unused}
  {
  }

  lemma TailChain(m: Memory, list: seq<Address>)
    requires Chain(m, list) && list != []
    ensures Chain(m.(front := m.heap[list[0]].next), list[1..])
    ensures Batches(m.heap, list) == [m.heap[list[0]].batch] + Batches(m.heap, list[1..])
    ensures list[0] !in list[1..]
    ensures forall a :: a in list ==> a == list[0] || a in list[1..]
  {
  }

  lemma DeleteChain(m: Memory, list: seq<Address>, a: Address)
    requires Chain(m, list) && a !in list
    ensures var m' := m.(heap := m.heap - {a});
            Chain(m', list) && Batches(m'.heap, list) == Batches(m.heap, list)
  {
    assert forall i :: 0 <= i < |list| ==> list[i] != a;
  }

  function InFlight(s: State): nat {
    if s.consumer.Claimed? || s.consumer.HasRead? then 1 else 0
  }

  function Uncounted(s: State): nat {
    if s.producer.Linked? then 1 else 0
  }

  function Overdrawn(s: State): nat {
    if s.consumer.Missed? then 1 else 0
  }

  /** Nodes on the list that no consumption has claimed. */
  function Available(s: State): int {
    |s.list| - InFlight(s)
  }

  ghost predicate SizeLaw(s: State) {
    s.size == |s.list| - Uncounted(s) - InFlight(s) - Overdrawn(s)
  }

  ghost predicate ConsumerOk(s: State) {
    && s.guardFree == (s.consumer.Resting? || s.consumer.Deleting?)
    && (InFlight(s) == 1 ==> s.list != [])
    && match s.consumer
       case HasRead(node, batch, next) =>
         s.list != [] && node == s.list[0] && node in s.mem.heap && s.mem.heap[node] == Node(batch, next)
       case Unlinked(node) => node in s.mem.heap && node !in s.list
       case Deleting(node) => node in s.mem.heap && node !in s.list
       case _ => true
  }

  ghost predicate ProducerOk(s: State) {
    match s.producer
    case Loaded(_, k, slack, overlap) =>
      && (k >= 1 ==> slack >= 0 && Available(s) >= slack + 1)
      && (k == 0 ==> (if overlap then s.consumer.Missed? else Available(s) == 0))
      && (k < 0 ==> s.list == [])
    case GuardSeenFree(_, slack) => s.list != [] ==> slack >= 0 && Available(s) >= slack + 1
    case Append(_, slack, _) => slack >= 0 && Available(s) >= slack + 1
    case Fresh(_) => s.list == []
    case _ => true
  }

  /** Pushed batches are the popped ones followed by those on the list: the queue is a FIFO. */
  ghost predicate Fifo(s: State)
    requires Chain(s.mem, s.list)
  {
    s.pushed == s.popped + Batches(s.mem.heap, s.list)
  }

  /** Every allocated node is on the list or is the one the consumer is about to delete. */
  ghost predicate NoLeak(s: State) {
    forall a :: a in s.mem.heap ==> a in s.list || s.consumer == Unlinked(a) || s.consumer == Deleting(a)
  }

  ghost predicate MemoryOk(s: State) {
    Chain(s.mem, s.list) && Fifo(s) && NoLeak(s)
  }

  ghost predicate Inv(s: State) {
    && s.rules == DESIGNED && !s.touched
    && MemoryOk(s) && SizeLaw(s) && ConsumerOk(s) && ProducerOk(s)
  }

  lemma InitInv()
    ensures Inv(Init(DESIGNED))
  {
  }

  lemma LinkAloneKeepsMemory(s: State, batch: Batch)
    requires MemoryOk(s) && s.list == []
    ensures MemoryOk(LinkAlone(s, batch))
  {
    OnlyChain(s.mem, batch);
    var s' := LinkAlone(s, batch);
    assert s'.list == [s.mem.unused] && Batches(s.mem.heap, []) == [];
    assert s'.pushed == s.popped + Batches(s'.mem.heap, s'.list);
  }

  lemma LinkBehindKeepsMemory(s: State, batch: Batch)
    requires MemoryOk(s) && s.list != []
    ensures var s' := LinkBehind(s, batch, true);
            && MemoryOk(s') && s'.touched == s.touched
            && (forall a :: a in s.mem.heap && a != s.list[|s.list| - 1] ==>
                  a in s'.mem.heap && s'.mem.heap[a] == s.mem.heap[a])
  {
    AppendChain(s.mem, s.list, batch);
    var s', old_batches := LinkBehind(s, batch, true), Batches(s.mem.heap, s.list);
    assert s.popped + (old_batches + [batch]) == (s.popped + old_batches) + [batch];
    assert s.mem.unused in s'.list && forall a :: a in s.list ==> a in s'.list;
  }

  lemma LinkKeepsInv(s: State)
    requires Inv(s) && Enabled(s, Link)
    ensures Inv(Apply(s, Link))
  {
    if s.producer.Fresh? || (s.producer.Loaded? && s.producer.size < 0) {
      LinkAloneKeepsInv(s, s.producer.batch);
    } else {
      LinkBehindKeepsInv(s, s.producer.batch);
    }
  }

  lemma LinkAloneKeepsInv(s: State, batch: Batch)
    requires Inv(s) && s.list == [] && !s.producer.Linked?
    ensures Inv(LinkAlone(s, batch))
  {
    assert s.mem.unused !in s.mem.heap;
    LinkAloneKeepsMemory(s, batch);
  }

  lemma LinkBehindKeepsInv(s: State, batch: Batch)
    requires Inv(s) && Available(s) >= 1 && !s.producer.Linked?
    ensures Inv(LinkBehind(s, batch, true))
  {
    assert s.mem.unused !in s.mem.heap;
    LinkBehindKeepsMemory(s, batch);
  }

  lemma UnlinkKeepsMemory(s: State)
    requires MemoryOk(s) && ConsumerOk(s) && Enabled(s, Unlink)
    ensures MemoryOk(DoUnlink(s)) && s.consumer.node !in DoUnlink(s).list
  {
    TailChain(s.mem, s.list);
    var s' := DoUnlink(s);
    assert s'.mem == s.mem.(front := s.mem.heap[s.list[0]].next) && s'.list == s.list[1..];
    PoppedShifts(s.popped, s.consumer.batch, Batches(s.mem.heap, s.list[1..]));
  }

  lemma PoppedShifts(popped: seq<Batch>, batch: Batch, rest: seq<Batch>)
    ensures popped + ([batch] + rest) == (popped + [batch]) + rest
  {
  }

  lemma UnlinkKeepsInv(s: State)
    requires Inv(s) && Enabled(s, Unlink)
    ensures Inv(Apply(s, Unlink))
  {
    UnlinkKeepsMemory(s);
    assert Available(DoUnlink(s)) == Available(s);
  }

  lemma DeleteKeepsInv(s: State)
    requires Inv(s) && Enabled(s, Delete)
    ensures Inv(Apply(s, Delete))
  {
    DeleteChain(s.mem, s.list, s.consumer.node);
  }

  ghost predicate IsProducerStep(step: Step) {
    step.LoadSize? || step.CheckGuard? || step.CheckGuardFirst? || step.ReadFront? || step.PushSkipBatch? || step.Count?
  }

  lemma ProducerKeepsInv(s: State, step: Step)
    requires Inv(s) && Enabled(s, step) && Disciplined(s, step) && IsProducerStep(step)
    ensures Inv(Apply(s, step))
  {
    var s' := Apply(s, step);
    assert s'.mem == s.mem && s'.list == s.list && s'.consumer == s.consumer;
    assert MemoryOk(s') && ConsumerOk(s');
  }

  lemma ConsumerKeepsInv(s: State, step: Step)
    requires Inv(s) && Enabled(s, step) && Disciplined(s, step) && !IsProducerStep(step)
    requires !step.Link? && !step.Unlink? && !step.Delete?
    ensures Inv(Apply(s, step))
  {
    var s' := Apply(s, step);
    assert s'.mem == s.mem && s'.list == s.list;
    assert MemoryOk(s');
  }

  /** Every disciplined step keeps the invariant. */
  lemma StepKeepsInv(s: State, step: Step)
    requires Inv(s) && Enabled(s, step) && Disciplined(s, step)
    ensures Inv(Apply(s, step))
  {
    if step.Link? {
      LinkKeepsInv(s);
    } else if step.Unlink? {
      UnlinkKeepsInv(s);
    } else if step.Delete? {
      DeleteKeepsInv(s);
    } else if IsProducerStep(step) {
      ProducerKeepsInv(s, step);
    } else {
      ConsumerKeepsInv(s, step);
    }
  }

  lemma {:induction false} RunKeepsInv(s: State, steps: seq<Step>)
    requires Inv(s) && IsDisciplinedRun(s, steps)
    ensures IsRun(s, steps) && Inv(Final(s, steps))
    decreases |steps|
  {
    DisciplinedIsRun(s, steps);
    if steps != [] {
      StepKeepsInv(s, steps[0]);
      RunKeepsInv(Apply(s, steps[0]), steps[1..]);
    }
  }

  // ----- What the pushes were called with -----

  /**
   * The batches of the calls that went on, in order, read off the steps: a call that loads a size of zero or one
   * goes on if the guard is free when it looks next, a call on the contended path if the guard is free at once, any
   * other always. `loaded` is the batch of a call that has still to look.
   */
  ghost function Offered(s: State, steps: seq<Step>, loaded: seq<Batch>): (batches: seq<Batch>)
    requires IsRun(s, steps)
    decreases |steps|
  {
    if steps == [] then []
    else GoneOn(s, steps[0], loaded) + Offered(Apply(s, steps[0]), steps[1..], StillToLook(s, steps[0], loaded))
  }

  function GoneOn(s: State, step: Step, loaded: seq<Batch>): (batches: seq<Batch>) {
    match step
    case LoadSize(b) => if 0 <= s.size <= 1 then [] else [b]
    case CheckGuard => if s.guardFree then loaded else []
    case CheckGuardFirst(b) => if s.guardFree then [b] else []
    case PushSkipBatch(b) => [b]
    case _ => []
  }

  function StillToLook(s: State, step: Step, loaded: seq<Batch>): (loaded': seq<Batch>) {
    match step
    case LoadSize(b) => if 0 <= s.size <= 1 then [b] else []
    case CheckGuard => []
    case _ => loaded
  }

  /** The batch of a call that goes on and is not linked yet. */
  function UnderWay(p: Producer): (batches: seq<Batch>) {
    match p
    case Loaded(batch, size, _, _) => if 0 <= size <= 1 then [] else [batch]
    case GuardSeenFree(batch, _) => [batch]
    case Append(batch, _, _) => [batch]
    case Fresh(batch) => [batch]
    case _ => []
  }

  ghost predicate Remembers(p: Producer, loaded: seq<Batch>) {
    p.Loaded? && 0 <= p.size <= 1 ==> loaded == [p.batch]
  }

  lemma StepOffers(s: State, step: Step, loaded: seq<Batch>)
    requires Enabled(s, step) && Remembers(s.producer, loaded)
    ensures var s' := Apply(s, step);
            && s'.pushed + UnderWay(s'.producer) == s.pushed + UnderWay(s.producer) + GoneOn(s, step, loaded)
            && Remembers(s'.producer, StillToLook(s, step, loaded))
  {
  }

  lemma {:induction false} RunOffers(s: State, steps: seq<Step>, loaded: seq<Batch>)
    requires IsRun(s, steps) && Remembers(s.producer, loaded)
    ensures var t := Final(s, steps);
            t.pushed + UnderWay(t.producer) == s.pushed + UnderWay(s.producer) + Offered(s, steps, loaded)
    decreases |steps|
  {
    if steps != [] {
      var s', gone, later := Apply(s, steps[0]), GoneOn(s, steps[0], loaded), StillToLook(s, steps[0], loaded);
      StepOffers(s, steps[0], loaded);
      RunOffers(s', steps[1..], later);
      var rest := Offered(s', steps[1..], later);
      assert s.pushed + UnderWay(s.producer) + gone + rest == s.pushed + UnderWay(s.producer) + (gone + rest);
    }
  }

  /**
   * Over every run, disciplined or not, what is linked is what the calls were made with, in their order: all of
   * it, but for the one call that may be under way.
   */
  lemma PushesAsCalled(rules: Rules, steps: seq<Step>)
    requires IsRun(Init(rules), steps)
    ensures var s, offered := Final(Init(rules), steps), Offered(Init(rules), steps, []);
            && offered == s.pushed + UnderWay(s.producer)
            && s.pushed <= offered && |offered| <= |s.pushed| + 1
            && (s.producer.Idle? || s.producer.Linked? ==> s.pushed == offered)
  {
    RunOffers(Init(rules), steps, []);
    assert Init(rules).pushed + UnderWay(Init(rules).producer) + Offered(Init(rules), steps, []) ==
           Offered(Init(rules), steps, []);
  }

  /**
   * The queue refines a FIFO over every disciplined interleaving: no access to null or to a deleted
   * node, the batches of the calls that went on are the popped ones, those on the list and the one under way, in
   * that order, the size counter obeys its law, and every allocated node is accounted for.
   */
  lemma QueueIsFifo(steps: seq<Step>)
    requires IsDisciplinedRun(Init(DESIGNED), steps)
    ensures IsRun(Init(DESIGNED), steps)
    ensures var s := Final(Init(DESIGNED), steps);
            && !s.touched
            && Chain(s.mem, s.list)
            && s.pushed == s.popped + Batches(s.mem.heap, s.list)
            && Offered(Init(DESIGNED), steps, []) == s.popped + Batches(s.mem.heap, s.list) + UnderWay(s.producer)
            && s.size == |s.list| - Uncounted(s) - InFlight(s) - Overdrawn(s)
            && NoLeak(s)
  {
    InitInv();
    RunKeepsInv(Init(DESIGNED), steps);
    PushesAsCalled(DESIGNED, steps);
  }
}
