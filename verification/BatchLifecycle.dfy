// The life of request batches from accept to close: every accepted client is in exactly one place until it
// is answered, and every batch handed to the network thread is freed once, when all its entries are sent.
module BatchLifecycle {
  import opened Multisets
  import opened RequestPool

  datatype Stage =
    | Active      // being filled, at the main thread, or on its way through the SSTables
    | Completing  // handed to the network thread, zero-copy sends outstanding
    | Retired     // decomposed: its requests live on in other batches
    | Freed

  /** socks as in the pool array; `sending` are the clients whose send has been submitted but not finished. */
  datatype Batch = Batch(socks: seq<int>, numSent: nat, stage: Stage, sending: multiset<int>)

  datatype State = State(batches: seq<Batch>, filling: nat, accepted: multiset<int>, answered: multiset<int>, frees: seq<nat>)

  const NEW_BATCH := Batch([], 0, Active, multiset{})

  function Init(): State {
    State([NEW_BATCH], 0, multiset{}, multiset{}, [])
  }

  // ----- What a batch holds -----

  /** The live entries of an array of sockets. */
  function LiveOf(socks: seq<int>): (m: multiset<int>) {
    if socks == [] then multiset{}
    else LiveOf(socks[..|socks| - 1]) + if socks[|socks| - 1] != MOVED then multiset{socks[|socks| - 1]} else multiset{}
  }

  /** The live entries of the first n arrays. */
  function LiveOfAll(parts: seq<seq<int>>, n: nat): (m: multiset<int>)
    requires n <= |parts|
  {
    if n == 0 then multiset{} else LiveOfAll(parts, n - 1) + LiveOf(parts[n - 1])
  }

  function MovedCount(socks: seq<int>): (n: nat) {
    if socks == [] then 0
    else MovedCount(socks[..|socks| - 1]) + if socks[|socks| - 1] == MOVED then 1 else 0
  }

  lemma {:induction false} LiveAndMoved(socks: seq<int>)
    ensures |LiveOf(socks)| + MovedCount(socks) == |socks|
  {
    if socks != [] {
      LiveAndMoved(socks[..|socks| - 1]);
    }
  }

  lemma {:induction false} LiveConcat(a: seq<int>, b: seq<int>)
    ensures LiveOf(a + b) == LiveOf(a) + LiveOf(b)
    ensures MovedCount(a + b) == MovedCount(a) + MovedCount(b)
  {
    if b == [] {
      assert a + b == a;
    } else {
      assert (a + b)[..|a + b| - 1] == a + b[..|b| - 1];
      LiveConcat(a, b[..|b| - 1]);
    }
  }

  lemma LiveOne(x: int)
    ensures LiveOf([x]) == if x != MOVED then multiset{x} else multiset{}
    ensures MovedCount([x]) == if x == MOVED then 1 else 0
  {
    assert [x][..0] == [];
  }

  /** Inserting anywhere adds the client. */
  lemma LiveInsert(socks: seq<int>, p: nat, x: int)
    requires p <= |socks|
    ensures LiveOf(socks[..p] + [x] + socks[p..]) == LiveOf(socks) + LiveOf([x])
  {
    var a, b := socks[..p], socks[p..];
    assert socks == a + b;
    LiveConcat(a, [x]);
    LiveConcat(a + [x], b);
    LiveConcat(a, b);
    Regroup(LiveOf(a), LiveOf([x]), LiveOf(b));
  }

  /** Marking an entry removes exactly that client. */
  lemma LiveMark(socks: seq<int>, i: nat)
    requires i < |socks|
    ensures LiveOf(socks[i := MOVED]) + LiveOf([socks[i]]) == LiveOf(socks)
  {
    var a, b := socks[..i], socks[i + 1..];
    assert socks == a + [socks[i]] + b && socks[i := MOVED] == a + [MOVED] + b;
    LiveConcat(a, [socks[i]]);
    LiveConcat(a + [socks[i]], b);
    LiveConcat(a, [MOVED]);
    LiveConcat(a + [MOVED], b);
    LiveOne(MOVED);
    Unit(LiveOf(a));
    Regroup(LiveOf(a), LiveOf([socks[i]]), LiveOf(b));
  }

  /** The clients a batch is responsible for. */
  function Clients(b: Batch): (m: multiset<int>) {
    if b.stage.Active? then LiveOf(b.socks) else b.sending
  }

  function AllClients(batches: seq<Batch>): (m: multiset<int>) {
    if batches == [] then multiset{} else AllClients(batches[..|batches| - 1]) + Clients(batches[|batches| - 1])
  }

  lemma {:induction false} AllClientsUpdate(batches: seq<Batch>, i: nat, b: Batch)
    requires i < |batches|
    ensures AllClients(batches[i := b]) + Clients(batches[i]) == AllClients(batches) + Clients(b)
    decreases |batches|
  {
    var last := |batches| - 1;
    var front := batches[..last];
    if i == last {
      assert batches[i := b][..last] == front;
      Regroup(AllClients(front), Clients(b), Clients(batches[i]));
    } else {
      assert batches[i := b][..last] == front[i := b];
      AllClientsUpdate(front, i, b);
      Regroup(AllClients(front[i := b]), Clients(batches[last]), Clients(batches[i]));
      Regroup(AllClients(front), Clients(batches[last]), Clients(b));
    }
  }

  lemma AllClientsAppend(batches: seq<Batch>, b: Batch)
    ensures AllClients(batches + [b]) == AllClients(batches) + Clients(b)
  {
    assert (batches + [b])[..|batches|] == batches;
  }

  // ----- Steps -----

  datatype Step =
    | Receive(client: int, p: nat)             // a request arrives, inserted in key order at p
    | Hand                                     // the full batch goes to the main thread, a new one is started
    | Create                                   // a new batch for the part of a decomposition, or the next read batch
    | Move(from: nat, i: nat, to: nat, p: nat) // a live entry moves to another batch and is marked
    | Split(b: nat, left: seq<int>, parts: seq<seq<int>>) // a batch is decomposed; `left` is what stays in its array
    | Complete(b: nat)                         // a batch comes back to the network thread
    | SendDone(b: nat, client: int)            // a zero-copy send is finished, the connection is closed

  predicate Enabled(s: State, step: Step, capacity: nat) {
    match step
    case Receive(client, p) =>
      client >= 0 && client !in s.accepted && s.filling < |s.batches| && s.batches[s.filling].stage.Active?
      && |s.batches[s.filling].socks| < capacity && p <= |s.batches[s.filling].socks|
    case Hand => s.filling < |s.batches| && |s.batches[s.filling].socks| >= capacity
    case Create => true
    case Move(from, i, to, p) =>
      && from < |s.batches| && to < |s.batches| && from != to && to != s.filling
      && s.batches[from].stage.Active? && s.batches[to].stage.Active?
      && i < |s.batches[from].socks| && s.batches[from].socks[i] != MOVED && p <= |s.batches[to].socks|
    case Split(b, left, parts) =>
      && b < |s.batches| && b != s.filling && s.batches[b].stage.Active? && |left| == |s.batches[b].socks|
      && LiveOfAll(parts, |parts|) == LiveOf(s.batches[b].socks)
    case Complete(b) =>
      b < |s.batches| && b != s.filling && s.batches[b].stage.Active? && s.batches[b].socks != []
    case SendDone(b, client) => b < |s.batches| && client in s.batches[b].sending
  }

  function NewBatches(parts: seq<seq<int>>): (batches: seq<Batch>)
    ensures |batches| == |parts|
  {
    seq(|parts|, i requires 0 <= i < |parts| => Batch(parts[i], 0, Active, multiset{}))
  }

  function Insert(b: Batch, p: nat, client: int): Batch
    requires p <= |b.socks|
  {
    b.(socks := b.socks[..p] + [client] + b.socks[p..])
  }

  /** Submit a send for each live entry, count the moved ones as sent, free the batch if nothing is left. */
  function Completed(b: Batch): Batch {
    var n := b.numSent + MovedCount(b.socks);
    b.(numSent := n, sending := LiveOf(b.socks), stage := if n == |b.socks| then Freed else Completing)
  }

  function Sent(b: Batch, client: int): Batch {
    var n := b.numSent + 1;
    b.(numSent := n, sending := b.sending - multiset{client}, stage := if n == |b.socks| then Freed else b.stage)
  }

  function FreeIfDone(s: State, b: nat): seq<nat>
    requires b < |s.batches|
  {
    if s.batches[b].stage.Freed? then s.frees + [b] else s.frees
  }

  function Apply(s: State, step: Step, capacity: nat): State
    requires Enabled(s, step, capacity)
  {
    match step
    case Receive(client, p) =>
      s.(batches := s.batches[s.filling := Insert(s.batches[s.filling], p, client)],
         accepted := s.accepted + multiset{client})
    case Hand => s.(batches := s.batches + [NEW_BATCH], filling := |s.batches|)
    case Create => s.(batches := s.batches + [NEW_BATCH])
    case Move(from, i, to, p) =>
      var client := s.batches[from].socks[i];
      var marked := s.batches[from := s.batches[from].(socks := s.batches[from].socks[i := MOVED])];
      s.(batches := marked[to := Insert(marked[to], p, client)])
    case Split(b, left, parts) =>
      s.(batches := s.batches[b := s.batches[b].(socks := left, stage := Retired)] + NewBatches(parts))
    case Complete(b) =>
      var t := s.(batches := s.batches[b := Completed(s.batches[b])]);
      t.(frees := FreeIfDone(t, b))
    case SendDone(b, client) =>
      var t := s.(batches := s.batches[b := Sent(s.batches[b], client)], answered := s.answered + multiset{client});
      t.(frees := FreeIfDone(t, b))
  }

  // ----- The invariant -----

  ghost predicate BatchOk(b: Batch) {
    match b.stage
    case Active => b.numSent == 0 && b.sending == multiset{}
    case Retired => b.numSent == 0 && b.sending == multiset{}
    case Completing => b.numSent + |b.sending| == |b.socks| && b.numSent < |b.socks|
    case Freed => b.numSent == |b.socks| && b.sending == multiset{}
  }

  ghost predicate BatchesOk(s: State) {
    forall i :: 0 <= i < |s.batches| ==> BatchOk(s.batches[i])
  }

  /** Every accepted client is with exactly one batch, or answered. */
  ghost predicate Conserved(s: State) {
    AllClients(s.batches) + s.answered == s.accepted
  }

  ghost predicate FreesOk(s: State) {
    forall i: nat :: multiset(s.frees)[i] == if i < |s.batches| && s.batches[i].stage.Freed? then 1 else 0
  }

  ghost predicate Inv(s: State) {
    && s.filling < |s.batches| && s.batches[s.filling].stage.Active?
    && BatchesOk(s) && Conserved(s) && FreesOk(s)
    && (forall c :: s.accepted[c] <= 1)
  }

  lemma InitInv()
    ensures Inv(Init())
  {
    assert AllClients([NEW_BATCH]) == AllClients([]) + Clients(NEW_BATCH);
  }

  lemma ReceiveConserves(s: State, client: int, p: nat, capacity: nat)
    requires Inv(s) && Enabled(s, Receive(client, p), capacity)
    ensures Conserved(Apply(s, Receive(client, p), capacity))
  {
    var b, all := s.batches[s.filling], AllClients(s.batches);
    var b' := Insert(b, p, client);
    var all' := AllClients(s.batches[s.filling := b']);
    AllClientsUpdate(s.batches, s.filling, b');
    LiveInsert(b.socks, p, client);
    LiveOne(client);
    Regroup(all, Clients(b), multiset{client});
    Cancel(all', all + multiset{client}, Clients(b));
    Regroup(all, multiset{client}, s.answered);
  }

  lemma ReceiveKeepsInv(s: State, client: int, p: nat, capacity: nat)
    requires Inv(s) && Enabled(s, Receive(client, p), capacity)
    ensures Inv(Apply(s, Receive(client, p), capacity))
  {
    var t := Apply(s, Receive(client, p), capacity);
    ReceiveConserves(s, client, p, capacity);
    assert BatchesOk(t);
    assert FreesOk(t);
  }

  lemma AppendKeepsInv(s: State, step: Step, capacity: nat)
    requires Inv(s) && Enabled(s, step, capacity) && (step.Hand? || step.Create?)
    ensures Inv(Apply(s, step, capacity))
  {
    AllClientsAppend(s.batches, NEW_BATCH);
    Unit(AllClients(s.batches));
    assert Clients(NEW_BATCH) == multiset{};
  }

  lemma OnePartMore(batches: seq<Batch>, parts: seq<seq<int>>, n: nat)
    requires n < |parts|
    ensures AllClients(batches + NewBatches(parts)[..n + 1]) ==
            AllClients(batches + NewBatches(parts)[..n]) + LiveOf(parts[n])
  {
    var added := NewBatches(parts);
    assert batches + added[..n + 1] == (batches + added[..n]) + [added[n]];
    AllClientsAppend(batches + added[..n], added[n]);
  }

  /** The first n parts have been added, and their clients with them. */
  ghost predicate PartsAdded(batches: seq<Batch>, parts: seq<seq<int>>, n: nat)
    requires n <= |parts|
  {
    AllClients(batches + NewBatches(parts)[..n]) == AllClients(batches) + LiveOfAll(parts, n)
  }

  lemma PartsAddedNext(batches: seq<Batch>, parts: seq<seq<int>>, n: nat)
    requires n < |parts| && PartsAdded(batches, parts, n)
    ensures PartsAdded(batches, parts, n + 1)
  {
    OnePartMore(batches, parts, n);
    Regroup(AllClients(batches), LiveOfAll(parts, n), LiveOf(parts[n]));
  }

  lemma AllClientsParts(batches: seq<Batch>, parts: seq<seq<int>>)
    ensures AllClients(batches + NewBatches(parts)) == AllClients(batches) + LiveOfAll(parts, |parts|)
  {
    assert batches + NewBatches(parts)[..0] == batches;
    Unit(AllClients(batches));
    for n := 0 to |parts|
      invariant PartsAdded(batches, parts, n)
    {
      PartsAddedNext(batches, parts, n);
    }
    assert NewBatches(parts)[..|parts|] == NewBatches(parts);
  }

  /** A decomposition hands every client on: what the input held live is in the parts. */
  lemma SplitKeepsClients(s: State, b: nat, left: seq<int>, parts: seq<seq<int>>, capacity: nat)
    requires Inv(s) && Enabled(s, Split(b, left, parts), capacity)
    ensures AllClients(Apply(s, Split(b, left, parts), capacity).batches) == AllClients(s.batches)
  {
    var retired := s.batches[b].(socks := left, stage := Retired);
    var rest := s.batches[b := retired];
    assert BatchOk(s.batches[b]);
    AllClientsUpdate(s.batches, b, retired);
    Unit(AllClients(s.batches));
    AllClientsParts(rest, parts);
  }

  lemma SplitKeepsInv(s: State, b: nat, left: seq<int>, parts: seq<seq<int>>, capacity: nat)
    requires Inv(s) && Enabled(s, Split(b, left, parts), capacity)
    ensures Inv(Apply(s, Split(b, left, parts), capacity))
  {
    SplitKeepsClients(s, b, left, parts, capacity);
    SplitKeepsBatches(s, Apply(s, Split(b, left, parts), capacity), b, left, parts);
  }

  lemma SplitKeepsBatches(s: State, t: State, b: nat, left: seq<int>, parts: seq<seq<int>>)
    requires BatchesOk(s) && FreesOk(s) && b < |s.batches| && s.batches[b].stage.Active? && t.frees == s.frees
    requires t.batches == s.batches[b := s.batches[b].(socks := left, stage := Retired)] + NewBatches(parts)
    ensures BatchesOk(t) && FreesOk(t)
  {
    forall i | 0 <= i < |t.batches| ensures BatchOk(t.batches[i]) {
      if i < |s.batches| {
        assert BatchOk(s.batches[i]);
      } else {
        assert t.batches[i] == NewBatches(parts)[i - |s.batches|];
      }
    }
  }

  /** Moving an entry changes who holds the client, not which clients there are. */
  lemma MoveKeepsClients(s: State, from: nat, i: nat, to: nat, p: nat, capacity: nat)
    requires Enabled(s, Move(from, i, to, p), capacity)
    ensures AllClients(Apply(s, Move(from, i, to, p), capacity).batches) == AllClients(s.batches)
  {
    var a, b := s.batches[from], s.batches[to];
    var client := a.socks[i];
    var a', b' := a.(socks := a.socks[i := MOVED]), Insert(b, p, client);
    var marked := s.batches[from := a'];
    AllClientsUpdate(s.batches, from, a');
    AllClientsUpdate(marked, to, b');
    LiveMark(a.socks, i);
    LiveInsert(b.socks, p, client);
    Handover(AllClients(s.batches), AllClients(marked), AllClients(marked[to := b']),
             Clients(a'), LiveOf([client]), Clients(b));
  }

  lemma Handover(
    before: multiset<int>, middle: multiset<int>, after: multiset<int>,
    rest: multiset<int>, one: multiset<int>, other: multiset<int>)
    requires middle + (rest + one) == before + rest
    requires after + other == middle + (other + one)
    ensures after == before
  {
    Regroup(middle, rest, one);
    Regroup(middle, other, one);
    Cancel(middle + one, before, rest);
    Cancel(after, middle + one, other);
  }

  lemma MoveKeepsStages(s: State, from: nat, i: nat, to: nat, p: nat, capacity: nat)
    requires Enabled(s, Move(from, i, to, p), capacity)
    ensures var t := Apply(s, Move(from, i, to, p), capacity);
            && |t.batches| == |s.batches|
            && forall k :: 0 <= k < |s.batches| ==>
                 && t.batches[k].stage == s.batches[k].stage && t.batches[k].numSent == s.batches[k].numSent
                 && t.batches[k].sending == s.batches[k].sending
                 && (!s.batches[k].stage.Active? ==> t.batches[k] == s.batches[k])
  {
  }

  lemma StagesSuffice(s: State, t: State)
    requires BatchesOk(s) && FreesOk(s) && |t.batches| == |s.batches| && t.frees == s.frees
    requires forall k :: 0 <= k < |s.batches| ==>
      && t.batches[k].stage == s.batches[k].stage && t.batches[k].numSent == s.batches[k].numSent
      && t.batches[k].sending == s.batches[k].sending
      && (!s.batches[k].stage.Active? ==> t.batches[k] == s.batches[k])
    ensures BatchesOk(t) && FreesOk(t)
  {
    forall k | 0 <= k < |t.batches| ensures BatchOk(t.batches[k]) {
      assert BatchOk(s.batches[k]);
    }
  }

  lemma MoveKeepsInv(s: State, from: nat, i: nat, to: nat, p: nat, capacity: nat)
    requires Inv(s) && Enabled(s, Move(from, i, to, p), capacity)
    ensures Inv(Apply(s, Move(from, i, to, p), capacity))
  {
    MoveKeepsClients(s, from, i, to, p, capacity);
    MoveKeepsStages(s, from, i, to, p, capacity);
    StagesSuffice(s, Apply(s, Move(from, i, to, p), capacity));
  }

  lemma FreesAfter(s: State, t: State, b: nat)
    requires FreesOk(s) && b < |s.batches| == |t.batches| && !s.batches[b].stage.Freed? && t.frees == s.frees
    requires forall i :: 0 <= i < |s.batches| && i != b ==> t.batches[i] == s.batches[i]
    ensures FreesOk(t.(frees := FreeIfDone(t, b)))
  {
  }

  lemma CompletedBatchOk(b: Batch)
    requires BatchOk(b) && b.stage.Active? && b.socks != []
    ensures BatchOk(Completed(b)) && Clients(Completed(b)) == Clients(b)
  {
    LiveAndMoved(b.socks);
    Unit(LiveOf(b.socks));
  }

  lemma CompleteKeepsInv(s: State, b: nat, capacity: nat)
    requires Inv(s) && Enabled(s, Complete(b), capacity)
    ensures Inv(Apply(s, Complete(b), capacity))
  {
    var t := s.(batches := s.batches[b := Completed(s.batches[b])]);
    CompletedBatchOk(s.batches[b]);
    AllClientsUpdate(s.batches, b, Completed(s.batches[b]));
    Cancel(AllClients(t.batches), AllClients(s.batches), Clients(s.batches[b]));
    FreesAfter(s, t, b);
    assert BatchesOk(t) && Conserved(t);
  }

  lemma SentBatchOk(b: Batch, client: int)
    requires BatchOk(b) && client in b.sending
    ensures b.stage.Completing? && BatchOk(Sent(b, client)) && Clients(b) == Clients(Sent(b, client)) + multiset{client}
  {
    var rest := b.sending - multiset{client};
    assert b.sending == rest + multiset{client};
    Unit(rest);
  }

  /** One client fewer with the batches, one more answered. */
  lemma SendConserves(s: State, b: nat, client: int)
    requires Inv(s) && b < |s.batches| && client in s.batches[b].sending
    ensures AllClients(s.batches[b := Sent(s.batches[b], client)]) + (s.answered + multiset{client}) == s.accepted
  {
    var sent := Sent(s.batches[b], client);
    assert BatchOk(s.batches[b]);
    SentBatchOk(s.batches[b], client);
    AllClientsUpdate(s.batches, b, sent);
    Answer(AllClients(s.batches), AllClients(s.batches[b := sent]), Clients(sent), multiset{client}, s.answered);
  }

  lemma SendKeepsInv(s: State, b: nat, client: int, capacity: nat)
    requires Inv(s) && Enabled(s, SendDone(b, client), capacity)
    ensures Inv(Apply(s, SendDone(b, client), capacity))
  {
    var t := s.(batches := s.batches[b := Sent(s.batches[b], client)]);
    SendConserves(s, b, client);
    SentBatchOk(s.batches[b], client);
    FreesAfter(s, t, b);
    OneBatchReplaced(s, b, Sent(s.batches[b], client));
    assert Apply(s, SendDone(b, client), capacity) ==
           t.(answered := s.answered + multiset{client}, frees := FreeIfDone(t, b));
  }

  lemma OneBatchReplaced(s: State, b: nat, batch: Batch)
    requires BatchesOk(s) && b < |s.batches| && BatchOk(batch)
    ensures BatchesOk(s.(batches := s.batches[b := batch]))
  {
  }

  lemma Answer(a: multiset<int>, b: multiset<int>, rest: multiset<int>, one: multiset<int>, answered: multiset<int>)
    requires b + (rest + one) == a + rest
    ensures b + (answered + one) == a + answered
  {
    Regroup(b, rest, one);
    Cancel(b + one, a, rest);
    Regroup(b, answered, one);
  }

  lemma StepKeepsInv(s: State, step: Step, capacity: nat)
    requires Inv(s) && Enabled(s, step, capacity)
    ensures Inv(Apply(s, step, capacity))
  {
    match step
    case Receive(client, p) => ReceiveKeepsInv(s, client, p, capacity);
    case Hand => AppendKeepsInv(s, step, capacity);
    case Create => AppendKeepsInv(s, step, capacity);
    case Move(from, i, to, p) => MoveKeepsInv(s, from, i, to, p, capacity);
    case Split(b, left, parts) => SplitKeepsInv(s, b, left, parts, capacity);
    case Complete(b) => CompleteKeepsInv(s, b, capacity);
    case SendDone(b, client) => SendKeepsInv(s, b, client, capacity);
  }

  ghost predicate IsRun(s: State, steps: seq<Step>, capacity: nat)
    decreases |steps|
  {
    steps == [] || (Enabled(s, steps[0], capacity) && IsRun(Apply(s, steps[0], capacity), steps[1..], capacity))
  }

  ghost function Final(s: State, steps: seq<Step>, capacity: nat): State
    requires IsRun(s, steps, capacity)
    decreases |steps|
  {
    if steps == [] then s else Final(Apply(s, steps[0], capacity), steps[1..], capacity)
  }

  lemma {:induction false} RunKeepsInv(s: State, steps: seq<Step>, capacity: nat)
    requires Inv(s) && IsRun(s, steps, capacity)
    ensures Inv(Final(s, steps, capacity))
    decreases |steps|
  {
    if steps != [] {
      StepKeepsInv(s, steps[0], capacity);
      RunKeepsInv(Apply(s, steps[0], capacity), steps[1..], capacity);
    }
  }

  /**
   * Exactly once: after any run, every accepted client is counted exactly once over the live entries of
   * active batches, the pending sends and the answers; no batch is freed twice or with a send pending,
   * and a batch is freed exactly when its sent count has reached its length.
   */
  lemma ExactlyOnce(steps: seq<Step>, capacity: nat, client: int)
    requires IsRun(Init(), steps, capacity)
    ensures var s := Final(Init(), steps, capacity);
            && (client in s.accepted ==> AllClients(s.batches)[client] + s.answered[client] == 1)
            && (client !in s.accepted ==> s.answered[client] == 0)
            && (forall b :: 0 <= b < |s.batches| ==>
                  && multiset(s.frees)[b] == (if s.batches[b].stage.Freed? then 1 else 0)
                  && (s.batches[b].stage.Freed? ==> s.batches[b].sending == multiset{})
                  && (s.batches[b].stage.Completing? || s.batches[b].stage.Freed? ==>
                        (s.batches[b].stage.Freed? <==> s.batches[b].numSent == |s.batches[b].socks|)))
  {
    InitInv();
    RunKeepsInv(Init(), steps, capacity);
    var s := Final(Init(), steps, capacity);
    assert s.accepted[client] <= 1;
    assert AllClients(s.batches)[client] + s.answered[client] == s.accepted[client];
    forall b | 0 <= b < |s.batches| ensures BatchOk(s.batches[b]) {
    }
  }

  // ----- The completion loop -----

  /** The network thread's loop over a completed batch; the last entry is handled after the loop. */
  method CompleteBatch(socks: seq<int>) returns (sends: seq<int>, numSent: nat)
    requires socks != []
    ensures multiset(sends) == LiveOf(socks) && numSent == MovedCount(socks)
    ensures |sends| + numSent == |socks|
  {
    sends, numSent := [], 0;
    var i := 0;
    while i < |socks| - 1
      invariant i <= |socks| - 1
      invariant Swept(socks, i, sends, numSent)
    {
      SweepGrows(socks, i, sends, numSent);
      if socks[i] != MOVED {
        sends := sends + [socks[i]];
      } else {
        numSent := numSent + 1;
      }
      i := i + 1;
    }
    SweepGrows(socks, i, sends, numSent);
    assert socks[..|socks|] == socks;
    if socks[i] != MOVED {
      sends := sends + [socks[i]];
    } else {
      numSent := numSent + 1;
    }
  }

  lemma PrefixGrows(socks: seq<int>, i: nat)
    requires i < |socks|
    ensures LiveOf(socks[..i + 1]) == LiveOf(socks[..i]) + if socks[i] != MOVED then multiset{socks[i]} else multiset{}
    ensures MovedCount(socks[..i + 1]) == MovedCount(socks[..i]) + if socks[i] == MOVED then 1 else 0
  {
    assert socks[..i + 1][..i] == socks[..i];
  }

  /** The first i entries are handled: the live ones submitted, the moved ones counted. */
  ghost predicate Swept(socks: seq<int>, i: nat, sends: seq<int>, numSent: nat)
    requires i <= |socks|
  {
    multiset(sends) == LiveOf(socks[..i]) && numSent == MovedCount(socks[..i]) && |sends| + numSent == i
  }

  lemma SweepGrows(socks: seq<int>, i: nat, sends: seq<int>, numSent: nat)
    requires i < |socks| && Swept(socks, i, sends, numSent)
    ensures socks[i] != MOVED ==> Swept(socks, i + 1, sends + [socks[i]], numSent)
    ensures socks[i] == MOVED ==> Swept(socks, i + 1, sends, numSent + 1)
  {
    PrefixGrows(socks, i);
    Unit(LiveOf(socks[..i]));
  }

  // ----- A request that meets a full batch, as written -----

  /**
   * As written, the request that finds the batch full only causes the batch to be handed on; it is not put
   * into the new batch.
   */
  function ReceiveAsWritten(s: State, client: int, p: nat, capacity: nat): State
    requires Inv(s) && client >= 0 && client !in s.accepted && p <= |s.batches[s.filling].socks|
  {
    if |s.batches[s.filling].socks| < capacity then Apply(s, Receive(client, p), capacity)
    else s.(batches := s.batches + [NEW_BATCH], filling := |s.batches|, accepted := s.accepted + multiset{client})
  }

  /** As written, an accepted client keeps its one place exactly when the batch had room. */
  lemma WrittenReceiveConservesExactly(s: State, client: int, p: nat, capacity: nat)
    requires Inv(s) && client >= 0 && client !in s.accepted && p <= |s.batches[s.filling].socks|
    ensures var t := ReceiveAsWritten(s, client, p, capacity);
            AllClients(t.batches) + t.answered == t.accepted <==> |s.batches[s.filling].socks| < capacity
  {
    if |s.batches[s.filling].socks| < capacity {
      ReceiveKeepsInv(s, client, p, capacity);
    } else {
      AllClientsAppend(s.batches, NEW_BATCH);
      var t := ReceiveAsWritten(s, client, p, capacity);
      assert AllClients(t.batches) + t.answered == s.accepted;
      assert t.accepted[client] == s.accepted[client] + 1;
    }
  }
}
