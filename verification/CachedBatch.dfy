// A whole batch answered through the page cache: the stack-driven traversal of the requests, each of them searched
// in the cached file.
module CachedBatch {
  import opened Entries
  import opened Logs
  import opened Products
  import opened TraversalStack
  import opened SSTableTree
  import opened BatchTraversal
  import opened CachedSearch

  /** Pages that k searches may record. */
  function Cost(k: nat, size: nat): (n: nat) {
    if k == 0 then 0 else Cost(k - 1, size) + 2 * Visits(size, 0)
  }

  lemma {:induction false} CostMonotone(k: nat, k': nat, size: nat)
    requires k <= k'
    ensures Cost(k, size) <= Cost(k', size)
    decreases k'
  {
    if k < k' {
      CostMonotone(k, k' - 1, size);
    }
  }

  /** A file of fewer than 2^h entries: at most two pages for each of h + 1 visits. */
  lemma {:induction false} CostIsSmall(k: nat, size: nat, h: nat)
    requires size < Pow2(h)
    ensures Cost(k, size) <= k * (2 * h + 2)
  {
    VisitsAreFew(size, 0, h);
    if k > 0 {
      CostIsSmall(k - 1, size, h);
      Distribute(k - 1, 1, 2 * h + 2);
    }
  }

  lemma CostOfNext(k: nat, size: nat) returns (room: nat, rest: nat)
    requires k > 0
    ensures room == Cost(k, size) && rest == Cost(k - 1, size) && room == rest + 2 * Visits(size, 0)
  {
    room, rest := Cost(k, size), Cost(k - 1, size);
  }

  /** Windows on page boundaries, a buffer, and room for that many pages. */
  predicate RoomInIndex(cf: CachedFile, pages: nat)
    reads cf, cf.cache
  {
    cf.block == cf.page && cf.HasStock() && cf.Room() >= pages
  }

  /** Room for k more searches. */
  predicate AmpleFor(cf: CachedFile, k: nat)
    reads cf, cf.cache
  {
    RoomInIndex(cf, Cost(k, |cf.file|))
  }

  /** Search for one request; `value` is its field afterwards. */
  method AnswerCached(key: Key, value: Value, cf: CachedFile, ghost room: nat, ghost rest: nat)
    returns (answered: bool, value': Value)
    requires cf.Valid() && room == rest + 2 * Visits(|cf.file|, 0)
    modifies cf`pages, cf.cache, cf.cache.locations, cf.cache.positions
    ensures cf.Valid()
    ensures value' == if answered then Overwrite(value, Find(cf.file, 0, key)) else value
    ensures old(RoomInIndex(cf, room)) ==> answered && RoomInIndex(cf, rest)
  {
    var r := cf.Search(key);
    answered := r.Found?;
    value' := if answered && r.value.Some? then r.value.value else value;
  }

  /** What the traversal has done so far: the frames left, the requests visited, the value fields. */
  ghost predicate Underway(
    frames: seq<Frame>, keys: seq<Key>, length: nat, values: seq<Value>, original: seq<Value>, file: seq<Entry>,
    visited: seq<nat>, plan: seq<nat>)
  {
    Traversing(frames, |keys|, length, visited, plan) && Answered(values, original, keys, file, visited)
  }

  /** One request further: the frames, value fields and visits after the top request is answered. */
  lemma UnderwayStep(
    frames: seq<Frame>, keys: seq<Key>, length: nat, values: seq<Value>, original: seq<Value>, file: seq<Entry>,
    visited: seq<nat>, plan: seq<nat>)
    returns (after: seq<Frame>, values': seq<Value>, visited': seq<nat>)
    requires frames != [] && Underway(frames, keys, length, values, original, file, visited, plan)
    ensures var current := frames[|frames| - 1].current;
            && current < |keys| == |values| && |visited| < |plan|
            && after == MovedDown(frames) && visited' == visited + [current]
            && values' == values[current := Overwrite(values[current], Find(file, 0, keys[current]))]
    ensures Underway(after, keys, length, values', original, file, visited', plan)
  {
    var current := frames[|frames| - 1].current;
    TraverseStep(frames, |keys|, length, visited, plan);
    TopFacts(frames, |keys|, length);
    AnsweredStep(values, original, keys, file, visited, current);
    after, visited' := MovedDown(frames), visited + [current];
    values' := values[current := Overwrite(values[current], Find(file, 0, keys[current]))];
  }

  lemma MoreToVisit(
    frames: seq<Frame>, keys: seq<Key>, length: nat, values: seq<Value>, original: seq<Value>, file: seq<Entry>,
    visited: seq<nat>, plan: seq<nat>)
    requires frames != [] && Underway(frames, keys, length, values, original, file, visited, plan)
    ensures |visited| < |plan|
  {
    var after, values', visited' := UnderwayStep(frames, keys, length, values, original, file, visited, plan);
  }

  /** Run the stack down; stop early only if a search finds no room or no buffer. */
  method RunCached(stack: Stack, keys: seq<Key>, values: seq<Value>, cf: CachedFile, ghost plan: seq<nat>)
    returns (done: bool, values': seq<Value>, ghost visited: seq<nat>)
    requires stack.Valid() && cf.Valid()
    requires Underway(stack.Frames(), keys, stack.data.Length, values, values, cf.file, [], plan)
    requires forall i :: 0 <= i < |keys| ==> keys[i] != NULL_KEY
    modifies stack, stack.data, cf`pages, cf.cache, cf.cache.locations, cf.cache.positions
    ensures stack.Valid() && cf.Valid()
    ensures Underway(stack.Frames(), keys, stack.data.Length, values', values, cf.file, visited, plan)
    ensures done ==> stack.Frames() == []
    ensures old(AmpleFor(cf, |plan|)) ==> done
  {
    visited, values' := [], values;
    ghost var ample := AmpleFor(cf, |plan|);
    var empty := stack.Empty();
    while !empty
      invariant stack.Valid() && cf.Valid() && empty == (stack.Frames() == [])
      invariant Underway(stack.Frames(), keys, stack.data.Length, values', values, cf.file, visited, plan)
      invariant ample ==> |visited| <= |plan| && AmpleFor(cf, |plan| - |visited|)
      decreases |plan| - |visited|
    {
      var answered;
      answered, values', visited := StepCached(stack, keys, values', cf, values, visited, plan);
      if !answered {
        return false, values', visited;
      }
      empty := stack.Empty();
    }
    done := true;
  }

  method StepCached(
    stack: Stack, keys: seq<Key>, values: seq<Value>, cf: CachedFile,
    ghost original: seq<Value>, ghost visited: seq<nat>, ghost plan: seq<nat>)
    returns (answered: bool, values': seq<Value>, ghost visited': seq<nat>)
    requires stack.Valid() && stack.Frames() != [] && cf.Valid()
    requires Underway(stack.Frames(), keys, stack.data.Length, values, original, cf.file, visited, plan)
    requires forall i :: 0 <= i < |keys| ==> keys[i] != NULL_KEY
    modifies stack, stack.data, cf`pages, cf.cache, cf.cache.locations, cf.cache.positions
    ensures stack.Valid() && cf.Valid()
    ensures Underway(stack.Frames(), keys, stack.data.Length, values', original, cf.file, visited', plan)
    ensures |visited| < |plan| && (answered ==> |visited'| == |visited| + 1)
    ensures old(AmpleFor(cf, |plan| - |visited|)) ==> answered && AmpleFor(cf, |plan| - |visited'|)
  {
    MoreToVisit(stack.Frames(), keys, stack.data.Length, values, original, cf.file, visited, plan);
    ghost var room, rest := CostOfNext(|plan| - |visited|, |cf.file|);
    answered, values', visited' := StepWithin(stack, keys, values, cf, original, visited, plan, room, rest);
  }

  /** The step, with the room left in the index before and after. */
  method StepWithin(
    stack: Stack, keys: seq<Key>, values: seq<Value>, cf: CachedFile,
    ghost original: seq<Value>, ghost visited: seq<nat>, ghost plan: seq<nat>, ghost room: nat, ghost rest: nat)
    returns (answered: bool, values': seq<Value>, ghost visited': seq<nat>)
    requires room == rest + 2 * Visits(|cf.file|, 0) && stack.Valid() && stack.Frames() != [] && cf.Valid()
    requires Underway(stack.Frames(), keys, stack.data.Length, values, original, cf.file, visited, plan)
    requires forall i :: 0 <= i < |keys| ==> keys[i] != NULL_KEY
    modifies stack, stack.data, cf`pages, cf.cache, cf.cache.locations, cf.cache.positions
    ensures stack.Valid() && cf.Valid()
    ensures Underway(stack.Frames(), keys, stack.data.Length, values', original, cf.file, visited', plan)
    ensures answered ==> |visited'| == |visited| + 1
    ensures old(RoomInIndex(cf, room)) ==> answered && RoomInIndex(cf, rest)
  {
    ghost var frames, length := stack.Frames(), stack.data.Length;
    ghost var after, values1, visited1 :=
      UnderwayStep(frames, keys, length, values, original, cf.file, visited, plan);
    var current;
    answered, current, values' := FinishCached(stack, keys, values, cf, room, rest);
    visited' := visited;
    if answered {
      assert stack.Frames() == after && values' == values1;
      visited' := visited1;
    }
  }

  /** Search for the request on top of the stack; with an answer, fill in its value and go to its children. */
  method FinishCached(stack: Stack, keys: seq<Key>, values: seq<Value>, cf: CachedFile, ghost room: nat, ghost rest: nat)
    returns (answered: bool, current: nat, values': seq<Value>)
    requires stack.Valid() && stack.Frames() != [] && cf.Valid() && |values| == |keys|
    requires WellFormed(stack.Frames(), |keys|) && RoomFor(stack.Frames(), stack.data.Length)
    requires forall i :: 0 <= i < |keys| ==> keys[i] != NULL_KEY
    modifies stack, stack.data, cf`pages, cf.cache, cf.cache.locations, cf.cache.positions
    ensures stack.Valid() && cf.Valid()
    ensures current == old(stack.Frames())[|old(stack.Frames())| - 1].current && current < |keys|
    ensures stack.Frames() == if answered then MovedDown(old(stack.Frames())) else old(stack.Frames())
    ensures values' == if answered
                       then values[current := Overwrite(values[current], Find(cf.file, 0, keys[current]))] else values
    requires room == rest + 2 * Visits(|cf.file|, 0)
    ensures old(RoomInIndex(cf, room)) ==> answered && RoomInIndex(cf, rest)
  {
    TopFacts(stack.Frames(), |keys|, stack.data.Length);
    var top := stack.Top();
    current := top.current;
    var value;
    answered, value := AnswerCached(keys[current], values[current], cf, room, rest);
    values' := values;
    if answered {
      values' := values[current := value];
      MoveDownToChildren(stack, keys);
    }
  }

  /**
   * A batch through the cache: if it gets through, every request has the file's value for its key or keeps its
   * field; if not, that holds of the requests visited and the others are untouched. With windows on page
   * boundaries, a buffer, and room for 2n - 1 searches, it gets through.
   */
  method AnswerBatchCached(stack: Stack, keys: seq<Key>, values: seq<Value>, cf: CachedFile)
    returns (done: bool, values': seq<Value>)
    requires stack.Valid() && stack.Frames() == [] && cf.Valid()
    requires |keys| == |values| > 0 && DepthNeed(|keys|) <= stack.data.Length
    requires forall i :: 0 <= i < |keys| ==> keys[i] != NULL_KEY
    modifies stack, stack.data, cf`pages, cf.cache, cf.cache.locations, cf.cache.positions
    ensures stack.Valid() && cf.Valid() && |values'| == |values|
    ensures forall i :: 0 <= i < |keys| && Find(cf.file, 0, keys[i]).Some? ==>
      values'[i] == Find(cf.file, 0, keys[i]).value || (!done && values'[i] == values[i])
    ensures forall i :: 0 <= i < |keys| && Find(cf.file, 0, keys[i]).None? ==> values'[i] == values[i]
    ensures old(AmpleFor(cf, 2 * |keys| - 1)) ==> done
  {
    ghost var visits := PlanCost(|keys|, |cf.file|);
    ghost var ample := AmpleFor(cf, 2 * |keys| - 1);
    assert ample ==> AmpleFor(cf, visits);
    var root := Frame(0, |keys| / 2, 0, |keys|);
    stack.PushTop(root);
    assert stack.Frames() == [root];
    done, values' := RunWhole(stack, keys, values, cf, root, visits);
  }

  /** The same in terms of the table the file was made from; once through, exactly what a scan of the table finds. */
  method AnswerBatchCachedOfTable(
    stack: Stack, keys: seq<Key>, values: seq<Value>, cf: CachedFile, ghost table: seq<Entry>, ghost capacity: nat)
    returns (done: bool, values': seq<Value>)
    requires stack.Valid() && stack.Frames() == [] && cf.Valid()
    requires |keys| == |values| > 0 && DepthNeed(|keys|) <= stack.data.Length
    requires forall i :: 0 <= i < |keys| ==> keys[i] != NULL_KEY
    requires StrictlySorted(table) && NonNull(table) && Fits(|table|, capacity) && cf.file == Layout(table, capacity)
    modifies stack, stack.data, cf`pages, cf.cache, cf.cache.locations, cf.cache.positions
    ensures stack.Valid() && cf.Valid() && |values'| == |values|
    ensures forall i, j :: 0 <= i < |keys| && 0 <= j < |table| && table[j].key == keys[i] ==>
      values'[i] == table[j].value || (!done && values'[i] == values[i])
    ensures forall i :: 0 <= i < |keys| && !Contains(table, keys[i]) ==> values'[i] == values[i]
    ensures old(AmpleFor(cf, 2 * |keys| - 1)) ==> done
  {
    done, values' := AnswerBatchCached(stack, keys, values, cf);
    forall i | 0 <= i < |keys|
      ensures forall j :: 0 <= j < |table| && table[j].key == keys[i] ==> Find(cf.file, 0, keys[i]) == Some(table[j].value)
      ensures !Contains(table, keys[i]) ==> Find(cf.file, 0, keys[i]) == None
    {
      FileAnswersTable(table, capacity, keys[i]);
    }
  }

  lemma PlanCost(n: nat, size: nat) returns (visits: nat)
    requires n > 0
    ensures visits == |Preorder(0, n)| && Cost(visits, size) <= Cost(2 * n - 1, size)
  {
    visits := |Preorder(0, n)|;
    PreorderLength(0, n);
    CostMonotone(visits, 2 * n - 1, size);
  }

  method RunWhole(stack: Stack, keys: seq<Key>, values: seq<Value>, cf: CachedFile, ghost root: Frame, ghost visits: nat)
    returns (done: bool, values': seq<Value>)
    requires stack.Valid() && cf.Valid() && stack.Frames() == [root] && root == Frame(0, |keys| / 2, 0, |keys|)
    requires |keys| == |values| > 0 && DepthNeed(|keys|) <= stack.data.Length && visits == |Preorder(0, |keys|)|
    requires forall i :: 0 <= i < |keys| ==> keys[i] != NULL_KEY
    modifies stack, stack.data, cf`pages, cf.cache, cf.cache.locations, cf.cache.positions
    ensures stack.Valid() && cf.Valid() && |values'| == |values|
    ensures forall i :: 0 <= i < |keys| ==> GotAnswer(values'[i], values[i], Find(cf.file, 0, keys[i]), done)
    ensures old(AmpleFor(cf, visits)) ==> done
  {
    UnderwayStart(root, keys, stack.data.Length, values, cf.file);
    ghost var visited;
    done, values', visited := RunCached(stack, keys, values, cf, Preorder(0, |keys|));
    UnderwayEnd(stack.Frames(), keys, stack.data.Length, values', values, cf.file, visited, done);
  }

  /** The field is the value found, or as it was: if nothing was found, or the search was not done. */
  predicate GotAnswer(value: Value, before: Value, hit: Option<Value>, done: bool) {
    (hit.Some? && value == hit.value) || ((hit.None? || !done) && value == before)
  }

  lemma UnderwayStart(root: Frame, keys: seq<Key>, length: nat, values: seq<Value>, file: seq<Entry>)
    requires |keys| == |values| > 0 && DepthNeed(|keys|) <= length && root == Frame(0, |keys| / 2, 0, |keys|)
    ensures Underway([root], keys, length, values, values, file, [], Preorder(0, |keys|))
  {
    PendingOne(root);
    assert [] + Pending([root]) == Preorder(0, |keys|);
  }

  lemma UnderwayEnd(
    frames: seq<Frame>, keys: seq<Key>, length: nat, values: seq<Value>, original: seq<Value>, file: seq<Entry>,
    visited: seq<nat>, done: bool)
    requires keys != [] && Underway(frames, keys, length, values, original, file, visited, Preorder(0, |keys|))
    requires done ==> frames == []
    ensures |values| == |original| == |keys|
    ensures forall i :: 0 <= i < |keys| ==> GotAnswer(values[i], original[i], Find(file, 0, keys[i]), done)
  {
    if done {
      TraverseDone(|keys|, length, visited, Preorder(0, |keys|));
    }
    forall i | 0 <= i < |keys| ensures GotAnswer(values[i], original[i], Find(file, 0, keys[i]), done) {
      PreorderCovers(0, |keys|, i);
    }
  }
}
