// Answering a sorted request batch against one SSTable: the requests are visited in the preorder of
// the halving tree over the batch, driven by the bounded stack.
module BatchTraversal {
  import opened Entries
  import opened Logs
  import opened TraversalStack
  import opened SSTableTree

  /**
   * The visiting order of move_down_to_children over the requests [left, right). The right child keeps
   * the current index in its range, so an index can be met more than once.
   */
  function Preorder(left: nat, right: nat): (visits: seq<nat>)
    requires left < right
    decreases right - left
  {
    var current := (left + right) / 2;
    [current]
    + (if (left + current) / 2 < current then Preorder(left, current) else [])
    + (if (current + right) / 2 > current then Preorder(current, right) else [])
  }

  /** Exactly the indices of the batch are visited. */
  lemma {:induction false} PreorderCovers(left: nat, right: nat, i: nat)
    requires left < right
    ensures i in Preorder(left, right) <==> left <= i < right
    decreases right - left
  {
    var current := (left + right) / 2;
    if (left + current) / 2 < current {
      PreorderCovers(left, current, i);
    }
    if (current + right) / 2 > current {
      PreorderCovers(current, right, i);
    }
  }

  /** A batch of n requests costs at most 2n - 1 visits. */
  lemma {:induction false} PreorderLength(left: nat, right: nat)
    requires left < right
    ensures right - left <= |Preorder(left, right)| <= 2 * (right - left) - 1
    decreases right - left
  {
    var current := (left + right) / 2;
    if (left + current) / 2 < current {
      PreorderLength(left, current);
    }
    if (current + right) / 2 > current {
      PreorderLength(current, right);
    }
  }

  /** The bound is met: three requests already revisit one. */
  lemma PreorderRevisits()
    ensures Preorder(0, 3) == [1, 0, 2, 1]
  {
    assert Preorder(0, 1) == [0];
    assert Preorder(1, 3) == [2] + Preorder(1, 2);
    assert Preorder(1, 2) == [1];
  }

  ghost function Work(f: Frame): (visits: seq<nat>) {
    if f.left < f.right then Preorder(f.left, f.right) else []
  }

  /** What the frames on the stack, top first, still have to visit. */
  ghost function Pending(frames: seq<Frame>): (visits: seq<nat>) {
    if frames == [] then [] else Work(frames[|frames| - 1]) + Pending(frames[..|frames| - 1])
  }

  ghost predicate WellFormed(frames: seq<Frame>, n: nat) {
    forall j :: 0 <= j < |frames| ==>
      frames[j].left < frames[j].right <= n && frames[j].current == (frames[j].left + frames[j].right) / 2
  }

  ghost function RightFrames(top: Frame): (s: seq<Frame>) {
    var child := (top.current + top.right) / 2;
    if child > top.current then [Frame(0, child, top.current, top.right)] else []
  }

  ghost function LeftFrames(top: Frame): (s: seq<Frame>) {
    var child := (top.left + top.current) / 2;
    if child < top.current then [Frame(0, child, top.left, top.current)] else []
  }

  /** The frames after the top request is finished. */
  ghost function MovedDown(frames: seq<Frame>): (after: seq<Frame>)
    requires frames != []
  {
    var top := frames[|frames| - 1];
    frames[..|frames| - 1] + RightFrames(top) + LeftFrames(top)
  }

  lemma {:induction false} PendingConcat(a: seq<Frame>, b: seq<Frame>)
    ensures Pending(a + b) == Pending(b) + Pending(a)
  {
    if b == [] {
      assert a + b == a;
    } else {
      assert (a + b)[..|a + b| - 1] == a + b[..|b| - 1];
      PendingConcat(a, b[..|b| - 1]);
    }
  }

  lemma PendingOne(f: Frame)
    ensures Pending([f]) == Work(f)
  {
    assert [f][..0] == [];
    assert Pending([f]) == Work(f) + Pending([]);
  }

  lemma WorkSplits(top: Frame)
    requires top.left < top.right && top.current == (top.left + top.right) / 2
    ensures Work(top) == [top.current] + Pending(LeftFrames(top)) + Pending(RightFrames(top))
  {
    if LeftFrames(top) != [] {
      PendingOne(LeftFrames(top)[0]);
    }
    if RightFrames(top) != [] {
      PendingOne(RightFrames(top)[0]);
    }
  }

  /** One visit: the popped frame's work is its own index, then its children, then the rest. */
  lemma PendingStep(rest: seq<Frame>, top: Frame)
    requires top.left < top.right && top.current == (top.left + top.right) / 2
    ensures Pending(rest + [top]) == [top.current] + Pending(rest + RightFrames(top) + LeftFrames(top))
  {
    var rights, lefts := RightFrames(top), LeftFrames(top);
    PendingConcat(rest, [top]);
    PendingOne(top);
    WorkSplits(top);
    PendingConcat(rest, rights);
    PendingConcat(rest + rights, lefts);
    AssociateFour([top.current], Pending(lefts), Pending(rights), Pending(rest));
  }

  lemma AssociateFour(a: seq<nat>, b: seq<nat>, c: seq<nat>, d: seq<nat>)
    ensures a + b + c + d == a + (b + (c + d))
  {
  }

  lemma RoomStep(rest: seq<Frame>, top: Frame, length: nat)
    requires top.left < top.right && top.current == (top.left + top.right) / 2
    requires RoomFor(rest + [top], length)
    ensures RoomFor(rest + RightFrames(top) + LeftFrames(top), length)
    ensures |rest + RightFrames(top) + LeftFrames(top)| <= length
  {
    var before, after := rest + [top], rest + RightFrames(top) + LeftFrames(top);
    assert before[|rest|] == top;
    var size := top.right - top.left;
    if |after| == |rest| + 2 {
      DepthNeedHalf(1, size);
    }
    forall j | 0 <= j < |after| && after[j].left < after[j].right
      ensures j + DepthNeed(after[j].right - after[j].left) <= length
    {
      if j < |rest| {
        assert after[j] == before[j];
      } else {
        var m := after[j].right - after[j].left;
        DepthNeedMonotone(m, size);
        if j > |rest| {
          DepthNeedHalf(m, size);
        }
      }
    }
  }

  /** move_down_to_children: replace the finished request by its children, the left one on top. */
  method MoveDownToChildren(stack: Stack, keys: seq<Key>)
    requires stack.Valid() && stack.Frames() != []
    requires WellFormed(stack.Frames(), |keys|) && RoomFor(stack.Frames(), stack.data.Length)
    requires forall i :: 0 <= i < |keys| ==> keys[i] != NULL_KEY
    modifies stack, stack.data
    ensures stack.Valid()
    ensures stack.Frames() == MovedDown(old(stack.Frames()))
  {
    var top := stack.Top();
    TopFacts(stack.Frames(), |keys|, stack.data.Length);
    stack.PopTop();
    var leftChild := (top.left + top.current) / 2;
    var rightChild := (top.current + top.right) / 2;
    if rightChild > top.current && keys[rightChild] != NULL_KEY {
      stack.PushTop(Frame(0, rightChild, top.current, top.right));
    }
    if leftChild < top.current && keys[leftChild] != NULL_KEY {
      stack.PushTop(Frame(0, leftChild, top.left, top.current));
    }
  }

  lemma TopFacts(frames: seq<Frame>, n: nat, length: nat)
    requires frames != [] && WellFormed(frames, n) && RoomFor(frames, length)
    ensures var top := frames[|frames| - 1];
            && top.left <= top.current < top.right <= n
            && (top.left + top.current) / 2 <= top.current <= (top.current + top.right) / 2 < n
            && |frames| - 1 + |RightFrames(top)| + |LeftFrames(top)| <= length
  {
    var rest, top := frames[..|frames| - 1], frames[|frames| - 1];
    assert frames == rest + [top];
    RoomStep(rest, top, length);
  }

  /** The traversal invariant: what was visited and what the stack still holds make up the plan. */
  ghost predicate Traversing(frames: seq<Frame>, n: nat, length: nat, visited: seq<nat>, plan: seq<nat>) {
    && WellFormed(frames, n) && RoomFor(frames, length)
    && visited + Pending(frames) == plan
  }

  lemma TraverseStep(frames: seq<Frame>, n: nat, length: nat, visited: seq<nat>, plan: seq<nat>)
    requires frames != [] && Traversing(frames, n, length, visited, plan)
    ensures |visited| < |plan|
    ensures Traversing(MovedDown(frames), n, length, visited + [frames[|frames| - 1].current], plan)
  {
    var rest, top := frames[..|frames| - 1], frames[|frames| - 1];
    var after := rest + RightFrames(top) + LeftFrames(top);
    assert frames == rest + [top];
    PendingStep(rest, top);
    RoomStep(rest, top, length);
    WellFormedStep(rest, top, n);
    Reassociate(visited, top.current, Pending(after));
  }

  lemma Reassociate(a: seq<nat>, x: nat, b: seq<nat>)
    ensures a + ([x] + b) == (a + [x]) + b
  {
  }

  lemma WellFormedStep(rest: seq<Frame>, top: Frame, n: nat)
    requires WellFormed(rest + [top], n)
    ensures WellFormed(rest + RightFrames(top) + LeftFrames(top), n)
  {
    var before, after := rest + [top], rest + RightFrames(top) + LeftFrames(top);
    assert before[|rest|] == top;
    assert forall j :: 0 <= j < |rest| ==> after[j] == before[j];
  }

  /** The descent loop of try_sstable_tree_read_in_memory, over a file that is wholly in memory. */
  method SearchFile(data: seq<Entry>, start: nat, key: Key) returns (hit: Option<Value>, stop: nat)
    ensures stop == StopSlot(data, start, key)
    ensures hit == Find(data, start, key)
  {
    stop := start;
    while stop < |data| && data[stop].key != NULL_KEY && data[stop].key != key
      invariant StopSlot(data, stop, key) == StopSlot(data, start, key)
      decreases |data| - stop
    {
      stop := 2 * stop + 2 - (if data[stop].key > key then 1 else 0);
    }
    hit := if stop < |data| && data[stop].key != NULL_KEY then Some(data[stop].value) else None;
  }

  /** A hit overwrites the value field of the request; a miss leaves it. */
  function Overwrite(value: Value, hit: Option<Value>): (r: Value) {
    match hit
    case Some(v) => v
    case None => value
  }

  /** The visited requests are answered, the others are as they were. */
  ghost predicate Answered(
    values: seq<Value>, original: seq<Value>, keys: seq<Key>, data: seq<Entry>, visited: seq<nat>)
  {
    && |values| == |original| == |keys|
    && forall i :: 0 <= i < |keys| ==>
         var hit := Find(data, 0, keys[i]);
         values[i] == if i in visited && hit.Some? then hit.value else original[i]
  }

  /** Finish the request on top of the stack and move on to its children. */
  method FinishRequest(stack: Stack, keys: seq<Key>, values: array<Value>, data: seq<Entry>)
    requires stack.Valid() && stack.Frames() != []
    requires WellFormed(stack.Frames(), |keys|) && RoomFor(stack.Frames(), stack.data.Length)
    requires |keys| == values.Length
    requires forall i :: 0 <= i < |keys| ==> keys[i] != NULL_KEY
    modifies stack, stack.data, values
    ensures stack.Valid() && stack.Frames() == MovedDown(old(stack.Frames()))
    ensures var current := old(stack.Frames())[old(stack.back) - 1].current;
            && current < |keys|
            && values[..] ==
               old(values[..])[current := Overwrite(old(values[current]), Find(data, 0, keys[current]))]
  {
    TopFacts(stack.Frames(), |keys|, stack.data.Length);
    var top := stack.Top();
    AnswerRequest(keys, values, data, top.current);
    MoveDownToChildren(stack, keys);
  }

  /** The event-loop part of the traversal: run the stack down, answering each request on the way. */
  method RunStack(stack: Stack, keys: seq<Key>, values: array<Value>, data: seq<Entry>, ghost plan: seq<nat>)
    requires stack.Valid() && Traversing(stack.Frames(), |keys|, stack.data.Length, [], plan)
    requires |keys| == values.Length
    requires forall i :: 0 <= i < |keys| ==> keys[i] != NULL_KEY
    modifies stack, stack.data, values
    ensures stack.Valid() && stack.Frames() == []
    ensures Answered(values[..], old(values[..]), keys, data, plan)
  {
    ghost var visited := [];
    var empty := stack.Empty();
    while !empty
      invariant stack.Valid() && empty == (stack.Frames() == [])
      invariant Traversing(stack.Frames(), |keys|, stack.data.Length, visited, plan)
      invariant Answered(values[..], old(values[..]), keys, data, visited)
      decreases |plan| - |visited|
    {
      ghost var frames, values0 := stack.Frames(), values[..];
      FinishRequest(stack, keys, values, data);
      TraverseStep(frames, |keys|, stack.data.Length, visited, plan);
      ghost var current := frames[|frames| - 1].current;
      AnsweredStep(values0, old(values[..]), keys, data, visited, current);
      visited := visited + [current];
      empty := stack.Empty();
    }
    TraverseDone(|keys|, stack.data.Length, visited, plan);
  }

  lemma TraverseDone(n: nat, length: nat, visited: seq<nat>, plan: seq<nat>)
    requires Traversing([], n, length, visited, plan)
    ensures visited == plan
  {
  }

  lemma AnsweredStep(
    values: seq<Value>, original: seq<Value>, keys: seq<Key>, data: seq<Entry>, visited: seq<nat>, current: nat)
    requires Answered(values, original, keys, data, visited) && current < |keys|
    ensures Answered(values[current := Overwrite(values[current], Find(data, 0, keys[current]))],
                     original, keys, data, visited + [current])
  {
  }

  method AnswerRequest(keys: seq<Key>, values: array<Value>, data: seq<Entry>, current: nat)
    requires |keys| == values.Length && current < |keys|
    modifies values
    ensures values[..] == old(values[..])[current := Overwrite(old(values[current]), Find(data, 0, keys[current]))]
  {
    var hit, _ := SearchFile(data, 0, keys[current]);
    if hit.Some? {
      values[current] := hit.value;
    }
  }

  /**
   * The whole traversal of a batch: a request whose key the file finds receives its value, any other keeps its
   * field, and the stack never holds more rows than DepthNeed of the batch length.
   */
  method AnswerBatch(stack: Stack, keys: seq<Key>, values: array<Value>, data: seq<Entry>)
    requires stack.Valid() && stack.Frames() == []
    requires |keys| == values.Length > 0 && DepthNeed(|keys|) <= stack.data.Length
    requires forall i :: 0 <= i < |keys| ==> keys[i] != NULL_KEY
    modifies stack, stack.data, values
    ensures stack.Valid() && stack.Frames() == []
    ensures forall i :: 0 <= i < |keys| && Find(data, 0, keys[i]).Some? ==> values[i] == Find(data, 0, keys[i]).value
    ensures forall i :: 0 <= i < |keys| && Find(data, 0, keys[i]).None? ==> values[i] == old(values[i])
  {
    ghost var plan := Preorder(0, |keys|);
    var root := Frame(0, |keys| / 2, 0, |keys|);
    stack.PushTop(root);
    PendingOne(root);
    assert stack.Frames() == [root];
    assert [] + Pending([root]) == plan;
    RunStack(stack, keys, values, data, plan);
    forall i | 0 <= i < |keys|
      ensures var hit := Find(data, 0, keys[i]); values[i] == if hit.Some? then hit.value else old(values[i])
    {
      PreorderCovers(0, |keys|, i);
      assert values[i] == values[..][i];
    }
  }

  /** So a batch against the file of a table receives what a linear scan of the table finds, and nothing else. */
  method AnswerBatchOfTable(
    stack: Stack, keys: seq<Key>, values: array<Value>, data: seq<Entry>, ghost table: seq<Entry>, ghost capacity: nat)
    requires stack.Valid() && stack.Frames() == []
    requires |keys| == values.Length > 0 && DepthNeed(|keys|) <= stack.data.Length
    requires forall i :: 0 <= i < |keys| ==> keys[i] != NULL_KEY
    requires StrictlySorted(table) && NonNull(table) && Fits(|table|, capacity) && data == Layout(table, capacity)
    modifies stack, stack.data, values
    ensures stack.Valid() && stack.Frames() == []
    ensures forall i, j :: 0 <= i < |keys| && 0 <= j < |table| && table[j].key == keys[i] ==> values[i] == table[j].value
    ensures forall i :: 0 <= i < |keys| && !Contains(table, keys[i]) ==> values[i] == old(values[i])
  {
    AnswerBatch(stack, keys, values, data);
    forall i | 0 <= i < |keys|
      ensures forall j :: 0 <= j < |table| && table[j].key == keys[i] ==> Find(data, 0, keys[i]) == Some(table[j].value)
      ensures !Contains(table, keys[i]) ==> Find(data, 0, keys[i]) == None
    {
      FileAnswersTable(table, capacity, keys[i]);
    }
  }

  lemma FileAnswersTable(table: seq<Entry>, capacity: nat, key: Key)
    requires StrictlySorted(table) && NonNull(table) && Fits(|table|, capacity)
    ensures forall j :: 0 <= j < |table| && table[j].key == key ==>
              Find(Layout(table, capacity), 0, key) == Some(table[j].value)
    ensures !Contains(table, key) ==> Find(Layout(table, capacity), 0, key) == None
  {
    FindWithRepeatedKeys(table, capacity, key);
    var hit := HitPosition(table, Span(0, |table|), key);
    forall j | 0 <= j < |table| && table[j].key == key
      ensures Find(Layout(table, capacity), 0, key) == Some(table[j].value)
    {
      assert Contains(table, key) && table[hit.value].key == key;
    }
  }
}
