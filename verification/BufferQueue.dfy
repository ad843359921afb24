// The ring queue through which SSTables hand page-cache buffers to one another.
module BufferQueue {
  import opened Products

  type Buffer = nat

  // ----- Places of a ring -----

  /** Adding inside or outside the remainder makes no difference. */
  lemma ModAdd(x: nat, i: nat, length: nat)
    requires length > 0
    ensures (x % length + i) % length == (x + i) % length
  {
    var q, r := x / length, x % length;
    Quotient(x, length);
    Quotient(r + i, length);
    Distribute(q, (r + i) / length, length);
    QuotientOf(length, q + (r + i) / length, (r + i) % length);
  }

  lemma {:induction false} ModEqual(i: nat, j: nat, x: nat, length: nat)
    requires length > 0 && i <= j
    ensures (x + i) % length == (x + j) % length <==> i % length == j % length
  {
    Shifted(i, j, length);
    Shifted(x + i, x + j, length);
  }

  /** Two numbers have the same remainder exactly when their difference has none. */
  lemma Shifted(a: nat, b: nat, length: nat)
    requires length > 0 && a <= b
    ensures a % length == b % length <==> (b - a) % length == 0
  {
    Quotient(a, length);
    Quotient(b, length);
    Quotient(b - a, length);
    if a % length == b % length {
      MoreQuotient(a, b, length);
    } else if (b - a) % length == 0 {
      Distribute(a / length, (b - a) / length, length);
      QuotientOf(length, a / length + (b - a) / length, a % length);
    }
  }

  lemma MoreQuotient(a: nat, b: nat, length: nat)
    requires length > 0 && a <= b && a % length == b % length
    ensures (b - a) % length == 0
  {
    var q, q' := a / length, b / length;
    Quotient(a, length);
    Quotient(b, length);
    if q' < q {
      ProductStep(length, q', q);
    } else {
      Distribute(q, q' - q, length);
      QuotientOf(length, q' - q, 0);
    }
  }

  /** The place of a ring that the x-th position from its start falls on. */
  function Place(x: nat, length: nat): (r: nat)
    requires length > 0
    ensures r < length
  {
    if x < length then x else Place(x - length, length)
  }

  lemma {:induction false} PlaceIsMod(x: nat, length: nat)
    requires length > 0
    ensures Place(x, length) == x % length
  {
    if x < length {
      QuotientOf(length, 0, x);
    } else {
      PlaceIsMod(x - length, length);
      Shifted(x - length, x, length);
      QuotientOf(length, 1, 0);
    }
  }

  lemma PlaceAdd(x: nat, i: nat, length: nat)
    requires length > 0
    ensures Place(Place(x, length) + i, length) == Place(x + i, length)
  {
    PlaceIsMod(x, length);
    PlaceIsMod(x % length + i, length);
    PlaceIsMod(x + i, length);
    ModAdd(x, i, length);
  }

  lemma PlaceEqual(i: nat, j: nat, x: nat, length: nat)
    requires length > 0 && i <= j
    ensures Place(x + i, length) == Place(x + j, length) <==> Place(i, length) == Place(j, length)
  {
    PlaceIsMod(i, length);
    PlaceIsMod(j, length);
    PlaceIsMod(x + i, length);
    PlaceIsMod(x + j, length);
    ModEqual(i, j, x, length);
  }

  /** What `count` pops from position `front` on return. A count above the length goes round more than once. */
  ghost function Window(ring: seq<Buffer>, front: nat, count: nat): (c: seq<Buffer>)
    requires front < |ring|
    ensures |c| == count
  {
    seq(count, i requires 0 <= i => ring[Place(front + i, |ring|)])
  }

  /** A push: on a full ring it overwrites what lies in the same place. */
  function RingPush(c: seq<Buffer>, x: Buffer, length: nat): (r: seq<Buffer>)
    requires length > 0
    ensures |r| == |c| + 1
  {
    seq(|c| + 1, i requires 0 <= i < |c| + 1 => if i == |c| || Place(i, length) == Place(|c|, length) then x else c[i])
  }

  lemma WindowPush(ring: seq<Buffer>, front: nat, count: nat, x: Buffer)
    requires front < |ring|
    ensures Window(ring[Place(front + count, |ring|) := x], front, count + 1) == RingPush(Window(ring, front, count), x, |ring|)
  {
    var ring' := ring[Place(front + count, |ring|) := x];
    forall i | 0 <= i < count + 1
      ensures Window(ring', front, count + 1)[i] == RingPush(Window(ring, front, count), x, |ring|)[i]
    {
      PlaceEqual(i, count, front, |ring|);
    }
  }

  lemma WindowPop(ring: seq<Buffer>, front: nat, count: nat)
    requires front < |ring| && count > 0
    ensures Window(ring, Place(front + 1, |ring|), count - 1) == Window(ring, front, count)[1..]
  {
    forall i | 0 <= i < count - 1
      ensures Window(ring, Place(front + 1, |ring|), count - 1)[i] == Window(ring, front, count)[1..][i]
    {
      PlaceAdd(front + 1, i, |ring|);
    }
  }

  /** The place after `front`, and what a pop leaves. */
  lemma PopFacts(ring: seq<Buffer>, front: nat, count: nat) returns (next: nat)
    requires front < |ring| && count > 0
    ensures next == Place(front + 1, |ring|) && next < |ring|
    ensures [ring[front]] + Window(ring, next, count - 1) == Window(ring, front, count)
    ensures Place(next + (count - 1), |ring|) == Place(front + count, |ring|)
  {
    next := Place(front + 1, |ring|);
    WindowPop(ring, front, count);
    PlaceAdd(front + 1, count - 1, |ring|);
    var w := Window(ring, front, count);
    assert w[0] == ring[Place(front + 0, |ring|)] == ring[front];
    assert w == [w[0]] + w[1..];
  }

  lemma NextPlace(x: nat, length: nat)
    requires length > 0
    ensures (Place(x, length) + 1) % length == Place(x + 1, length)
  {
    PlaceIsMod(Place(x, length) + 1, length);
    PlaceAdd(x, 1, length);
  }

  /** The place after `back`, and what a push makes of the ring. */
  lemma PushFacts(ring: seq<Buffer>, front: nat, count: nat, x: Buffer) returns (back: nat, next: nat)
    requires front < |ring|
    ensures back == Place(front + count, |ring|) && next == Place(back + 1, |ring|) == (back + 1) % |ring|
    ensures next == Place(front + (count + 1), |ring|)
    ensures Window(ring[back := x], front, count + 1) == RingPush(Window(ring, front, count), x, |ring|)
    ensures count < |ring| ==> Window(ring[back := x], front, count + 1) == Window(ring, front, count) + [x]
  {
    back := Place(front + count, |ring|);
    next := Place(back + 1, |ring|);
    WindowPush(ring, front, count, x);
    PlaceAdd(front + count, 1, |ring|);
    PlaceIsMod(back + 1, |ring|);
    if count < |ring| {
      RingPushExactly(Window(ring, front, count), x, |ring|);
    }
  }

  /** With room a push appends; on a full ring it also replaces the front element. */
  lemma RingPushExactly(c: seq<Buffer>, x: Buffer, length: nat)
    requires length > 0 && |c| <= length
    ensures RingPush(c, x, length) == if |c| < length then c + [x] else [x] + c[1..] + [x]
  {
    var r := RingPush(c, x, length);
    assert Place(length, length) == Place(0, length) == 0;
    forall i | 0 <= i < |c|
      ensures r[i] == if |c| == length && i == 0 then x else c[i]
    {
      assert Place(i, length) == i;
    }
  }

  /** Several pushes. */
  function RingPushAll(c: seq<Buffer>, xs: seq<Buffer>, length: nat): (r: seq<Buffer>)
    requires length > 0
    ensures |r| == |c| + |xs|
    decreases |xs|
  {
    if xs == [] then c else RingPushAll(RingPush(c, xs[0], length), xs[1..], length)
  }

  lemma {:induction false} RingPushAllFits(c: seq<Buffer>, xs: seq<Buffer>, length: nat)
    requires length > 0 && |c| + |xs| <= length
    ensures RingPushAll(c, xs, length) == c + xs
    decreases |xs|
  {
    if xs == [] {
      assert c + xs == c;
    } else {
      RingPushExactly(c, xs[0], length);
      RingPushAllFits(c + [xs[0]], xs[1..], length);
      assert (c + [xs[0]]) + xs[1..] == c + xs;
    }
  }

  lemma {:induction false} RingPushAllConcat(c: seq<Buffer>, xs: seq<Buffer>, ys: seq<Buffer>, length: nat)
    requires length > 0
    ensures RingPushAll(RingPushAll(c, xs, length), ys, length) == RingPushAll(c, xs + ys, length)
    decreases |xs|
  {
    if xs == [] {
      assert xs + ys == ys;
    } else {
      assert (xs + ys)[0] == xs[0] && (xs + ys)[1..] == xs[1..] + ys;
      RingPushAllConcat(RingPush(c, xs[0], length), xs[1..], ys, length);
    }
  }

  lemma RingPushOne(c: seq<Buffer>, x: Buffer, length: nat)
    requires length > 0
    ensures RingPushAll(c, [x], length) == RingPush(c, x, length)
  {
    assert [x][1..] == [];
  }

  /** What is popped one length apart comes from the same place. */
  ghost predicate Periodic(c: seq<Buffer>, length: nat)
    requires length > 0
  {
    forall i, j :: 0 <= i < j < |c| && Place(i, length) == Place(j, length) ==> c[i] == c[j]
  }

  lemma ShortIsPeriodic(c: seq<Buffer>, length: nat)
    requires length > 0 && |c| <= length
    ensures Periodic(c, length)
  {
  }

  lemma RingPushPeriodic(c: seq<Buffer>, x: Buffer, length: nat)
    requires length > 0 && Periodic(c, length)
    ensures Periodic(RingPush(c, x, length), length)
  {
  }

  lemma {:induction false} RingPushAllPeriodic(c: seq<Buffer>, xs: seq<Buffer>, length: nat)
    requires length > 0 && Periodic(c, length)
    ensures Periodic(RingPushAll(c, xs, length), length)
    decreases |xs|
  {
    if xs != [] {
      RingPushPeriodic(c, xs[0], length);
      RingPushAllPeriodic(RingPush(c, xs[0], length), xs[1..], length);
    }
  }

  /** A ring that counts more elements than it has places returns one of them twice. */
  lemma OverfullRepeats(c: seq<Buffer>, length: nat)
    requires length > 0 && Periodic(c, length) && |c| > length
    ensures multiset(c)[c[0]] >= 2
  {
    assert Place(0, length) == Place(length, length);
    assert c[0] == c[length];
    var rest := c[1..];
    assert c == [c[0]] + rest && rest[length - 1] == c[0];
    assert c[0] in multiset(rest);
  }

  /** The queue as designed: the back points at the next free place. */
  class Queue {
    const ring: array<Buffer>
    var front: nat
    var back: nat
    var curNumBuffers: int
    var numNewBuffers: nat

    ghost predicate Valid()
      reads this
    {
      front < ring.Length && back == Place(front + numNewBuffers, ring.Length)
    }

    /** What the queue returns when it is popped as often as it counts. */
    ghost function Contents(): (c: seq<Buffer>)
      requires Valid()
      reads this, ring
    {
      Window(ring[..], front, numNewBuffers)
    }

    constructor (length: nat, startNumBuffers: nat)
      requires length > 0
      ensures Valid() && fresh(ring) && ring.Length == length && Contents() == []
      ensures curNumBuffers == startNumBuffers
    {
      ring := new Buffer[length];
      front, back, curNumBuffers, numNewBuffers := 0, 0, startNumBuffers, 0;
    }

    method PushBack(buffer: Buffer)
      requires Valid()
      modifies this, ring
      ensures Valid() && Contents() == RingPush(old(Contents()), buffer, ring.Length)
      ensures old(numNewBuffers) < ring.Length ==> Contents() == old(Contents()) + [buffer]
      ensures numNewBuffers == old(numNewBuffers) + 1 && curNumBuffers == old(curNumBuffers) + 1
    {
      ghost var place, next := PushFacts(ring[..], front, numNewBuffers, buffer);
      ring[back] := buffer;
      back := (back + 1) % ring.Length;
      curNumBuffers := curNumBuffers + 1;
      numNewBuffers := numNewBuffers + 1;
    }

    method PopFront() returns (buffer: Buffer)
      requires Valid() && numNewBuffers > 0
      modifies this
      ensures Valid() && [buffer] + Contents() == old(Contents())
      ensures numNewBuffers == old(numNewBuffers) - 1 && curNumBuffers == old(curNumBuffers) - 1
    {
      ghost var next := PopFacts(ring[..], front, numNewBuffers);
      PlaceIsMod(front + 1, ring.Length);
      curNumBuffers := curNumBuffers - 1;
      numNewBuffers := numNewBuffers - 1;
      buffer := ring[front];
      front := (front + 1) % ring.Length;
    }
  }

  /**
   * The queue as written: push advances `back` before it stores, pop reads before it advances. What it
   * really is, is a FIFO that starts out holding whatever lies in place 0.
   */
  class QueueAsWritten {
    const ring: array<Buffer>
    var front: nat
    var back: nat
    var numNewBuffers: nat

    ghost predicate Valid()
      reads this
    {
      front < ring.Length && back == Place(front + numNewBuffers, ring.Length)
    }

    /** One element more than the queue counts. */
    ghost function Lagging(): (c: seq<Buffer>)
      requires Valid()
      reads this, ring
      ensures |c| == numNewBuffers + 1
    {
      Window(ring[..], front, numNewBuffers + 1)
    }

    constructor (length: nat)
      requires length > 0
      ensures Valid() && fresh(ring) && ring.Length == length && numNewBuffers == 0
      ensures Lagging() == [ring[0]]
    {
      ring := new Buffer[length];
      front, back, numNewBuffers := 0, 0, 0;
    }

    method PushBack(buffer: Buffer)
      requires Valid()
      modifies this, ring
      ensures Valid() && Lagging() == RingPush(old(Lagging()), buffer, ring.Length)
      ensures old(numNewBuffers) + 1 < ring.Length ==> Lagging() == old(Lagging()) + [buffer]
    {
      ghost var place, next := PushFacts(ring[..], front, numNewBuffers + 1, buffer);
      NextPlace(front + numNewBuffers, ring.Length);
      back := (back + 1) % ring.Length;
      assert back == place;
      ring[back] := buffer;
      numNewBuffers := numNewBuffers + 1;
    }

    method PopFront() returns (buffer: Buffer)
      requires Valid() && numNewBuffers > 0
      modifies this
      ensures Valid() && [buffer] + Lagging() == old(Lagging())
    {
      ghost var next := PopFacts(ring[..], front, numNewBuffers + 1);
      PlaceIsMod(front + 1, ring.Length);
      PlaceAdd(front + 1, numNewBuffers - 1, ring.Length);
      numNewBuffers := numNewBuffers - 1;
      buffer := ring[front];
      front := (front + 1) % ring.Length;
    }
  }

  // ----- Runs -----

  datatype Op = Push(buffer: Buffer) | Pop

  /** What a FIFO holding `held` returns over a sequence of operations; pops on an empty queue are skipped. */
  function Popped(held: seq<Buffer>, ops: seq<Op>, spare: nat): (out: seq<Buffer>)
    decreases |ops|
  {
    if ops == [] then []
    else match ops[0]
      case Push(b) => Popped(held + [b], ops[1..], spare)
      case Pop => if |held| > spare then [held[0]] + Popped(held[1..], ops[1..], spare) else Popped(held, ops[1..], spare)
  }

  /**
   * The queue as written returns the same stream one element late: the stale first element, then the
   * designed queue's elements, the last of them still held back.
   */
  lemma {:induction false} WrittenStreamIsLate(stale: Buffer, held: seq<Buffer>, ops: seq<Op>)
    ensures var designed := Popped(held, ops, 0);
            var written := Popped([stale] + held, ops, 1);
            && |written| == |designed|
            && (designed != [] ==> written == [stale] + designed[..|designed| - 1])
    decreases |ops|
  {
    if ops != [] {
      match ops[0]
      case Push(b) =>
        assert [stale] + held + [b] == [stale] + (held + [b]);
        WrittenStreamIsLate(stale, held + [b], ops[1..]);
      case Pop =>
        if held != [] {
          assert ([stale] + held)[1..] == held == [held[0]] + held[1..];
          WrittenStreamIsLate(held[0], held[1..], ops[1..]);
        } else {
          WrittenStreamIsLate(stale, held, ops[1..]);
        }
    }
  }
}
