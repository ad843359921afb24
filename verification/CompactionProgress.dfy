// Progress of compactions: whatever has arrived can be brought to its SSTable by the levels alone.
module CompactionProgress {
  import opened Entries
  import opened CompactionPlacement

  function Arrivals(steps: seq<Step>): (n: nat) {
    if steps == [] then 0 else Arrivals(steps[1..]) + if steps[0].Arrive? then 1 else 0
  }

  /** Every memtable compacted arrives, and nothing else does. */
  lemma {:induction false} EveryArrivalCounts(s: State, steps: seq<Step>)
    requires IsRun(s, steps)
    ensures Final(s, steps).arrived == s.arrived + Arrivals(steps)
    decreases |steps|
  {
    if steps != [] {
      EveryArrivalCounts(Apply(s, steps[0]), steps[1..]);
    }
  }

  /** A run of level steps from s to t. */
  ghost predicate Leads(s: State, steps: seq<Step>, t: State) {
    IsRun(s, steps) && Final(s, steps) == t && forall i :: 0 <= i < |steps| ==> steps[i].Advance?
  }

  lemma {:induction false} Join(s: State, a: seq<Step>, b: seq<Step>)
    requires IsRun(s, a) && IsRun(Final(s, a), b)
    ensures IsRun(s, a + b) && Final(s, a + b) == Final(Final(s, a), b)
    decreases |a|
  {
    if a == [] {
      assert a + b == b;
    } else {
      assert (a + b)[0] == a[0] && (a + b)[1..] == a[1..] + b;
      Join(Apply(s, a[0]), a[1..], b);
    }
  }

  /** Nothing waits in front of the first l levels. */
  ghost predicate QuietAbove(s: State, l: nat) {
    l <= |s.waiting| && forall k :: 0 <= k < l ==> s.waiting[k] == []
  }

  /** A level deals with all that waits in front of it; what it has no room for waits one level below. */
  lemma {:induction false} DrainLevel(s: State, l: nat) returns (steps: seq<Step>, t: State)
    requires Inv(s) && l < |s.slots| && QuietAbove(s, l)
    ensures Leads(s, steps, t) && Inv(t) && |t.slots| == |s.slots| && QuietAbove(t, l + 1) && t.arrived == s.arrived
    decreases |s.waiting[l]|
  {
    if s.waiting[l] == [] {
      steps, t := [], s;
    } else {
      var next := Apply(s, Advance(l));
      StepKeepsInv(s, Advance(l));
      var rest;
      rest, t := DrainLevel(next, l);
      steps := [Advance(l)] + rest;
      assert steps[1..] == rest;
    }
  }

  lemma {:induction false} SettleFrom(s: State, l: nat) returns (steps: seq<Step>, t: State)
    requires Inv(s) && l <= |s.slots| && QuietAbove(s, l)
    ensures Leads(s, steps, t) && Inv(t) && |t.slots| == |s.slots| && QuietAbove(t, |t.slots|) && t.arrived == s.arrived
    decreases |s.slots| - l
  {
    if l == |s.slots| {
      steps, t := [], s;
    } else {
      var first, u := DrainLevel(s, l);
      var rest;
      rest, t := SettleFrom(u, l + 1);
      Join(s, first, rest);
      steps := first + rest;
    }
  }

  /**
   * After any run from the empty database the levels can go on, with no further arrival, until nothing waits; then
   * every memtable that was compacted is in the SSTable of its number, unless there were more than SSTables.
   */
  lemma EveryCompactionCanLand(factor: nat, levels: nat, steps: seq<Step>) returns (more: seq<Step>)
    requires factor > 0 && levels > 0 && IsRun(Init(factor, levels), steps)
    ensures IsRun(Init(factor, levels), steps + more) && forall i :: 0 <= i < |more| ==> more[i].Advance?
    ensures AllLanded(Final(Init(factor, levels), steps + more), Arrivals(steps), factor, levels)
  {
    var s0 := Init(factor, levels);
    InitInv(factor, levels);
    RunKeepsInv(s0, steps);
    ShapeKept(s0, steps);
    EveryArrivalCounts(s0, steps);
    var t;
    more, t := SettleFrom(Final(s0, steps), 0);
    ShapeKept(Final(s0, steps), more);
    Join(s0, steps, more);
    QuietIsLanded(t);
  }

  /** Nothing waits, and each of the compactions that arrived is in the SSTable of its number if there are so many. */
  ghost predicate AllLanded(s: State, arrived: nat, factor: nat, levels: nat)
    requires factor > 0
  {
    && s.arrived == arrived && |s.slots| == |s.waiting| == levels
    && (forall l :: 0 <= l < levels ==> s.waiting[l] == [])
    && (arrived <= levels * factor ==> forall n: nat :: n < arrived ==> LandedAt(s, n, factor))
  }

  lemma QuietIsLanded(s: State)
    requires Inv(s) && QuietAbove(s, |s.slots|)
    ensures AllLanded(s, s.arrived, s.factor, |s.slots|)
  {
    BaseIsProduct(s.factor, |s.slots|);
    if s.arrived <= |s.slots| * s.factor {
      forall n: nat | n < s.arrived ensures LandedAt(s, n, s.factor) {
        QuiescentAllLanded(s, n);
      }
    }
  }

  ghost predicate LandedAt(s: State, n: nat, factor: nat)
    requires factor > 0
  {
    var l, i := n / factor, n % factor;
    l < |s.slots| && i < |s.slots[l]| && s.slots[l][i] == Some(n)
  }
}
