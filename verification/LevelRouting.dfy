// LevelInfo::decompose for reads: each request of a batch goes to the SSTables of the level whose key range
// and filter admit it, or to the skip batch.
module LevelRouting {
  import opened Entries
  import opened SortedInsert
  import opened RequestPool

  datatype Range = Range(min: Key, max: Key) {
    predicate Covers(key: Key) {
      min <= key <= max
    }
  }

  /** The nonempty SSTables of a level, in order, and their filters' answers. */
  datatype Level = Level(ranges: seq<Range>, maybe: (nat, Key) -> bool)

  ghost predicate Disjoint(ranges: seq<Range>) {
    forall i, j, key :: 0 <= i < j < |ranges| && ranges[i].Covers(key) ==> !ranges[j].Covers(key)
  }

  /** The first table from i on whose range covers the key. */
  function FirstCovering(ranges: seq<Range>, i: nat, key: Key): (r: nat)
    requires i <= |ranges|
    ensures i <= r <= |ranges|
    decreases |ranges| - i
  {
    if i == |ranges| || ranges[i].Covers(key) then i else FirstCovering(ranges, i + 1, key)
  }

  lemma {:induction false} FirstCoveringIsFirst(ranges: seq<Range>, i: nat, key: Key, t: nat)
    requires i <= t < |ranges|
    ensures t < FirstCovering(ranges, i, key) ==> !ranges[t].Covers(key)
    ensures t == FirstCovering(ranges, i, key) ==> ranges[t].Covers(key)
    decreases |ranges| - i
  {
    if i < t {
      FirstCoveringIsFirst(ranges, i + 1, key, t);
    }
  }

  function Cover(level: Level, r: Request): (t: nat)
    ensures t <= |level.ranges|
  {
    FirstCovering(level.ranges, 0, r.key)
  }

  /** Where the live entry of a request goes: a table number, or `skip`. */
  function Route(level: Level, key: Key, skip: nat): (part: nat)
    requires |level.ranges| <= skip
    ensures part <= skip
  {
    var i := FirstCovering(level.ranges, 0, key);
    if i < |level.ranges| && level.maybe(i, key) then i else skip
  }

  /** With disjoint ranges, a key that table i covers and its filter admits is routed to table i. */
  lemma StoredKeyReachesItsTable(level: Level, key: Key, skip: nat, i: nat)
    requires |level.ranges| <= skip && Disjoint(level.ranges)
    requires i < |level.ranges| && level.ranges[i].Covers(key) && level.maybe(i, key)
    ensures Route(level, key, skip) == i
  {
    var first := FirstCovering(level.ranges, 0, key);
    FirstCoveringIsFirst(level.ranges, 0, key, i);
    if first < i {
      FirstCoveringIsFirst(level.ranges, 0, key, first);
    }
  }

  // ----- What each part receives, whether or not ranges overlap -----

  /** The entry as table t finds it: already marked as moved if an earlier table covers its key. */
  function Copy(level: Level, r: Request, t: nat): (c: Request) {
    if Cover(level, r) < t then Moved(r) else r
  }

  predicate Covered(level: Level, r: Request, t: nat) {
    t < |level.ranges| && level.ranges[t].Covers(r.key)
  }

  /** Table t puts request q into its part, or into the skip part, and the copy it puts there is r. */
  predicate AdmitsAs(level: Level, q: Request, t: nat, r: Request) {
    Covered(level, q, t) && level.maybe(t, q.key) && Copy(level, q, t) == r
  }

  predicate RejectsAs(level: Level, q: Request, t: nat, r: Request) {
    Covered(level, q, t) && !level.maybe(t, q.key) && Copy(level, q, t) == r
  }

  /** A live request no table covers goes to the skip part in the end. */
  predicate SkipsAs(level: Level, q: Request, r: Request) {
    Live(q) && Cover(level, q) == |level.ranges| && q == r
  }

  /** How often r is put into the part of table t by the first n requests of a batch, and so on. */
  function AdmittedTimes(level: Level, pool: seq<Request>, t: nat, n: nat, r: Request): (times: nat)
    requires n <= |pool|
  {
    if n == 0 then 0
    else AdmittedTimes(level, pool, t, n - 1, r) + if AdmitsAs(level, pool[n - 1], t, r) then 1 else 0
  }

  function RejectedTimes(level: Level, pool: seq<Request>, t: nat, n: nat, r: Request): (times: nat)
    requires n <= |pool|
  {
    if n == 0 then 0
    else RejectedTimes(level, pool, t, n - 1, r) + if RejectsAs(level, pool[n - 1], t, r) then 1 else 0
  }

  function SkippedTimes(level: Level, pool: seq<Request>, n: nat, r: Request): (times: nat)
    requires n <= |pool|
  {
    if n == 0 then 0
    else SkippedTimes(level, pool, n - 1, r) + if SkipsAs(level, pool[n - 1], r) then 1 else 0
  }

  /** All rejections of the tables before i. */
  function RejectedBefore(level: Level, pool: seq<Request>, i: nat, r: Request): (times: nat) {
    if i == 0 then 0 else RejectedBefore(level, pool, i - 1, r) + RejectedTimes(level, pool, i - 1, |pool|, r)
  }

  /** How often the part of table t, or the skip part, holds r. */
  function PartTimes(level: Level, pool: seq<Request>, skip: nat, t: nat, r: Request): (times: nat) {
    if t < skip then AdmittedTimes(level, pool, t, |pool|, r)
    else RejectedBefore(level, pool, |level.ranges|, r) + SkippedTimes(level, pool, |pool|, r)
  }

  // ----- How large the parts are -----

  function AdmittedSize(level: Level, pool: seq<Request>, t: nat, n: nat): (size: nat)
    requires n <= |pool|
  {
    if n == 0 then 0
    else
      var q := pool[n - 1];
      AdmittedSize(level, pool, t, n - 1) + if Covered(level, q, t) && level.maybe(t, q.key) then 1 else 0
  }

  function RejectedSize(level: Level, pool: seq<Request>, t: nat, n: nat): (size: nat)
    requires n <= |pool|
  {
    if n == 0 then 0
    else
      var q := pool[n - 1];
      RejectedSize(level, pool, t, n - 1) + if Covered(level, q, t) && !level.maybe(t, q.key) then 1 else 0
  }

  function SkippedSize(level: Level, pool: seq<Request>, n: nat): (size: nat)
    requires n <= |pool|
  {
    if n == 0 then 0
    else
      var q := pool[n - 1];
      SkippedSize(level, pool, n - 1) + if Live(q) && Cover(level, q) == |level.ranges| then 1 else 0
  }

  function RejectedSizeBefore(level: Level, pool: seq<Request>, i: nat): (size: nat) {
    if i == 0 then 0 else RejectedSizeBefore(level, pool, i - 1) + RejectedSize(level, pool, i - 1, |pool|)
  }

  function PartSize(level: Level, pool: seq<Request>, skip: nat, t: nat): (size: nat) {
    if t < skip then AdmittedSize(level, pool, t, |pool|)
    else RejectedSizeBefore(level, pool, |level.ranges|) + SkippedSize(level, pool, |pool|)
  }

  // ----- Which requests a table looks at -----

  /** Exactly the requests at [left, right) are covered by table i. */
  ghost predicate CoversInterval(level: Level, pool: seq<Request>, i: nat, left: nat, right: nat) {
    && left <= right <= |pool|
    && forall x :: 0 <= x < |pool| ==> (Covered(level, pool[x], i) <==> left <= x < right)
  }

  /** Requests that table i does not cover add nothing to its parts. */
  lemma {:induction false} NothingOutside(level: Level, pool: seq<Request>, i: nat, a: nat, b: nat, r: Request)
    requires a <= b <= |pool| && forall x :: a <= x < b ==> !Covered(level, pool[x], i)
    ensures AdmittedTimes(level, pool, i, b, r) == AdmittedTimes(level, pool, i, a, r)
    ensures RejectedTimes(level, pool, i, b, r) == RejectedTimes(level, pool, i, a, r)
    ensures AdmittedSize(level, pool, i, b) == AdmittedSize(level, pool, i, a)
    ensures RejectedSize(level, pool, i, b) == RejectedSize(level, pool, i, a)
    decreases b
  {
    if a < b {
      NothingOutside(level, pool, i, a, b - 1, r);
    }
  }

  // ----- The loops -----

  /** Every entry is as table i finds it from index j on, and as it leaves it before. */
  ghost predicate Marked(now: seq<Request>, input: seq<Request>, level: Level, i: nat, j: nat) {
    && |now| == |input|
    && forall x :: 0 <= x < |input| ==> now[x] == Copy(level, input[x], if x < j then i + 1 else i)
  }

  /** The part of the table at hand and the skip part. */
  datatype Parts = Parts(part: seq<Request>, rest: seq<Request>)

  ghost predicate InOrder(p: Parts) {
    Sorted(p.part) && Sorted(p.rest)
  }

  /** What the two hold of r when table i has seen the requests before j. */
  ghost predicate Filled(p: Parts, input: seq<Request>, level: Level, i: nat, j: nat, r: Request)
    requires j <= |input|
  {
    && multiset(p.part)[r] == AdmittedTimes(level, input, i, j, r)
    && multiset(p.rest)[r] == RejectedBefore(level, input, i, r) + RejectedTimes(level, input, i, j, r)
    && |p.part| == AdmittedSize(level, input, i, j)
    && |p.rest| == RejectedSizeBefore(level, input, i) + RejectedSize(level, input, i, j)
  }

  function RouteNext(p: Parts, level: Level, i: nat, q: Request): (p': Parts) {
    if level.maybe(i, q.key) then p.(part := Put(p.part, q)) else p.(rest := Put(p.rest, q))
  }

  lemma RouteNextFills(p: Parts, input: seq<Request>, level: Level, i: nat, j: nat, r: Request)
    requires j < |input| && Covered(level, input[j], i) && Filled(p, input, level, i, j, r)
    ensures Filled(RouteNext(p, level, i, Copy(level, input[j], i)), input, level, i, j + 1, r)
  {
    PutMultiset(p.part, Copy(level, input[j], i));
    PutMultiset(p.rest, Copy(level, input[j], i));
  }

  lemma RouteNextInOrder(p: Parts, level: Level, i: nat, q: Request)
    requires InOrder(p)
    ensures InOrder(RouteNext(p, level, i, q))
  {
    PutSorted(p.part, q);
    PutSorted(p.rest, q);
  }

  /** The parts after table i has handled the requests from j to `right`. */
  ghost function Routed(p: Parts, level: Level, input: seq<Request>, i: nat, j: nat, right: nat): (p': Parts)
    requires j <= right <= |input|
    decreases right - j
  {
    if j == right then p else Routed(RouteNext(p, level, i, Copy(level, input[j], i)), level, input, i, j + 1, right)
  }

  lemma {:induction false} RoutedFills(
    p: Parts, level: Level, input: seq<Request>, i: nat, j: nat, right: nat, r: Request)
    requires j <= right <= |input| && forall x :: j <= x < right ==> Covered(level, input[x], i)
    requires Filled(p, input, level, i, j, r)
    ensures Filled(Routed(p, level, input, i, j, right), input, level, i, right, r)
    decreases right - j
  {
    if j < right {
      RouteNextFills(p, input, level, i, j, r);
      RoutedFills(RouteNext(p, level, i, Copy(level, input[j], i)), level, input, i, j + 1, right, r);
    }
  }

  lemma {:induction false} RoutedInOrder(p: Parts, level: Level, input: seq<Request>, i: nat, j: nat, right: nat)
    requires j <= right <= |input| && InOrder(p)
    ensures InOrder(Routed(p, level, input, i, j, right))
    decreases right - j
  {
    if j < right {
      RouteNextInOrder(p, level, i, Copy(level, input[j], i));
      RoutedInOrder(RouteNext(p, level, i, Copy(level, input[j], i)), level, input, i, j + 1, right);
    }
  }

  /** Route the requests at indices [left, right), those covered by table i, and mark them. */
  method RouteCovered(
    pool: Pool, level: Level, i: nat, left: nat, right: nat, p: Parts, ghost input: seq<Request>) returns (p': Parts)
    requires pool.Valid() && |input| == pool.length && CoversInterval(level, input, i, left, right)
    requires Marked(pool.Contents(), input, level, i, left)
    modifies pool.data
    ensures pool.Valid() && Marked(pool.Contents(), input, level, i, right)
    ensures p' == Routed(p, level, input, i, left, right)
  {
    p' := p;
    for j := left to right
      invariant pool.Valid() && Marked(pool.Contents(), input, level, i, j)
      invariant Routed(p', level, input, i, j, right) == Routed(p, level, input, i, left, right)
    {
      var r := pool.data[j];
      assert pool.Contents()[j] == r;
      MarkedStep(pool.Contents(), input, level, i, j);
      if level.maybe(i, r.key) {
        p' := p'.(part := Put(p'.part, r));
      } else {
        p' := p'.(rest := Put(p'.rest, r));
      }
      pool.RemoveViaIndex(j);
    }
  }

  lemma MarkedStep(now: seq<Request>, input: seq<Request>, level: Level, i: nat, j: nat)
    requires Marked(now, input, level, i, j) && j < |input| && Covered(level, input[j], i)
    ensures Marked(now[j := Moved(now[j])], input, level, i, j + 1)
  {
    FirstCoveringIsFirst(level.ranges, 0, input[j].key, i);
  }

  // ----- From table to table -----

  lemma SameMarks(now: seq<Request>, input: seq<Request>, level: Level, i: nat, left: nat, right: nat)
    requires i < |level.ranges| && CoversInterval(level, input, i, left, right)
    ensures Marked(now, input, level, i, 0) ==> Marked(now, input, level, i, left)
    ensures Marked(now, input, level, i, right) ==> Marked(now, input, level, i + 1, 0)
  {
    forall x | 0 <= x < |input| && !(left <= x < right)
      ensures Copy(level, input[x], i + 1) == Copy(level, input[x], i)
    {
      FirstCoveringIsFirst(level.ranges, 0, input[x].key, i);
    }
  }

  /** Table i routed: its part, and the skip part after it. */
  lemma PassDone(
    rest: seq<Request>, input: seq<Request>, level: Level, i: nat, left: nat, right: nat, r: Request)
    requires CoversInterval(level, input, i, left, right)
    requires multiset(rest)[r] == RejectedBefore(level, input, i, r) && |rest| == RejectedSizeBefore(level, input, i)
    ensures var p := Routed(Parts([], rest), level, input, i, left, right);
            && multiset(p.part)[r] == AdmittedTimes(level, input, i, |input|, r)
            && multiset(p.rest)[r] == RejectedBefore(level, input, i + 1, r)
            && |p.part| == AdmittedSize(level, input, i, |input|) && |p.rest| == RejectedSizeBefore(level, input, i + 1)
  {
    NothingOutside(level, input, i, 0, left, r);
    RoutedFills(Parts([], rest), level, input, i, left, right, r);
    NothingOutside(level, input, i, right, |input|, r);
  }

  /** In a pool in key order, the requests inside a range are the interval between its two bounds. */
  lemma BoundsAreInterval(now: seq<Request>, input: seq<Request>, level: Level, i: nat, left: nat, right: nat)
    requires Marked(now, input, level, i, 0) && i < |level.ranges| && left <= right <= |now|
    requires forall j :: 0 <= j < left ==> now[j].key < level.ranges[i].min
    requires forall j :: left <= j < |now| ==> now[j].key >= level.ranges[i].min
    requires level.ranges[i].min <= level.ranges[i].max ==>
      (forall j :: left <= j < right ==> now[j].key <= level.ranges[i].max)
      && (forall j :: right <= j < |now| ==> now[j].key > level.ranges[i].max)
    requires level.ranges[i].min > level.ranges[i].max ==> left == right
    ensures CoversInterval(level, input, i, left, right)
  {
    forall x | 0 <= x < |input| ensures Covered(level, input[x], i) <==> left <= x < right {
      assert now[x].key == input[x].key;
    }
  }

  /** The part of table t is in key order and holds each copy as often as the table admits it. */
  ghost predicate PartDone(part: seq<Request>, input: seq<Request>, level: Level, t: nat) {
    && Sorted(part) && |part| == AdmittedSize(level, input, t, |input|)
    && forall r :: multiset(part)[r] == AdmittedTimes(level, input, t, |input|, r)
  }

  ghost predicate SkipPart(rest: seq<Request>, input: seq<Request>, level: Level, i: nat) {
    && Sorted(rest) && |rest| == RejectedSizeBefore(level, input, i)
    && forall r :: multiset(rest)[r] == RejectedBefore(level, input, i, r)
  }

  /** One table: find the requests inside its range, route and mark them. */
  method PassTable(pool: Pool, level: Level, i: nat, rest: seq<Request>, ghost input: seq<Request>)
    returns (part: seq<Request>, rest': seq<Request>)
    requires pool.Valid() && i < |level.ranges| && |input| == pool.length
    requires Marked(pool.Contents(), input, level, i, 0) && SkipPart(rest, input, level, i)
    modifies pool.data
    ensures pool.Valid() && Marked(pool.Contents(), input, level, i + 1, 0)
    ensures PartDone(part, input, level, i) && SkipPart(rest', input, level, i + 1)
  {
    var left := pool.FindIndexStartingFrom(0, level.ranges[i].min);
    var right := left;
    if level.ranges[i].min <= level.ranges[i].max {
      right := pool.FindIndexStartingFrom(left, level.ranges[i].max + 1);
    }
    BoundsAreInterval(pool.Contents(), input, level, i, left, right);
    SameMarks(pool.Contents(), input, level, i, left, right);
    var p := RouteCovered(pool, level, i, left, right, Parts([], rest), input);
    SameMarks(pool.Contents(), input, level, i, left, right);
    RoutedInOrder(Parts([], rest), level, input, i, left, right);
    forall r
      ensures multiset(p.part)[r] == AdmittedTimes(level, input, i, |input|, r)
      ensures multiset(p.rest)[r] == RejectedBefore(level, input, i + 1, r)
      ensures |p.part| == AdmittedSize(level, input, i, |input|) && |p.rest| == RejectedSizeBefore(level, input, i + 1)
    {
      PassDone(rest, input, level, i, left, right, r);
    }
    PassDone(rest, input, level, i, left, right, Entry(0, Client(0, READ, 0)));
    part, rest' := p.part, p.rest;
  }

  /** The first loop: the parts of the tables in turn, and what they reject. */
  method PassTables(pool: Pool, level: Level, ghost input: seq<Request>)
    returns (parts: seq<seq<Request>>, rest: seq<Request>)
    requires pool.Valid() && input == pool.Contents()
    modifies pool.data
    ensures pool.Valid() && Marked(pool.Contents(), input, level, |level.ranges|, 0)
    ensures |parts| == |level.ranges| && forall t :: 0 <= t < |parts| ==> PartDone(parts[t], input, level, t)
    ensures SkipPart(rest, input, level, |level.ranges|)
  {
    parts, rest := [], [];
    for i := 0 to |level.ranges|
      invariant pool.Valid() && Marked(pool.Contents(), input, level, i, 0)
      invariant |parts| == i && forall t :: 0 <= t < |parts| ==> PartDone(parts[t], input, level, t)
      invariant SkipPart(rest, input, level, i)
    {
      var part;
      part, rest := PassTable(pool, level, i, rest, input);
      parts := parts + [part];
    }
  }

  /** The second loop: whatever is still live is covered by no table and goes to the skip part. */
  method SkipTheRest(pool: Pool, level: Level, rest: seq<Request>, ghost input: seq<Request>)
    returns (rest': seq<Request>)
    requires pool.Valid() && |input| == pool.length && Marked(pool.Contents(), input, level, |level.ranges|, 0)
    requires Sorted(rest)
    ensures Sorted(rest') && |rest'| == |rest| + SkippedSize(level, input, |input|)
    ensures forall r :: multiset(rest')[r] == multiset(rest)[r] + SkippedTimes(level, input, |input|, r)
  {
    rest' := rest;
    for j := 0 to pool.length
      invariant Sorted(rest') && |rest'| == |rest| + SkippedSize(level, input, j)
      invariant forall r :: multiset(rest')[r] == multiset(rest)[r] + SkippedTimes(level, input, j, r)
    {
      var q := pool.data[j];
      assert pool.Contents()[j] == q;
      if Live(q) {
        PutSorted(rest', q);
        PutMultiset(rest', q);
        rest' := Put(rest', q);
      }
    }
  }

  /**
   * decompose. A table takes every request inside its key range, also one that an earlier table has already
   * moved: it then inserts a copy without a client. Part t holds, in key order, exactly the copies table t
   * admits; the skip part exactly the copies some table rejects and the live requests no table covers.
   */
  method Decompose(pool: Pool, level: Level, factor: nat) returns (parts: seq<seq<Request>>)
    requires pool.Valid() && |level.ranges| <= factor
    modifies pool.data
    ensures pool.Valid()
    ensures IsDecomposition(parts, old(pool.Contents()), level, factor)
    ensures forall j :: 0 <= j < pool.length ==>
      pool.data[j] == if Cover(level, old(pool.data[j])) < |level.ranges|
                      then Moved(old(pool.data[j])) else old(pool.data[j])
  {
    ghost var input := pool.Contents();
    var tables, rejected := PassTables(pool, level, input);
    var rest := SkipTheRest(pool, level, rejected, input);
    PartsComplete(tables, rest, input, level, factor);
    parts := tables + seq(factor - |tables|, _ => []) + [rest];
    assert forall j :: 0 <= j < pool.length ==> pool.data[j] == pool.Contents()[j] && old(pool.data[j]) == input[j];
  }

  ghost predicate IsDecomposition(parts: seq<seq<Request>>, input: seq<Request>, level: Level, skip: nat) {
    && |parts| == skip + 1
    && forall t :: 0 <= t <= skip ==>
         && Sorted(parts[t]) && |parts[t]| == PartSize(level, input, skip, t)
         && forall r :: multiset(parts[t])[r] == PartTimes(level, input, skip, t, r)
  }

  /** There are no tables from |ranges| on, so their parts stay empty. */
  lemma PartsComplete(parts: seq<seq<Request>>, rest: seq<Request>, input: seq<Request>, level: Level, skip: nat)
    requires |parts| == |level.ranges| <= skip && forall t :: 0 <= t < |parts| ==> PartDone(parts[t], input, level, t)
    requires Sorted(rest) && |rest| == PartSize(level, input, skip, skip)
    requires forall r :: multiset(rest)[r] == PartTimes(level, input, skip, skip, r)
    ensures IsDecomposition(parts + seq(skip - |parts|, _ => []) + [rest], input, level, skip)
  {
    var all := parts + seq(skip - |parts|, _ => []) + [rest];
    forall t | |parts| <= t < skip 
      ensures all[t] == [] && PartSize(level, input, skip, t) == 0
      ensures forall r :: PartTimes(level, input, skip, t, r) == 0
    {
      NothingOutside(level, input, t, 0, |input|, Entry(0, Client(0, READ, 0)));
      forall r ensures AdmittedTimes(level, input, t, |input|, r) == 0 {
        NothingOutside(level, input, t, 0, |input|, r);
      }
    }
  }
}
