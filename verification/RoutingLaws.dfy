// What decompose guarantees about clients, stored keys and sizes, with and without overlapping ranges.
module RoutingLaws {
  import opened Entries
  import opened RequestPool
  import opened LevelRouting

  // ----- Every client once -----

  /** How often r is in the parts numbered below k. */
  function TotalTimes(level: Level, pool: seq<Request>, skip: nat, k: nat, r: Request): (times: nat) {
    if k == 0 then 0 else TotalTimes(level, pool, skip, k - 1, r) + PartTimes(level, pool, skip, k - 1, r)
  }

  /** How often the tables before i put r anywhere, for the first n requests, and for one request. */
  function HandledTimes(level: Level, pool: seq<Request>, i: nat, n: nat, r: Request): (times: nat)
    requires n <= |pool|
  {
    if i == 0 then 0
    else HandledTimes(level, pool, i - 1, n, r)
         + AdmittedTimes(level, pool, i - 1, n, r) + RejectedTimes(level, pool, i - 1, n, r)
  }

  function HandledAs(level: Level, q: Request, i: nat, r: Request): (times: nat) {
    if i == 0 then 0
    else HandledAs(level, q, i - 1, r) + if Covered(level, q, i - 1) && Copy(level, q, i - 1) == r then 1 else 0
  }

  lemma {:induction false} HandledNext(level: Level, pool: seq<Request>, i: nat, n: nat, r: Request)
    requires n < |pool|
    ensures HandledTimes(level, pool, i, n + 1, r) == HandledTimes(level, pool, i, n, r) + HandledAs(level, pool[n], i, r)
  {
    if i > 0 {
      HandledNext(level, pool, i - 1, n, r);
    }
  }

  /** Only the first table that covers a live request puts a live copy anywhere. */
  lemma {:induction false} HandledOnce(level: Level, q: Request, i: nat, r: Request)
    requires i <= |level.ranges| && Live(r)
    ensures HandledAs(level, q, i, r) == if Cover(level, q) < i && q == r then 1 else 0
  {
    if i > 0 {
      HandledOnce(level, q, i - 1, r);
      FirstCoveringIsFirst(level.ranges, 0, q.key, i - 1);
    }
  }

  lemma {:induction false} HandledOrSkipped(level: Level, pool: seq<Request>, n: nat, r: Request)
    requires n <= |pool| && Live(r)
    ensures HandledTimes(level, pool, |level.ranges|, n, r) + SkippedTimes(level, pool, n, r) == multiset(pool[..n])[r]
  {
    if n == 0 {
      HandledNone(level, pool, |level.ranges|, r);
    } else {
      HandledOrSkipped(level, pool, n - 1, r);
      HandledNext(level, pool, |level.ranges|, n - 1, r);
      HandledOnce(level, pool[n - 1], |level.ranges|, r);
      assert pool[..n] == pool[..n - 1] + [pool[n - 1]];
    }
  }

  lemma {:induction false} HandledNone(level: Level, pool: seq<Request>, i: nat, r: Request)
    ensures HandledTimes(level, pool, i, 0, r) == 0
  {
    if i > 0 {
      HandledNone(level, pool, i - 1, r);
    }
  }

  lemma {:induction false} TotalOfTables(level: Level, pool: seq<Request>, skip: nat, k: nat, r: Request)
    requires k <= skip
    ensures TotalTimes(level, pool, skip, k, r) + RejectedBefore(level, pool, k, r) ==
            HandledTimes(level, pool, k, |pool|, r)
  {
    if k > 0 {
      TotalOfTables(level, pool, skip, k - 1, r);
    }
  }

  lemma {:induction false} NothingBeyond(level: Level, pool: seq<Request>, skip: nat, k: nat, r: Request)
    requires |level.ranges| <= k <= skip
    ensures TotalTimes(level, pool, skip, k, r) == TotalTimes(level, pool, skip, |level.ranges|, r)
  {
    if k > |level.ranges| {
      NothingBeyond(level, pool, skip, k - 1, r);
      NothingOutside(level, pool, k - 1, 0, |pool|, r);
    }
  }

  /**
   * Whatever the ranges: over all parts together every live request is there exactly as often as in the
   * input, so each client has exactly one live entry after a decomposition.
   */
  lemma LiveExactlyOnce(level: Level, pool: seq<Request>, skip: nat, r: Request)
    requires |level.ranges| <= skip && Live(r)
    ensures TotalTimes(level, pool, skip, skip + 1, r) == multiset(pool)[r]
  {
    var tables := |level.ranges|;
    NothingBeyond(level, pool, skip, skip, r);
    TotalOfTables(level, pool, skip, tables, r);
    HandledOrSkipped(level, pool, |pool|, r);
    assert pool[..|pool|] == pool;
  }

  // ----- Stored keys -----

  lemma {:induction false} AdmittedAt(level: Level, pool: seq<Request>, t: nat, n: nat, x: nat)
    requires x < n <= |pool| && Covered(level, pool[x], t) && level.maybe(t, pool[x].key)
    ensures AdmittedTimes(level, pool, t, n, Copy(level, pool[x], t)) > 0
  {
    if x < n - 1 {
      AdmittedAt(level, pool, t, n - 1, x);
    }
  }

  /**
   * A request for a key that table i covers and its filter admits, as every key stored there is, always gets
   * a copy in part i; the copy is the live one exactly when no earlier table covers the key.
   */
  lemma StoredKeyGetsCopy(level: Level, pool: seq<Request>, skip: nat, i: nat, x: nat)
    requires i < |level.ranges| <= skip && x < |pool| && Live(pool[x])
    requires Covered(level, pool[x], i) && level.maybe(i, pool[x].key)
    ensures PartTimes(level, pool, skip, i, Copy(level, pool[x], i)) > 0
    ensures Live(Copy(level, pool[x], i)) <==> forall t :: 0 <= t < i ==> !level.ranges[t].Covers(pool[x].key)
    ensures var copy, q := Copy(level, pool[x], i), pool[x];
            && copy.key == q.key && copy.value.kind == q.value.kind && copy.value.batch == q.value.batch
            && (Live(copy) ==> copy == q)
  {
    AdmittedAt(level, pool, i, |pool|, x);
    var first := Cover(level, pool[x]);
    FirstCoveringIsFirst(level.ranges, 0, pool[x].key, i);
    if first < i {
      FirstCoveringIsFirst(level.ranges, 0, pool[x].key, first);
    } else {
      forall t | 0 <= t < i ensures !level.ranges[t].Covers(pool[x].key) {
        FirstCoveringIsFirst(level.ranges, 0, pool[x].key, t);
      }
    }
  }

  // ----- With disjoint ranges -----

  function RoutedTimes(level: Level, pool: seq<Request>, skip: nat, part: nat, n: nat, r: Request): (times: nat)
    requires n <= |pool| && |level.ranges| <= skip
  {
    if n == 0 then 0
    else RoutedTimes(level, pool, skip, part, n - 1, r)
         + if Route(level, pool[n - 1].key, skip) == part && pool[n - 1] == r then 1 else 0
  }

  lemma DisjointCover(level: Level, q: Request, t: nat)
    requires Disjoint(level.ranges) && Covered(level, q, t)
    ensures Cover(level, q) == t
  {
    var first := Cover(level, q);
    FirstCoveringIsFirst(level.ranges, 0, q.key, t);
    if first < t {
      FirstCoveringIsFirst(level.ranges, 0, q.key, first);
    }
  }

  lemma AdmitsIsRoute(level: Level, q: Request, skip: nat, t: nat, r: Request)
    requires Disjoint(level.ranges) && |level.ranges| <= skip && t < skip
    ensures AdmitsAs(level, q, t, r) <==> Route(level, q.key, skip) == t && q == r
  {
    if Covered(level, q, t) {
      DisjointCover(level, q, t);
    } else if t < |level.ranges| {
      FirstCoveringIsFirst(level.ranges, 0, q.key, t);
    }
  }

  function RejectedAs(level: Level, q: Request, i: nat, r: Request): (times: nat) {
    if i == 0 then 0 else RejectedAs(level, q, i - 1, r) + if RejectsAs(level, q, i - 1, r) then 1 else 0
  }

  function RejectedUpTo(level: Level, pool: seq<Request>, i: nat, n: nat, r: Request): (times: nat)
    requires n <= |pool|
  {
    if i == 0 then 0 else RejectedUpTo(level, pool, i - 1, n, r) + RejectedTimes(level, pool, i - 1, n, r)
  }

  lemma {:induction false} RejectedNext(level: Level, pool: seq<Request>, i: nat, n: nat, r: Request)
    requires n < |pool|
    ensures RejectedUpTo(level, pool, i, n + 1, r) == RejectedUpTo(level, pool, i, n, r) + RejectedAs(level, pool[n], i, r)
    ensures RejectedUpTo(level, pool, i, 0, r) == 0
    ensures RejectedUpTo(level, pool, i, |pool|, r) == RejectedBefore(level, pool, i, r)
  {
    if i > 0 {
      RejectedNext(level, pool, i - 1, n, r);
    }
  }

  lemma {:induction false} RejectedOnce(level: Level, q: Request, i: nat, r: Request)
    requires Disjoint(level.ranges) && i <= |level.ranges|
    ensures var first := Cover(level, q);
            RejectedAs(level, q, i, r) == if first < i && !level.maybe(first, q.key) && q == r then 1 else 0
  {
    if i > 0 {
      RejectedOnce(level, q, i - 1, r);
      FirstCoveringIsFirst(level.ranges, 0, q.key, i - 1);
      if Covered(level, q, i - 1) {
        DisjointCover(level, q, i - 1);
      }
    }
  }

  lemma {:induction false} SkipIsRoute(level: Level, pool: seq<Request>, skip: nat, n: nat, r: Request)
    requires Disjoint(level.ranges) && |level.ranges| <= skip && n <= |pool| && pool != []
    requires forall x :: 0 <= x < |pool| ==> Live(pool[x])
    ensures RejectedUpTo(level, pool, |level.ranges|, n, r) + SkippedTimes(level, pool, n, r) ==
            RoutedTimes(level, pool, skip, skip, n, r)
  {
    if n == 0 {
      RejectedNext(level, pool, |level.ranges|, 0, r);
    } else {
      SkipIsRoute(level, pool, skip, n - 1, r);
      RejectedNext(level, pool, |level.ranges|, n - 1, r);
      RejectedOnce(level, pool[n - 1], |level.ranges|, r);
    }
  }

  lemma {:induction false} TableIsRoute(level: Level, pool: seq<Request>, skip: nat, t: nat, n: nat, r: Request)
    requires Disjoint(level.ranges) && |level.ranges| <= skip && t < skip && n <= |pool|
    ensures AdmittedTimes(level, pool, t, n, r) == RoutedTimes(level, pool, skip, t, n, r)
  {
    if n > 0 {
      TableIsRoute(level, pool, skip, t, n - 1, r);
      AdmitsIsRoute(level, pool[n - 1], skip, t, r);
    }
  }

  /** With disjoint ranges every part is exactly the requests routed to it, each still with its client. */
  lemma DisjointPartsAreRoutes(level: Level, pool: seq<Request>, skip: nat, part: nat, r: Request)
    requires Disjoint(level.ranges) && |level.ranges| <= skip && part <= skip
    requires forall x :: 0 <= x < |pool| ==> Live(pool[x])
    ensures PartTimes(level, pool, skip, part, r) == RoutedTimes(level, pool, skip, part, |pool|, r)
  {
    if part < skip {
      TableIsRoute(level, pool, skip, part, |pool|, r);
    } else if pool != [] {
      SkipIsRoute(level, pool, skip, |pool|, r);
      RejectedNext(level, pool, |level.ranges|, 0, r);
    } else {
      NoneRejected(level, pool, |level.ranges|, r);
    }
  }

  lemma {:induction false} NoneRejected(level: Level, pool: seq<Request>, i: nat, r: Request)
    requires pool == []
    ensures RejectedBefore(level, pool, i, r) == 0
  {
    if i > 0 {
      NoneRejected(level, pool, i - 1, r);
    }
  }

  // ----- Sizes -----

  function TotalSize(level: Level, pool: seq<Request>, skip: nat, k: nat): (size: nat) {
    if k == 0 then 0 else TotalSize(level, pool, skip, k - 1) + PartSize(level, pool, skip, k - 1)
  }

  /** How many of the tables before i cover a request, and how many of them admit it. */
  function Covers(level: Level, q: Request, i: nat): (n: nat) {
    if i == 0 then 0 else Covers(level, q, i - 1) + if Covered(level, q, i - 1) then 1 else 0
  }

  function Admits(level: Level, q: Request, i: nat): (n: nat)
    ensures n <= Covers(level, q, i)
  {
    if i == 0 then 0
    else Admits(level, q, i - 1) + if Covered(level, q, i - 1) && level.maybe(i - 1, q.key) then 1 else 0
  }

  /** How many entries a batch makes in all, and in the parts of tables. */
  function Entered(level: Level, pool: seq<Request>, n: nat): (size: nat)
    requires n <= |pool|
  {
    if n == 0 then 0
    else
      var covers := Covers(level, pool[n - 1], |level.ranges|);
      Entered(level, pool, n - 1) + if covers == 0 && Live(pool[n - 1]) then 1 else covers
  }

  function EnteredTables(level: Level, pool: seq<Request>, n: nat): (size: nat)
    requires n <= |pool|
  {
    if n == 0 then 0 else EnteredTables(level, pool, n - 1) + Admits(level, pool[n - 1], |level.ranges|)
  }

  function AdmittedSizes(level: Level, pool: seq<Request>, i: nat, n: nat): (size: nat)
    requires n <= |pool|
  {
    if i == 0 then 0 else AdmittedSizes(level, pool, i - 1, n) + AdmittedSize(level, pool, i - 1, n)
  }

  function RejectedSizes(level: Level, pool: seq<Request>, i: nat, n: nat): (size: nat)
    requires n <= |pool|
  {
    if i == 0 then 0 else RejectedSizes(level, pool, i - 1, n) + RejectedSize(level, pool, i - 1, n)
  }

  lemma {:induction false} SizesNext(level: Level, pool: seq<Request>, i: nat, n: nat)
    requires n < |pool|
    ensures AdmittedSizes(level, pool, i, n + 1) == AdmittedSizes(level, pool, i, n) + Admits(level, pool[n], i)
    ensures RejectedSizes(level, pool, i, n + 1) ==
            RejectedSizes(level, pool, i, n) + Covers(level, pool[n], i) - Admits(level, pool[n], i)
  {
    if i > 0 {
      SizesNext(level, pool, i - 1, n);
    }
  }

  lemma {:induction false} SizesNone(level: Level, pool: seq<Request>, i: nat)
    ensures AdmittedSizes(level, pool, i, 0) == RejectedSizes(level, pool, i, 0) == 0
    ensures RejectedSizes(level, pool, i, |pool|) == RejectedSizeBefore(level, pool, i)
  {
    if i > 0 {
      SizesNone(level, pool, i - 1);
    }
  }

  lemma {:induction false} CoversNone(level: Level, q: Request, i: nat)
    requires i <= |level.ranges|
    ensures Covers(level, q, i) == 0 <==> i <= Cover(level, q)
  {
    if i > 0 {
      CoversNone(level, q, i - 1);
      FirstCoveringIsFirst(level.ranges, 0, q.key, i - 1);
    }
  }

  lemma {:induction false} SizesByRequest(level: Level, pool: seq<Request>, n: nat)
    requires n <= |pool|
    ensures var k := |level.ranges|;
            && AdmittedSizes(level, pool, k, n) == EnteredTables(level, pool, n)
            && AdmittedSizes(level, pool, k, n) + RejectedSizes(level, pool, k, n) + SkippedSize(level, pool, n) ==
               Entered(level, pool, n)
  {
    if n == 0 {
      SizesNone(level, pool, |level.ranges|);
    } else {
      SizesByRequest(level, pool, n - 1);
      SizesNext(level, pool, |level.ranges|, n - 1);
      CoversNone(level, pool[n - 1], |level.ranges|);
    }
  }

  lemma {:induction false} SizeOfTables(level: Level, pool: seq<Request>, skip: nat, k: nat)
    requires k <= skip
    ensures TotalSize(level, pool, skip, k) == AdmittedSizes(level, pool, k, |pool|)
    ensures k >= |level.ranges| ==> TotalSize(level, pool, skip, k) == AdmittedSizes(level, pool, |level.ranges|, |pool|)
  {
    if k > 0 {
      SizeOfTables(level, pool, skip, k - 1);
      if k > |level.ranges| {
        NothingOutside(level, pool, k - 1, 0, |pool|, Entry(0, Client(0, READ, 0)));
      }
    }
  }

  lemma {:induction false} EnteredAtLeast(level: Level, pool: seq<Request>, n: nat)
    requires n <= |pool| && forall x :: 0 <= x < |pool| ==> Live(pool[x])
    ensures Entered(level, pool, n) >= n
    ensures Entered(level, pool, n) == n <==> forall x :: 0 <= x < n ==> Covers(level, pool[x], |level.ranges|) <= 1
  {
    if n > 0 {
      EnteredAtLeast(level, pool, n - 1);
    }
  }

  /**
   * The parts of a batch of live requests have as many entries as the batch exactly when no request is covered
   * by two tables; otherwise more. The sizes counted for the tables add up to the number of admissions.
   */
  lemma SizesFitExactly(level: Level, pool: seq<Request>, skip: nat)
    requires |level.ranges| <= skip
    ensures TotalSize(level, pool, skip, skip) == EnteredTables(level, pool, |pool|)
    ensures TotalSize(level, pool, skip, skip + 1) == Entered(level, pool, |pool|)
    ensures (forall x :: 0 <= x < |pool| ==> Live(pool[x])) ==>
              && TotalSize(level, pool, skip, skip + 1) >= |pool|
              && (TotalSize(level, pool, skip, skip + 1) == |pool|
                  <==> forall x :: 0 <= x < |pool| ==> Covers(level, pool[x], |level.ranges|) <= 1)
  {
    SizeOfTables(level, pool, skip, skip);
    SizesByRequest(level, pool, |pool|);
    SizesNone(level, pool, |level.ranges|);
    if forall x :: 0 <= x < |pool| ==> Live(pool[x]) {
      EnteredAtLeast(level, pool, |pool|);
    }
  }

  lemma {:induction false} DisjointCoversOne(level: Level, q: Request, i: nat)
    requires Disjoint(level.ranges) && i <= |level.ranges|
    ensures Covers(level, q, i) <= 1
    ensures Covers(level, q, i) == 1 ==> Cover(level, q) < i
  {
    if i > 0 {
      DisjointCoversOne(level, q, i - 1);
      if Covered(level, q, i - 1) {
        DisjointCover(level, q, i - 1);
      }
    }
  }

  /** With disjoint ranges the routed sizes and the skipped requests add up to the batch. */
  lemma RoutedSizesFit(level: Level, pool: seq<Request>, skip: nat)
    requires Disjoint(level.ranges) && |level.ranges| <= skip
    requires forall x :: 0 <= x < |pool| ==> Live(pool[x])
    ensures TotalSize(level, pool, skip, skip) + PartSize(level, pool, skip, skip) == |pool|
  {
    SizesFitExactly(level, pool, skip);
    forall x | 0 <= x < |pool| ensures Covers(level, pool[x], |level.ranges|) <= 1 {
      DisjointCoversOne(level, pool[x], |level.ranges|);
    }
  }

  /** Two overlapping tables that both admit a key count the one request for it twice. */
  lemma OverlapOverrunsBatch(r: Request) returns (level: Level)
    ensures |level.ranges| == 2 && TotalSize(level, [r], 2, 2) == 2
  {
    level := Level([Range(r.key, r.key), Range(0, r.key + 1)], (_, _) => true);
    assert Covered(level, r, 0) && Covered(level, r, 1);
    assert Admits(level, r, 0) == 0 && Admits(level, r, 1) == 1 && Admits(level, r, 2) == 2;
    assert EnteredTables(level, [r], 0) == 0 && EnteredTables(level, [r], 1) == 2;
    SizesFitExactly(level, [r], 2);
  }
}
