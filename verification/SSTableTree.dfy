// The array-based search tree of an SSTable: how a sorted memtable is laid out over slots
// (children of slot i at 2i + 1 and 2i + 2), and how a read descends it.
module SSTableTree {
  import opened Entries
  import opened Logs
  import opened TraversalStack

  // ----- Which sorted positions live below a slot -----

  /** Sorted positions [lo, hi). */
  datatype Span = Span(lo: nat, hi: nat) {
    function Mid(): nat {
      (lo + hi) / 2
    }
  }

  function ChildSpan(p: Span, isLeft: bool): (s: Span)
    requires p.lo <= p.hi
    ensures p.lo <= s.lo <= s.hi <= p.hi
    ensures p.lo < p.hi ==> s.hi - s.lo < p.hi - p.lo
  {
    if p.lo == p.hi then p else if isLeft then Span(p.lo, p.Mid()) else Span(p.Mid() + 1, p.hi)
  }

  /** The sorted positions stored in the subtree rooted at slot x of an n-entry tree. */
  function SpanAt(n: nat, x: nat): (s: Span)
    ensures s.lo <= s.hi <= n
  {
    if x == 0 then Span(0, n)
    else
      var p := (x - 1) / 2;
      ChildSpan(SpanAt(n, p), x == 2 * p + 1)
  }

  lemma ChildSpans(n: nat, x: nat)
    ensures SpanAt(n, 2 * x + 1) == ChildSpan(SpanAt(n, x), true)
    ensures SpanAt(n, 2 * x + 2) == ChildSpan(SpanAt(n, x), false)
  {
    assert (2 * x + 1 - 1) / 2 == x;
    assert (2 * x + 2 - 1) / 2 == x;
  }

  ghost predicate Occupied(n: nat, x: nat) {
    SpanAt(n, x).lo < SpanAt(n, x).hi
  }

  /** The sorted position stored at an occupied slot. */
  function PositionAt(n: nat, x: nat): (i: nat)
    requires Occupied(n, x)
    ensures SpanAt(n, x).lo <= i < SpanAt(n, x).hi
  {
    SpanAt(n, x).Mid()
  }

  /** The slot of sorted position i, by halving the span s stored below slot x. */
  function SlotFrom(x: nat, s: Span, i: nat): (slot: nat)
    requires s.lo <= i < s.hi
    decreases s.hi - s.lo
  {
    if i == s.Mid() then x
    else if i < s.Mid() then SlotFrom(2 * x + 1, ChildSpan(s, true), i)
    else SlotFrom(2 * x + 2, ChildSpan(s, false), i)
  }

  function SlotOf(n: nat, i: nat): (slot: nat)
    requires i < n
  {
    SlotFrom(0, Span(0, n), i)
  }

  /** No occupied slot lies at or beyond `capacity`. */
  ghost predicate Fits(n: nat, capacity: nat) {
    forall x: nat :: capacity <= x ==> !Occupied(n, x)
  }

  /** The file contents: each occupied slot holds the middle entry of its span, the others are null. */
  ghost function LayoutAt(table: seq<Entry>, x: nat): (e: Entry) {
    MiddleEntry(table, SpanAt(|table|, x))
  }

  ghost function MiddleEntry(table: seq<Entry>, s: Span): (e: Entry)
    requires s.lo <= s.hi <= |table|
  {
    if s.lo < s.hi then table[s.Mid()] else NULL_ENTRY
  }

  ghost function Layout(table: seq<Entry>, capacity: nat): (data: seq<Entry>)
    ensures |data| == capacity
    ensures forall x :: 0 <= x < capacity ==> data[x] == LayoutAt(table, x)
  {
    seq(capacity, x requires 0 <= x => LayoutAt(table, x))
  }

  // ----- The layout is a bijection -----

  lemma {:induction false} SlotFromThenPosition(n: nat, x: nat, s: Span, i: nat)
    requires s == SpanAt(n, x) && s.lo <= i < s.hi
    ensures var slot := SlotFrom(x, s, i); Occupied(n, slot) && PositionAt(n, slot) == i
    decreases s.hi - s.lo
  {
    ChildSpans(n, x);
    if i < s.Mid() {
      SlotFromThenPosition(n, 2 * x + 1, ChildSpan(s, true), i);
    } else if i > s.Mid() {
      SlotFromThenPosition(n, 2 * x + 2, ChildSpan(s, false), i);
    }
  }

  /** Halving towards a position held below slot x passes through slot x. */
  lemma {:induction false} SlotFromRoot(n: nat, x: nat, s: Span, i: nat)
    requires s == SpanAt(n, x) && s.lo <= i < s.hi
    ensures SlotOf(n, i) == SlotFrom(x, s, i)
    decreases x
  {
    if x > 0 {
      var p := (x - 1) / 2;
      SlotFromRoot(n, p, SpanAt(n, p), i);
    }
  }

  /** Sorted positions and occupied slots correspond one to one. */
  lemma SlotBijection(n: nat, i: nat, x: nat)
    ensures i < n ==> Occupied(n, SlotOf(n, i)) && PositionAt(n, SlotOf(n, i)) == i
    ensures Occupied(n, x) ==> SlotOf(n, PositionAt(n, x)) == x
  {
    if i < n {
      SlotFromThenPosition(n, 0, Span(0, n), i);
    }
    if Occupied(n, x) {
      SlotFromRoot(n, x, SpanAt(n, x), PositionAt(n, x));
    }
  }

  /** Size of the span at a slot of depth d when n = 2^k: full on the leftmost path, one less beside it. */
  lemma {:induction false} SpanSizePow2(k: nat, x: nat, d: nat)
    requires Pow2(d) <= x + 1 < Pow2(d + 1)
    ensures var s := SpanAt(Pow2(k), x);
            s.hi - s.lo == if d > k then 0
                           else if x + 1 == Pow2(d) then Pow2(k - d)
                           else Pow2(k - d) - 1
    decreases d
  {
    if d > 0 {
      assert x > 0 && Pow2(d) == 2 * Pow2(d - 1);
      SpanSizePow2(k, (x - 1) / 2, d - 1);
    }
  }

  /** Every slot has a depth. */
  lemma {:induction false} DepthExists(x: nat) returns (d: nat)
    ensures Pow2(d) <= x + 1 < Pow2(d + 1)
  {
    if x == 0 {
      d := 0;
    } else {
      var e := DepthExists((x - 1) / 2);
      d := e + 1;
    }
  }

  /** A table of 2^k entries fills exactly the slots [0, 2^k). */
  lemma PowerOfTwoFillsSlots(k: nat, x: nat)
    ensures Occupied(Pow2(k), x) <==> x < Pow2(k)
  {
    var d := DepthExists(x);
    SpanSizePow2(k, x, d);
    if d > k {
      Pow2Monotone(k + 1, d);
    } else {
      Pow2Monotone(d + 1, k + 1);
      if d == k && x + 1 > Pow2(d) {
        assert Pow2(k - d) == 1;
      } else if d < k {
        Pow2Monotone(1, k - d);
        Pow2Monotone(d + 1, k);
      }
    }
  }

  lemma FitsPow2(k: nat)
    ensures Fits(Pow2(k), Pow2(k))
  {
    forall x: nat | Pow2(k) <= x ensures !Occupied(Pow2(k), x) {
      PowerOfTwoFillsSlots(k, x);
    }
  }

  lemma {:induction false} SpanSizeBelow(n: nat, h: nat, x: nat, d: nat)
    requires n < Pow2(h)
    requires d <= h && Pow2(d) <= x + 1 < Pow2(d + 1)
    ensures SpanAt(n, x).hi - SpanAt(n, x).lo < Pow2(h - d)
    decreases d
  {
    if d > 0 {
      assert Pow2(d) == 2 * Pow2(d - 1) && Pow2(h - d + 1) == 2 * Pow2(h - d);
      SpanSizeBelow(n, h, (x - 1) / 2, d - 1);
    }
  }

  /** A table of any size n < 2^h fits the first 2^h - 1 slots. */
  lemma FitsAnySize(n: nat, h: nat)
    requires n < Pow2(h)
    ensures Fits(n, Pow2(h) - 1)
  {
    forall x: nat | Pow2(h) - 1 <= x ensures !Occupied(n, x) {
      var a := AncestorAtDepth(x, h);
      SpanSizeBelow(n, h, a, h);
      EmptyBelow(n, a, x);
    }
  }

  // ----- Ancestors -----

  ghost predicate IsAncestor(a: nat, x: nat) {
    a == x || (x > 0 && IsAncestor(a, (x - 1) / 2))
  }

  lemma {:induction false} RootIsAncestor(x: nat)
    ensures IsAncestor(0, x)
  {
    if x > 0 {
      RootIsAncestor((x - 1) / 2);
    }
  }

  lemma {:induction false} AncestorAtDepth(x: nat, h: nat) returns (a: nat)
    requires Pow2(h) <= x + 1
    ensures IsAncestor(a, x) && Pow2(h) <= a + 1 < Pow2(h + 1)
    decreases x
  {
    if x + 1 < Pow2(h + 1) {
      a := x;
    } else {
      a := AncestorAtDepth((x - 1) / 2, h);
    }
  }

  lemma {:induction false} AncestorChild(a: nat, x: nat)
    requires IsAncestor(a, x) && a != x
    ensures IsAncestor(2 * a + 1, x) || IsAncestor(2 * a + 2, x)
  {
    if (x - 1) / 2 != a {
      AncestorChild(a, (x - 1) / 2);
    }
  }

  lemma {:induction false} EmptyBelow(n: nat, a: nat, x: nat)
    requires IsAncestor(a, x) && !Occupied(n, a)
    ensures !Occupied(n, x)
  {
    if a != x {
      EmptyBelow(n, a, (x - 1) / 2);
    }
  }

  // ----- What a laid-out file is, top down -----

  /** Slot x of the file roots a balanced search tree of the table's positions s, and nothing else. */
  ghost predicate Stores(data: seq<Entry>, x: nat, table: seq<Entry>, s: Span)
    requires s.lo <= s.hi <= |table|
    decreases s.hi - s.lo
  {
    if s.lo == s.hi then |data| <= x || data[x] == NULL_ENTRY
    else
      && x < |data| && data[x] == table[s.Mid()]
      && Stores(data, 2 * x + 1, table, ChildSpan(s, true))
      && Stores(data, 2 * x + 2, table, ChildSpan(s, false))
  }

  lemma LayoutStores(table: seq<Entry>, capacity: nat, x: nat, s: Span)
    requires Fits(|table|, capacity) && s == SpanAt(|table|, x)
    ensures Stores(Layout(table, capacity), x, table, s)
  {
    SpansStore(Layout(table, capacity), table, x, s);
  }

  lemma {:induction false} SpansStore(data: seq<Entry>, table: seq<Entry>, x: nat, s: Span)
    requires Fits(|table|, |data|) && s == SpanAt(|table|, x)
    requires forall y :: 0 <= y < |data| ==> data[y] == LayoutAt(table, y)
    ensures Stores(data, x, table, s)
    decreases s.hi - s.lo
  {
    if s.lo < s.hi {
      assert Occupied(|table|, x);
      ChildSpans(|table|, x);
      SpansStore(data, table, 2 * x + 1, ChildSpan(s, true));
      SpansStore(data, table, 2 * x + 2, ChildSpan(s, false));
    }
  }

  // ----- The inorder walk and the search read the table back -----

  ghost function Inorder(data: seq<Entry>, x: nat): (s: seq<Entry>)
    decreases |data| - x
  {
    if |data| <= x || data[x].key == NULL_KEY then []
    else Inorder(data, 2 * x + 1) + [data[x]] + Inorder(data, 2 * x + 2)
  }

  lemma {:induction false} InorderIsSpan(data: seq<Entry>, x: nat, table: seq<Entry>, s: Span)
    requires NonNull(table) && s.lo <= s.hi <= |table| && Stores(data, x, table, s)
    ensures Inorder(data, x) == table[s.lo..s.hi]
    decreases s.hi - s.lo
  {
    if s.lo < s.hi {
      InorderIsSpan(data, 2 * x + 1, table, ChildSpan(s, true));
      InorderIsSpan(data, 2 * x + 2, table, ChildSpan(s, false));
      SliceAroundMiddle(table, s);
    }
  }

  lemma SliceAroundMiddle(table: seq<Entry>, s: Span)
    requires s.lo < s.hi <= |table|
    ensures table[s.lo..s.hi] == table[s.lo..s.Mid()] + [table[s.Mid()]] + table[s.Mid() + 1..s.hi]
  {
  }

  /** An inorder walk of the file gives the sorted memtable back. */
  lemma InorderRoundTrip(table: seq<Entry>, capacity: nat)
    requires NonNull(table) && Fits(|table|, capacity)
    ensures Inorder(Layout(table, capacity), 0) == table
  {
    LayoutStores(table, capacity, 0, Span(0, |table|));
    InorderIsSpan(Layout(table, capacity), 0, table, Span(0, |table|));
    assert table[0..|table|] == table;
  }

  /** The slot at which a descent for `key` from slot x stops: a hit, a null slot, or past the end. */
  function StopSlot(data: seq<Entry>, x: nat, key: Key): (slot: nat)
    ensures slot < |data| && data[slot].key != NULL_KEY ==> data[slot].key == key
    decreases |data| - x
  {
    if |data| <= x || data[x].key == NULL_KEY || data[x].key == key then x
    else if data[x].key > key then StopSlot(data, 2 * x + 1, key)
    else StopSlot(data, 2 * x + 2, key)
  }

  function Find(data: seq<Entry>, x: nat, key: Key): (r: Option<Value>) {
    var slot := StopSlot(data, x, key);
    if slot < |data| && data[slot].key != NULL_KEY then Some(data[slot].value) else None
  }

  /** One comparison at the middle of a strictly sorted range decides which half can hold the key. */
  lemma LookupByHalves(table: seq<Entry>, s: Span, key: Key)
    requires StrictlySorted(table) && s.lo < s.hi <= |table|
    ensures LookupIn(table, s.lo, s.hi, key) ==
            if table[s.Mid()].key == key then Some(table[s.Mid()].value)
            else if table[s.Mid()].key > key then LookupIn(table, s.lo, s.Mid(), key)
            else LookupIn(table, s.Mid() + 1, s.hi, key)
  {
    var mid := s.Mid();
    LookupInSplit(table, s.lo, mid, s.hi, key);
    LookupInAbsent(table, s.lo, mid, key);
    LookupInAbsent(table, mid + 1, s.hi, key);
  }

  /** One step of a descent. */
  lemma FindStep(data: seq<Entry>, x: nat, key: Key)
    ensures Find(data, x, key) ==
            if |data| <= x || data[x].key == NULL_KEY then None
            else if data[x].key == key then Some(data[x].value)
            else if data[x].key > key then Find(data, 2 * x + 1, key)
            else Find(data, 2 * x + 2, key)
  {
  }

  /** A descent from any slot answers as a scan of exactly the positions stored below that slot. */
  lemma {:induction false} FindIsLookupBelow(data: seq<Entry>, x: nat, table: seq<Entry>, s: Span, key: Key)
    requires StrictlySorted(table) && NonNull(table)
    requires s.lo <= s.hi <= |table| && Stores(data, x, table, s)
    ensures Find(data, x, key) == LookupIn(table, s.lo, s.hi, key)
    decreases s.hi - s.lo
  {
    FindStep(data, x, key);
    if s.lo < s.hi {
      var left, right := ChildSpan(s, true), ChildSpan(s, false);
      LookupByHalves(table, s, key);
      FindIsLookupBelow(data, 2 * x + 1, table, left, key);
      FindIsLookupBelow(data, 2 * x + 2, table, right, key);
    }
  }

  /** Laying a table out and descending from the root is the same as looking the key up in it. */
  lemma FindIsLookup(table: seq<Entry>, capacity: nat, key: Key)
    requires StrictlySorted(table) && NonNull(table) && Fits(|table|, capacity)
    ensures Find(Layout(table, capacity), 0, key) == Lookup(table, key)
  {
    LayoutStores(table, capacity, 0, Span(0, |table|));
    FindIsLookupBelow(Layout(table, capacity), 0, table, Span(0, |table|), key);
  }

  // ----- Resuming a descent at a saved slot -----

  /** The key lies strictly between the table entries that enclose the subtree of slot x. */
  ghost predicate InsideSubtree(table: seq<Entry>, x: nat, key: Key) {
    var s := SpanAt(|table|, x);
    && (s.lo == 0 || table[s.lo - 1].key < key)
    && (s.hi == |table| || key < table[s.hi].key)
  }

  /**
   * Starting a request at a saved slot is right exactly when the key lies inside that slot's
   * interval, or is in the table nowhere at all.
   */
  lemma ResumeSoundExactly(table: seq<Entry>, capacity: nat, x: nat, key: Key)
    requires StrictlySorted(table) && NonNull(table) && Fits(|table|, capacity)
    ensures var data := Layout(table, capacity);
            Find(data, x, key) == Find(data, 0, key)
            <==> InsideSubtree(table, x, key) || !Contains(table, key)
  {
    var s := SpanAt(|table|, x);
    LayoutStores(table, capacity, x, s);
    FindIsLookupBelow(Layout(table, capacity), x, table, s, key);
    FindIsLookup(table, capacity, key);
    ScanOfSpan(table, s, key);
  }

  lemma ScanOfSpan(table: seq<Entry>, s: Span, key: Key)
    requires StrictlySorted(table) && s.lo <= s.hi <= |table|
    ensures LookupIn(table, s.lo, s.hi, key) == Lookup(table, key)
            <==> ((s.lo == 0 || table[s.lo - 1].key < key) && (s.hi == |table| || key < table[s.hi].key))
                 || !Contains(table, key)
  {
    LookupInSplit(table, 0, s.lo, |table|, key);
    LookupInSplit(table, s.lo, s.hi, |table|, key);
    LookupInAbsent(table, 0, |table|, key);
    LookupInAbsent(table, 0, s.lo, key);
    LookupInAbsent(table, s.lo, s.hi, key);
    if Contains(table, key) {
      var i :| 0 <= i < |table| && table[i].key == key;
      assert s.lo <= i < s.hi <==>
             (s.lo == 0 || table[s.lo - 1].key < key) && (s.hi == |table| || key < table[s.hi].key);
    }
  }

  /**
   * The batch traversal saves the slot where a request stopped and starts both child requests there.
   * With three entries, the request for key 3 stops at slot 2; a left child request for key 1 started
   * there misses an entry that is present.
   */
  lemma ResumeAtParentSlotMisses()
    ensures var table := [Entry(1, 10), Entry(2, 20), Entry(3, 30)];
            && StrictlySorted(table) && NonNull(table) && Fits(3, 3)
            && (var data := Layout(table, 3);
                var saved := StopSlot(data, 0, 3);
                Find(data, 0, 1) == Some(10) && Find(data, saved, 1) == None)
  {
    var table := [Entry(1, 10), Entry(2, 20), Entry(3, 30)];
    assert Pow2(2) == 4;
    FitsAnySize(3, 2);
    var data := Layout(table, 3);
    ChildSpans(3, 0);
    assert data == [table[1], table[0], table[2]];
    assert StopSlot(data, 0, 3) == StopSlot(data, 2, 3) == 2;
    assert StopSlot(data, 0, 1) == StopSlot(data, 1, 1) == 1;
    assert StopSlot(data, 2, 1) == StopSlot(data, 5, 1) == 5;
  }

  // ----- Equal keys in one table -----

  /** The position a descent hits when equal keys may repeat: the first midpoint that meets the run. */
  function HitPosition(table: seq<Entry>, s: Span, key: Key): (r: Option<nat>)
    requires s.lo <= s.hi <= |table|
    ensures r.Some? ==> s.lo <= r.value < s.hi && table[r.value].key == key
    decreases s.hi - s.lo
  {
    if s.lo == s.hi then None
    else if table[s.Mid()].key == key then Some(s.Mid())
    else HitPosition(table, ChildSpan(s, table[s.Mid()].key > key), key)
  }

  lemma {:induction false} FindHitsPosition(data: seq<Entry>, x: nat, table: seq<Entry>, s: Span, key: Key)
    requires NonNull(table) && s.lo <= s.hi <= |table| && Stores(data, x, table, s)
    ensures var hit := HitPosition(table, s, key);
            Find(data, x, key) == if hit.Some? then Some(table[hit.value].value) else None
    decreases s.hi - s.lo
  {
    if s.lo < s.hi {
      if table[s.Mid()].key > key {
        FindHitsPosition(data, 2 * x + 1, table, ChildSpan(s, true), key);
      } else if table[s.Mid()].key < key {
        FindHitsPosition(data, 2 * x + 2, table, ChildSpan(s, false), key);
      }
    }
  }

  lemma {:induction false} HitPositionComplete(table: seq<Entry>, s: Span, key: Key)
    requires Sorted(table) && s.lo <= s.hi <= |table|
    ensures HitPosition(table, s, key).None? <==> forall i :: s.lo <= i < s.hi ==> table[i].key != key
    decreases s.hi - s.lo
  {
    if s.lo < s.hi && table[s.Mid()].key != key {
      HitPositionComplete(table, ChildSpan(s, table[s.Mid()].key > key), key);
    }
  }

  /**
   * A memtable may hold a key several times, newest first. The descent still finds the key exactly
   * when it is there, but with the value at the run's shallowest midpoint, not the newest one.
   */
  lemma FindWithRepeatedKeys(table: seq<Entry>, capacity: nat, key: Key)
    requires Sorted(table) && NonNull(table) && Fits(|table|, capacity)
    ensures var r := Find(Layout(table, capacity), 0, key);
            var hit := HitPosition(table, Span(0, |table|), key);
            && (r.Some? <==> Contains(table, key))
            && (r.Some? ==> hit.Some? && table[hit.value] == Entry(key, r.value))
  {
    LayoutStores(table, capacity, 0, Span(0, |table|));
    FindHitsPosition(Layout(table, capacity), 0, table, Span(0, |table|), key);
    HitPositionComplete(table, Span(0, |table|), key);
  }

  /** The first midpoint that halving the positions s meets inside [a, b). */
  function FirstMidpoint(s: Span, a: nat, b: nat): (p: nat)
    requires s.lo <= a < b <= s.hi
    ensures a <= p < b
    decreases s.hi - s.lo
  {
    if a <= s.Mid() < b then s.Mid() else FirstMidpoint(ChildSpan(s, b <= s.Mid()), a, b)
  }

  lemma {:induction false} HitIsFirstMidpoint(table: seq<Entry>, s: Span, key: Key, a: nat, b: nat)
    requires KeyRun(table, key, a, b) && s.lo <= a < b <= s.hi <= |table|
    ensures HitPosition(table, s, key) == Some(FirstMidpoint(s, a, b))
    decreases s.hi - s.lo
  {
    if b <= s.Mid() || s.Mid() < a {
      HitIsFirstMidpoint(table, ChildSpan(s, b <= s.Mid()), key, a, b);
    }
  }

  /**
   * Which of several equal keys a read meets depends on their positions alone: the entry at the first
   * midpoint of the run. It is the newest one exactly when that is the run's first entry, or has its value.
   */
  lemma RepeatedKeysExactly(table: seq<Entry>, capacity: nat, key: Key, a: nat, b: nat)
    requires Sorted(table) && NonNull(table) && Fits(|table|, capacity) && KeyRun(table, key, a, b)
    ensures var r := Find(Layout(table, capacity), 0, key);
            if a == b then r == Lookup(table, key) == None
            else
              var p := FirstMidpoint(Span(0, |table|), a, b);
              && r == Some(table[p].value) && Lookup(table, key) == Some(table[a].value)
              && (r == Lookup(table, key) <==> p == a || table[p].value == table[a].value)
  {
    FindWithRepeatedKeys(table, capacity, key);
    if a == b {
      LookupInAbsent(table, 0, |table|, key);
    } else {
      HitIsFirstMidpoint(table, Span(0, |table|), key, a, b);
      LookupInFirst(table, 0, |table|, key, a);
      assert table[a].key == key;
    }
  }

  /** Two writes of one key into one memtable: the flushed table answers with the older value. */
  lemma RepeatedKeyReadsStale()
    ensures var table := [Entry(1, 20), Entry(1, 10)];
            && Sorted(table) && NonNull(table) && Fits(2, 2)
            && Lookup(table, 1) == Some(20) && Find(Layout(table, 2), 0, 1) == Some(10)
  {
    var table := [Entry(1, 20), Entry(1, 10)];
    assert Pow2(1) == 2;
    FitsPow2(1);
    assert Layout(table, 2)[0] == table[1];
    assert StopSlot(Layout(table, 2), 0, 1) == 0;
  }

  // ----- Building the tree -----

  ghost predicate FrameOf(n: nat, frame: Frame) {
    && SpanAt(n, frame.offset) == Span(frame.left, frame.right)
    && frame.left < frame.right && frame.current == (frame.left + frame.right) / 2
  }

  lemma FrameChildren(n: nat, top: Frame)
    requires FrameOf(n, top)
    ensures SpanAt(n, 2 * top.offset + 1) == Span(top.left, top.current)
    ensures SpanAt(n, 2 * top.offset + 2) == Span(top.current + 1, top.right)
  {
    ChildSpans(n, top.offset);
  }

  ghost function PendingSize(frames: seq<Frame>): (size: nat) {
    if frames == [] then 0
    else
      var f := frames[|frames| - 1];
      PendingSize(frames[..|frames| - 1]) + if f.left < f.right then f.right - f.left else 0
  }

  /** Slot x still has an unfinished proper ancestor on the stack. */
  ghost predicate Waiting(frames: seq<Frame>, x: nat) {
    exists j :: 0 <= j < |frames| && IsAncestor(frames[j].offset, x) && frames[j].offset != x
  }

  ghost function LeftChild(top: Frame): (s: seq<Frame>) {
    if top.left < top.current
    then [Frame(2 * top.offset + 1, (top.left + top.current) / 2, top.left, top.current)] else []
  }

  ghost function RightChild(top: Frame): (s: seq<Frame>) {
    if top.current + 1 < top.right
    then [Frame(2 * top.offset + 2, (top.current + 1 + top.right) / 2, top.current + 1, top.right)] else []
  }

  /** Each slot is final, or still null and below a frame on the stack. */
  ghost predicate Progress(table: seq<Entry>, data: seq<Entry>, frames: seq<Frame>) {
    forall x :: 0 <= x < |data| ==>
      data[x] == LayoutAt(table, x) || (data[x] == NULL_ENTRY && Waiting(frames, x))
  }

  /** The file after the entries of the popped frame's children are written. */
  ghost function WithChildren(table: seq<Entry>, data: seq<Entry>, top: Frame): (data': seq<Entry>)
    requires top.right <= |table|
    ensures |data'| == |data|
  {
    seq(|data|, x requires 0 <= x < |data| =>
      if x == 2 * top.offset + 1 && top.left < top.current < top.right then table[(top.left + top.current) / 2]
      else if x == 2 * top.offset + 2 && top.current + 1 < top.right then table[(top.current + 1 + top.right) / 2]
      else data[x])
  }

  method PushChildren(table: seq<Entry>, stack: Stack, data: array<Entry>, top: Frame)
    requires stack.Valid() && top.right <= |table| && top.left <= top.current < top.right
    requires top.left < top.current ==> stack.back < stack.data.Length && 2 * top.offset + 1 < data.Length
    requires top.current + 1 < top.right ==> stack.back + 1 < stack.data.Length && 2 * top.offset + 2 < data.Length
    modifies stack, stack.data, data
    ensures stack.Valid() && stack.Frames() == old(stack.Frames()) + (LeftChild(top) + RightChild(top))
    ensures data[..] == WithChildren(table, old(data[..]), top)
  {
    if top.left < top.current {
      var child := Frame(2 * top.offset + 1, (top.left + top.current) / 2, top.left, top.current);
      stack.PushTop(child);
      data[2 * top.offset + 1] := table[child.current];
    }
    if top.current + 1 < top.right {
      var child := Frame(2 * top.offset + 2, (top.current + 1 + top.right) / 2, top.current + 1, top.right);
      stack.PushTop(child);
      data[2 * top.offset + 2] := table[child.current];
    }
  }

  ghost predicate BuildInvariant(table: seq<Entry>, data: seq<Entry>, frames: seq<Frame>, length: nat) {
    && (forall f :: f in frames ==> FrameOf(|table|, f))
    && RoomFor(frames, length)
    && Progress(table, data, frames)
  }

  /**
   * insert_memtable. A frame carries the tree slot in its first field (the source keeps it in a
   * parallel array); the entry of a slot is written when the slot is pushed.
   */
  method InsertMemtable(table: seq<Entry>, stack: Stack, data: array<Entry>)
    requires stack.Valid() && stack.Frames() == []
    requires |table| > 0 && DepthNeed(|table|) <= stack.data.Length
    requires Fits(|table|, data.Length)
    requires forall x :: 0 <= x < data.Length ==> data[x] == NULL_ENTRY
    modifies stack, stack.data, data
    ensures stack.Valid() && stack.Frames() == []
    ensures data[..] == Layout(table, data.Length)
  {
    assert Occupied(|table|, 0);
    data[0] := table[|table| / 2];
    stack.PushTop(Frame(0, |table| / 2, 0, |table|));
    ProgressFromRoot(table, data[..], stack.Frames());

    var empty := stack.Empty();
    while !empty
      invariant stack.Valid() && empty == (stack.Frames() == [])
      invariant BuildInvariant(table, data[..], stack.Frames(), stack.data.Length)
      decreases PendingSize(stack.Frames())
    {
      ghost var before, data0 := stack.Frames(), data[..];
      var top := stack.Top();
      StepFacts(|table|, before, top, stack.data.Length, data.Length);
      stack.PopTop();
      ghost var rest := stack.Frames();
      assert before == rest + [top];
      PushChildren(table, stack, data, top);
      BuildStep(table, data0, rest, top, stack.data.Length);
      empty := stack.Empty();
    }
    FinishedBuild(table, data[..]);
  }

  lemma FinishedBuild(table: seq<Entry>, data: seq<Entry>)
    requires Progress(table, data, [])
    ensures data == Layout(table, |data|)
  {
    assert forall x :: 0 <= x < |data| ==> !Waiting([], x);
  }

  /** Popping a frame and pushing its children keeps the invariant and shrinks the work left. */
  lemma BuildStep(table: seq<Entry>, data: seq<Entry>, rest: seq<Frame>, top: Frame, length: nat)
    requires Fits(|table|, |data|) && FrameOf(|table|, top) && top.right <= |table|
    requires BuildInvariant(table, data, rest + [top], length)
    ensures var after := rest + (LeftChild(top) + RightChild(top));
            && BuildInvariant(table, WithChildren(table, data, top), after, length)
            && PendingSize(after) < PendingSize(rest + [top])
  {
    ProgressStep(table, data, rest, top);
    PendingStep(rest, top);
    RoomAfterStep(rest, length, top);
    ChildrenAreFrames(|table|, top);
    assert forall f :: f in rest ==> f in rest + [top];
  }

  lemma ProgressFromRoot(table: seq<Entry>, data: seq<Entry>, frames: seq<Frame>)
    requires |table| > 0 && |data| > 0
    requires frames == [Frame(0, |table| / 2, 0, |table|)]
    requires data[0] == table[|table| / 2]
    requires forall x :: 0 < x < |data| ==> data[x] == NULL_ENTRY
    ensures Progress(table, data, frames)
  {
    forall x | 0 < x < |data| ensures Waiting(frames, x) {
      RootIsAncestor(x);
      assert IsAncestor(frames[0].offset, x);
    }
  }

  lemma ChildrenAreFrames(n: nat, top: Frame)
    requires FrameOf(n, top)
    ensures forall f :: f in LeftChild(top) + RightChild(top) ==> FrameOf(n, f)
  {
    FrameChildren(n, top);
  }

  /** Room for both pushes, and both child slots in bounds. */
  lemma StepFacts(n: nat, before: seq<Frame>, top: Frame, length: nat, capacity: nat)
    requires before != [] && before[|before| - 1] == top && FrameOf(n, top)
    requires RoomFor(before, length) && Fits(n, capacity)
    ensures |before| <= length
    ensures top.current + 1 < top.right ==> |before| + 1 <= length && 2 * top.offset + 2 < capacity
    ensures top.left < top.current ==> 2 * top.offset + 1 < capacity
    ensures top.right <= n
  {
    FrameChildren(n, top);
    if top.current + 1 < top.right {
      DepthNeedHalf(1, top.right - top.left);
      assert Occupied(n, 2 * top.offset + 2);
    }
    if top.left < top.current {
      assert Occupied(n, 2 * top.offset + 1);
    }
  }

  lemma {:induction false} PendingSizeConcat(a: seq<Frame>, b: seq<Frame>)
    ensures PendingSize(a + b) == PendingSize(a) + PendingSize(b)
  {
    if b == [] {
      assert a + b == a;
    } else {
      assert (a + b)[..|a + b| - 1] == a + b[..|b| - 1];
      PendingSizeConcat(a, b[..|b| - 1]);
    }
  }

  lemma PendingStep(rest: seq<Frame>, top: Frame)
    requires top.left < top.right && top.current == (top.left + top.right) / 2
    ensures PendingSize(rest + (LeftChild(top) + RightChild(top))) < PendingSize(rest + [top])
  {
    PendingSizeConcat(rest, [top]);
    PendingSizeConcat(rest, LeftChild(top) + RightChild(top));
    PendingSizeConcat(LeftChild(top), RightChild(top));
  }

  lemma OccupiedChildIsPushed(n: nat, top: Frame, c: nat)
    requires FrameOf(n, top) && (c == 2 * top.offset + 1 || c == 2 * top.offset + 2) && Occupied(n, c)
    ensures c == 2 * top.offset + 1 ==> LeftChild(top) != []
    ensures c == 2 * top.offset + 2 ==> RightChild(top) != []
  {
    FrameChildren(n, top);
  }

  /** A slot below the popped frame is a child, below a pushed child, or in an empty subtree. */
  lemma WaitingAfterStep(n: nat, rest: seq<Frame>, top: Frame, x: nat)
    requires FrameOf(n, top)
    requires Waiting(rest + [top], x)
    ensures Waiting(rest + (LeftChild(top) + RightChild(top)), x) || !Occupied(n, x)
            || x == 2 * top.offset + 1 || x == 2 * top.offset + 2
  {
    var before, after := rest + [top], rest + (LeftChild(top) + RightChild(top));
    var j :| 0 <= j < |before| && IsAncestor(before[j].offset, x) && before[j].offset != x;
    if j < |rest| {
      assert after[j] == before[j];
    } else {
      AncestorChild(top.offset, x);
      var c := if IsAncestor(2 * top.offset + 1, x) then 2 * top.offset + 1 else 2 * top.offset + 2;
      if c != x && Occupied(n, x) {
        if !Occupied(n, c) {
          EmptyBelow(n, c, x);
        }
        OccupiedChildIsPushed(n, top, c);
        assert after[|after| - 1].offset == c || after[|rest|].offset == c;
      }
    }
  }

  lemma ChildLayout(table: seq<Entry>, top: Frame)
    requires FrameOf(|table|, top) && top.right <= |table|
    ensures LayoutAt(table, 2 * top.offset + 1) == MiddleEntry(table, Span(top.left, top.current))
    ensures LayoutAt(table, 2 * top.offset + 2) == MiddleEntry(table, Span(top.current + 1, top.right))
  {
    FrameChildren(|table|, top);
  }

  lemma ProgressStep(table: seq<Entry>, data: seq<Entry>, rest: seq<Frame>, top: Frame)
    requires FrameOf(|table|, top) && top.right <= |table|
    requires Progress(table, data, rest + [top])
    ensures Progress(table, WithChildren(table, data, top), rest + (LeftChild(top) + RightChild(top)))
  {
    var data', after := WithChildren(table, data, top), rest + (LeftChild(top) + RightChild(top));
    ChildLayout(table, top);
    forall x | 0 <= x < |data|
      ensures data'[x] == LayoutAt(table, x) || (data'[x] == NULL_ENTRY && Waiting(after, x))
    {
      ProgressAt(table, data, data', rest, top, x);
    }
  }

  lemma LeftWritten(table: seq<Entry>, data: seq<Entry>, top: Frame)
    requires FrameOf(|table|, top) && top.right <= |table| && 2 * top.offset + 1 < |data|
    requires var e := data[2 * top.offset + 1]; e == LayoutAt(table, 2 * top.offset + 1) || e == NULL_ENTRY
    ensures WithChildren(table, data, top)[2 * top.offset + 1] == LayoutAt(table, 2 * top.offset + 1)
  {
    ChildLayout(table, top);
  }

  lemma RightWritten(table: seq<Entry>, data: seq<Entry>, top: Frame)
    requires FrameOf(|table|, top) && top.right <= |table| && 2 * top.offset + 2 < |data|
    requires var e := data[2 * top.offset + 2]; e == LayoutAt(table, 2 * top.offset + 2) || e == NULL_ENTRY
    ensures WithChildren(table, data, top)[2 * top.offset + 2] == LayoutAt(table, 2 * top.offset + 2)
  {
    ChildLayout(table, top);
  }

  lemma EmptySlotIsNull(table: seq<Entry>, x: nat)
    requires !Occupied(|table|, x)
    ensures LayoutAt(table, x) == NULL_ENTRY
  {
  }

  lemma ProgressAt(table: seq<Entry>, data: seq<Entry>, data': seq<Entry>, rest: seq<Frame>, top: Frame, x: nat)
    requires FrameOf(|table|, top) && top.right <= |table| && x < |data| == |data'|
    requires data' == WithChildren(table, data, top)
    requires data[x] == LayoutAt(table, x) || (data[x] == NULL_ENTRY && Waiting(rest + [top], x))
    ensures data'[x] == LayoutAt(table, x)
            || (data'[x] == NULL_ENTRY && Waiting(rest + (LeftChild(top) + RightChild(top)), x))
  {
    if x == 2 * top.offset + 1 {
      LeftWritten(table, data, top);
    } else if x == 2 * top.offset + 2 {
      RightWritten(table, data, top);
    } else if data[x] != LayoutAt(table, x) {
      WaitingAfterStep(|table|, rest, top, x);
      if !Occupied(|table|, x) {
        EmptySlotIsNull(table, x);
      }
    }
  }

  lemma RoomAfterStep(rest: seq<Frame>, length: nat, top: Frame)
    requires top.left < top.right && top.current == (top.left + top.right) / 2
    requires RoomFor(rest + [top], length)
    ensures RoomFor(rest + (LeftChild(top) + RightChild(top)), length)
  {
    var before, after := rest + [top], rest + (LeftChild(top) + RightChild(top));
    forall j | 0 <= j < |after| && after[j].left < after[j].right
      ensures j + DepthNeed(after[j].right - after[j].left) <= length
    {
      if j < |rest| {
        assert after[j] == before[j];
      } else {
        assert before[|rest|] == top;
        var m, size := after[j].right - after[j].left, top.right - top.left;
        DepthNeedMonotone(m, size);
        if j > |rest| {
          DepthNeedHalf(m, size);
        }
      }
    }
  }
}
