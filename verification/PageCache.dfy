// The page-cache index of an SSTable: a sorted array of file intervals held in buffers, the inverse
// array from buffer id to position, eviction of the oldest buffer and removal of a range of ids.
module PageCache {
  import opened Entries

  /** The half-open interval of entry indices held by a buffer; no id marks a removed location. */
  datatype Location = Location(lo: nat, hi: nat, id: Option<nat>)

  /** Right ends in order: what the binary search relies on. */
  ghost predicate Ordered(c: seq<Location>) {
    forall i, j :: 0 <= i < j < |c| ==> c[i].hi <= c[j].hi
  }

  /** Position p splits the array at right end `offset`, as a binary search leaves it. */
  ghost predicate SplitsAt(c: seq<Location>, offset: nat, p: nat) {
    && p <= |c|
    && (p < |c| ==> c[p].hi > offset)
    && (p > 0 ==> c[p - 1].hi <= offset)
  }

  predicate Holds(l: Location, offset: nat) {
    l.id.Some? && l.lo <= offset < l.hi
  }

  /** Turn every location whose id lies in [from, to) into a tombstone. */
  ghost function Dropped(c: seq<Location>, from: nat, to: nat): (r: seq<Location>)
    ensures |r| == |c|
    ensures forall j :: 0 <= j < |r| ==>
      r[j] == if c[j].id.Some? && from <= c[j].id.value < to then c[j].(id := None) else c[j]
  {
    seq(|c|, j requires 0 <= j < |c| =>
      if c[j].id.Some? && from <= c[j].id.value < to then c[j].(id := None) else c[j])
  }

  /** The inverse array names the position of every live id, and the live ids are exactly [from, to). */
  ghost predicate Inverse(c: seq<Location>, positions: seq<nat>, from: nat, to: nat) {
    && from <= to <= |positions|
    && (forall j :: 0 <= j < |c| && c[j].id.Some? ==> from <= c[j].id.value < to && positions[c[j].id.value] == j)
    && (forall id :: from <= id < to ==> positions[id] < |c| && c[positions[id]].id == Some(id))
  }

  /** How many live pages have an id from id1 on, and what is left when they are dropped. */
  function LiveFrom(oldest: nat, nextId: nat, id1: nat): (n: nat)
    requires oldest <= nextId
  {
    if id1 >= nextId then 0 else if id1 < oldest then nextId - oldest else nextId - id1
  }

  /**
   * The eviction point and the next id once the pages from id1 on are dropped: the next page goes into id1, or, if
   * all ids up to id1 were evicted and so nothing is cached any more, into buffer 0 again.
   */
  predicate StartsOver(oldest: nat, nextId: nat, id1: nat, oldest': nat, nextId': nat) {
    && (nextId <= id1 ==> oldest' == oldest && nextId' == nextId)
    && (id1 < nextId ==> nextId' <= id1)
    && (oldest <= id1 < nextId ==> oldest' == oldest && nextId' == id1)
    && (id1 < nextId && id1 < oldest ==> oldest' == nextId' == 0)
  }

  /** The page at `lo` was read into buffer `id`, and the buffers owned, the eviction point and the free count then. */
  datatype Selection = Selection(lo: nat, id: nat, owned: nat, oldest: nat, free: int)

  ghost function Places(selected: seq<Selection>): (places: seq<nat>) {
    seq(|selected|, i requires 0 <= i < |selected| => selected[i].lo)
  }

  /** The pages at these places were read since, in this order. */
  ghost predicate ReadSince(before: seq<Selection>, after: seq<Selection>, starts: seq<nat>) {
    Places(after) == Places(before) + starts
  }

  lemma OneRead(before: seq<Selection>, e: Selection)
    ensures ReadSince(before, before + [e], [e.lo]) && ReadSince(before, before, [])
  {
  }

  lemma ReadSinceBoth(a: seq<Selection>, b: seq<Selection>, c: seq<Selection>, first: nat, then_: seq<nat>)
    requires ReadSince(a, b, [first]) && ReadSince(b, c, then_)
    ensures ReadSince(a, c, [first] + then_)
  {
    assert Places(a) + [first] + then_ == Places(a) + ([first] + then_);
  }

  /** The page went into a buffer of this SSTable exactly if fewer ids were evicted than buffers were free. */
  predicate OwnedExactly(e: Selection) {
    e.free > 0 && (e.id < e.owned <==> e.oldest < e.free)
  }

  class CacheHelper {
    const locations: array<Location>
    const positions: array<nat>
    var count: nat      // recorded locations, live or removed
    var nextId: nat     // one past the most recently selected buffer
    var oldest: nat     // the least recently selected buffer
    var free: int
    var minInvalid: nat // an offset from which the file surely has no entries
    var stock: nat      // how many buffers the SSTable owns; buffers from `stock` on belong to others
    ghost var selected: seq<Selection> // one for every location recorded

    ghost predicate Valid()
      reads this, locations, positions
    {
      && count <= locations.Length && |selected| == count
      && Inverse(Contents(), positions[..], oldest, nextId)
    }

    /** A buffer is free or holds a live page. */
    predicate Accounted()
      reads this
    {
      free >= 0 && free + (nextId - oldest) == stock
    }

    /** And so it was whenever a page was recorded. */
    ghost predicate Tracked()
      reads this
    {
      Accounted() && forall i :: 0 <= i < |selected| ==> OwnedExactly(selected[i])
    }

    ghost function Contents(): (c: seq<Location>)
      requires count <= locations.Length
      reads this, locations
    {
      locations[..count]
    }

    constructor (maxBuffers: nat, maxOffset: nat)
      ensures Valid() && fresh(locations) && fresh(positions)
      ensures locations.Length == positions.Length == maxBuffers
      ensures Contents() == [] && nextId == oldest == 0 && free == 0 && minInvalid == maxOffset
      ensures stock == 0 && Tracked()
    {
      locations := new Location[maxBuffers];
      positions := new nat[maxBuffers];
      count, nextId, oldest, free, minInvalid := 0, 0, 0, 0, maxOffset;
      stock, selected := 0, [];
    }

    method AddBuffer()
      requires Valid()
      modifies this`free, this`stock
      ensures Valid() && free == old(free) + 1 && stock == old(stock) + 1
    {
      free, stock := free + 1, stock + 1;
    }

    /** The binary search shared by the lookup and the insertion. It does not need the order to be safe. */
    method FirstEndingAfter(offset: nat) returns (p: nat)
      requires Valid()
      ensures SplitsAt(Contents(), offset, p)
    {
      p := 0;
      var right := count;
      while p < right
        invariant p <= right <= count
        invariant right < count ==> locations[right].hi > offset
        invariant p > 0 ==> locations[p - 1].hi <= offset
      {
        var mid := (p + right) / 2;
        if locations[mid].hi <= offset {
          p := mid + 1;
        } else {
          right := mid;
        }
      }
    }

    /** get_buffer_info: a hit is a live location around the offset; in order, a miss means no such location
        starts the right ends beyond the offset. */
    method GetBufferInfo(offset: nat) returns (r: Option<Location>)
      requires Valid()
      ensures r.Some? ==> r.value in Contents() && Holds(r.value, offset)
      ensures exists p: nat :: SplitsAt(Contents(), offset, p)
                          && (r.Some? <==> p < count && Holds(Contents()[p], offset))
                          && (r.Some? ==> r.value == Contents()[p])
    {
      var p := FirstEndingAfter(offset);
      if p < count && Holds(locations[p], offset) {
        r := Some(locations[p]);
      } else {
        r := None;
      }
      assert SplitsAt(Contents(), offset, p);
    }

    /** Store a location and, if it is live, its inverse position. */
    method Place(i: nat, l: Location)
      requires i < locations.Length && (l.id.Some? ==> l.id.value < positions.Length)
      modifies locations, positions
      ensures locations[..] == old(locations[..])[i := l]
      ensures positions[..] == Repointed(old(positions[..]), l, i)
    {
      locations[i] := l;
      if l.id.Some? {
        positions[l.id.value] := i;
      }
    }

    /** Shift the locations from p on one place up, keeping the inverse array in step, and store `l` at p. */
    method ShiftIn(p: nat, l: Location)
      requires p <= count < locations.Length
      requires DistinctIds(InsertAt(Contents(), p, l))
      requires IdsBelow(InsertAt(Contents(), p, l), positions.Length) && IdsBelow(Contents(), positions.Length)
      requires Points(Contents(), positions[..])
      modifies locations, positions
      ensures locations[..count + 1] == InsertAt(old(Contents()), p, l)
      ensures Points(InsertAt(old(Contents()), p, l), positions[..])
    {
      ghost var c, after := Contents(), InsertAt(Contents(), p, l);
      var carry, i := l, p;
      while i < count
        invariant p <= i <= count
        invariant carry == after[i]
        invariant Shifting(locations[..], positions[..], c, after, i)
      {
        ShiftStep(locations[..], positions[..], c, after, i);
        var next := locations[i];
        assert next == c[i] == after[i + 1];
        Place(i, carry);
        carry := next;
        i := i + 1;
      }
      ShiftEnd(locations[..], positions[..], c, after);
      Place(count, carry);
    }

    /** Put the location of buffer `nextId` in its place. */
    method Record(lo: nat, hi: nat) returns (ghost p: nat)
      requires Valid() && count < locations.Length && nextId < positions.Length
      modifies locations, positions
      ensures SplitsAt(old(Contents()), lo, p)
      ensures locations[..count + 1] == InsertAt(old(Contents()), p, Location(lo, hi, Some(nextId)))
      ensures Inverse(locations[..count + 1], positions[..], oldest, nextId + 1)
    {
      ghost var c := Contents();
      var place := FirstEndingAfter(lo);
      p := place;
      var l := Location(lo, hi, Some(nextId));
      InsertedIds(c, positions[..], oldest, nextId, place, l);
      ShiftIn(place, l);
      InsertedInverse(c, positions[..], oldest, nextId, place, l);
    }

    /**
     * map_buffer_to_offset_boundary: record that buffer `nextId` now holds [lo, hi), shifting later
     * locations (and their inverse positions) one place up.
     */
    method MapBuffer(lo: nat, hi: nat) returns (ghost p: nat)
      requires Valid() && count < locations.Length && nextId < positions.Length
      modifies this`count, this`nextId, this`free, this`selected, locations, positions
      ensures Valid()
      ensures SplitsAt(old(Contents()), lo, p)
      ensures Contents() == InsertAt(old(Contents()), p, Location(lo, hi, Some(old(nextId))))
      ensures nextId == old(nextId) + 1 && count == old(count) + 1 && free == old(free) - 1
      ensures selected == old(selected) + [Selection(lo, old(nextId), stock, oldest, old(free))]
      ensures old(Tracked()) && old(free) > 0 ==> Tracked()
    {
      p := Record(lo, hi);
      selected := selected + [Selection(lo, nextId, stock, oldest, free)];
      count, nextId, free := count + 1, nextId + 1, free - 1;
    }

    /** Mark the location of a live buffer as removed. */
    method Tombstone(id: nat)
      requires Valid() && oldest <= id < nextId
      modifies locations
      ensures Contents() == Dropped(old(Contents()), id, id + 1)
    {
      ghost var c := Contents();
      locations[positions[id]] := locations[positions[id]].(id := None);
      assert forall j :: 0 <= j < |c| && c[j].id == Some(id) ==> j == positions[id];
    }

    /** replenish_least_recently_selected_buffer: evict the oldest live buffer. */
    method ReplenishOldest()
      requires Valid() && oldest < nextId
      modifies this`free, this`oldest, locations
      ensures Valid()
      ensures Contents() == Dropped(old(Contents()), old(oldest), old(oldest) + 1)
      ensures oldest == old(oldest) + 1 && free == old(free) + 1
    {
      Tombstone(oldest);
      free := free + 1;
      oldest := oldest + 1;
    }

    /**
     * Forget the pages in buffers from id1 on. If the eviction point is already past id1, nothing is cached any
     * more and ids start over. Returns how many pages were live among them.
     */
    method DropFrom(id1: nat) returns (live: nat)
      requires Valid()
      modifies this`nextId, this`oldest, locations
      ensures Valid() && live == LiveFrom(old(oldest), old(nextId), id1)
      ensures Contents() == Dropped(old(Contents()), id1, old(nextId))
      ensures StartsOver(old(oldest), old(nextId), id1, oldest, nextId)
    {
      ghost var c := Contents();
      live := 0;
      if id1 < nextId {
        var first := if id1 < oldest then oldest else id1;
        live := nextId - first;
        DropLoop(first);
        assert Contents() == Dropped(c, id1, nextId);
        if oldest > id1 {
          oldest, nextId := 0, 0;
        } else {
          nextId := id1;
        }
      } else {
        assert Contents() == Dropped(c, id1, nextId);
      }
    }

    method DropLoop(first: nat)
      requires Valid() && oldest <= first <= nextId
      modifies locations
      ensures Contents() == Dropped(old(Contents()), first, nextId)
    {
      ghost var c := Contents();
      var id := first;
      while id < nextId
        invariant first <= id <= nextId
        invariant Contents() == Dropped(c, first, id)
      {
        locations[positions[id]] := locations[positions[id]].(id := None);
        assert forall j :: 0 <= j < |c| && c[j].id == Some(id) ==> j == positions[id];
        id := id + 1;
      }
    }

    /**
     * remove_buffer_range: the buffers id1 to id2 leave; of these, the ones without a live page were free. The next
     * page never goes beyond id1, and goes into buffer 0 if the eviction point had passed id1. Free and live buffers
     * still add up exactly if all buffers from id1 on were removed.
     */
    method RemoveBufferRange(id1: nat, id2: nat)
      requires Valid() && id1 <= id2
      modifies this`nextId, this`oldest, this`free, this`stock, locations
      ensures Valid() && stock == if id1 < old(stock) then id1 else old(stock)
      ensures Contents() == Dropped(old(Contents()), id1, old(nextId))
      ensures free == old(free) - (id2 - id1 + 1) + LiveFrom(old(oldest), old(nextId), id1)
      ensures StartsOver(old(oldest), old(nextId), id1, oldest, nextId)
      ensures old(Accounted()) && id1 <= old(stock) ==> (Accounted() <==> id2 + 1 == old(stock))
    {
      var live := DropFrom(id1);
      free := free - (id2 - id1 + 1) + live;
      stock := if id1 < stock then id1 else stock;
    }

    /** As written the whole range is taken from the free count, live pages included. */
    method RemoveBufferRangeAsWritten(id1: nat, id2: nat)
      requires Valid() && id1 <= id2
      modifies this`nextId, this`oldest, this`free, this`stock, locations
      ensures Valid() && stock == if id1 < old(stock) then id1 else old(stock)
      ensures Contents() == Dropped(old(Contents()), id1, old(nextId))
      ensures free == old(free) - (id2 - id1 + 1)
      ensures StartsOver(old(oldest), old(nextId), id1, oldest, nextId)
    {
      free := free - (id2 - id1 + 1);
      var live := DropFrom(id1);
      stock := if id1 < stock then id1 else stock;
    }

    method SetMinInvalid(offset: nat)
      modifies this`minInvalid
      ensures minInvalid == offset
    {
      minInvalid := offset;
    }
  }

  /**
   * An SSTable of three buffers caches three pages, gives the last buffer away, evicts a page, and reads the next
   * one into the buffer it gave away: ids go up past an eviction and are not used again.
   */
  method EvictedIdLeavesStock() returns (h: CacheHelper)
    ensures h.Valid() && h.Tracked() && h.stock == 2
    ensures |h.selected| == 4 && h.selected[2].id == 2 && h.selected[3] == Selection(10, 2, 2, 1, 1)
  {
    h := LastGivenFirstEvicted();
    ghost var p := h.MapBuffer(10, 11);
  }

  method LastGivenFirstEvicted() returns (h: CacheHelper)
    ensures h.Valid() && h.Tracked() && h.stock == 2 && h.free == 1 && h.nextId == 2 && h.oldest == 1
    ensures h.count == 3 && h.selected[2].id == 2
    ensures h.locations.Length == h.positions.Length == 4 && fresh(h) && fresh(h.locations) && fresh(h.positions)
  {
    h := ThreePagesCached();
    h.RemoveBufferRange(2, 2);
    assert h.Tracked();
    h.ReplenishOldest();
  }

  method ThreeBuffersTaken() returns (h: CacheHelper)
    ensures h.Valid() && h.Tracked() && h.stock == h.free == 3 && h.nextId == h.oldest == h.count == 0
    ensures h.locations.Length == h.positions.Length == 4 && fresh(h) && fresh(h.locations) && fresh(h.positions)
  {
    h := new CacheHelper(4, 100);
    h.AddBuffer();
    h.AddBuffer();
    h.AddBuffer();
  }

  method ThreePagesCached() returns (h: CacheHelper)
    ensures h.Valid() && h.Tracked() && h.stock == 3 && h.free == 0 && h.nextId == h.count == 3 && h.oldest == 0
    ensures h.selected[2].id == 2
    ensures h.locations.Length == h.positions.Length == 4 && fresh(h) && fresh(h.locations) && fresh(h.positions)
  {
    h := ThreeBuffersTaken();
    ghost var p := h.MapBuffer(0, 1);
    p := h.MapBuffer(1, 2);
    p := h.MapBuffer(2, 3);
  }

  // ----- The inverse array through an insertion -----

  ghost predicate DistinctIds(c: seq<Location>) {
    forall i, j :: 0 <= i < j < |c| && c[i].id.Some? && c[j].id.Some? ==> c[i].id.value != c[j].id.value
  }

  ghost predicate IdsBelow(c: seq<Location>, bound: nat) {
    forall j :: 0 <= j < |c| && c[j].id.Some? ==> c[j].id.value < bound
  }

  ghost predicate Points(c: seq<Location>, positions: seq<nat>)
    requires IdsBelow(c, |positions|)
  {
    forall j :: 0 <= j < |c| && c[j].id.Some? ==> positions[c[j].id.value] == j
  }

  ghost function Repointed(positions: seq<nat>, l: Location, i: nat): (r: seq<nat>)
    requires l.id.Some? ==> l.id.value < |positions|
  {
    if l.id.Some? then positions[l.id.value := i] else positions
  }

  /** The first i locations are shifted, the others are still in place. */
  ghost predicate Shifting(
    locations: seq<Location>, positions: seq<nat>, c: seq<Location>, after: seq<Location>, i: nat)
  {
    && |locations| > |c| && |after| == |c| + 1 && i <= |c|
    && IdsBelow(c, |positions|) && IdsBelow(after, |positions|)
    && (forall j :: 0 <= j < i ==> locations[j] == after[j])
    && (forall j :: i <= j < |c| ==> locations[j] == c[j])
    && (forall j :: 0 <= j < i && after[j].id.Some? ==> positions[after[j].id.value] == j)
    && (forall j :: i <= j < |c| && c[j].id.Some? ==> positions[c[j].id.value] == j)
  }

  lemma ShiftStep(locations: seq<Location>, positions: seq<nat>, c: seq<Location>, after: seq<Location>, i: nat)
    requires Shifting(locations, positions, c, after, i) && i < |c|
    requires DistinctIds(after) && forall j :: i <= j < |c| ==> after[j + 1] == c[j]
    ensures Shifting(locations[i := after[i]], Repointed(positions, after[i], i), c, after, i + 1)
  {
    if after[i].id.Some? {
      assert forall j :: i < j < |c| && c[j].id.Some? ==> after[j + 1].id.value != after[i].id.value;
    }
  }

  lemma ShiftEnd(locations: seq<Location>, positions: seq<nat>, c: seq<Location>, after: seq<Location>)
    requires Shifting(locations, positions, c, after, |c|) && DistinctIds(after)
    ensures locations[|c| := after[|c|]][..|c| + 1] == after
    ensures Points(after, Repointed(positions, after[|c|], |c|))
  {
  }

  ghost predicate HasIds(c: seq<Location>, from: nat, to: nat) {
    && (forall id :: from <= id < to ==> exists j :: 0 <= j < |c| && c[j].id == Some(id))
    && (forall j :: 0 <= j < |c| && c[j].id.Some? ==> from <= c[j].id.value < to)
  }

  lemma InsertedIds(c: seq<Location>, positions: seq<nat>, from: nat, to: nat, p: nat, l: Location)
    requires Inverse(c, positions, from, to) && p <= |c| && l.id == Some(to) && to < |positions|
    ensures DistinctIds(c) && DistinctIds(InsertAt(c, p, l))
    ensures IdsBelow(c, |positions|) && IdsBelow(InsertAt(c, p, l), |positions|)
    ensures Points(c, positions) && HasIds(c, from, to)
  {
    forall id | from <= id < to ensures exists j :: 0 <= j < |c| && c[j].id == Some(id) {
      assert c[positions[id]].id == Some(id);
    }
    var r := InsertAt(c, p, l);
    forall i, j | 0 <= i < j < |r| && r[i].id.Some? && r[j].id.Some? ensures r[i].id.value != r[j].id.value {
      assert i != p ==> r[i] == c[if i < p then i else i - 1];
      assert j != p ==> r[j] == c[if j < p then j else j - 1];
    }
  }

  lemma InsertedInverse(c: seq<Location>, positions: seq<nat>, from: nat, to: nat, p: nat, l: Location)
    requires from <= to < |positions| && p <= |c| && l.id == Some(to)
    requires HasIds(c, from, to)
    requires IdsBelow(InsertAt(c, p, l), |positions|) && Points(InsertAt(c, p, l), positions)
    ensures Inverse(InsertAt(c, p, l), positions, from, to + 1)
  {
    var r := InsertAt(c, p, l);
    forall id | from <= id < to + 1
      ensures positions[id] < |r| && r[positions[id]].id == Some(id)
    {
      if id == to {
        assert r[p] == l;
      } else {
        var j :| 0 <= j < |c| && c[j].id == Some(id);
        assert r[if j < p then j else j + 1] == c[j];
      }
    }
  }

  // ----- Order, hits and progress -----

  /** No recorded location, live or removed, ends strictly inside [lo, hi). */
  ghost predicate NoEndInside(c: seq<Location>, lo: nat, hi: nat) {
    forall j :: 0 <= j < |c| ==> !(lo < c[j].hi < hi)
  }

  /** Mapping [lo, hi) keeps the array in order exactly when no recorded location ends inside it. */
  lemma MapKeepsOrderExactly(c: seq<Location>, p: nat, l: Location)
    requires Ordered(c) && l.lo < l.hi && SplitsAt(c, l.lo, p)
    ensures Ordered(InsertAt(c, p, l)) <==> NoEndInside(c, l.lo, l.hi)
  {
    var r := InsertAt(c, p, l);
    if NoEndInside(c, l.lo, l.hi) {
      assert forall j :: 0 <= j < p ==> c[j].hi <= c[p - 1].hi;
      assert forall j :: p <= j < |c| ==> c[p].hi <= c[j].hi;
    } else {
      var j :| 0 <= j < |c| && l.lo < c[j].hi < l.hi;
      assert j >= p;
      assert r[p] == l && r[j + 1] == c[j];
    }
  }

  /** After a page is mapped, a lookup inside it hits that very page: a fetched page is found. */
  lemma MappedPageIsHit(c: seq<Location>, p: nat, l: Location, offset: nat, q: nat)
    requires Ordered(c) && SplitsAt(c, l.lo, p) && Holds(l, offset)
    requires Ordered(InsertAt(c, p, l)) && SplitsAt(InsertAt(c, p, l), offset, q)
    ensures q == p && InsertAt(c, p, l)[q] == l
  {
    var r := InsertAt(c, p, l);
    assert r[p] == l;
    assert forall j :: 0 <= j < p ==> c[j].hi <= c[p - 1].hi;
  }

  /** In order, a live location around the offset is missed only if a removed one lies in front of it. */
  lemma MissMeansHidden(c: seq<Location>, offset: nat, p: nat, j: nat)
    requires Ordered(c) && SplitsAt(c, offset, p) && j < |c| && Holds(c[j], offset)
    ensures p <= j && (Holds(c[p], offset) || c[p].id.None? || c[p].lo > offset)
  {
  }

  /** Windows of length `page` starting at multiples of `page`, cut off at the end of the file. */
  ghost predicate AlignedWindow(l: Location, page: nat, size: nat)
    requires page > 0
  {
    l.lo % page == 0 && l.lo < size && l.hi == (if l.lo + page <= size then l.lo + page else size)
  }

  /** With windows on page boundaries no recorded window ends inside a new one. */
  lemma AlignedWindowsNeverEndInside(c: seq<Location>, l: Location, page: nat, size: nat)
    requires page > 0 && AlignedWindow(l, page, size)
    requires forall j :: 0 <= j < |c| ==> AlignedWindow(c[j], page, size)
    ensures NoEndInside(c, l.lo, l.hi)
  {
    forall j | 0 <= j < |c| ensures !(l.lo < c[j].hi < l.hi) {
      MultiplesApart(c[j].lo, l.lo, page);
    }
  }

  lemma MultiplesApart(a: nat, b: nat, page: nat)
    requires page > 0 && a % page == 0 && b % page == 0
    ensures a + page <= b || a >= b
  {
    var i, j := a / page, b / page;
    assert a == i * page && b == j * page;
    if i < j {
      assert (i + 1) * page <= j * page;
    } else {
      assert j * page <= i * page;
    }
  }

  /**
   * With windows that start at any block boundary an eviction can break the order: [0, 4) is evicted,
   * offset 2 is missed, and the window [2, 6) is put in front of the removed [0, 4).
   */
  lemma EvictedWindowBreaksOrder()
    ensures var c := Dropped([Location(0, 4, Some(0))], 0, 1);
            && Ordered(c) && !Holds(c[0], 2) && SplitsAt(c, 2, 0)
            && !Ordered(InsertAt(c, 0, Location(2, 6, Some(1))))
  {
    var c := Dropped([Location(0, 4, Some(0))], 0, 1);
    var r := InsertAt(c, 0, Location(2, 6, Some(1)));
    assert c[0] == Location(0, 4, None);
    assert r[0].hi == 6 && r[1].hi == 4;
  }

  // ----- Removal of a range, as written -----

  /**
   * As written the number of recorded locations is the most recent id plus one, so removing the ids from
   * id1 on also cuts the sorted array to its first id1 places. That loses no live location exactly when
   * every live location beyond place id1 has an id to be removed.
   */
  lemma CutLosesNothingExactly(c: seq<Location>, id1: nat, to: nat)
    requires id1 <= |c| && IdsBelow(c, to)
    ensures (forall j :: id1 <= j < |c| ==> Dropped(c, id1, to)[j].id.None?)
            <==> (forall j :: id1 <= j < |c| && c[j].id.Some? ==> c[j].id.value >= id1)
  {
    var d := Dropped(c, id1, to);
    if forall j :: id1 <= j < |c| ==> d[j].id.None? {
      forall j | id1 <= j < |c| && c[j].id.Some? ensures c[j].id.value >= id1 {
        assert d[j].id.None?;
      }
    }
  }

  /** Buffer 0 mapped high, buffer 1 mapped low: removing buffer 1 cuts off the location of buffer 0. */
  lemma CutLosesLiveBuffer()
    ensures var c := [Location(0, 4, Some(1)), Location(8, 12, Some(0))];
            && Inverse(c, [1, 0], 0, 2)
            && Dropped(c, 1, 2)[1].id == Some(0) && |Dropped(c, 1, 2)[..1]| == 1
  {
  }

  /**
   * Free buffers are the stock less the live pages. The designed removal keeps that law; subtracting the
   * whole range, as written, keeps it exactly when no page with an id from id1 on was live.
   */
  lemma RemovalAccounting(
    stock: int, free: int, oldest: nat, nextId: nat, id1: nat, id2: nat, oldest': nat, nextId': nat)
    requires free == stock - (nextId - oldest) && oldest <= nextId && id1 <= id2
    requires StartsOver(oldest, nextId, id1, oldest', nextId')
    ensures var removed, live := id2 - id1 + 1, LiveFrom(oldest, nextId, id1);
            var liveLeft := nextId' - oldest';
            && liveLeft == nextId - oldest - live
            && free - removed + live == (stock - removed) - liveLeft
            && (free - removed == (stock - removed) - liveLeft <==> nextId <= id1 || nextId == oldest)
  {
  }

  // ----- Whole runs -----

  /** A page is recorded at the place the binary search finds for it, or pages are dropped. */
  datatype IndexOp = MapAt(l: Location, p: nat) | DropIds(from: nat, to: nat)

  ghost predicate AllAligned(c: seq<Location>, page: nat, size: nat)
    requires page > 0
  {
    forall j :: 0 <= j < |c| ==> AlignedWindow(c[j], page, size)
  }

  ghost predicate IsIndexRun(c: seq<Location>, ops: seq<IndexOp>, page: nat, size: nat)
    requires page > 0
    decreases |ops|
  {
    ops == [] || (match ops[0]
                  case MapAt(l, p) => AlignedWindow(l, page, size) && SplitsAt(c, l.lo, p)
                                      && IsIndexRun(InsertAt(c, p, l), ops[1..], page, size)
                  case DropIds(from, to) => IsIndexRun(Dropped(c, from, to), ops[1..], page, size))
  }

  ghost function AfterIndexRun(c: seq<Location>, ops: seq<IndexOp>, page: nat, size: nat): (c': seq<Location>)
    requires page > 0 && IsIndexRun(c, ops, page, size)
    decreases |ops|
  {
    if ops == [] then c
    else match ops[0]
      case MapAt(l, p) => AfterIndexRun(InsertAt(c, p, l), ops[1..], page, size)
      case DropIds(from, to) => AfterIndexRun(Dropped(c, from, to), ops[1..], page, size)
  }

  lemma MapKeepsAligned(c: seq<Location>, l: Location, p: nat, page: nat, size: nat)
    requires page > 0 && Ordered(c) && AllAligned(c, page, size) && AlignedWindow(l, page, size) && SplitsAt(c, l.lo, p)
    ensures Ordered(InsertAt(c, p, l)) && AllAligned(InsertAt(c, p, l), page, size)
  {
    AlignedWindowsNeverEndInside(c, l, page, size);
    MapKeepsOrderExactly(c, p, l);
  }

  /** With windows on page boundaries the array stays in order over any run of mappings, evictions and removals. */
  lemma {:induction false} AlignedRunStaysOrdered(c: seq<Location>, ops: seq<IndexOp>, page: nat, size: nat)
    requires page > 0 && Ordered(c) && AllAligned(c, page, size) && IsIndexRun(c, ops, page, size)
    ensures Ordered(AfterIndexRun(c, ops, page, size)) && AllAligned(AfterIndexRun(c, ops, page, size), page, size)
    decreases |ops|
  {
    if ops != [] {
      match ops[0]
      case MapAt(l, p) =>
        MapKeepsAligned(c, l, p, page, size);
        AlignedRunStaysOrdered(InsertAt(c, p, l), ops[1..], page, size);
      case DropIds(from, to) =>
        AlignedRunStaysOrdered(Dropped(c, from, to), ops[1..], page, size);
    }
  }

  // ----- Hits that stay -----

  /** A lookup of the offset hits a page that ends at or before `bound`. */
  ghost predicate Hits(c: seq<Location>, offset: nat, bound: nat) {
    exists q: nat :: SplitsAt(c, offset, q) && q < |c| && Holds(c[q], offset) && c[q].hi <= bound
  }

  lemma SplitUnique(c: seq<Location>, offset: nat, p: nat, q: nat)
    requires Ordered(c) && SplitsAt(c, offset, p) && SplitsAt(c, offset, q)
    ensures p == q
  {
  }

  lemma MappedPageHits(c: seq<Location>, p: nat, l: Location, offset: nat)
    requires Ordered(c) && SplitsAt(c, l.lo, p) && Ordered(InsertAt(c, p, l)) && Holds(l, offset)
    ensures Hits(InsertAt(c, p, l), offset, l.hi)
  {
    var r := InsertAt(c, p, l);
    assert r[p] == l && (p > 0 ==> r[p - 1] == c[p - 1]);
    assert SplitsAt(r, offset, p);
  }

  /** A page mapped behind the one that is hit does not hide it. */
  lemma HitSurvives(c: seq<Location>, p: nat, l: Location, offset: nat, bound: nat)
    requires Ordered(c) && SplitsAt(c, l.lo, p) && Hits(c, offset, bound) && bound <= l.lo
    ensures Hits(InsertAt(c, p, l), offset, bound)
  {
    var q: nat :| SplitsAt(c, offset, q) && q < |c| && Holds(c[q], offset) && c[q].hi <= bound;
    var r := InsertAt(c, p, l);
    assert r[q] == c[q] && (q > 0 ==> r[q - 1] == c[q - 1]);
    assert SplitsAt(r, offset, q);
  }
}
