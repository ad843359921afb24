// Searching an SSTable file through its page cache: misses read a window of the file into a buffer,
// hits continue the descent inside the buffer, and the known end of the file stops a search.
module CachedSearch {
  import opened Entries
  import opened Logs
  import opened Products
  import opened SSTableTree
  import opened PageCache

  /** Every live location is a true copy of the file interval it names. */
  ghost predicate Coherent(file: seq<Entry>, c: seq<Location>, pages: map<nat, seq<Entry>>) {
    forall j :: 0 <= j < |c| && c[j].id.Some? ==>
      c[j].lo <= c[j].hi <= |file| && c[j].id.value in pages && pages[c[j].id.value] == file[c[j].lo..c[j].hi]
  }

  lemma CoherentAfterMap(
    file: seq<Entry>, c: seq<Location>, pages: map<nat, seq<Entry>>, p: nat, lo: nat, hi: nat, id: nat)
    requires Coherent(file, c, pages) && p <= |c| && lo <= hi <= |file|
    requires forall j :: 0 <= j < |c| && c[j].id.Some? ==> c[j].id.value != id
    ensures Coherent(file, InsertAt(c, p, Location(lo, hi, Some(id))), pages[id := file[lo..hi]])
  {
  }

  function ReadInto(pages: map<nat, seq<Entry>>, id: nat, x: seq<Entry>): (r: map<nat, seq<Entry>>) {
    pages[id := x]
  }

  /** Whatever is read into buffer `id`, every page stays a true copy. */
  ghost predicate Detached(file: seq<Entry>, c: seq<Location>, pages: map<nat, seq<Entry>>, id: nat) {
    forall x :: Coherent(file, c, ReadInto(pages, id, x))
  }

  /** Buffers from `from` on can go when the index forgets the ids from `from` on. */
  lemma DroppedAreDetached(
    file: seq<Entry>, c: seq<Location>, pages: map<nat, seq<Entry>>, positions: seq<nat>, oldest: nat, nextId: nat, from: nat)
    requires Coherent(file, c, pages) && Inverse(c, positions, oldest, nextId)
    ensures forall id: nat :: from <= id ==> Detached(file, Dropped(c, from, nextId), pages, id)
  {
    forall id: nat, x | from <= id ensures Coherent(file, Dropped(c, from, nextId), ReadInto(pages, id, x)) {
    }
  }

  /**
   * As written the ids dropped begin one too high, so the index goes on naming the lowest buffer given away. Once
   * the SSTable that got it reads x into it, the pages are true copies if and only if the buffer had no live page,
   * or x is that page.
   */
  lemma GivenPageOverwrittenExactly(
    file: seq<Entry>, c: seq<Location>, positions: seq<nat>, pages: map<nat, seq<Entry>>, oldest: nat, nextId: nat,
    id1: nat, x: seq<Entry>)
    requires Coherent(file, c, pages) && Inverse(c, positions, oldest, nextId)
    ensures Coherent(file, Dropped(c, id1 + 1, nextId), ReadInto(pages, id1, x))
            <==> !(oldest <= id1 < nextId) || (id1 in pages && x == pages[id1])
  {
    var d := Dropped(c, id1 + 1, nextId);
    if oldest <= id1 < nextId {
      var j := positions[id1];
      assert c[j].id == Some(id1) && d[j] == c[j];
      assert pages[id1] == file[c[j].lo..c[j].hi];
    }
  }

  /** So whatever may be read into it, they are if and only if it had no live page. */
  lemma GivenPageSafeExactly(
    file: seq<Entry>, c: seq<Location>, positions: seq<nat>, pages: map<nat, seq<Entry>>, oldest: nat, nextId: nat,
    id1: nat)
    requires Coherent(file, c, pages) && Inverse(c, positions, oldest, nextId)
    ensures Detached(file, Dropped(c, id1 + 1, nextId), pages, id1) <==> !(oldest <= id1 < nextId)
  {
    if oldest <= id1 < nextId {
      var other := if id1 in pages && pages[id1] == [] then [NULL_ENTRY] else [];
      GivenPageOverwrittenExactly(file, c, positions, pages, oldest, nextId, id1, other);
    } else {
      forall x ensures Coherent(file, Dropped(c, id1 + 1, nextId), ReadInto(pages, id1, x)) {
        GivenPageOverwrittenExactly(file, c, positions, pages, oldest, nextId, id1, x);
      }
    }
  }

  /** What a search can say: an answer, that the fixed-size index has no room for another page, or that there is no
      buffer to read into. */
  datatype Answer = Found(value: Option<Value>) | IndexFull | NoBuffers

  /** How many slots a descent from `slot` can visit, the one past the file's end included. */
  function Visits(size: nat, slot: nat): (n: nat)
    ensures n >= 1
    decreases size - slot
  {
    if slot >= size then 1 else 1 + Visits(size, 2 * slot + 1)
  }

  lemma {:induction false} VisitsFewer(size: nat, slot: nat, next: nat)
    requires slot <= next
    ensures Visits(size, next) <= Visits(size, slot)
    decreases size - slot
  {
    if slot < size && next < size {
      VisitsFewer(size, 2 * slot + 1, 2 * next + 1);
    }
  }

  /** A file of fewer than 2^h entries is left after at most h + 1 visits. */
  lemma {:induction false} VisitsAreFew(size: nat, d: nat, h: nat)
    requires d <= h && size < Pow2(h)
    ensures Visits(size, Pow2(d) - 1) <= h - d + 1
    decreases h - d
  {
    if d < h {
      VisitsAreFew(size, d + 1, h);
    }
  }

  class CachedFile {
    const file: seq<Entry>
    const block: nat
    const page: nat
    const cache: CacheHelper
    var pages: map<nat, seq<Entry>>

    ghost predicate Valid()
      reads this, cache, cache.locations, cache.positions
    {
      && block > 0 && page > 0 && page % block == 0
      && cache.Valid()
      && Coherent(file, cache.Contents(), pages)
      && cache.minInvalid >= |file|
      && (block == page ==> Ordered(cache.Contents()) && AllAligned(cache.Contents(), page, |file|))
    }

    /** At least one buffer is free or can be evicted. */
    predicate HasStock()
      reads cache
    {
      cache.free >= 0 && cache.free + (cache.nextId - cache.oldest) >= 1
    }

    constructor (file: seq<Entry>, block: nat, page: nat, maxBuffers: nat, maxOffset: nat)
      requires block > 0 && page > 0 && page % block == 0 && maxOffset >= |file|
      ensures Valid() && this.file == file && this.block == block && this.page == page
      ensures cache.free == cache.nextId == cache.oldest == 0 && Room() == maxBuffers
      ensures cache.stock == 0 && cache.Tracked()
      ensures fresh(cache) && fresh(cache.locations) && fresh(cache.positions)
    {
      this.file, this.block, this.page := file, block, page;
      cache := new CacheHelper(maxBuffers, maxOffset);
      pages := map[];
    }

    /** How many more pages can be recorded. */
    function Room(): (n: int)
      reads cache
    {
      var places, ids := cache.locations.Length - cache.count, cache.positions.Length - cache.nextId;
      if places < ids then places else ids
    }

    /**
     * A read completion at window start w: a nonempty read is mapped; a short one ends the file there,
     * an empty one shows that the file ended before w.
     */
    method CompleteRead(w: nat) returns (ghost p: nat)
      requires Valid() && HasStock() && Room() > 0 && cache.free > 0 && (block == page ==> w % page == 0)
      modifies this`pages, cache, cache.locations, cache.positions
      ensures Valid() && HasStock() && cache.free >= old(cache.free) - 1
      ensures Room() >= old(Room()) - 1 && cache.oldest == old(cache.oldest)
      ensures ReadSince(old(cache.selected), cache.selected, if w < |file| then [w] else [])
      ensures cache.stock == old(cache.stock) && (old(cache.Tracked()) ==> cache.Tracked())
      ensures w < |file| ==> Room() == old(Room()) - 1 && cache.free == old(cache.free) - 1
      ensures w < |file| ==>
        && cache.count == old(cache.count) + 1 && SplitsAt(old(cache.Contents()), w, p)
        && cache.Contents() == InsertAt(old(cache.Contents()), p, Window(w, old(cache.nextId)))
        && cache.minInvalid == if |file| < w + page then |file| else old(cache.minInvalid)
      ensures w >= |file| ==> cache.Contents() == old(cache.Contents()) && cache.minInvalid == w
    {
      p := 0;
      if w < |file| {
        var hi;
        hi, p := TakePage(w);
        if hi - w < page {
          cache.SetMinInvalid(hi);
        }
      } else {
        cache.SetMinInvalid(w);
        assert Places(cache.selected) + [] == Places(cache.selected);
      }
    }

    method TakePage(w: nat) returns (hi: nat, ghost p: nat)
      requires Valid() && Room() > 0 && cache.free > 0 && w < |file| && (block == page ==> w % page == 0)
      modifies this`pages, cache`count, cache`nextId, cache`free, cache`selected, cache.locations, cache.positions
      ensures Valid() && cache.free == old(cache.free) - 1 && cache.nextId == old(cache.nextId) + 1
      ensures Room() == old(Room()) - 1 && ReadSince(old(cache.selected), cache.selected, [w])
      ensures cache.count == old(cache.count) + 1 && SplitsAt(old(cache.Contents()), w, p)
      ensures hi == Window(w, old(cache.nextId)).hi
      ensures cache.Contents() == InsertAt(old(cache.Contents()), p, Window(w, old(cache.nextId)))
      ensures old(cache.Tracked()) ==> cache.Tracked()
    {
      OneRead(cache.selected, Selection(w, cache.nextId, cache.stock, cache.oldest, cache.free));
      hi, p := RecordPage(w);
    }

    /** A nonempty read is recorded under the buffer it went into. */
    method RecordPage(w: nat) returns (hi: nat, ghost p: nat)
      requires Valid() && Room() > 0 && cache.free > 0 && w < |file| && (block == page ==> w % page == 0)
      modifies this`pages, cache`count, cache`nextId, cache`free, cache`selected, cache.locations, cache.positions
      ensures Valid() && cache.free == old(cache.free) - 1 && cache.nextId == old(cache.nextId) + 1
      ensures cache.selected ==
              old(cache.selected) + [Selection(w, old(cache.nextId), cache.stock, cache.oldest, old(cache.free))]
      ensures cache.count == old(cache.count) + 1 && SplitsAt(old(cache.Contents()), w, p)
      ensures hi == Window(w, old(cache.nextId)).hi
      ensures cache.Contents() == InsertAt(old(cache.Contents()), p, Window(w, old(cache.nextId)))
      ensures old(cache.Tracked()) ==> cache.Tracked()
    {
      hi := if w + page <= |file| then w + page else |file|;
      ghost var c := cache.Contents();
      var id := cache.nextId;
      p := cache.MapBuffer(w, hi);
      pages := pages[id := file[w..hi]];
      CoherentAfterMap(file, c, old(pages), p, w, hi, id);
      if block == page {
        MapKeepsAligned(c, Window(w, id), p, page, |file|);
      }
    }

    /** The page at w, held in buffer `id`. */
    ghost function Window(w: nat, id: nat): (l: Location) {
      Location(w, if w + page <= |file| then w + page else |file|, Some(id))
    }

    /** Make room if no buffer is free, and only then: the least recently selected one is given up. */
    method EnsureFreeBuffer()
      requires Valid() && HasStock()
      modifies cache, cache.locations
      ensures Valid() && HasStock() && cache.free > 0 && pages == old(pages)
      ensures Room() == old(Room()) && cache.count == old(cache.count) && cache.minInvalid == old(cache.minInvalid)
      ensures cache.selected == old(cache.selected)
      ensures old(cache.free) > 0 ==> cache.Contents() == old(cache.Contents())
      ensures cache.free == if old(cache.free) == 0 then 1 else old(cache.free)
      ensures cache.oldest == old(cache.oldest) + if old(cache.free) == 0 then 1 else 0
      ensures cache.stock == old(cache.stock) && (old(cache.Tracked()) ==> cache.Tracked())
    {
      if cache.free == 0 {
        EvictOldest();
      }
    }

    method EvictOldest()
      requires Valid() && cache.oldest < cache.nextId
      modifies cache`free, cache`oldest, cache.locations
      ensures Valid() && pages == old(pages) && cache.free == old(cache.free) + 1 && cache.oldest == old(cache.oldest) + 1
    {
      cache.ReplenishOldest();
      assert Coherent(file, cache.Contents(), pages);
    }

    /** The slot is beyond the known end of the file, or in order to be found in the cache. */
    ghost predicate Ready(slot: nat)
      reads this, cache, cache.locations, cache.positions
      requires Valid()
    {
      slot >= cache.minInvalid || Hits(cache.Contents(), slot, slot - slot % page + page)
    }

    /**
     * The miss branch: evict if needed, read the window around the slot, and, if just two buffers are free, the
     * window twice as far, or the second one, ahead. The prefetch counts only behind a nonempty read (see
     * EmptyPrefetchForgetsEnd).
     */
    method ReadFromStorage(slot: nat) returns (ghost w: nat)
      requires Valid() && HasStock() && Room() > 0 && slot < cache.minInvalid
      modifies this`pages, cache, cache.locations, cache.positions
      ensures Valid() && HasStock() && Room() >= old(Room()) - 2
      ensures cache.count > old(cache.count)
              || (cache.count == old(cache.count) && cache.minInvalid <= slot)
      ensures cache.stock == old(cache.stock) && (old(cache.Tracked()) ==> cache.Tracked())
      ensures block == page ==> Ready(slot)
      ensures cache.oldest == old(cache.oldest) + if old(cache.free) == 0 then 1 else 0
      ensures w == slot - slot % block
      ensures ReadSince(old(cache.selected), cache.selected,
                        Starts(w, if w == 0 then page else 2 * w, old(cache.free) == 2 && old(Room()) >= 2))
    {
      EnsureFreeBuffer();
      var start := slot - slot % block;
      w := start;
      RoundedDown(slot, block);
      ReadPages(slot, start);
    }

    /** The places of the pages a miss reads: none beyond the file, the first only if no second one is asked for. */
    function Starts(w: nat, ahead: nat, two: bool): (starts: seq<nat>) {
      if w >= |file| then [] else if two && ahead < |file| then [w, ahead] else [w]
    }

    method ReadPages(slot: nat, w: nat)
      requires Valid() && HasStock() && Room() > 0 && cache.free > 0 && w <= slot < w + block
      requires block == page ==> w % page == 0 && w == slot - slot % page
      modifies this`pages, cache, cache.locations, cache.positions
      ensures Valid() && HasStock() && Room() >= old(Room()) - 2
      ensures cache.count > old(cache.count)
              || (cache.count == old(cache.count) && cache.minInvalid <= slot)
      ensures cache.stock == old(cache.stock) && (old(cache.Tracked()) ==> cache.Tracked())
      ensures block == page ==> Ready(slot)
      ensures cache.oldest == old(cache.oldest)
      ensures ReadSince(old(cache.selected), cache.selected,
                        Starts(w, if w == 0 then page else 2 * w, old(cache.free) == 2 && old(Room()) >= 2))
    {
      var two := cache.free == 2;
      ReadWindow(slot, w);
      if two {
        var ahead := if w == 0 then page else 2 * w;
        if ahead < cache.minInvalid && Room() > 0 && cache.free > 0 && w < |file| {
          ghost var before := cache.selected;
          Prefetch(slot, w, ahead);
          ReadSinceBoth(old(cache.selected), before, cache.selected, w, if ahead < |file| then [ahead] else []);
        }
      }
    }

    method ReadWindow(slot: nat, w: nat)
      requires Valid() && HasStock() && Room() > 0 && cache.free > 0 && w <= slot < w + block
      requires block == page ==> w % page == 0 && w == slot - slot % page
      modifies this`pages, cache, cache.locations, cache.positions
      ensures Valid() && HasStock() && cache.free >= old(cache.free) - 1 && Room() >= old(Room()) - 1
      ensures if w < |file| then cache.count == old(cache.count) + 1
              else cache.count == old(cache.count) && cache.minInvalid == w
      ensures cache.oldest == old(cache.oldest)
      ensures ReadSince(old(cache.selected), cache.selected, if w < |file| then [w] else [])
      ensures w < |file| ==> Room() == old(Room()) - 1 && cache.free == old(cache.free) - 1
      ensures cache.stock == old(cache.stock) && (old(cache.Tracked()) ==> cache.Tracked())
      ensures block == page ==> Ready(slot)
      ensures block == page && w < |file| < w + page ==> cache.minInvalid == |file|
      ensures block == page && w + page <= |file| ==> Hits(cache.Contents(), slot, w + page)
    {
      ghost var c, id := cache.Contents(), cache.nextId;
      ghost var p := CompleteRead(w);
      if block == page && w < |file| && slot < Window(w, id).hi {
        MappedPageHits(c, p, Window(w, id), slot);
        HitsWithin(cache.Contents(), slot, Window(w, id).hi, w + page);
      }
    }

    method Prefetch(slot: nat, w: nat, ahead: nat)
      requires Valid() && HasStock() && Room() > 0 && cache.free > 0 && w < |file| && ahead < cache.minInvalid
      requires ahead == if w == 0 then page else 2 * w
      requires w <= slot < w + block && (block == page ==> w % page == 0 && w == slot - slot % page)
      requires block == page && w + page <= |file| ==> Hits(cache.Contents(), slot, w + page)
      requires block == page && |file| < w + page ==> cache.minInvalid == |file|
      modifies this`pages, cache, cache.locations, cache.positions
      ensures Valid() && HasStock() && Room() >= old(Room()) - 1 && cache.count >= old(cache.count)
      ensures cache.oldest == old(cache.oldest)
      ensures ReadSince(old(cache.selected), cache.selected, if ahead < |file| then [ahead] else [])
      ensures cache.stock == old(cache.stock) && (old(cache.Tracked()) ==> cache.Tracked())
      ensures block == page ==> Ready(slot)
    {
      ghost var c, id := cache.Contents(), cache.nextId;
      if block == page {
        AheadIsAligned(w, page);
      }
      ghost var p := CompleteRead(ahead);
      if block == page && ahead < |file| {
        HitSurvives(c, p, Window(ahead, id), slot, w + page);
      }
    }

    /** A buffer from another SSTable is taken in. */
    method TakeInBuffer()
      requires Valid()
      modifies cache`free, cache`stock
      ensures Valid() && cache.free == old(cache.free) + 1 && cache.stock == old(cache.stock) + 1
    {
      cache.AddBuffer();
    }

    /**
     * Buffers id1 to id2 go to another SSTable: their pages are forgotten, the others stay true copies. A
     * buffer is left exactly when fewer are given than there are, and no more than are free or live from
     * id1 on.
     */
    method GiveUpBuffers(id1: nat, id2: nat)
      requires Valid() && id1 <= id2
      modifies cache`nextId, cache`oldest, cache`free, cache`stock, cache.locations
      ensures Valid() && pages == old(pages)
      ensures cache.Contents() == Dropped(old(cache.Contents()), id1, old(cache.nextId))
      ensures id1 < old(cache.nextId) ==> cache.nextId <= id1
      ensures id1 < old(cache.nextId) && id1 < old(cache.oldest) ==> cache.nextId == cache.oldest == 0
      ensures cache.stock == if id1 < old(cache.stock) then id1 else old(cache.stock)
      ensures old(cache.Tracked()) && id1 <= old(cache.stock) ==> (cache.Tracked() <==> id2 + 1 == old(cache.stock))
      ensures var given, live := id2 - id1 + 1, LiveFrom(old(cache.oldest), old(cache.nextId), id1);
              && cache.free == old(cache.free) - given + live
              && cache.nextId - cache.oldest == old(cache.nextId) - old(cache.oldest) - live
              && (HasStock() <==> given <= old(cache.free) + live
                                  && given < old(cache.free) + (old(cache.nextId) - old(cache.oldest)))
      ensures forall id: nat :: id1 <= id ==> Detached(file, cache.Contents(), pages, id)
    {
      DroppedAreDetached(file, cache.Contents(), pages, cache.positions[..], cache.oldest, cache.nextId, id1);
      cache.RemoveBufferRange(id1, id2);
    }

    /**
     * As written: the stock index is raised once more first, so the ids dropped begin after id1. The page in buffer
     * id1 stays recorded; whatever is read there, all pages stay true copies if and only if there was none.
     */
    method GiveUpBuffersAsWritten(id1: nat, id2: nat)
      requires Valid() && id1 <= id2
      modifies cache`nextId, cache`oldest, cache`free, cache`stock, cache.locations
      ensures Valid() && pages == old(pages) && cache.free == old(cache.free) - (id2 - id1 + 1)
      ensures cache.Contents() == Dropped(old(cache.Contents()), id1 + 1, old(cache.nextId))
      ensures Detached(file, cache.Contents(), pages, id1) <==> !(old(cache.oldest) <= id1 < old(cache.nextId))
      ensures forall id: nat :: id1 < id ==> Detached(file, cache.Contents(), pages, id)
    {
      GivenPageSafeExactly(file, cache.Contents(), cache.positions[..], pages, cache.oldest, cache.nextId, id1);
      DroppedAreDetached(file, cache.Contents(), pages, cache.positions[..], cache.oldest, cache.nextId, id1 + 1);
      cache.RemoveBufferRangeAsWritten(id1 + 1, id2 + 1);
    }

    /** Continue the descent inside one cached page, until it leaves the page or stops. */
    method DescendInPage(l: Location, slot: nat, key: Key) returns (next: nat)
      requires Valid() && l in cache.Contents() && Holds(l, slot)
      ensures StopSlot(file, next, key) == StopSlot(file, slot, key)
      ensures next == slot || next >= 2 * slot + 1
      ensures Holds(l, next) ==> next == StopSlot(file, slot, key)
    {
      var buffer := pages[l.id.value];
      next := slot;
      while l.lo <= next < l.hi && buffer[next - l.lo].key != NULL_KEY && buffer[next - l.lo].key != key
        invariant next == slot || next >= 2 * slot + 1
        invariant StopSlot(file, next, key) == StopSlot(file, slot, key)
        decreases l.hi - next
      {
        assert buffer[next - l.lo] == file[next];
        next := 2 * next + 2 - (if buffer[next - l.lo].key > key then 1 else 0);
      }
      if Holds(l, next) {
        assert buffer[next - l.lo] == file[next];
      }
    }

    /** Windows lie on page boundaries, there is a buffer, and the index has room for a whole descent. */
    predicate Ample()
      reads this, cache
    {
      block == page && HasStock() && Room() >= 2 * Visits(|file|, 0)
    }

    /**
     * One turn of the loop: a hit descends inside its page, and ends the search or leaves the page; a miss
     * fetches the slot, which is then ready to be hit.
     */
    method Visit(slot: nat, key: Key, ghost fetched: bool) returns (r: Option<Answer>, next: nat, ghost fetched': bool)
      requires Valid() && slot < cache.minInvalid && (block == page && fetched ==> Ready(slot))
      modifies this`pages, cache, cache.locations, cache.positions
      ensures Valid() && HasStock() == old(HasStock())
      ensures cache.stock == old(cache.stock) && (old(cache.Tracked()) ==> cache.Tracked())
      ensures r.Some? ==> Room() == old(Room()) && match r.value
                case Found(value) => value == Find(file, slot, key)
                case IndexFull => Room() <= 0 && !(block == page && fetched)
                case NoBuffers => !HasStock()
      ensures r.None? ==> StopSlot(file, next, key) == StopSlot(file, slot, key)
      ensures r.None? && !fetched' ==> next >= 2 * slot + 1 && Room() == old(Room())
      ensures r.None? && fetched' ==>
        && next == slot && Room() >= old(Room()) - 2
        && (cache.count > old(cache.count) || (cache.count == old(cache.count) && cache.minInvalid <= slot))
        && (block == page ==> !fetched && Ready(slot))
    {
      r, next, fetched' := None, slot, false;
      var hit := cache.GetBufferInfo(slot);
      if hit.Some? {
        var l := hit.value;
        next := DescendInPage(l, slot, key);
        if l.lo <= next < l.hi {
          var entry := pages[l.id.value][next - l.lo];
          assert entry == file[next];
          r := Some(Found(if entry.key == NULL_KEY then None else Some(entry.value)));
        }
      } else {
        if block == page {
          MissIsNotReady(slot);
        }
        if Room() <= 0 {
          r := Some(IndexFull);
        } else if !HasStock() {
          r := Some(NoBuffers);
        } else {
          ghost var w := ReadFromStorage(slot);
          fetched' := true;
        }
      }
    }

    /**
     * try_sstable_tree_read_in_memory for one request. Whatever was cached before, whatever is evicted
     * and prefetched on the way, an answer is the answer of the uncached descent. With windows on page
     * boundaries each visited slot is fetched at most once, so with room for that there is an answer.
     */
    method Search(key: Key) returns (r: Answer)
      requires Valid()
      modifies this`pages, cache, cache.locations, cache.positions
      ensures Valid() && HasStock() == old(HasStock())
      ensures cache.stock == old(cache.stock) && (old(cache.Tracked()) ==> cache.Tracked())
      ensures r.Found? ==> r.value == Find(file, 0, key)
      ensures r.IndexFull? ==> Room() <= 0
      ensures r.NoBuffers? ==> !HasStock()
      ensures old(Ample()) ==> r.Found? && Room() >= old(Room()) - 2 * Visits(|file|, 0)
    {
      var slot := 0;
      ghost var fetched, spare := false, Room() - 2 * Visits(|file|, 0);
      while slot < cache.minInvalid
        invariant Valid() && HasStock() == old(HasStock())
        invariant cache.stock == old(cache.stock) && (old(cache.Tracked()) ==> cache.Tracked())
        invariant StopSlot(file, slot, key) == StopSlot(file, 0, key)
        invariant block == page && fetched ==> Ready(slot)
        invariant block == page ==> Room() - spare >= 2 * Visits(|file|, slot) - (if fetched then 2 else 0)
        decreases |file| - slot, cache.locations.Length - cache.count + (if slot < cache.minInvalid then 1 else 0)
      {
        var done, next;
        done, next, fetched := Visit(slot, key, fetched);
        if done.Some? {
          return done.value;
        }
        if next != slot {
          VisitsFewer(|file|, 2 * slot + 1, next);
        }
        slot := next;
      }
      r := Found(None);
    }

    lemma MissIsNotReady(slot: nat)
      requires Valid() && block == page && slot < cache.minInvalid
      requires exists p: nat :: SplitsAt(cache.Contents(), slot, p) && !(p < cache.count && Holds(cache.Contents()[p], slot))
      ensures !Ready(slot)
    {
      var c := cache.Contents();
      var p: nat :| SplitsAt(c, slot, p) && !(p < |c| && Holds(c[p], slot));
      forall q: nat | SplitsAt(c, slot, q) ensures q == p {
        SplitUnique(c, slot, p, q);
      }
    }
  }

  lemma RoundedDown(slot: nat, block: nat)
    requires block > 0
    ensures 0 <= slot - slot % block <= slot < slot - slot % block + block
    ensures (slot - slot % block) % block == 0
  {
    Quotient(slot, block);
    QuotientOf(block, slot / block, 0);
  }

  lemma AheadIsAligned(w: nat, page: nat)
    requires page > 0 && w % page == 0
    ensures var ahead := if w == 0 then page else 2 * w;
            ahead % page == 0 && w + page <= ahead
  {
    Quotient(w, page);
    var q := w / page;
    if w == 0 {
      QuotientOf(page, 1, 0);
    } else {
      Distribute(q, q, page);
      QuotientOf(page, 2 * q, 0);
      ProductStep(page, 0, q);
    }
  }

  lemma HitsWithin(c: seq<Location>, offset: nat, bound: nat, bound': nat)
    requires Hits(c, offset, bound) && bound <= bound'
    ensures Hits(c, offset, bound')
  {
    var q: nat :| SplitsAt(c, offset, q) && q < |c| && Holds(c[q], offset) && c[q].hi <= bound;
    assert SplitsAt(c, offset, q) && q < |c| && Holds(c[q], offset) && c[q].hi <= bound';
  }

  // ----- Any sequence of operations -----

  datatype Op = Lookup(key: Key) | TakeIn | GiveUp(id1: nat, id2: nat) | Evict | Fetch(slot: nat)

  /** The buffers owned after some operations. */
  function StockAfter(stock: nat, ops: seq<Op>, n: nat): (stock': nat)
    requires n <= |ops|
  {
    if n == 0 then stock
    else
      var before := StockAfter(stock, ops, n - 1);
      match ops[n - 1]
      case TakeIn => before + 1
      case GiveUp(id1, id2) => if id1 <= id2 && id1 < before then id1 else before
      case _ => before
  }

  /** Only buffers that are owned are given up, and from the last one down. */
  predicate FromTop(stock: nat, op: Op) {
    op.GiveUp? && op.id1 <= op.id2 ==> op.id1 <= stock && op.id2 + 1 == stock
  }

  /** One operation on the cache; one that its guard forbids is left out. */
  method Perform(cf: CachedFile, op: Op) returns (answer: Option<Answer>)
    requires cf.Valid()
    modifies cf`pages, cf.cache, cf.cache.locations, cf.cache.positions
    ensures cf.Valid() && cf.cache.stock == StockAfter(old(cf.cache.stock), [op], 1)
    ensures old(cf.cache.Tracked()) && FromTop(old(cf.cache.stock), op) ==> cf.cache.Tracked()
    ensures op.Lookup? <==> answer.Some?
    ensures op.Lookup? && answer.value.Found? ==> answer.value.value == Find(cf.file, 0, op.key)
  {
    answer := None;
    match op {
      case Lookup(key) =>
        var r := cf.Search(key);
        answer := Some(r);
      case TakeIn => cf.TakeInBuffer();
      case GiveUp(id1, id2) =>
        if id1 <= id2 {
          cf.GiveUpBuffers(id1, id2);
        }
      case Evict =>
        if cf.cache.oldest < cf.cache.nextId {
          cf.EvictOldest();
        }
      case Fetch(slot) =>
        if cf.HasStock() && cf.Room() > 0 && slot < cf.cache.minInvalid {
          ghost var w := cf.ReadFromStorage(slot);
        }
    }
  }

  /**
   * Transparency: after any operations in any order, every answer is what reading the file directly gives. And as
   * long as buffers are given up from the last one down, each page was read into a buffer owned at that moment
   * exactly if fewer ids were evicted by then than buffers were free: in particular always before the first
   * eviction, and again after ids have started over.
   */
  method PerformAll(cf: CachedFile, ops: seq<Op>) returns (answers: seq<Option<Answer>>)
    requires cf.Valid()
    modifies cf`pages, cf.cache, cf.cache.locations, cf.cache.positions
    ensures cf.Valid() && |answers| == |ops| && cf.cache.stock == StockAfter(old(cf.cache.stock), ops, |ops|)
    ensures old(cf.cache.Tracked())
            && (forall i :: 0 <= i < |ops| ==> FromTop(StockAfter(old(cf.cache.stock), ops, i), ops[i])) ==>
              cf.cache.Tracked()
    ensures forall i :: 0 <= i < |ops| ==> (ops[i].Lookup? <==> answers[i].Some?)
    ensures forall i :: 0 <= i < |ops| && answers[i].Some? && answers[i].value.Found? ==>
      answers[i].value.value == Find(cf.file, 0, ops[i].key)
  {
    answers := [];
    for i := 0 to |ops|
      invariant cf.Valid() && |answers| == i && cf.cache.stock == StockAfter(old(cf.cache.stock), ops, i)
      invariant old(cf.cache.Tracked())
                && (forall j :: 0 <= j < i ==> FromTop(StockAfter(old(cf.cache.stock), ops, j), ops[j])) ==>
                  cf.cache.Tracked()
      invariant forall j :: 0 <= j < i ==> (ops[j].Lookup? <==> answers[j].Some?)
      invariant forall j :: 0 <= j < i && answers[j].Some? && answers[j].value.Found? ==>
        answers[j].value.value == Find(cf.file, 0, ops[j].key)
    {
      var answer := Perform(cf, ops[i]);
      answers := answers + [answer];
    }
  }

  // ----- The known end of the file -----

  /**
   * cur_min_invalid_offset after a read of `page` entries at w completes on a file of `size` entries.
   * `past` is what a short read adds to its right end: the interface comment says 0, the code adds 1.
   */
  function MinInvalidAfter(current: nat, w: nat, page: nat, size: nat, past: nat): (m: nat) {
    if w >= size then w else if size - w < page then size + past else current
  }

  function MinInvalidAfterAll(current: nat, starts: seq<nat>, page: nat, size: nat, past: nat): (m: nat)
    decreases |starts|
  {
    if starts == [] then current
    else MinInvalidAfterAll(MinInvalidAfter(current, starts[0], page, size, past), starts[1..], page, size, past)
  }

  /**
   * Full, short and empty reads in any order never put the end of the file before its last entry, and a
   * short read coming last pins it.
   */
  lemma {:induction false} NoFalseEndOfFile(current: nat, starts: seq<nat>, page: nat, size: nat, past: nat)
    requires current >= size
    ensures var m := MinInvalidAfterAll(current, starts, page, size, past);
            && m >= size
            && (starts != [] && starts[|starts| - 1] < size < starts[|starts| - 1] + page ==> m == size + past)
    decreases |starts|
  {
    if starts != [] {
      NoFalseEndOfFile(MinInvalidAfter(current, starts[0], page, size, past), starts[1..], page, size, past);
    }
  }

  /**
   * The end is set, not lowered: a window read past the end of the file puts the known end at or before the
   * slot, and the window prefetched behind it moves it to its own start; that is beyond the slot again, and the
   * search would read the same two windows once more, exactly when the slot lies before the prefetched window.
   */
  lemma EmptyPrefetchForgetsEnd(current: nat, w: nat, slot: nat, page: nat, size: nat, past: nat)
    requires size <= w <= slot
    ensures var ahead := if w == 0 then page else 2 * w;
            && MinInvalidAfterAll(current, [w], page, size, past) <= slot
            && (MinInvalidAfterAll(current, [w, ahead], page, size, past) > slot <==> slot < ahead)
  {
    var ahead := if w == 0 then page else 2 * w;
    var both, second := [w, ahead], [ahead];
    assert both[1..] == second && second[1..] == [] && [w][1..] == [];
    assert MinInvalidAfterAll(w, second, page, size, past) == MinInvalidAfterAll(ahead, second[1..], page, size, past);
  }

  // ----- The id of a prefetched page, as written -----

  /**
   * Two chunks complete together. The second was read into the buffer two past the most recent id, but is
   * recorded under the most recent id at that time plus two, which the first chunk may have moved on. The
   * record is true exactly when the first chunk was empty and so recorded nothing, or the buffer it names
   * happens to hold the same entries already.
   */
  lemma PrefetchIdExactly(
    file: seq<Entry>, c: seq<Location>, pages: map<nat, seq<Entry>>, p: nat, lo: nat, hi: nat,
    mostRecent: nat, firstWasMapped: bool)
    requires Coherent(file, c, pages) && p <= |c| && lo <= hi <= |file|
    requires forall j :: 0 <= j < |c| && c[j].id.Some? ==> c[j].id.value <= mostRecent + 1
    ensures var filled := mostRecent + 2;
            var recorded := (if firstWasMapped then mostRecent + 1 else mostRecent) + 1 + 1;
            Coherent(file, InsertAt(c, p, Location(lo, hi, Some(recorded))), pages[filled := file[lo..hi]])
            <==> !firstWasMapped || (recorded in pages && pages[recorded] == file[lo..hi])
  {
    var filled, recorded := mostRecent + 2, if firstWasMapped then mostRecent + 3 else mostRecent + 2;
    var r := InsertAt(c, p, Location(lo, hi, Some(recorded)));
    assert r[p] == Location(lo, hi, Some(recorded));
    if !firstWasMapped || (recorded in pages && pages[recorded] == file[lo..hi]) {
      assert forall j :: 0 <= j < |c| && c[j].id.Some? ==> c[j].id.value != filled;
    }
  }
}
