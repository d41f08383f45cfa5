/** Regions: each is a list of region pages with a bump allocator on the last page. Pages of recycled
    regions go to a bounded pool, a list linked through the pages themselves, or back to the system.

    Region pages live in an explicit heap that maps a page to the page its `nextPage` names. Addresses
    are a page and an offset into its payload, which begins 8-byte aligned. */
module Regions {
  import opened Config
  import opened Placement
  import Rings

  type Ref = nat
  const NULL: Ref := 0

  const TWO32: nat := 0x1_0000_0000
  const TWO64: nat := 0x1_0000_0000_0000_0000
  const HEADER: nat := 8

  datatype Addr = Addr(page: Ref, off: nat)

  datatype Option = None | Some(addr: Addr)

  /** `pages` is `number_of_region_pages`, `end` is `last_address_in_last_page`. */
  datatype Region = Region(dc: nat, pages: nat, first: Ref, last: Ref, age: int, nextFree: Addr, end: Addr)

  /** `Loose` holds the pages that a recycling has taken off its region and not yet pooled or freed. */
  datatype ListId = Of(region: nat) | Pool | Loose

  /** An object in a region: its header starts at `off`, `size` bytes were requested for it, and `space`
      bytes, header included, were reserved. */
  datatype Chunk = Chunk(page: Ref, off: nat, size: nat, space: nat)

  type Heap = map<Ref, Ref>

  // ---------------------------------------------------------------- sizes

  /** CACHEALIGN on a 64-bit size. */
  function RoundUp8(x: nat): nat {
    var y := (x + 7) % TWO64;
    y - y % 8
  }

  /** The space reserved for an object: header included, aligned, and narrowed to 32 bits. */
  function NeededSpace(size: nat): nat
    requires size < TWO64
  {
    RoundUp8((size + HEADER) % TWO64) % TWO32
  }

  /** Enough space is reserved if and only if the aligned size fits into 32 bits. */
  lemma NeededSpaceSuffices(size: nat)
    requires size < TWO64
    ensures NeededSpace(size) >= size + HEADER <==> size <= TWO32 - 16
    ensures NeededSpace(size) % 8 == 0
    ensures size <= TWO32 - 16 ==> NeededSpace(size) < size + HEADER + 8
  {
    hide RoundUp8;
    RoundsUp((size + HEADER) % TWO64);
    NarrowedAligned(RoundUp8((size + HEADER) % TWO64));
  }

  /** In general the space is what the object needs, rounded up to a multiple of 8, less a multiple of
      2^32, as long as neither addition overflows. */
  lemma NeededSpaceModulo(size: nat) returns (q: nat)
    requires size <= TWO64 - 16
    ensures NeededSpace(size) < TWO32
    ensures size + HEADER <= NeededSpace(size) + q * TWO32 < size + HEADER + 8
  {
    hide RoundUp8;
    RoundsUp(size + HEADER);
    q := RoundUp8(size + HEADER) / TWO32;
  }

  lemma RoundsUp(x: nat)
    ensures RoundUp8(x) % 8 == 0
    ensures x + 7 < TWO64 ==> x <= RoundUp8(x) < x + 8
  {
  }

  /** Narrowing keeps a multiple of 8 and never makes it larger. */
  lemma NarrowedAligned(y: nat)
    requires y % 8 == 0
    ensures y % TWO32 % 8 == 0 && y % TWO32 < TWO32 && (y < TWO32 <==> y % TWO32 == y)
  {
  }

  /** A request of 2^32 - 8 bytes is narrowed to no space at all and would be granted. */
  lemma NarrowedRequest()
    ensures NeededSpace(TWO32 - 8) == 0 <= REGION_PAGE_PAYLOAD
  {
  }

  // ---------------------------------------------------------------- lists of pages

  predicate IsList(id: ListId) { id.Of? ==> id.region < MAX_REGIONS }

  function AllLists(): (ids: set<ListId>)
    ensures forall id :: id in ids <==> IsList(id)
  {
    var regions := set i: nat | i < MAX_REGIONS :: Of(i);
    assert forall i: nat :: Of(i) in regions <==> i < MAX_REGIONS;
    assert forall id: ListId :: id in regions ==> id.Of?;
    assert forall id: ListId :: id.Of? ==> id == Of(id.region);
    regions + {Pool, Loose}
  }

  ghost predicate Linked(heap: Heap, chain: seq<Ref>) {
    && (forall i :: 0 <= i < |chain| ==> chain[i] in heap)
    && (forall i, j :: 0 <= i < j < |chain| && j == i + 1 ==> heap[chain[i]] == chain[j])
    && (chain != [] ==> heap[chain[|chain| - 1]] == NULL)
  }

  function Head(chain: seq<Ref>): Ref { if chain == [] then NULL else chain[0] }
  function Last(chain: seq<Ref>): Ref { if chain == [] then NULL else chain[|chain| - 1] }

  ghost predicate PagesOk(heap: Heap, chains: Chains<ListId, Ref>, place: map<Ref, Place<ListId>>) {
    && Consistent(chains, place) && place.Keys == heap.Keys && NULL !in heap
    && (forall id :: id in chains <==> IsList(id))
    && (forall id :: IsList(id) ==> Linked(heap, chains[id]))
  }

  /** Lists without a changed page stay linked. */
  lemma LinkedElsewhere(heap: Heap, heap': Heap, chains: Chains<ListId, Ref>, place: map<Ref, Place<ListId>>,
                        id: ListId, pages: set<Ref>)
    requires Consistent(chains, place) && id in chains && Linked(heap, chains[id])
    requires forall r :: r in pages && r in place ==> place[r].id != id
    requires forall r :: r !in pages && r in heap ==> r in heap' && heap'[r] == heap[r]
    ensures Linked(heap', chains[id])
  {
    assert Knows(chains[id], id, place);
  }

  lemma LinkedTail(heap: Heap, chain: seq<Ref>, k: nat)
    requires Linked(heap, chain) && k <= |chain|
    ensures Linked(heap, chain[k..])
    ensures k < |chain| ==> Head(chain[k..]) == chain[k] && Last(chain[k..]) == Last(chain)
  {
    var tail := chain[k..];
    forall i, j | 0 <= i < j < |tail| && j == i + 1
      ensures heap[tail[i]] == tail[j]
    {
      assert tail[i] == chain[k + i] && tail[j] == chain[k + j];
    }
  }

  /** A page linked behind the last page of a list. */
  lemma LinkedAppend(heap: Heap, chain: seq<Ref>, p: Ref)
    requires Linked(heap, chain) && p !in chain
    requires forall i :: 0 <= i < |chain| - 1 ==> chain[i] != Last(chain)
    ensures var heap' := if chain == [] then heap[p := NULL] else heap[p := NULL][Last(chain) := p];
            Linked(heap', chain + [p])
  {
    var heap' := if chain == [] then heap[p := NULL] else heap[p := NULL][Last(chain) := p];
    var c := chain + [p];
    forall i, j | 0 <= i < j < |c| && j == i + 1
      ensures heap'[c[i]] == c[j]
    {
      if j < |chain| { assert c[i] == chain[i] && c[j] == chain[j]; }
    }
  }

  /** Two lists joined by the pointer of the first one's last page. */
  lemma LinkedJoin(heap: Heap, a: seq<Ref>, b: seq<Ref>)
    requires Linked(heap, a) && Linked(heap, b) && a != []
    requires forall i :: 0 <= i < |a| - 1 ==> a[i] != Last(a)
    requires Last(a) !in b
    ensures Linked(heap[Last(a) := Head(b)], a + b)
  {
    var heap' := heap[Last(a) := Head(b)];
    var c := a + b;
    forall i, j | 0 <= i < j < |c| && j == i + 1
      ensures heap'[c[i]] == c[j]
    {
      if j < |a| { assert c[i] == a[i] && c[j] == a[j]; }
      else if i < |a| { assert c[i] == Last(a) && c[j] == b[0]; }
      else { assert c[i] == b[i - |a|] && c[j] == b[j - |a|]; }
    }
    forall i | 0 <= i < |c| ensures c[i] in heap' {
      if i < |a| { assert c[i] == a[i]; } else { assert c[i] == b[i - |a|]; }
    }
    assert b == [] ==> c == a;
    assert b != [] ==> c[|c| - 1] == b[|b| - 1];
  }

  // ---------------------------------------------------------------- allocation

  predicate Reserved(c: Chunk) {
    c.size < TWO64 && c.space == NeededSpace(c.size)
  }

  /** The reserved space of an object lies within one page of its region, aligned. */
  ghost predicate Inside(c: Chunk, chain: seq<Ref>) {
    c.page in chain && c.off % 8 == 0 && c.off + c.space <= REGION_PAGE_PAYLOAD
  }

  predicate Apart(c: Chunk, d: Chunk) {
    c.page != d.page || c.off + c.space <= d.off || d.off + d.space <= c.off
  }

  ghost predicate ObjectsOk(objects: seq<Chunk>, chain: seq<Ref>, nextFree: Addr) {
    && (forall i :: 0 <= i < |objects| ==> Inside(objects[i], chain) && Reserved(objects[i]))
    && (forall i, j :: 0 <= i < j < |objects| ==> Apart(objects[i], objects[j]))
    && (forall i :: 0 <= i < |objects| && objects[i].page == nextFree.page ==>
          objects[i].off + objects[i].space <= nextFree.off)
  }

  /** A region without pages was never created, or its bump range still lies in a page it has lost. */
  ghost predicate RegionOk(r: Region, chain: seq<Ref>, objects: seq<Chunk>, currentTime: int) {
    && r.first == Head(chain) && r.last == Last(chain) && r.pages == |chain|
    && r.age <= currentTime && (r.age == currentTime ==> chain != [])
    && r.nextFree.page == r.end.page && r.nextFree.off <= r.end.off
    && (chain == [] ==> objects == [] && r.end.off == if r.end.page == NULL then 0 else REGION_PAGE_PAYLOAD)
    && (chain != [] ==>
          && r.nextFree.page == r.last && r.nextFree.off <= REGION_PAGE_PAYLOAD && r.nextFree.off % 8 == 0
          && r.end == Addr(r.last, REGION_PAGE_PAYLOAD)
          && ObjectsOk(objects, chain, r.nextFree))
  }

  /** The next object fits behind the ones already there. */
  lemma BumpKeeps(objects: seq<Chunk>, chain: seq<Ref>, nextFree: Addr, c: Chunk)
    requires ObjectsOk(objects, chain, nextFree) && nextFree.page in chain
    requires nextFree.off % 8 == 0 && nextFree.off + c.space <= REGION_PAGE_PAYLOAD
    requires Addr(c.page, c.off) == nextFree && Reserved(c)
    ensures ObjectsOk(objects + [c], chain, Addr(nextFree.page, nextFree.off + c.space))
    ensures forall i :: 0 <= i < |objects| ==> Apart(objects[i], c)
  {
    hide NeededSpace;
  }

  /** The first object on a new page, which none of the old objects lies on. */
  lemma NewPageKeeps(objects: seq<Chunk>, chain: seq<Ref>, nextFree: Addr, c: Chunk)
    requires ObjectsOk(objects, chain, nextFree) && c.page !in chain && c.off == 0 && c.space <= REGION_PAGE_PAYLOAD
    requires Reserved(c)
    ensures ObjectsOk(objects + [c], chain + [c.page], Addr(c.page, c.space))
    ensures forall i :: 0 <= i < |objects| ==> Apart(objects[i], c)
  {
    hide NeededSpace;
  }

  // ---------------------------------------------------------------- what the operations do to a region

  const NewRegion := Region(0, 0, NULL, NULL, 0, Addr(NULL, 0), Addr(NULL, 0))

  /** Page `p` linked behind the last one. */
  function WithPage(r: Region, p: Ref): Region {
    r.(last := p, end := Addr(p, REGION_PAGE_PAYLOAD), pages := r.pages + 1)
  }

  /** A region without a first page handed out by scm_create_region. */
  function CreatedRegion(r: Region, p: Ref, time: int): Region {
    WithPage(r, p).(age := time, first := p, nextFree := Addr(p, 0))
  }

  /** The bump range still has `needed` bytes. */
  predicate Fits(r: Region, needed: nat) { r.nextFree.off + needed <= r.end.off }

  /** Where an object of `needed` bytes goes; `p` is the page that would be linked. */
  function Granted(r: Region, needed: nat, p: Ref): Addr { if Fits(r, needed) then r.nextFree else Addr(p, 0) }

  function Allocated(r: Region, needed: nat, p: Ref): Region {
    if Fits(r, needed) then r.(nextFree := Addr(r.nextFree.page, r.nextFree.off + needed))
    else WithPage(r, p).(nextFree := Addr(p, needed))
  }

  function ChainAfter(r: Region, chain: seq<Ref>, needed: nat, p: Ref): seq<Ref> {
    if Fits(r, needed) then chain else chain + [p]
  }

  /** A region whose last descriptor has expired: a live one keeps its first page, and a bump range that
      is reset only if there were more; a zombie keeps none, but its bump range still lies in its
      former first page. */
  function RecycledRegion(r: Region, chain: seq<Ref>, live: bool): Region {
    if chain == [] || (live && |chain| == 1) then r.(dc := 0)
    else
      var reset := r.(dc := 0, end := Addr(chain[0], REGION_PAGE_PAYLOAD), nextFree := Addr(chain[0], 0));
      if live then reset.(pages := 1, last := chain[0]) else reset.(pages := 0, first := NULL, last := NULL)
  }

  /** The fields of a recycled region: a live one keeps its first page and no other, with the bump range of
      that page, reset only if there were more pages; a zombie has no page. */
  lemma RecycledFields(r: Region, chain: seq<Ref>, objects: seq<Chunk>, time: int)
    requires RegionOk(r, chain, objects, time) && NULL !in chain
    ensures var q := RecycledRegion(r, chain, r.age == time);
            && q.dc == 0 && q.age == r.age
            && (r.age == time ==>
                  && q.first == q.last == r.first && q.first != NULL && q.pages == 1
                  && q.end == Addr(r.first, REGION_PAGE_PAYLOAD)
                  && q.nextFree == if r.pages == 1 then r.nextFree else Addr(r.first, 0))
            && (r.age != time ==> q.first == q.last == NULL && q.pages == 0)
  {
    hide ObjectsOk;
  }

  /** So a region whose last descriptor has expired may be handed out again if and only if it was not
      registered any more. */
  lemma RecycledAvailableIff(r: Region, chain: seq<Ref>, objects: seq<Chunk>, time: int)
    requires RegionOk(r, chain, objects, time) && NULL !in chain
    ensures Available(RecycledRegion(r, chain, r.age == time), time) <==> r.age != time
  {
    hide RegionOk;
    RecycledFields(r, chain, objects, time);
  }

  /** A live region starts over after a recycling if and only if it had more than one page, or nothing was
      allocated in it: with a single page the bump pointer stays where it was, and the space of the
      objects that expired is not used again. */
  lemma RecycledBumpIff(r: Region, chain: seq<Ref>, objects: seq<Chunk>, time: int)
    requires RegionOk(r, chain, objects, time) && r.age == time
    ensures RecycledRegion(r, chain, true).nextFree == Addr(chain[0], 0) <==> |chain| > 1 || r.nextFree.off == 0
  {
    hide ObjectsOk;
  }

  /** Exactly when an allocation is sound. For a request that is granted, a region that satisfies the
      invariant still satisfies it afterwards and owns the page of the new object if and only if it had
      a first page: whatever is then taken to be its objects. The space reserved there also holds the
      object if and only if, besides, the request was not narrowed. */
  lemma AllocationSoundIff(r: Region, chain: seq<Ref>, objects: seq<Chunk>, time: int, size: nat, p: Ref)
    requires RegionOk(r, chain, objects, time) && size < TWO64 && NeededSpace(size) <= REGION_PAGE_PAYLOAD
    requires p != NULL && p !in chain && NULL !in chain
    ensures var needed := NeededSpace(size); var a := Granted(r, needed, p);
            var chain' := ChainAfter(r, chain, needed, p);
            var c := Chunk(a.page, a.off, size, needed);
            var sound := RegionOk(Allocated(r, needed, p), chain', objects + [c], time) && Inside(c, chain');
            && (sound <==> r.first != NULL)
            && (sound && c.space >= size + HEADER <==> r.first != NULL && size <= TWO32 - 16)
            && (r.first != NULL ==> forall d :: d in objects ==> Apart(d, c))
            && (r.first == NULL ==>
                  forall objects' :: !(RegionOk(Allocated(r, needed, p), chain', objects', time) && a.page in chain'))
  {
    hide ObjectsOk, NeededSpace;
    NeededSpaceSuffices(size);
    if r.first != NULL { AllocationSound(r, chain, objects, time, size, p); }
  }

  lemma SpaceIsAligned(size: nat)
    requires size < TWO64
    ensures NeededSpace(size) % 8 == 0
  {
    NeededSpaceSuffices(size);
  }

  lemma AllocationSound(r: Region, chain: seq<Ref>, objects: seq<Chunk>, time: int, size: nat, p: Ref)
    requires RegionOk(r, chain, objects, time) && size < TWO64 && NeededSpace(size) <= REGION_PAGE_PAYLOAD
    requires p !in chain && r.first != NULL && NeededSpace(size) % 8 == 0
    ensures var needed := NeededSpace(size); var a := Granted(r, needed, p);
            var chain' := ChainAfter(r, chain, needed, p);
            var c := Chunk(a.page, a.off, size, needed);
            && RegionOk(Allocated(r, needed, p), chain', objects + [c], time) && Inside(c, chain')
            && forall d :: d in objects ==> Apart(d, c)
  {
    hide ObjectsOk, NeededSpace;
    var needed := NeededSpace(size);
    var a := Granted(r, needed, p);
    var c := Chunk(a.page, a.off, size, needed);
    if Fits(r, needed) { BumpKeeps(objects, chain, a, c); } else { NewPageKeeps(objects, chain, r.nextFree, c); }
  }

  /** First input: a valid index that was never handed out. The first allocation links its page as the
      last one only, and no list of pages and no set of objects makes the region satisfy the invariant.
      Handing the region out afterwards counts two pages, but the list from its first page has one, and
      the page of the allocation is not in it. */
  lemma NeverCreatedBreaks(size: nat, p: Ref, q: Ref, time: int)
    requires size < TWO64 && 0 < NeededSpace(size) <= REGION_PAGE_PAYLOAD && time >= 1
    requires p != NULL && q != NULL && p != q
    ensures RegionOk(NewRegion, [], [], time)
    ensures var r := Allocated(NewRegion, NeededSpace(size), p); var r' := CreatedRegion(r, q, time);
            && r.first == NULL && r.last == p && r.pages == 1 && Granted(NewRegion, NeededSpace(size), p) == Addr(p, 0)
            && (forall chain, objects :: NULL !in chain ==> !RegionOk(r, chain, objects, time))
            && r'.pages == 2
            && (forall heap, chain :: Linked(heap, chain) && Head(chain) == r'.first && q in heap && heap[q] == NULL
                                      && NULL !in chain ==>
                  |chain| == 1 && p !in chain && forall objects :: !RegionOk(r', chain, objects, time))
  {
    hide NeededSpace, ObjectsOk;
    forall heap: Heap, chain | Linked(heap, chain) && Head(chain) == q && q in heap && heap[q] == NULL && NULL !in chain
      ensures |chain| == 1 && p !in chain
    {
      LinkedSecond(heap, chain);
    }
  }

  lemma LinkedSecond(heap: Heap, chain: seq<Ref>)
    requires Linked(heap, chain)
    ensures |chain| > 1 ==> heap[chain[0]] == chain[1]
  {
  }

  /** Second input: a zombie that was recycled. It has no page, but an allocation succeeds without linking
      one and hands out the start of its former first page, which is pooled or freed by then. */
  lemma RecycledZombieAllocates(r: Region, chain: seq<Ref>, objects: seq<Chunk>, time: int, size: nat, p: Ref)
    requires RegionOk(r, chain, objects, time) && r.age != time && chain != [] && NULL !in chain
    requires size < TWO64 && NeededSpace(size) <= REGION_PAGE_PAYLOAD
    ensures var z := RecycledRegion(r, chain, false);
            && RegionOk(z, [], [], time) && z.first == NULL
            && Granted(z, NeededSpace(size), p) == Addr(chain[0], 0)
            && ChainAfter(z, [], NeededSpace(size), p) == []
  {
    hide NeededSpace, ObjectsOk;
  }

  // ---------------------------------------------------------------- the invariant

  ghost predicate PoolOk(pool: Ref, pooled: nat, chain: seq<Ref>) {
    pool == Head(chain) && pooled == |chain| <= REGION_PAGE_POOL
  }

  ghost predicate RegionsOk(regions: seq<Region>, chains: Chains<ListId, Ref>, objects: seq<seq<Chunk>>, time: int) {
    && |regions| == |objects| == MAX_REGIONS
    && forall i :: 0 <= i < MAX_REGIONS ==> Of(i) in chains && RegionOk(regions[i], chains[Of(i)], objects[i], time)
  }

  /** The chains of the pages after a page has been added to region `i`, from the pool if it has one. */
  ghost function ChainsWith(chains: Chains<ListId, Ref>, i: nat, p: Ref): Chains<ListId, Ref>
    requires Of(i) in chains && Pool in chains
  {
    if chains[Pool] == [] then chains[Of(i) := chains[Of(i)] + [p]]
    else chains[Pool := chains[Pool][1..]][Of(i) := chains[Of(i)] + [p]]
  }

  ghost function PlaceWith(chains: Chains<ListId, Ref>, place: map<Ref, Place<ListId>>, i: nat, p: Ref):
    map<Ref, Place<ListId>>
    requires Of(i) in chains && Pool in chains
  {
    if chains[Pool] == [] then place[p := Place(Of(i), |chains[Of(i)]|)]
    else DropHead(place, Pool)[p := Place(Of(i), |chains[Of(i)]|)]
  }

  function HeapWith(heap: Heap, last: Ref, p: Ref): Heap {
    if last == NULL then heap[p := NULL] else heap[p := NULL][last := p]
  }

  lemma AddedConsistent(heap: Heap, chains: Chains<ListId, Ref>, place: map<Ref, Place<ListId>>, i: nat, p: Ref)
    requires PagesOk(heap, chains, place) && i < MAX_REGIONS && p != NULL
    requires if chains[Pool] == [] then p !in heap else p == chains[Pool][0]
    ensures Consistent(ChainsWith(chains, i, p), PlaceWith(chains, place, i, p))
    ensures PlaceWith(chains, place, i, p).Keys == place.Keys + {p}
    ensures p !in chains[Of(i)] && (p in place ==> place[p].id == Pool)
  {
    hide Linked, Consistent;
    ChainKnows(chains, place, Of(i));
    ChainKnows(chains, place, Pool);
    if chains[Pool] == [] {
      AddKeeps(chains, place, Of(i), p);
    } else {
      DropHeadKeeps(chains, place, Pool);
      AddKeeps(chains[Pool := chains[Pool][1..]], DropHead(place, Pool), Of(i), p);
    }
  }

  lemma LastPlace(chains: Chains<ListId, Ref>, place: map<Ref, Place<ListId>>, id: ListId)
    requires Consistent(chains, place) && id in chains && chains[id] != []
    ensures Last(chains[id]) in place && place[Last(chains[id])].id == id
    ensures forall i :: 0 <= i < |chains[id]| - 1 ==> chains[id][i] != Last(chains[id])
  {
    assert Knows(chains[id], id, place);
  }

  lemma AddedLinked(heap: Heap, chains: Chains<ListId, Ref>, place: map<Ref, Place<ListId>>, i: nat, p: Ref, id: ListId)
    requires PagesOk(heap, chains, place) && i < MAX_REGIONS && p != NULL && IsList(id)
    requires if chains[Pool] == [] then p !in heap else p == chains[Pool][0]
    requires p !in chains[Of(i)] && (p in place ==> place[p].id == Pool)
    ensures Linked(HeapWith(heap, Last(chains[Of(i)]), p), ChainsWith(chains, i, p)[id])
  {
    var last := Last(chains[Of(i)]);
    var heap' := HeapWith(heap, last, p);
    if chains[Of(i)] != [] { LastPlace(chains, place, Of(i)); }
    if id == Of(i) {
      LinkedAppend(heap, chains[Of(i)], p);
    } else if id == Pool && chains[Pool] != [] {
      PoolTailLinked(heap, heap', chains, place, i, p);
    } else {
      LinkedElsewhere(heap, heap', chains, place, id, {p, last});
    }
  }

  lemma PoolTailLinked(heap: Heap, heap': Heap, chains: Chains<ListId, Ref>, place: map<Ref, Place<ListId>>, i: nat,
                       p: Ref)
    requires PagesOk(heap, chains, place) && i < MAX_REGIONS && chains[Pool] != [] && p == chains[Pool][0]
    requires heap' == HeapWith(heap, Last(chains[Of(i)]), p)
    requires chains[Of(i)] != [] ==> Last(chains[Of(i)]) in place && place[Last(chains[Of(i)])].id == Of(i)
    ensures Linked(heap', chains[Pool][1..])
  {
    assert Knows(chains[Pool], Pool, place);
    var tail := chains[Pool][1..];
    LinkedTail(heap, chains[Pool], 1);
    forall j | 0 <= j < |tail| ensures heap'[tail[j]] == heap[tail[j]] { assert tail[j] == chains[Pool][j + 1]; }
  }

  /** Adding a page to a region keeps every page in exactly one linked list. */
  lemma AddedPages(heap: Heap, chains: Chains<ListId, Ref>, place: map<Ref, Place<ListId>>, i: nat, p: Ref)
    requires PagesOk(heap, chains, place) && i < MAX_REGIONS && p != NULL
    requires if chains[Pool] == [] then p !in heap else p == chains[Pool][0]
    ensures PagesOk(HeapWith(heap, Last(chains[Of(i)]), p), ChainsWith(chains, i, p), PlaceWith(chains, place, i, p))
    ensures p !in chains[Of(i)] && HeapWith(heap, Last(chains[Of(i)]), p).Keys == heap.Keys + {p}
  {
    hide Consistent, Linked;
    AddedConsistent(heap, chains, place, i, p);
    forall id | IsList(id)
      ensures Linked(HeapWith(heap, Last(chains[Of(i)]), p), ChainsWith(chains, i, p)[id])
    {
      AddedLinked(heap, chains, place, i, p, id);
    }
    LastInHeap(heap, chains, place, Of(i));
    assert HeapWith(heap, Last(chains[Of(i)]), p).Keys == heap.Keys + {p};
    assert ChainsWith(chains, i, p).Keys == chains.Keys;
  }

  lemma LastInHeap(heap: Heap, chains: Chains<ListId, Ref>, place: map<Ref, Place<ListId>>, id: ListId)
    requires PagesOk(heap, chains, place) && IsList(id)
    ensures Last(chains[id]) == NULL <==> chains[id] == []
    ensures chains[id] != [] ==> Last(chains[id]) in heap && chains[id][0] in heap && chains[id][0] != NULL
  {
  }

  // ---------------------------------------------------------------- next-fit search

  /** A region that scm_create_region may hand out. */
  predicate Available(r: Region, currentTime: int) {
    r.first == NULL || (r.age != currentTime && r.dc == 0)
  }

  /** The index `n` steps after `start` in cyclic order. */
  function Cyclic(start: nat, n: nat): nat
    requires start < MAX_REGIONS && n <= MAX_REGIONS
  {
    if start + n < MAX_REGIONS then start + n else start + n - MAX_REGIONS
  }

  /** None of the first `n` regions from `start` on is available. */
  predicate NoneBefore(regions: seq<Region>, start: nat, n: nat, currentTime: int)
    requires |regions| == MAX_REGIONS && start < MAX_REGIONS && n <= MAX_REGIONS
  {
    forall m :: 0 <= m < n ==> !Available(regions[Cyclic(start, m)], currentTime)
  }

  lemma NextIndex(i: nat, n: nat)
    requires i < n
    ensures (i + 1) % n == if i + 1 == n then 0 else i + 1
  {
    Rings.WrapIsRemainder(i + 1, n);
    Rings.WrapShift(i, 1, n);
  }

  /** Every index is reached from every start. */
  lemma CyclicCovers(start: nat, j: nat)
    requires start < MAX_REGIONS && j < MAX_REGIONS
    ensures exists n: nat :: n < MAX_REGIONS && Cyclic(start, n) == j
  {
    assert Cyclic(start, if j >= start then j - start else j + MAX_REGIONS - start) == j;
  }

  /** A region reached by the search comes before every available one from its start on. */
  lemma CyclicFirst(regions: seq<Region>, start: nat, n: nat, currentTime: int)
    requires |regions| == MAX_REGIONS && start < MAX_REGIONS && n < MAX_REGIONS
    requires NoneBefore(regions, start, n, currentTime)
    ensures var r := Cyclic(start, n);
            && (forall j :: 0 <= j < MAX_REGIONS && start <= j && (j < r || r < start) ==>
                  !Available(regions[j], currentTime))
            && (r < start ==> forall j :: 0 <= j < r ==> !Available(regions[j], currentTime))
  {
    var r := Cyclic(start, n);
    forall j | 0 <= j < MAX_REGIONS && start <= j && (j < r || r < start)
      ensures !Available(regions[j], currentTime)
    {
      assert Cyclic(start, j - start) == j;
    }
    forall j | 0 <= j < r && r < start
      ensures !Available(regions[j], currentTime)
    {
      assert Cyclic(start, j + MAX_REGIONS - start) == j;
    }
  }

  // ---------------------------------------------------------------- single regions

  lemma RegionsKept(regions: seq<Region>, chains: Chains<ListId, Ref>, objects: seq<seq<Chunk>>, time: int,
                    i: nat, r: Region, chains': Chains<ListId, Ref>, o: seq<Chunk>)
    requires RegionsOk(regions, chains, objects, time) && i < MAX_REGIONS
    requires Of(i) in chains' && RegionOk(r, chains'[Of(i)], o, time)
    requires forall j :: 0 <= j < MAX_REGIONS && j != i ==> Of(j) in chains' && chains'[Of(j)] == chains[Of(j)]
    ensures RegionsOk(regions[i := r], chains', objects[i := o], time)
  {
    hide RegionOk;
  }

  lemma RegionAt(regions: seq<Region>, chains: Chains<ListId, Ref>, objects: seq<seq<Chunk>>, time: int, i: nat)
    requires RegionsOk(regions, chains, objects, time) && i < MAX_REGIONS
    ensures |regions| == |objects| == MAX_REGIONS && Of(i) in chains
    ensures RegionOk(regions[i], chains[Of(i)], objects[i], time)
  {
  }

  lemma ListsExist(heap: Heap, chains: Chains<ListId, Ref>, place: map<Ref, Place<ListId>>, i: nat)
    requires PagesOk(heap, chains, place) && i < MAX_REGIONS
    ensures Of(i) in chains && Pool in chains && Loose in chains
    ensures chains[Of(i)] == [] <==> Head(chains[Of(i)]) == NULL
  {
    hide Consistent;
    LastInHeap(heap, chains, place, Of(i));
  }

  lemma AllListsExist(heap: Heap, chains: Chains<ListId, Ref>, place: map<Ref, Place<ListId>>)
    requires PagesOk(heap, chains, place)
    ensures forall j :: 0 <= j < MAX_REGIONS ==> Of(j) in chains
  {
  }

  lemma Reaged(regions: seq<Region>, chains: Chains<ListId, Ref>, objects: seq<seq<Chunk>>, time: int, i: nat)
    requires RegionsOk(regions, chains, objects, time) && i < MAX_REGIONS && regions[i].first != NULL
    ensures RegionsOk(regions[i := regions[i].(age := time)], chains, objects, time)
  {
    RegionAt(regions, chains, objects, time, i);
    RegionsKept(regions, chains, objects, time, i, regions[i].(age := time), chains, objects[i]);
    assert objects[i := objects[i]] == objects;
  }

  lemma Created(regions: seq<Region>, chains: Chains<ListId, Ref>, objects: seq<seq<Chunk>>, time: int, i: nat, p: Ref)
    requires RegionsOk(regions, chains, objects, time) && i < MAX_REGIONS && chains[Of(i)] == [] && Pool in chains
    ensures RegionsOk(regions[i := CreatedRegion(regions[i], p, time)], ChainsWith(chains, i, p), objects[i := []],
                      time)
    ensures objects[i := []] == objects
  {
    hide ObjectsOk;
    var r := CreatedRegion(regions[i], p, time);
    NoObjects([p], Addr(p, 0));
    assert chains[Of(i)] + [p] == [p];
    RegionsKept(regions, chains, objects, time, i, r, ChainsWith(chains, i, p), []);
  }

  lemma NoObjects(chain: seq<Ref>, nextFree: Addr)
    ensures ObjectsOk([], chain, nextFree)
  {
  }

  /** An allocation in a region that has pages. */
  lemma Extended(regions: seq<Region>, chains: Chains<ListId, Ref>, objects: seq<seq<Chunk>>, time: int, i: nat,
                 size: nat, p: Ref, chains': Chains<ListId, Ref>)
    requires RegionsOk(regions, chains, objects, time) && i < MAX_REGIONS && Pool in chains && regions[i].first != NULL
    requires size < TWO64 && NeededSpace(size) <= REGION_PAGE_PAYLOAD && p !in chains[Of(i)]
    requires chains' == if Fits(regions[i], NeededSpace(size)) then chains else ChainsWith(chains, i, p)
    ensures var needed := NeededSpace(size); var a := Granted(regions[i], needed, p);
            var c := Chunk(a.page, a.off, size, needed);
            && RegionsOk(regions[i := Allocated(regions[i], needed, p)], chains', objects[i := objects[i] + [c]], time)
            && Of(i) in chains' && Inside(c, chains'[Of(i)]) && (forall d :: d in objects[i] ==> Apart(d, c))
  {
    hide RegionOk, NeededSpace, Inside;
    var needed := NeededSpace(size);
    var a := Granted(regions[i], needed, p);
    RegionAt(regions, chains, objects, time, i);
    SpaceIsAligned(size);
    AllocationSound(regions[i], chains[Of(i)], objects[i], time, size, p);
    RegionsKept(regions, chains, objects, time, i, Allocated(regions[i], needed, p), chains',
                objects[i] + [Chunk(a.page, a.off, size, needed)]);
  }

  /** A bump in a region without pages moves its pointer within the page it has lost. */
  lemma StaleBump(regions: seq<Region>, chains: Chains<ListId, Ref>, objects: seq<seq<Chunk>>, time: int, i: nat,
                  needed: nat, p: Ref)
    requires RegionsOk(regions, chains, objects, time) && i < MAX_REGIONS && chains[Of(i)] == []
    requires Fits(regions[i], needed)
    ensures RegionsOk(regions[i := Allocated(regions[i], needed, p)], chains, objects, time)
  {
    RegionAt(regions, chains, objects, time, i);
    RegionsKept(regions, chains, objects, time, i, Allocated(regions[i], needed, p), chains, objects[i]);
    assert objects[i := objects[i]] == objects;
  }

  // ---------------------------------------------------------------- recycling

  /** Region `i` keeps its first `k` pages, at most one; the others become loose. */
  lemma SplitPages(heap: Heap, chains: Chains<ListId, Ref>, place: map<Ref, Place<ListId>>, i: nat, k: nat)
    requires PagesOk(heap, chains, place) && i < MAX_REGIONS && chains[Loose] == []
    requires k <= 1 && k <= |chains[Of(i)]|
    ensures var chain := chains[Of(i)];
            PagesOk(if k == 1 then heap[chain[0] := NULL] else heap,
                    chains[Of(i) := chain[..k]][Loose := chain[k..]], MoveFrom(place, Of(i), k, Loose, 0))
  {
    hide Consistent, Linked;
    var chain := chains[Of(i)];
    var heap' := if k == 1 then heap[chain[0] := NULL] else heap;
    var chains' := chains[Of(i) := chain[..k]][Loose := chain[k..]];
    MoveFromKeeps(chains, place, Of(i), k, Loose);
    assert chains[Loose] + chain[k..] == chain[k..];
    LastInHeap(heap, chains, place, Of(i));
    assert heap'.Keys == heap.Keys && chains'.Keys == chains.Keys;
    assert MoveFrom(place, Of(i), k, Loose, 0).Keys == place.Keys;
    forall id | IsList(id)
      ensures Linked(heap', chains'[id])
    {
      SplitLinked(heap, heap', chains, place, i, k, id);
    }
  }

  lemma SplitLinked(heap: Heap, heap': Heap, chains: Chains<ListId, Ref>, place: map<Ref, Place<ListId>>, i: nat,
                    k: nat, id: ListId)
    requires PagesOk(heap, chains, place) && i < MAX_REGIONS && IsList(id)
    requires k <= 1 && k <= |chains[Of(i)]|
    requires heap' == if k == 1 then heap[chains[Of(i)][0] := NULL] else heap
    ensures Linked(heap', chains[Of(i) := chains[Of(i)][..k]][Loose := chains[Of(i)][k..]][id])
  {
    hide Linked, Consistent;
    var chain := chains[Of(i)];
    ChainKnows(chains, place, Of(i));
    if id == Loose {
      SplitTail(heap, heap', chain, Of(i), place, k);
    } else if id == Of(i) {
      SplitFront(heap, heap', chain, k);
    } else if k == 1 {
      LinkedElsewhere(heap, heap', chains, place, id, {chain[0]});
    }
  }

  lemma ChainKnows(chains: Chains<ListId, Ref>, place: map<Ref, Place<ListId>>, id: ListId)
    requires Consistent(chains, place) && id in chains
    ensures Knows(chains[id], id, place)
  {
  }

  lemma SplitTail(heap: Heap, heap': Heap, chain: seq<Ref>, id: ListId, place: map<Ref, Place<ListId>>, k: nat)
    requires Linked(heap, chain) && Knows(chain, id, place) && k <= 1 && k <= |chain|
    requires heap' == if k == 1 then heap[chain[0] := NULL] else heap
    ensures Linked(heap', chain[k..])
  {
    LinkedTail(heap, chain, k);
    var tail := chain[k..];
    forall j | 0 <= j < |tail| ensures heap'[tail[j]] == heap[tail[j]] { assert tail[j] == chain[j + k]; }
  }

  lemma SplitFront(heap: Heap, heap': Heap, chain: seq<Ref>, k: nat)
    requires Linked(heap, chain) && k <= 1 && k <= |chain|
    requires heap' == if k == 1 then heap[chain[0] := NULL] else heap
    ensures Linked(heap', chain[..k])
  {
  }

  lemma FreeHead(heap: Heap, chains: Chains<ListId, Ref>, place: map<Ref, Place<ListId>>)
    requires PagesOk(heap, chains, place) && chains[Loose] != []
    ensures PagesOk(heap - {chains[Loose][0]}, chains[Loose := chains[Loose][1..]], DropHead(place, Loose))
    ensures chains[Loose][0] in heap && heap[chains[Loose][0]] == Head(chains[Loose][1..])
  {
    hide Consistent, Linked;
    var p := chains[Loose][0];
    var heap', chains' := heap - {p}, chains[Loose := chains[Loose][1..]];
    DropHeadKeeps(chains, place, Loose);
    forall id | IsList(id)
      ensures Linked(heap', chains'[id])
    {
      FreedLinked(heap, chains, place, id);
    }
    LooseNext(heap, chains, place);
    assert chains'.Keys == chains.Keys;
  }

  lemma FreedLinked(heap: Heap, chains: Chains<ListId, Ref>, place: map<Ref, Place<ListId>>, id: ListId)
    requires PagesOk(heap, chains, place) && chains[Loose] != [] && IsList(id)
    ensures Linked(heap - {chains[Loose][0]}, chains[Loose := chains[Loose][1..]][id])
  {
    var p := chains[Loose][0];
    assert Knows(chains[Loose], Loose, place);
    if id == Loose {
      LinkedTail(heap, chains[Loose], 1);
      var tail := chains[Loose][1..];
      forall j | 0 <= j < |tail| ensures tail[j] != p { assert tail[j] == chains[Loose][j + 1]; }
    } else {
      LinkedElsewhere(heap, heap - {p}, chains, place, id, {p});
    }
  }

  lemma LooseNext(heap: Heap, chains: Chains<ListId, Ref>, place: map<Ref, Place<ListId>>)
    requires PagesOk(heap, chains, place) && chains[Loose] != []
    ensures chains[Loose][0] in heap && heap[chains[Loose][0]] == Head(chains[Loose][1..])
  {
    assert Linked(heap, chains[Loose]);
    if |chains[Loose]| > 1 { assert heap[chains[Loose][0]] == chains[Loose][1]; }
  }

  /** The loose pages go in front of the pooled ones. */
  lemma PoolLoose(heap: Heap, chains: Chains<ListId, Ref>, place: map<Ref, Place<ListId>>)
    requires PagesOk(heap, chains, place) && chains[Loose] != []
    ensures PagesOk(heap[Last(chains[Loose]) := Head(chains[Pool])],
                    chains[Loose := []][Pool := chains[Loose] + chains[Pool]],
                    Prepend(place, Loose, Pool, |chains[Loose]|))
  {
    hide Consistent, Linked;
    var last := Last(chains[Loose]);
    var heap', chains' := heap[last := Head(chains[Pool])], chains[Loose := []][Pool := chains[Loose] + chains[Pool]];
    PrependKeeps(chains, place, Loose, Pool);
    LastInHeap(heap, chains, place, Loose);
    assert heap'.Keys == heap.Keys && chains'.Keys == chains.Keys;
    assert Prepend(place, Loose, Pool, |chains[Loose]|).Keys == place.Keys;
    forall id | IsList(id)
      ensures Linked(heap', chains'[id])
    {
      PooledLinked(heap, chains, place, id);
    }
  }

  lemma PooledLinked(heap: Heap, chains: Chains<ListId, Ref>, place: map<Ref, Place<ListId>>, id: ListId)
    requires PagesOk(heap, chains, place) && chains[Loose] != [] && IsList(id)
    ensures Linked(heap[Last(chains[Loose]) := Head(chains[Pool])],
                   chains[Loose := []][Pool := chains[Loose] + chains[Pool]][id])
  {
    var last := Last(chains[Loose]);
    LastPlace(chains, place, Loose);
    if id == Pool {
      assert Knows(chains[Pool], Pool, place);
      LinkedJoin(heap, chains[Loose], chains[Pool]);
    } else if id != Loose {
      LinkedElsewhere(heap, heap[last := Head(chains[Pool])], chains, place, id, {last});
    }
  }

  /** How many of `n` recycled pages do not fit into the pool. */
  function Excess(pooled: nat, n: nat): nat {
    if pooled + n > REGION_PAGE_POOL then pooled + n - REGION_PAGE_POOL else 0
  }

  ghost function Prefix(chain: seq<Ref>, n: nat): set<Ref>
    requires n <= |chain|
  {
    set r | r in chain[..n]
  }

  lemma PrefixGrows(chain: seq<Ref>, n: nat)
    requires n <= |chain|
    ensures Prefix(chain, 0) == {}
    ensures n < |chain| ==> Prefix(chain, n + 1) == Prefix(chain, n) + {chain[n]}
  {
    if n < |chain| { assert chain[..n + 1] == chain[..n] + [chain[n]]; }
  }

  lemma LooseEnds(heap: Heap, chains: Chains<ListId, Ref>, place: map<Ref, Place<ListId>>)
    requires PagesOk(heap, chains, place)
    ensures Loose in chains && Pool in chains
    ensures Head(chains[Loose]) == NULL <==> chains[Loose] == []
    ensures Last(chains[Loose]) == NULL <==> chains[Loose] == []
    ensures chains[Loose] != [] ==> Last(chains[Loose]) in heap
  {
    hide Consistent;
    LastInHeap(heap, chains, place, Loose);
  }

  lemma FirstNext(heap: Heap, chains: Chains<ListId, Ref>, place: map<Ref, Place<ListId>>, i: nat)
    requires PagesOk(heap, chains, place) && i < MAX_REGIONS && chains[Of(i)] != []
    ensures chains[Of(i)][0] in heap && heap[chains[Of(i)][0]] == Head(chains[Of(i)][1..])
  {
    assert Linked(heap, chains[Of(i)]);
    if |chains[Of(i)]| > 1 { assert heap[chains[Of(i)][0]] == chains[Of(i)][1]; }
  }

  lemma FirstAndLast(r: Region, chain: seq<Ref>, objects: seq<Chunk>, time: int)
    requires RegionOk(r, chain, objects, time)
    ensures r.first == Head(chain) && r.last == Last(chain) && r.pages == |chain| && r.age <= time
    ensures r.age == time ==> chain != []
    ensures forall k :: 0 <= k < |chain| ==> Last(chain[k..]) == Last(chain)
  {
  }

  /** A region that had nothing to recycle. */
  lemma KeptAlone(r: Region, chain: seq<Ref>, objects: seq<Chunk>, time: int)
    requires RegionOk(r, chain, objects, time) && r.dc == 0 && |chain| <= 1 && (r.age == time <==> chain != [])
    ensures RecycledRegion(r, chain, r.age == time) == r
    ensures chain != [] ==> r == r.(end := Addr(r.first, REGION_PAGE_PAYLOAD))
  {
  }

  lemma RecycledOk(r: Region, chain: seq<Ref>, objects: seq<Chunk>, time: int)
    requires RegionOk(r, chain, objects, time) && NULL !in chain
    ensures var k := if r.age == time then 1 else 0;
            k <= |chain| && RegionOk(RecycledRegion(r, chain, r.age == time), chain[..k], [], time)
  {
    NoObjects(chain, RecycledRegion(r, chain, r.age == time).nextFree);
  }

  /** Recycling one region keeps all of them in order. */
  lemma Recycled(regions: seq<Region>, chains: Chains<ListId, Ref>, objects: seq<seq<Chunk>>, time: int,
                 i: nat, chains': Chains<ListId, Ref>)
    requires RegionsOk(regions, chains, objects, time) && i < MAX_REGIONS && NULL !in chains[Of(i)]
    requires Of(i) in chains' && (regions[i].age == time ==> chains[Of(i)] != [])
    requires chains'[Of(i)] == if regions[i].age == time then chains[Of(i)][..1] else []
    requires forall j :: 0 <= j < MAX_REGIONS && j != i ==> Of(j) in chains' && chains'[Of(j)] == chains[Of(j)]
    ensures RegionsOk(regions[i := RecycledRegion(regions[i], chains[Of(i)], regions[i].age == time)], chains',
                      objects[i := []], time)
  {
    hide RegionOk;
    RegionAt(regions, chains, objects, time, i);
    RecycledOk(regions[i], chains[Of(i)], objects[i], time);
    RegionsKept(regions, chains, objects, time, i,
                RecycledRegion(regions[i], chains[Of(i)], regions[i].age == time), chains', []);
  }

  lemma NoNull(heap: Heap, chains: Chains<ListId, Ref>, place: map<Ref, Place<ListId>>, id: ListId)
    requires PagesOk(heap, chains, place) && IsList(id)
    ensures NULL !in chains[id]
  {
    assert Linked(heap, chains[id]);
  }

  // ---------------------------------------------------------------- the whole store as a value

  /** What the operations of a store are specified by. `pages` are the allocated pages; the pool and its
      count are the head and the length of the `Pool` list. */
  datatype Snapshot = Snapshot(regions: seq<Region>, chains: Chains<ListId, Ref>, pages: set<Ref>,
                               objects: seq<seq<Chunk>>, nextReg: nat, time: int)

  ghost predicate Listed(v: Snapshot) {
    && |v.regions| == |v.objects| == MAX_REGIONS
    && (forall id :: IsList(id) ==> id in v.chains)
    && |v.chains[Pool]| <= REGION_PAGE_POOL
    && forall i :: 0 <= i < MAX_REGIONS && v.regions[i].age == v.time ==> v.chains[Of(i)] != []
  }

  predicate Live(v: Snapshot, i: nat)
    requires i < |v.regions|
  {
    v.regions[i].age == v.time
  }

  /** The pages a recycling of region `i` takes away. */
  ghost function Legacy(v: Snapshot, i: nat): seq<Ref>
    requires Listed(v) && i < MAX_REGIONS
  {
    if Live(v, i) then v.chains[Of(i)][1..] else v.chains[Of(i)]
  }

  /** Recycling of region `i`: the legacy pages go to the front of the pool, except for a prefix that
      does not fit and is freed. */
  ghost function Recycling(v: Snapshot, i: nat): Snapshot
    requires Listed(v) && i < MAX_REGIONS
  {
    var chain, legacy := v.chains[Of(i)], Legacy(v, i);
    var f := Excess(|v.chains[Pool]|, |legacy|);
    v.(regions := v.regions[i := RecycledRegion(v.regions[i], chain, Live(v, i))],
       chains := v.chains[Of(i) := if Live(v, i) then chain[..1] else []][Pool := legacy[f..] + v.chains[Pool]],
       pages := v.pages - Prefix(legacy, f), objects := v.objects[i := []])
  }

  /** One descriptor of region `i` is counted, or counted off; the last one recycles the region. */
  ghost function CountedOn(v: Snapshot, i: nat): Snapshot
    requires i < |v.regions|
  {
    v.(regions := v.regions[i := v.regions[i].(dc := v.regions[i].dc + 1)])
  }

  ghost function CountedOff(v: Snapshot, i: nat): Snapshot
    requires Listed(v) && i < MAX_REGIONS && v.regions[i].dc >= 1
  {
    if v.regions[i].dc == 1 then Recycling(v, i)
    else v.(regions := v.regions[i := v.regions[i].(dc := v.regions[i].dc - 1)])
  }

  function Min(a: nat, b: nat): nat { if a <= b then a else b }

  /** Recycling conserves pages: those the region had and those in the pool split exactly into the ones it
      keeps, the ones freed and the ones in the pool afterwards, whose number is the limit or the sum,
      whichever is smaller. No other list and no other region changes, and the region itself is as
      registered as it was, with no descriptor and no object. */
  lemma RecyclingConserves(v: Snapshot, i: nat)
    requires Listed(v) && i < MAX_REGIONS
    ensures var v' := Recycling(v, i); var legacy := Legacy(v, i); var f := Excess(|v.chains[Pool]|, |legacy|);
            && Listed(v') && f <= |legacy|
            && |v'.chains[Pool]| == Min(REGION_PAGE_POOL, |v.chains[Pool]| + |legacy|)
            && v'.chains[Of(i)] + legacy == v.chains[Of(i)]
            && multiset(v'.chains[Of(i)]) + multiset(v'.chains[Pool]) + multiset(legacy[..f])
               == multiset(v.chains[Of(i)]) + multiset(v.chains[Pool])
            && (forall r :: r in v'.pages <==> r in v.pages && r !in legacy[..f])
            && (forall id :: IsList(id) && id != Of(i) && id != Pool ==> v'.chains[id] == v.chains[id])
            && (forall j :: 0 <= j < MAX_REGIONS && j != i ==>
                  v'.regions[j] == v.regions[j] && v'.objects[j] == v.objects[j])
            && v'.regions[i].age == v.regions[i].age && v'.regions[i].dc == 0 && v'.objects[i] == []
            && v'.nextReg == v.nextReg && v'.time == v.time
  {
    RecyclingListed(v, i);
    var legacy := Legacy(v, i);
    var f := Excess(|v.chains[Pool]|, |legacy|);
    var kept := if Live(v, i) then v.chains[Of(i)][..1] else [];
    assert kept + legacy == v.chains[Of(i)];
    SplitConserves(kept, legacy, v.chains[Pool], f);
    RecycledLists(v, i, Recycling(v, i).chains);
  }

  lemma RecyclingListed(v: Snapshot, i: nat)
    requires Listed(v) && i < MAX_REGIONS
    ensures Listed(Recycling(v, i))
  {
    hide Prefix;
    var v' := Recycling(v, i);
    forall j | 0 <= j < MAX_REGIONS && v'.regions[j].age == v'.time ensures v'.chains[Of(j)] != [] {
      assert v.regions[j].age == v.time;
    }
  }

  lemma SplitConserves(kept: seq<Ref>, legacy: seq<Ref>, pool: seq<Ref>, f: nat)
    requires f <= |legacy|
    ensures multiset(kept) + multiset(legacy[f..] + pool) + multiset(legacy[..f])
            == multiset(kept + legacy) + multiset(pool)
  {
    assert legacy == legacy[..f] + legacy[f..];
    assert multiset(legacy) == multiset(legacy[..f]) + multiset(legacy[f..]);
  }

  class RegionStore {
    var heap: Heap
    var regions: seq<Region>
    var pool: Ref
    var pooled: nat
    var nextReg: nat
    var currentTime: int
    ghost var chains: Chains<ListId, Ref>
    ghost var place: map<Ref, Place<ListId>>
    /** The objects of every region since it was last recycled. */
    ghost var objects: seq<seq<Chunk>>

    ghost predicate Valid()
      reads this
    {
      && PagesOk(heap, chains, place) && RegionsOk(regions, chains, objects, currentTime)
      && PoolOk(pool, pooled, chains[Pool]) && chains[Loose] == [] && nextReg < MAX_REGIONS
    }

    ghost function State(): Snapshot
      reads this
    {
      Snapshot(regions, chains, heap.Keys, objects, nextReg, currentTime)
    }

    /** Links a page from the pool, or the `spare` one from malloc, behind the last page of region `i`. */
    method InitRegionPage(i: nat, spare: Ref) returns (p: Ref)
      requires PagesOk(heap, chains, place) && PoolOk(pool, pooled, chains[Pool]) && spare != NULL && spare !in heap
      requires i < MAX_REGIONS == |regions| && regions[i].last == Last(chains[Of(i)])
      modifies this
      ensures PagesOk(heap, chains, place) && PoolOk(pool, pooled, chains[Pool])
      ensures p == (if old(pool) == NULL then spare else old(pool)) && p != NULL && p !in old(chains)[Of(i)]
      ensures chains == ChainsWith(old(chains), i, p)
      ensures regions == old(regions)[i := WithPage(old(regions)[i], p)] && heap.Keys == old(heap).Keys + {p}
      ensures objects == old(objects) && nextReg == old(nextReg) && currentTime == old(currentTime)
    {
      hide PagesOk;
      ListsExist(heap, chains, place, i);
      PoolEnds(heap, chains, place);
      var prevLast := regions[i].last;
      p := pool;
      if p != NULL {
        PoolNext(heap, chains, place);
        pool := heap[p];
        pooled := pooled - 1;
      } else {
        p := spare;
      }
      AddedPages(heap, chains, place, i, p);
      heap := heap[p := NULL];
      if prevLast != NULL {
        heap := heap[prevLast := p];
      }
      regions := regions[i := regions[i].(last := p, end := Addr(p, REGION_PAGE_PAYLOAD),
                                          pages := regions[i].pages + 1)];
      place := PlaceWith(chains, place, i, p);
      chains := ChainsWith(chains, i, p);
    }

    /** Frees pages from the front of a loose list until the rest fits into the pool. */
    method FreeExcess(head: Ref, count: nat) returns (rest: Ref, left: nat)
      requires PagesOk(heap, chains, place) && pooled <= REGION_PAGE_POOL
      requires head == Head(chains[Loose]) && count == |chains[Loose]|
      modifies this
      ensures PagesOk(heap, chains, place) && rest == Head(chains[Loose]) && left == |chains[Loose]|
      ensures var f := Excess(pooled, count);
              && f <= count
              && chains == old(chains)[Loose := old(chains)[Loose][f..]]
              && heap == old(heap) - Prefix(old(chains)[Loose], f)
      ensures regions == old(regions) && pool == old(pool) && pooled == old(pooled) && nextReg == old(nextReg)
      ensures currentTime == old(currentTime) && objects == old(objects)
    {
      hide PagesOk, Prefix;
      LooseEnds(heap, chains, place);
      rest, left := head, count;
      ghost var loose := chains[Loose];
      ghost var f := 0;
      PrefixGrows(loose, 0);
      assert chains == old(chains)[Loose := loose[0..]];
      while rest != NULL && pooled + left > REGION_PAGE_POOL
        invariant PagesOk(heap, chains, place)
        invariant regions == old(regions) && pool == old(pool) && pooled == old(pooled) && nextReg == old(nextReg)
        invariant currentTime == old(currentTime) && objects == old(objects)
        invariant f <= Excess(pooled, count) && f + left == count
        invariant chains == old(chains)[Loose := loose[f..]] && rest == Head(loose[f..])
        invariant heap == old(heap) - Prefix(loose, f)
        decreases left
      {
        LooseEnds(heap, chains, place);
        FreeHead(heap, chains, place);
        PrefixGrows(loose, f);
        var next := heap[rest];
        heap := heap - {rest};
        assert loose[f..][1..] == loose[f + 1..];
        assert old(heap) - Prefix(loose, f) - {rest} == old(heap) - (Prefix(loose, f) + {rest});
        place := DropHead(place, Loose);
        chains := chains[Loose := chains[Loose][1..]];
        rest := next;
        left := left - 1;
        f := f + 1;
      }
      LooseEnds(heap, chains, place);
    }

    /** Takes the pages to be recycled off region `i`: all but the first of a live region, all of a zombie. */
    method DetachLegacy(i: nat) returns (legacy: Ref)
      requires Valid() && i < MAX_REGIONS
      modifies this
      ensures PagesOk(heap, chains, place) && legacy == Head(chains[Loose])
      ensures var k := if old(regions)[i].age == currentTime then 1 else 0; var chain := old(chains)[Of(i)];
              && k <= |chain|
              && chains == old(chains)[Of(i) := chain[..k]][Loose := chain[k..]] && heap.Keys == old(heap).Keys
              && regions == old(regions)[i := if k == 1
                                              then old(regions)[i].(end := Addr(chain[0], REGION_PAGE_PAYLOAD))
                                              else old(regions)[i]]
      ensures pool == old(pool) && pooled == old(pooled) && nextReg == old(nextReg)
      ensures currentTime == old(currentTime) && objects == old(objects)
    {
      hide PagesOk, RegionsOk, ObjectsOk, PoolOk;
      RegionAt(regions, chains, objects, currentTime, i);
      ListsExist(heap, chains, place, i);
      ghost var chain := chains[Of(i)];
      if regions[i].age == currentTime {
        SplitPages(heap, chains, place, i, 1);
        FirstNext(heap, chains, place, i);
        var first := regions[i].first;
        legacy := heap[first];
        heap := heap[first := NULL];
        regions := regions[i := regions[i].(end := Addr(first, REGION_PAGE_PAYLOAD))];
        place := MoveFrom(place, Of(i), 1, Loose, 0);
        chains := chains[Of(i) := chain[..1]][Loose := chain[1..]];
      } else {
        SplitPages(heap, chains, place, i, 0);
        legacy := regions[i].first;
        place := MoveFrom(place, Of(i), 0, Loose, 0);
        chains := chains[Of(i) := chain[..0]][Loose := chain[0..]];
        assert chain[0..] == chain;
        assert regions == regions[i := regions[i]];
      }
    }

    /** Recycles region `i`, whose last descriptor has expired. */
    method RecycleRegion(i: nat)
      requires Valid() && i < MAX_REGIONS && regions[i].dc == 0
      modifies this
      ensures Valid() && Listed(old(State())) && State() == Recycling(old(State()), i)
      ensures pooled == Min(REGION_PAGE_POOL, old(pooled) + |Legacy(old(State()), i)|)
      ensures |regions| == |old(regions)| == MAX_REGIONS
      ensures regions[i].age == old(regions)[i].age && regions[i].dc == 0
      ensures nextReg == old(nextReg) && currentTime == old(currentTime)
      ensures if old(regions)[i].age == currentTime
              then && regions[i].first == regions[i].last == old(regions)[i].first != NULL && regions[i].pages == 1
                   && regions[i].nextFree ==
                      (if old(regions)[i].pages == 1 then old(regions)[i].nextFree else Addr(regions[i].first, 0))
              else regions[i].first == regions[i].last == NULL && regions[i].pages == 0
    {
      hide PagesOk, RegionsOk, RegionOk, Prefix, Listed;
      StateListed(heap, place, State(), pool, pooled);
      RegionAt(regions, chains, objects, currentTime, i);
      ghost var v := State();
      ListLengths(v, i);
      NoNull(heap, chains, place, Of(i));
      ghost var chain := chains[Of(i)];
      FirstAndLast(regions[i], chain, objects[i], currentTime);
      RecycledFields(regions[i], chain, objects[i], currentTime);
      var legacy := DetachLegacy(i);
      LooseEnds(heap, chains, place);
      if legacy == NULL {
        regions := regions[i := regions[i].(dc := 0)];
        KeptAlone(v.regions[i], chain, objects[i], currentTime);
        NothingRecycled(v, i, chains);
      } else {
        var count := if regions[i].age == currentTime then regions[i].pages - 1 else regions[i].pages;
        PoolRecycled(legacy, regions[i].last, count);
        AllRecycled(v, i, chains);
        ResetRegion(i, v.regions[i], chain);
      }
      objects := objects[i := []];
      RecycledLists(v, i, chains);
      Recycled(v.regions, v.chains, v.objects, currentTime, i, chains);
      assert regions == v.regions[i := RecycledRegion(v.regions[i], chain, Live(v, i))];
    }

    /** The fields of region `i` after its pages have been recycled. */
    method ResetRegion(i: nat, ghost was: Region, ghost chain: seq<Ref>)
      requires i < |regions| && chain != [] && was.first == chain[0] && was.dc == 0
      requires regions[i] == if was.age == currentTime then was.(end := Addr(chain[0], REGION_PAGE_PAYLOAD)) else was
      requires was.age == currentTime ==> |chain| > 1
      modifies this
      ensures heap == old(heap) && pool == old(pool) && pooled == old(pooled) && nextReg == old(nextReg)
      ensures currentTime == old(currentTime) && chains == old(chains) && place == old(place) && objects == old(objects)
      ensures regions == old(regions)[i := RecycledRegion(was, chain, was.age == currentTime)]
    {
      regions := regions[i := regions[i].(pages := 1, last := regions[i].first,
                                          end := Addr(regions[i].first, REGION_PAGE_PAYLOAD),
                                          nextFree := Addr(regions[i].first, 0))];
      if regions[i].age != currentTime {
        regions := regions[i := regions[i].(pages := 0, last := NULL, first := NULL)];
      }
    }

    /** Puts the loose pages into the pool, freeing those that exceed its limit. */
    method PoolRecycled(legacy: Ref, last: Ref, recycled: nat)
      requires PagesOk(heap, chains, place) && PoolOk(pool, pooled, chains[Pool])
      requires legacy == Head(chains[Loose]) != NULL && last == Last(chains[Loose]) && recycled == |chains[Loose]|
      modifies this
      ensures PagesOk(heap, chains, place) && PoolOk(pool, pooled, chains[Pool])
      ensures var f := Excess(old(pooled), recycled); var loose := old(chains)[Loose];
              && f <= recycled
              && chains == old(chains)[Loose := []][Pool := loose[f..] + old(chains)[Pool]]
              && heap.Keys == old(heap).Keys - Prefix(loose, f)
              && pooled == Min(REGION_PAGE_POOL, old(pooled) + recycled)
      ensures regions == old(regions) && nextReg == old(nextReg)
      ensures currentTime == old(currentTime) && objects == old(objects)
    {
      hide PagesOk, Prefix;
      LooseEnds(heap, chains, place);
      PrefixGrows(chains[Loose], 0);
      var count := recycled;
      var before := pooled;
      ghost var loose := chains[Loose];
      if before + count <= REGION_PAGE_POOL {
        PoolLoose(heap, chains, place);
        heap := heap[last := pool];
        pool := legacy;
        pooled := before + count;
        place := Prepend(place, Loose, Pool, |loose|);
        chains := chains[Loose := []][Pool := loose + chains[Pool]];
        assert loose[0..] == loose;
      } else {
        var rest;
        rest, count := FreeExcess(legacy, count);
        LooseEnds(heap, chains, place);
        if rest != NULL && before + count <= REGION_PAGE_POOL {
          if last != NULL {
            PoolLoose(heap, chains, place);
            ghost var left := chains[Loose];
            heap := heap[last := pool];
            pool := rest;
            pooled := count - 1;
            place := Prepend(place, Loose, Pool, |left|);
            chains := chains[Loose := []][Pool := left + chains[Pool]];
          }
        } else {
          assert chains[Loose] + chains[Pool] == chains[Pool];
          assert chains == chains[Loose := []][Pool := chains[Pool]];
        }
        pooled := before + count;
      }
    }

    /** A refresh counts one more descriptor of region `i`. */
    method CountDescriptor(i: nat)
      requires Valid() && i < MAX_REGIONS
      modifies this
      ensures Valid() && |old(regions)| == MAX_REGIONS && State() == CountedOn(old(State()), i)
      ensures heap == old(heap) && pool == old(pool) && currentTime == old(currentTime) && nextReg == old(nextReg)
      ensures regions == old(regions)[i := old(regions)[i].(dc := old(regions)[i].dc + 1)]
      ensures chains == old(chains) && objects == old(objects)
    {
      hide Consistent, Linked, ObjectsOk;
      regions := regions[i := regions[i].(dc := regions[i].dc + 1)];
    }

    /** One descriptor of region `i` has expired; the last one recycles the region. */
    method ExpireDescriptor(i: nat)
      requires Valid() && i < MAX_REGIONS && regions[i].dc > 0
      modifies this
      ensures Valid() && Listed(old(State())) && State() == CountedOff(old(State()), i)
      ensures currentTime == old(currentTime) && nextReg == old(nextReg)
      ensures |regions| == |old(regions)| == MAX_REGIONS
      ensures regions[i].dc == old(regions)[i].dc - 1 && regions[i].age == old(regions)[i].age
      ensures forall j :: 0 <= j < MAX_REGIONS && j != i ==> regions[j] == old(regions)[j]
      ensures old(regions)[i].dc > 1 ==> chains == old(chains) && objects == old(objects) && heap == old(heap)
      ensures old(regions)[i].dc == 1 ==>
        (regions[i].first == NULL || (regions[i].age != currentTime && regions[i].dc == 0) <==>
         old(regions)[i].age != currentTime)
    {
      hide PagesOk, PoolOk, ObjectsOk, Prefix;
      StateListed(heap, place, State(), pool, pooled);
      ghost var v := State();
      regions := regions[i := regions[i].(dc := regions[i].dc - 1)];
      if regions[i].dc == 0 {
        RecyclingIgnoresCount(v, i);
        RecycleRegion(i);
      }
    }

    /** A new root whose first thread has registered: no region has a page. */
    constructor ()
      ensures Valid() && heap == map[] && nextReg == 0 && currentTime == 1
      ensures regions == seq(MAX_REGIONS, _ => NewRegion) && pool == NULL && pooled == 0
    {
      heap, pool, pooled, nextReg, currentTime := map[], NULL, 0, 0, 1;
      regions := seq(MAX_REGIONS, _ => NewRegion);
      objects := seq(MAX_REGIONS, _ => []);
      place := map[];
      chains := map id | id in AllLists() :: [];
    }

    /** A thread takes over the root of a terminated one: all its regions become zombies. */
    method TakeOver()
      requires Valid()
      modifies this
      ensures Valid() && currentTime == old(currentTime) + 1
      ensures heap == old(heap) && regions == old(regions) && chains == old(chains) && objects == old(objects)
      ensures pool == old(pool) && pooled == old(pooled) && nextReg == old(nextReg)
    {
      hide Consistent, Linked, ObjectsOk;
      currentTime := currentTime + 1;
    }

    /** Hands out the first available region from the next-fit index on, or -1 if none is available. */
    method CreateRegion(spare: Ref) returns (r: int)
      requires Valid() && spare != NULL && spare !in heap
      modifies this
      ensures Valid() && currentTime == old(currentTime)
      ensures |old(regions)| == MAX_REGIONS
      ensures r == -1 <==> forall j :: 0 <= j < MAX_REGIONS ==>
        var q := old(regions)[j]; q.first != NULL && (q.age == currentTime || q.dc > 0)
      ensures r == -1 ==>
        regions == old(regions) && heap == old(heap) && chains == old(chains) && nextReg == old(nextReg)
      ensures r != -1 ==>
        && 0 <= r < MAX_REGIONS
        && (old(regions)[r].first == NULL || (old(regions)[r].age != currentTime && old(regions)[r].dc == 0))
        && (forall j :: 0 <= j < MAX_REGIONS && old(nextReg) <= j && (j < r || r < old(nextReg)) ==>
              !Available(old(regions)[j], currentTime))
        && (r < old(nextReg) ==> forall j :: 0 <= j < r ==> !Available(old(regions)[j], currentTime))
        && nextReg == (r + 1) % MAX_REGIONS
        && regions[r].age == currentTime && regions[r].dc == old(regions)[r].dc
        && objects == old(objects) && Of(r) in old(chains) && Pool in old(chains)
        && var p := if old(pool) == NULL then spare else old(pool);
        && (if old(regions)[r].first == NULL
            then regions == old(regions)[r := CreatedRegion(old(regions)[r], p, currentTime)] && objects[r] == []
                 && regions[r].first == regions[r].last == p && regions[r].pages == 1
                 && regions[r].nextFree == Addr(p, 0)
                 && chains == ChainsWith(old(chains), r, p) && chains[Of(r)] == [p] && heap.Keys == old(heap).Keys + {p}
            else regions == old(regions)[r := old(regions)[r].(age := currentTime)]
                 && chains == old(chains) && heap == old(heap))
    {
      hide PagesOk, RegionsOk, PoolOk;
      var start := nextReg;
      var i := start;
      RegionAt(regions, chains, objects, currentTime, i);
      ghost var n := 0;
      while regions[i].first != NULL
        invariant unchanged(this) && i < MAX_REGIONS == |regions| && n < MAX_REGIONS && i == Cyclic(start, n)
        invariant NoneBefore(regions, start, n, currentTime)
        decreases MAX_REGIONS - n
      {
        if regions[i].age != currentTime && regions[i].dc == 0 {
          CyclicFirst(regions, start, n, currentTime);
          Reaged(regions, chains, objects, currentTime, i);
          ListsExist(heap, chains, place, i);
          regions := regions[i := regions[i].(age := currentTime)];
          NextIndex(i, MAX_REGIONS);
          nextReg := (i + 1) % MAX_REGIONS;
          return i;
        }
        NextIndex(i, MAX_REGIONS);
        i := (i + 1) % MAX_REGIONS;
        n := n + 1;
        if i == start {
          forall j | 0 <= j < MAX_REGIONS
            ensures !Available(regions[j], currentTime)
          {
            CyclicCovers(start, j);
          }
          return -1;
        }
      }
      CyclicFirst(regions, start, n, currentTime);
      CreateInEmpty(i, spare);
      NextIndex(i, MAX_REGIONS);
      nextReg := (i + 1) % MAX_REGIONS;
      return i;
    }

    /** Gives a region without pages its first page. */
    method CreateInEmpty(i: nat, spare: Ref)
      requires Valid() && spare != NULL && spare !in heap && i < MAX_REGIONS && regions[i].first == NULL
      modifies this
      ensures Valid() && currentTime == old(currentTime) && nextReg == old(nextReg)
      ensures objects == old(objects) && |objects| == |old(regions)| == MAX_REGIONS && objects[i] == []
      ensures Of(i) in old(chains) && Pool in old(chains)
      ensures var p := if old(pool) == NULL then spare else old(pool);
              && regions == old(regions)[i := CreatedRegion(old(regions)[i], p, currentTime)]
              && regions[i].first == regions[i].last == p && regions[i].pages == 1 && regions[i].nextFree == Addr(p, 0)
              && regions[i].age == currentTime && regions[i].dc == old(regions)[i].dc
              && chains == ChainsWith(old(chains), i, p) && chains[Of(i)] == [p] && heap.Keys == old(heap).Keys + {p}
    {
      hide PagesOk, RegionsOk, PoolOk;
      RegionAt(regions, chains, objects, currentTime, i);
      ghost var was := regions;
      ListsExist(heap, chains, place, i);
      ghost var chainsBefore := chains;
      var page := InitRegionPage(i, spare);
      regions := regions[i := regions[i].(age := currentTime, first := page, nextFree := Addr(page, 0))];
      Created(was, chainsBefore, objects, currentTime, i, page);
      assert regions == was[i := regions[i]];
      ListsExist(heap, chains, place, i);
    }

    /** The region becomes a zombie, to be recycled completely when its counter reaches zero. */
    method UnregisterRegion(region: int)
      requires Valid()
      modifies this
      ensures Valid() && heap == old(heap) && chains == old(chains) && objects == old(objects)
      ensures currentTime == old(currentTime) && pool == old(pool) && pooled == old(pooled) && nextReg == old(nextReg)
      ensures |regions| == MAX_REGIONS && regions == if 0 <= region < MAX_REGIONS
                         then old(regions)[region := old(regions)[region].(age := currentTime - 1)]
                         else old(regions)
    {
      hide Consistent, Linked, ObjectsOk;
      if region < 0 || region >= MAX_REGIONS {
        return;
      }
      regions := regions[region := regions[region].(age := currentTime - 1)];
    }

    /** Takes `needed` bytes from the bump range of a region, or from a new last page if they do not fit. */
    method BumpOrGrow(index: nat, needed: nat, spare: Ref) returns (obj: Addr)
      requires PagesOk(heap, chains, place) && PoolOk(pool, pooled, chains[Pool]) && spare != NULL && spare !in heap
      requires index < MAX_REGIONS == |regions| && regions[index].last == Last(chains[Of(index)])
      modifies this
      ensures PagesOk(heap, chains, place) && PoolOk(pool, pooled, chains[Pool])
      ensures objects == old(objects) && nextReg == old(nextReg) && currentTime == old(currentTime)
      ensures Of(index) in old(chains) && Of(index) in chains && Pool in old(chains)
      ensures var r := old(regions)[index]; var p := if old(pool) == NULL then spare else old(pool);
              && obj == Granted(r, needed, p) && regions == old(regions)[index := Allocated(r, needed, p)]
              && if r.nextFree.off + needed <= r.end.off
                 then obj == r.nextFree && chains == old(chains) && heap == old(heap) && pool == old(pool)
                 else && obj == Addr(p, 0) && chains == ChainsWith(old(chains), index, p)
                      && heap.Keys == old(heap).Keys + {p} && chains[Of(index)] == old(chains)[Of(index)] + [p]
    {
      hide PagesOk;
      ListsExist(heap, chains, place, index);
      PoolHead(pool, pooled, chains[Pool]);
      obj := regions[index].nextFree;
      regions := regions[index := regions[index].(nextFree := Addr(obj.page, obj.off + needed))];
      if regions[index].nextFree.off > regions[index].end.off {
        var page := InitRegionPage(index, spare);
        obj := Addr(page, 0);
        regions := regions[index := regions[index].(nextFree := Addr(page, needed))];
      }
    }

    /** Bump allocation. A valid index whose region has no page is not refused: the invariant then
        survives only if the request still fits into the page the region has lost, and the object does
        not lie in a page of the region either way, except in one linked outside its list. */
    method MallocInRegion(size: nat, index: int, spare: Ref) returns (o: Option)
      requires Valid() && size < TWO64 && spare != NULL && spare !in heap
      modifies this
      ensures PagesOk(heap, chains, place) && PoolOk(pool, pooled, chains[Pool])
      ensures o == None <==> NeededSpace(size) > REGION_PAGE_PAYLOAD || !(0 <= index < MAX_REGIONS)
      ensures o == None ==> Valid() && State() == old(State())
      ensures o != None ==>
        && |old(regions)| == |old(objects)| == MAX_REGIONS && Of(index) in old(chains) && Pool in old(chains)
        && var needed := NeededSpace(size); var r := old(regions)[index];
        var p := if old(pool) == NULL then spare else old(pool); var c := Chunk(o.addr.page, o.addr.off, size, needed);
        && o.addr == Granted(r, needed, p) && regions == old(regions)[index := Allocated(r, needed, p)]
        && chains == (if Fits(r, needed) then old(chains) else ChainsWith(old(chains), index, p))
        && objects == (if r.first == NULL then old(objects) else old(objects)[index := old(objects)[index] + [c]])
        && heap.Keys == (if Fits(r, needed) then old(heap).Keys else old(heap).Keys + {p})
        && nextReg == old(nextReg) && currentTime == old(currentTime)
        && (forall j :: 0 <= j < MAX_REGIONS && j != index ==> regions[j] == old(regions)[j])
        && regions[index].nextFree == Addr(o.addr.page, o.addr.off + needed)
        && regions[index].dc == r.dc && regions[index].age == r.age && regions[index].first == r.first
        && var limit := if r.first != NULL then REGION_PAGE_PAYLOAD else r.end.off;
        && (r.nextFree.off + needed <= limit ==>
              o.addr == r.nextFree && chains == old(chains) && heap == old(heap) && pool == old(pool))
        && (r.nextFree.off + needed > limit ==>
              && o.addr == Addr(p, 0) && heap.Keys == old(heap).Keys + {p}
              && chains[Of(index)] == old(chains)[Of(index)] + [p]
              && forall j :: 0 <= j < MAX_REGIONS && j != index ==> Of(j) in chains && Of(j) in old(chains)
                                                                    && chains[Of(j)] == old(chains)[Of(j)])
        && (|chains[Of(index)]| > |old(chains)[Of(index)]| <==> r.nextFree.off + needed > limit)
        && (Valid() <==> r.first != NULL || Fits(r, needed))
        && (Valid() && o.addr.page in chains[Of(index)] <==> r.first != NULL)
        && (r.first != NULL ==> Inside(c, chains[Of(index)]) && forall d :: d in old(objects)[index] ==> Apart(d, c))
    {
      hide PagesOk, RegionsOk, PoolOk, NeededSpace;
      var needed := NeededSpace(size);
      if needed > REGION_PAGE_PAYLOAD || index < 0 || index >= MAX_REGIONS {
        return None;
      }
      RegionAt(regions, chains, objects, currentTime, index);
      ListsExist(heap, chains, place, index);
      AllListsExist(heap, chains, place);
      PoolHead(pool, pooled, chains[Pool]);
      ghost var was, before, r := State(), objects[index], regions[index];
      ghost var p := if pool == NULL then spare else pool;
      NotOwned(heap, chains, place, pool, index, p);
      var obj := BumpOrGrow(index, needed, spare);
      if r.first != NULL {
        Extended(was.regions, was.chains, objects, currentTime, index, size, p, chains);
        objects := objects[index := before + [Chunk(obj.page, obj.off, size, needed)]];
      } else if Fits(r, needed) {
        StaleBump(was.regions, chains, objects, currentTime, index, needed, p);
      } else {
        StrayPage(regions, chains, objects, currentTime, index);
      }
      ListsExist(heap, chains, place, index);
      return Some(obj);
    }
  }

  /** A page that only `last` names. */
  lemma StrayPage(regions: seq<Region>, chains: Chains<ListId, Ref>, objects: seq<seq<Chunk>>, time: int, i: nat)
    requires |regions| == MAX_REGIONS && i < MAX_REGIONS && Of(i) in chains && chains[Of(i)] != []
    requires regions[i].first == NULL && chains[Of(i)][0] != NULL
    ensures !RegionsOk(regions, chains, objects, time)
  {
    if RegionsOk(regions, chains, objects, time) { RegionAt(regions, chains, objects, time, i); }
  }

  lemma StateListed(heap: Heap, place: map<Ref, Place<ListId>>, v: Snapshot, pool: Ref, pooled: nat)
    requires PagesOk(heap, v.chains, place) && RegionsOk(v.regions, v.chains, v.objects, v.time)
    requires PoolOk(pool, pooled, v.chains[Pool])
    ensures Listed(v) && |v.regions| == MAX_REGIONS && pooled == |v.chains[Pool]|
  {
    hide Linked, Consistent, ObjectsOk;
    forall i | 0 <= i < MAX_REGIONS && v.regions[i].age == v.time ensures v.chains[Of(i)] != [] {
      RegionAt(v.regions, v.chains, v.objects, v.time, i);
    }
  }

  lemma ListLengths(v: Snapshot, i: nat)
    requires Listed(v) && i < MAX_REGIONS
    ensures |v.regions| == |v.objects| == MAX_REGIONS && Of(i) in v.chains && Pool in v.chains
    ensures Live(v, i) ==> v.chains[Of(i)] != []
    ensures |Legacy(v, i)| == |v.chains[Of(i)]| - if Live(v, i) then 1 else 0
    ensures Excess(|v.chains[Pool]|, |Legacy(v, i)|) <= |Legacy(v, i)|
  {
  }

  /** The page that would be linked next belongs to no region. */
  lemma NotOwned(heap: Heap, chains: Chains<ListId, Ref>, place: map<Ref, Place<ListId>>, pool: Ref, i: nat, p: Ref)
    requires PagesOk(heap, chains, place) && i < MAX_REGIONS && pool == Head(chains[Pool])
    requires if pool == NULL then p != NULL && p !in heap else p == pool
    ensures p != NULL && p !in chains[Of(i)]
  {
    hide Linked, Consistent;
    LastInHeap(heap, chains, place, Pool);
    AddedConsistent(heap, chains, place, i, p);
  }

  lemma PoolHead(pool: Ref, pooled: nat, chain: seq<Ref>)
    requires PoolOk(pool, pooled, chain)
    ensures pool == Head(chain)
  {
  }

  lemma NothingRecycled(v: Snapshot, i: nat, chains: Chains<ListId, Ref>)
    requires Listed(v) && i < MAX_REGIONS && v.chains[Loose] == [] && Legacy(v, i) == []
    requires chains == v.chains[Of(i) := if Live(v, i) then v.chains[Of(i)][..1] else []][Loose := Legacy(v, i)]
    ensures chains == Recycling(v, i).chains && v.pages == Recycling(v, i).pages
  {
    assert Excess(|v.chains[Pool]|, 0) == 0;
    PrefixGrows(Legacy(v, i), 0);
    assert Legacy(v, i)[0..] + v.chains[Pool] == v.chains[Pool];
  }

  lemma AllRecycled(v: Snapshot, i: nat, chains: Chains<ListId, Ref>)
    requires Listed(v) && i < MAX_REGIONS && v.chains[Loose] == []
    requires var f := Excess(|v.chains[Pool]|, |Legacy(v, i)|);
             chains == v.chains[Of(i) := if Live(v, i) then v.chains[Of(i)][..1] else []][Loose := Legacy(v, i)]
                       [Loose := []][Pool := Legacy(v, i)[f..] + v.chains[Pool]]
    ensures chains == Recycling(v, i).chains
  {
  }

  /** The lists of a recycling leave those of the other regions alone. */
  lemma RecycledLists(v: Snapshot, i: nat, chains: Chains<ListId, Ref>)
    requires Listed(v) && i < MAX_REGIONS && chains == Recycling(v, i).chains
    ensures Of(i) in chains && chains[Of(i)] == if Live(v, i) then v.chains[Of(i)][..1] else []
    ensures forall j :: 0 <= j < MAX_REGIONS && j != i ==>
      Of(j) in chains && Of(j) in v.chains && chains[Of(j)] == v.chains[Of(j)]
  {
  }

  lemma RecyclingIgnoresCount(v: Snapshot, i: nat)
    requires Listed(v) && i < MAX_REGIONS
    ensures var v' := v.(regions := v.regions[i := v.regions[i].(dc := 0)]);
            Listed(v') && Recycling(v', i) == Recycling(v, i)
  {
    var v' := v.(regions := v.regions[i := v.regions[i].(dc := 0)]);
    assert Legacy(v', i) == Legacy(v, i);
    assert Recycling(v', i).regions == Recycling(v, i).regions;
  }

  lemma PoolEnds(heap: Heap, chains: Chains<ListId, Ref>, place: map<Ref, Place<ListId>>)
    requires PagesOk(heap, chains, place)
    ensures Pool in chains && (Head(chains[Pool]) == NULL <==> chains[Pool] == [])
  {
    hide Consistent;
    LastInHeap(heap, chains, place, Pool);
  }

  lemma PoolNext(heap: Heap, chains: Chains<ListId, Ref>, place: map<Ref, Place<ListId>>)
    requires PagesOk(heap, chains, place) && chains[Pool] != []
    ensures chains[Pool][0] in heap && heap[chains[Pool][0]] == Head(chains[Pool][1..])
  {
    assert Linked(heap, chains[Pool]);
    if |chains[Pool]| > 1 { assert heap[chains[Pool][0]] == chains[Pool][1]; }
  }

  /** Region pages are conserved: every allocated page is in exactly one region or in the pool. */
  lemma PagesAreConserved(heap: Heap, chains: Chains<ListId, Ref>, place: map<Ref, Place<ListId>>)
    requires PagesOk(heap, chains, place) && chains[Loose] == []
    ensures forall a, i, b, j :: IsList(a) && IsList(b) && 0 <= i < |chains[a]| && 0 <= j < |chains[b]| ==>
              chains[a][i] == chains[b][j] ==> a == b && i == j
    ensures forall r :: r in heap <==> r in chains[Pool] || exists i: nat :: i < MAX_REGIONS && r in chains[Of(i)]
  {
    hide Consistent, Linked;
    EachPageOnce(chains, place);
    forall r | r in heap
      ensures r in chains[Pool] || exists i: nat :: i < MAX_REGIONS && r in chains[Of(i)]
    {
      var a :| a in chains && r in chains[a];
      assert IsList(a);
      if a.Of? { assert r in chains[Of(a.region)]; }
    }
    assert IsList(Pool);
  }

  /** The bytes of an object, header included, as its client asked for them. */
  predicate Disjoint(c: Chunk, d: Chunk) {
    c.page != d.page || c.off + HEADER + c.size <= d.off || d.off + HEADER + d.size <= c.off
  }

  /** No two objects overlap, whether they are in the same region or in different ones: the spaces
      reserved for them never do, and the bytes their clients asked for lie within the page and do not
      overlap unless a request of more than 2^32 - 16 bytes was narrowed. */
  lemma ObjectsAreDisjoint(heap: Heap, chains: Chains<ListId, Ref>, place: map<Ref, Place<ListId>>,
                           regions: seq<Region>, objects: seq<seq<Chunk>>, time: int, i: nat, m: nat, j: nat, n: nat)
    requires PagesOk(heap, chains, place) && RegionsOk(regions, chains, objects, time)
    requires i < MAX_REGIONS && j < MAX_REGIONS && m < |objects[i]| && n < |objects[j]| && (i != j || m != n)
    ensures var c, d := objects[i][m], objects[j][n];
            && Apart(c, d)
            && (c.size <= TWO32 - 16 && d.size <= TWO32 - 16 ==> Disjoint(c, d))
            && (c.size <= TWO32 - 16 ==> c.off % 8 == 0 && c.off + HEADER + c.size <= REGION_PAGE_PAYLOAD)
  {
    hide Linked, NeededSpace;
    RegionAt(regions, chains, objects, time, i);
    RegionAt(regions, chains, objects, time, j);
    EachPageOnce(chains, place);
    var c, d := objects[i][m], objects[j][n];
    assert Inside(c, chains[Of(i)]) && Reserved(c) && Inside(d, chains[Of(j)]) && Reserved(d);
    NeededSpaceSuffices(c.size);
    NeededSpaceSuffices(d.size);
  }

  /** A narrowed request breaks it: the object after it gets the same address. */
  lemma NarrowedOverlaps(r: Region, chain: seq<Ref>, objects: seq<Chunk>, time: int, size: nat, p: Ref, q: Ref)
    requires RegionOk(r, chain, objects, time) && chain != [] && size <= TWO32 - 16
    requires NeededSpace(size) <= REGION_PAGE_PAYLOAD && Fits(r, NeededSpace(size))
    ensures var r' := Allocated(r, NeededSpace(TWO32 - 8), p);
            Granted(r, NeededSpace(TWO32 - 8), p) == Granted(r', NeededSpace(size), q) == r.nextFree
  {
    NarrowedRequest();
  }

  /** The first input as a run of the code: an allocation in a region that was never created. */
  method NeverCreatedAllocation(size: nat) returns (s: RegionStore, o: Option)
    requires size <= TWO32 - 16 && NeededSpace(size) <= REGION_PAGE_PAYLOAD
    ensures o == Some(Addr(1, 0)) && !s.Valid()
    ensures |s.regions| == MAX_REGIONS
    ensures s.regions[0].first == NULL && s.regions[0].last == 1 && s.regions[0].pages == 1
  {
    hide NeededSpace, RegionsOk, PagesOk;
    NeededSpaceSuffices(size);
    s := new RegionStore();
    o := s.MallocInRegion(size, 0, 1);
  }

  /** The first region of a new root is created. */
  method CreateTheFirst() returns (s: RegionStore)
    ensures fresh(s) && s.Valid() && s.currentTime == 1 && s.nextReg == 1 % MAX_REGIONS && s.heap.Keys == {1}
    ensures s.regions == seq(MAX_REGIONS, _ => NewRegion)[0 := CreatedRegion(NewRegion, 1, 1)]
    ensures Of(0) in s.chains && Pool in s.chains && s.chains[Of(0)] == [1] && s.chains[Pool] == [] && s.pool == NULL
  {
    hide RegionsOk, PagesOk, PoolOk;
    s := new RegionStore();
    assert Available(s.regions[Cyclic(0, 0)], 1);
    ListsExist(s.heap, s.chains, s.place, 0);
    PoolHead(s.pool, s.pooled, s.chains[Pool]);
    PoolEnds(s.heap, s.chains, s.place);
    var i := s.CreateRegion(1);
    assert i == 0;
    PoolHead(s.pool, s.pooled, s.chains[Pool]);
  }

  /** A region is created, an object is allocated in it and the region is refreshed. */
  method FillARegion(size: nat) returns (s: RegionStore, first: Option)
    requires size <= TWO32 - 16 && NeededSpace(size) <= REGION_PAGE_PAYLOAD
    ensures fresh(s) && s.Valid() && s.heap.Keys == {1} && s.currentTime == 1 && first == Some(Addr(1, 0))
    ensures |s.regions| == MAX_REGIONS
    ensures s.regions[0] == CreatedRegion(NewRegion, 1, 1).(dc := 1, nextFree := Addr(1, NeededSpace(size)))
    ensures Of(0) in s.chains && s.chains[Of(0)] == [1]
  {
    hide NeededSpace, RegionsOk, PagesOk, PoolOk;
    s := CreateTheFirst();
    first := s.MallocInRegion(size, 0, 2);
    s.CountDescriptor(0);
  }

  /** A run of the code in which a recycled region does not start over: the descriptor expires and the
      region is empty, yet the next object goes behind the first one. */
  method RecycledRegionGrows(size: nat) returns (first: Option, second: Option)
    requires size <= TWO32 - 16 && NeededSpace(size) + NeededSpace(size) <= REGION_PAGE_PAYLOAD
    ensures first == Some(Addr(1, 0)) && second == Some(Addr(1, NeededSpace(size))) && NeededSpace(size) > 0
  {
    hide NeededSpace, RegionsOk, PagesOk, PoolOk, Prefix, Listed;
    NeededSpaceSuffices(size);
    var s;
    s, first := FillARegion(size);
    PrefixGrows([], 0);
    s.ExpireDescriptor(0);
    second := s.MallocInRegion(size, 0, 3);
  }

  /** A region is created, refreshed and unregistered. */
  method OrphanARegion() returns (s: RegionStore)
    requires MAX_REGIONS >= 2
    ensures fresh(s) && s.Valid() && s.nextReg == 1 && s.heap.Keys == {1}
    ensures |s.regions| == MAX_REGIONS && s.regions[1] == NewRegion
    ensures s.regions[0] == CreatedRegion(NewRegion, 1, 1).(dc := 1, age := 0) && s.currentTime == 1
    ensures Of(0) in s.chains && Pool in s.chains && s.chains[Of(0)] == [1] && s.chains[Pool] == []
  {
    hide RegionsOk, PagesOk, PoolOk;
    s := CreateTheFirst();
    s.CountDescriptor(0);
    s.UnregisterRegion(0);
  }

  /** Its descriptor expires: the page is pooled, and the bump range of the region still lies in it. */
  method LoseAPage() returns (s: RegionStore)
    requires MAX_REGIONS >= 2 && REGION_PAGE_POOL >= 1
    ensures fresh(s) && s.Valid() && s.nextReg == 1 && s.pool == 1 && s.heap.Keys == {1}
    ensures |s.regions| == MAX_REGIONS && s.regions[1] == NewRegion
    ensures s.regions[0] == NewRegion.(nextFree := Addr(1, 0), end := Addr(1, REGION_PAGE_PAYLOAD))
  {
    hide RegionsOk, PagesOk, PoolOk, Prefix, Listed;
    s := OrphanARegion();
    PrefixGrows([1], 0);
    ghost var v := s.State();
    s.ExpireDescriptor(0);
    assert Legacy(v, 0) == [1] && [1][0..] + [] == [1];
    PoolHead(s.pool, s.pooled, s.chains[Pool]);
  }

  /** The second input of an unsound allocation, as a run of the code: the page of a recycled zombie goes
      to another region by way of the pool, and an allocation in each of the two returns the same address. */
  method RecycledRegionOverlaps(size: nat) returns (a: Option, b: Option)
    requires MAX_REGIONS >= 2 && REGION_PAGE_POOL >= 1 && size <= TWO32 - 16 && NeededSpace(size) <= REGION_PAGE_PAYLOAD
    ensures a == b && a != None
  {
    hide NeededSpace, RegionOk, PagesOk, RegionsOk, PoolOk;
    var s := LoseAPage();
    assert Cyclic(1, 0) == 1;
    var j := s.CreateRegion(2);
    assert j == 1;
    b := s.MallocInRegion(size, j, 3);
    a := s.MallocInRegion(size, 0, 4);
  }
}
