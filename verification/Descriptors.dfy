/** The descriptor buffers of one root: rings of singly linked lists of descriptor pages, two lists
    of expired pages with a cursor of what has been collected, and a bounded pool of spare pages.

    Pages live in an explicit heap, so that a freed page is gone and every access has to show that
    its page is still allocated. Page lists are addressed by `ListId`, as the source addresses them
    by pointers into the root. */
module Descriptors {
  import opened Config
  import opened Rings
  import opened Placement

  type Ref = nat
  const NULL: Ref := 0

  /** An object header or a region, as an opaque pointer. */
  type Ptr = nat

  datatype Option = None | Some(ptr: Ptr)

  datatype Kind = ObjectKind | RegionKind

  /** The buffer of a local clock, or of the global clock when `clock` is MAX_CLOCKS. */
  datatype Buf = Buf(kind: Kind, clock: nat)

  /** `Loose` holds the page that is on its way between two lists, if any. */
  datatype ListId = Slot(buf: Buf, index: nat) | Expired(kind: Kind) | Pool | Loose

  datatype PageList = PageList(first: Ref, last: Ref)

  /** `items` are the descriptors in use; their number is `number_of_descriptors`. */
  datatype Page = Page(next: Ref, items: seq<Ptr>)

  type Heap = map<Ref, Page>

  predicate IsBuf(b: Buf) { b.clock <= MAX_CLOCKS }

  predicate IsList(id: ListId) {
    (id.Slot? && IsBuf(id.buf) && id.index < GLOBAL_SLOTS) || id.Expired?
  }

  function AllBufs(): (bufs: set<Buf>)
    ensures forall b :: b in bufs <==> IsBuf(b)
  {
    var bufs := set k: Kind, c: nat | c <= MAX_CLOCKS :: Buf(k, c);
    assert forall b: Buf :: IsBuf(b) ==> Buf(b.kind, b.clock) in bufs;
    bufs
  }

  function AllLists(): (ids: set<ListId>)
    ensures forall id :: id in ids <==> IsList(id)
  {
    var slots := set b, i: nat | b in AllBufs() && i < GLOBAL_SLOTS :: Slot(b, i);
    assert forall b: Buf, i: nat :: Slot(b, i) in slots <==> IsBuf(b) && i < GLOBAL_SLOTS;
    assert forall id: ListId :: id in slots ==> id.Slot?;
    assert forall id: ListId :: id.Slot? ==> id == Slot(id.buf, id.index);
    slots + (set k: Kind | true :: Expired(k))
  }

  // ---------------------------------------------------------------- lists of pages

  ghost function Items(heap: Heap, r: Ref): seq<Ptr> { if r in heap then heap[r].items else [] }

  /** The descriptors of a list of pages, in the order in which they were inserted. */
  ghost function Contents(heap: Heap, chain: seq<Ref>): seq<Ptr> {
    if chain == [] then [] else Contents(heap, chain[..|chain| - 1]) + Items(heap, chain[|chain| - 1])
  }

  ghost predicate Linked(heap: Heap, chain: seq<Ref>, l: PageList) {
    && (chain == [] ==> l == PageList(NULL, NULL))
    && (chain != [] ==> l == PageList(chain[0], chain[|chain| - 1]))
    && (forall i :: 0 <= i < |chain| ==> chain[i] in heap)
    && (forall i, j :: 0 <= i < j < |chain| && j == i + 1 ==> heap[chain[i]].next == chain[j])
    && (chain != [] ==> heap[chain[|chain| - 1]].next == NULL)
  }

  /** No page of a list is empty or overfull. */
  ghost predicate Filled(heap: Heap, chain: seq<Ref>) {
    forall i :: 0 <= i < |chain| ==> 0 < |Items(heap, chain[i])| <= DESCRIPTORS_PER_PAGE
  }

  /** All pages but the last are full. */
  ghost predicate Packed(heap: Heap, chain: seq<Ref>) {
    forall i :: 0 <= i < |chain| - 1 ==> |Items(heap, chain[i])| == DESCRIPTORS_PER_PAGE
  }

  ghost predicate ListOk(heap: Heap, id: ListId, chain: seq<Ref>, l: PageList) {
    Linked(heap, chain, l) && Filled(heap, chain) && (id.Slot? ==> Packed(heap, chain))
  }

  ghost predicate Agree(heap: Heap, heap': Heap, chain: seq<Ref>) {
    forall i :: 0 <= i < |chain| ==>
      (chain[i] in heap <==> chain[i] in heap') && (chain[i] in heap ==> heap[chain[i]] == heap'[chain[i]])
  }

  lemma {:induction false} ContentsFrame(heap: Heap, heap': Heap, chain: seq<Ref>)
    requires Agree(heap, heap', chain)
    ensures Contents(heap, chain) == Contents(heap', chain)
  {
    if chain != [] {
      assert chain[|chain| - 1] in heap <==> chain[|chain| - 1] in heap';
      ContentsFrame(heap, heap', chain[..|chain| - 1]);
    }
  }

  lemma ListFrame(heap: Heap, heap': Heap, id: ListId, chain: seq<Ref>, l: PageList)
    requires Agree(heap, heap', chain) && ListOk(heap, id, chain, l)
    ensures ListOk(heap', id, chain, l) && Contents(heap, chain) == Contents(heap', chain)
  {
    ContentsFrame(heap, heap', chain);
  }

  lemma {:induction false} ContentsConcat(heap: Heap, a: seq<Ref>, b: seq<Ref>)
    ensures Contents(heap, a + b) == Contents(heap, a) + Contents(heap, b)
  {
    if b == [] {
      assert a + b == a;
    } else {
      assert (a + b)[..|a + b| - 1] == a + b[..|b| - 1];
      ContentsConcat(heap, a, b[..|b| - 1]);
    }
  }

  lemma ContentsOne(heap: Heap, r: Ref)
    ensures Contents(heap, [r]) == Items(heap, r)
  {
    assert Contents(heap, [r][..0]) == [];
  }

  // ---------------------------------------------------------------- pure effects on one list

  /** A descriptor goes into the last page of a list. */
  lemma PutInLast(heap: Heap, id: ListId, chain: seq<Ref>, l: PageList, ptr: Ptr)
    requires ListOk(heap, id, chain, l) && chain != [] && |heap[l.last].items| < DESCRIPTORS_PER_PAGE
    requires forall i :: 0 <= i < |chain| - 1 ==> chain[i] != l.last
    ensures var heap' := heap[l.last := heap[l.last].(items := heap[l.last].items + [ptr])];
            ListOk(heap', id, chain, l) && Contents(heap', chain) == Contents(heap, chain) + [ptr]
  {
    var heap' := heap[l.last := heap[l.last].(items := heap[l.last].items + [ptr])];
    var front := chain[..|chain| - 1];
    ContentsFrame(heap, heap', front);
  }

  /** A new page with its first descriptor becomes the only page of a list. */
  lemma StartList(heap: Heap, id: ListId, p: Ref, ptr: Ptr)
    requires p != NULL
    ensures var heap' := heap[p := Page(NULL, [ptr])];
            ListOk(heap', id, [p], PageList(p, p)) && Contents(heap', [p]) == [ptr]
  {
    ContentsOne(heap[p := Page(NULL, [ptr])], p);
  }

  /** A new page with its first descriptor is linked behind a full last page. */
  lemma ExtendList(heap: Heap, id: ListId, chain: seq<Ref>, l: PageList, p: Ref, ptr: Ptr)
    requires ListOk(heap, id, chain, l) && chain != [] && |heap[l.last].items| == DESCRIPTORS_PER_PAGE
    requires forall i :: 0 <= i < |chain| - 1 ==> chain[i] != l.last
    requires p != NULL && p !in chain
    ensures var heap' := heap[l.last := heap[l.last].(next := p)][p := Page(NULL, [ptr])];
            && ListOk(heap', id, chain + [p], PageList(l.first, p))
            && Contents(heap', chain + [p]) == Contents(heap, chain) + [ptr]
  {
    var heap' := heap[l.last := heap[l.last].(next := p)][p := Page(NULL, [ptr])];
    SameItems(heap, heap', chain);
    ContentsConcat(heap', chain, [p]);
    ContentsOne(heap', p);
    assert Items(heap', l.last) == Items(heap, l.last);
  }

  lemma {:induction false} SameItems(heap: Heap, heap': Heap, chain: seq<Ref>)
    requires forall i :: 0 <= i < |chain| ==> Items(heap', chain[i]) == Items(heap, chain[i])
    ensures Contents(heap', chain) == Contents(heap, chain)
  {
    if chain != [] { SameItems(heap, heap', chain[..|chain| - 1]); }
  }

  /** Two lists are joined by letting the last page of one point to the first page of the other. */
  lemma JoinLists(heap: Heap, id: ListId, a: seq<Ref>, la: PageList, from: ListId, b: seq<Ref>, lb: PageList)
    requires ListOk(heap, id, a, la) && ListOk(heap, from, b, lb) && a != [] && b != [] && id.Expired?
    requires forall i :: 0 <= i < |a| - 1 ==> a[i] != la.last
    requires la.last !in b
    ensures var heap' := heap[la.last := heap[la.last].(next := lb.first)];
            && ListOk(heap', id, a + b, PageList(la.first, lb.last))
            && Contents(heap', a + b) == Contents(heap, a) + Contents(heap, b)
  {
    var heap' := heap[la.last := heap[la.last].(next := lb.first)];
    SameItems(heap, heap', a);
    SameItems(heap, heap', b);
    ContentsConcat(heap', a, b);
    var c := a + b;
    forall i | 0 <= i < |c| - 1
      ensures heap'[c[i]].next == c[i + 1]
    {
      if i < |a| - 1 { assert c[i] == a[i] && c[i + 1] == a[i + 1]; }
      else if i == |a| - 1 { assert c[i] == la.last && c[i + 1] == b[0]; }
      else { assert c[i] == b[i - |a|] && c[i + 1] == b[i + 1 - |a|]; }
    }
    forall i | 0 <= i < |c|
      ensures c[i] in heap' && 0 < |Items(heap', c[i])| <= DESCRIPTORS_PER_PAGE
    {
      if i < |a| { assert c[i] == a[i]; } else { assert c[i] == b[i - |a|]; }
    }
  }

  /** The first page is taken off an expired list. */
  lemma CutHead(heap: Heap, id: ListId, chain: seq<Ref>, l: PageList)
    requires ListOk(heap, id, chain, l) && |chain| > 1 && id.Expired?
    ensures ListOk(heap, id, chain[1..], PageList(heap[l.first].next, l.last))
    ensures Contents(heap, chain) == Items(heap, l.first) + Contents(heap, chain[1..])
  {
    hide Contents;
    var rest := chain[1..];
    TailLinked(heap, chain, l);
    TailFilled(heap, chain);
    assert chain == [chain[0]] + rest;
    ContentsConcat(heap, [chain[0]], rest);
    ContentsOne(heap, chain[0]);
  }

  lemma TailLinked(heap: Heap, chain: seq<Ref>, l: PageList)
    requires Linked(heap, chain, l) && |chain| > 1
    ensures l.first in heap && Linked(heap, chain[1..], PageList(heap[l.first].next, l.last))
  {
    var rest := chain[1..];
    assert heap[chain[0]].next == chain[1];
    forall i | 0 <= i < |rest| ensures rest[i] in heap { assert rest[i] == chain[i + 1]; }
    forall i, j | 0 <= i < j < |rest| && j == i + 1
      ensures heap[rest[i]].next == rest[j]
    {
      assert rest[i] == chain[i + 1] && rest[j] == chain[j + 1];
    }
  }

  lemma TailFilled(heap: Heap, chain: seq<Ref>)
    requires Filled(heap, chain) && chain != []
    ensures Filled(heap, chain[1..])
  {
    var rest := chain[1..];
    forall i | 0 <= i < |rest|
      ensures 0 < |Items(heap, rest[i])| <= DESCRIPTORS_PER_PAGE
    {
      assert rest[i] == chain[i + 1];
    }
  }

  // ---------------------------------------------------------------- the invariant

  ghost predicate KeysOk(chains: Chains<ListId, Ref>, lists: map<ListId, PageList>) {
    && (forall id :: id in chains <==> IsList(id) || id == Pool || id == Loose)
    && (forall id :: id in lists <==> IsList(id))
  }

  ghost predicate ListsOk(heap: Heap, chains: Chains<ListId, Ref>, lists: map<ListId, PageList>) {
    forall id :: id in lists ==> id in chains && ListOk(heap, id, chains[id], lists[id])
  }

  ghost predicate RingsOk(length: map<Buf, nat>, index: map<Buf, nat>, chains: Chains<ListId, Ref>) {
    forall b :: IsBuf(b) ==>
      && b in length && b in index && length[b] <= GLOBAL_SLOTS
      && (if length[b] == 0 then index[b] == 0 else index[b] < length[b])
      && forall i :: length[b] <= i < GLOBAL_SLOTS ==> Slot(b, i) in chains && |chains[Slot(b, i)]| == 0
  }

  ghost predicate CursorOk(heap: Heap, chain: seq<Ref>, collected: nat) {
    if chain == [] then collected == 0 else collected <= |Items(heap, chain[0])|
  }

  ghost predicate CursorsOk(heap: Heap, chains: Chains<ListId, Ref>, collected: map<Kind, nat>) {
    forall k :: k in collected && Expired(k) in chains && CursorOk(heap, chains[Expired(k)], collected[k])
  }

  /** Lists that a change does not touch stay well formed and keep their contents. */
  lemma OtherLists(heap: Heap, heap': Heap, chains: Chains<ListId, Ref>, place: map<Ref, Place<ListId>>,
                   lists: map<ListId, PageList>, touched: set<ListId>, pages: set<Ref>)
    requires Consistent(chains, place) && ListsOk(heap, chains, lists)
    requires forall r :: r in pages && r in place ==> place[r].id in touched
    requires forall r :: r !in pages ==> (r in heap <==> r in heap') && (r in heap ==> heap[r] == heap'[r])
    ensures forall id :: id in lists && id !in touched ==>
      ListOk(heap', id, chains[id], lists[id]) && Contents(heap', chains[id]) == Contents(heap, chains[id])
    ensures forall id :: id in lists && id !in touched && chains[id] != [] ==>
      Items(heap', chains[id][0]) == Items(heap, chains[id][0])
  {
    forall id | id in lists && id !in touched
      ensures Agree(heap, heap', chains[id])
      ensures ListOk(heap', id, chains[id], lists[id]) && Contents(heap', chains[id]) == Contents(heap, chains[id])
      ensures chains[id] != [] ==> Items(heap', chains[id][0]) == Items(heap, chains[id][0])
    {
      assert Knows(chains[id], id, place);
      ListFrame(heap, heap', id, chains[id], lists[id]);
    }
  }

  lemma ListEnds(heap: Heap, id: ListId, chain: seq<Ref>, l: PageList)
    requires ListOk(heap, id, chain, l)
    ensures chain != [] ==> l == PageList(chain[0], chain[|chain| - 1]) && l.first in heap && l.last in heap
  {
  }

  lemma EmptyListOk(heap: Heap, id: ListId)
    ensures ListOk(heap, id, [], PageList(NULL, NULL))
  {
  }

  /** The last page of a list occurs in it only once. */
  lemma LastIsUnique(chains: Chains<ListId, Ref>, place: map<Ref, Place<ListId>>, id: ListId)
    requires Consistent(chains, place) && id in chains && chains[id] != []
    ensures var last := chains[id][|chains[id]| - 1];
            last in place && place[last] == Place(id, |chains[id]| - 1)
            && forall i :: 0 <= i < |chains[id]| - 1 ==> chains[id][i] != last
  {
    assert Knows(chains[id], id, place);
  }

  /** The fields of a store, with the pages of every list and the place of every page. */
  datatype Store = Store(heap: Heap, lists: map<ListId, PageList>, pool: seq<Ref>,
                         length: map<Buf, nat>, index: map<Buf, nat>, collected: map<Kind, nat>,
                         chains: Chains<ListId, Ref>, place: map<Ref, Place<ListId>>)

  ghost predicate PagesOk(s: Store) {
    && Consistent(s.chains, s.place) && s.place.Keys == s.heap.Keys && NULL !in s.heap
    && KeysOk(s.chains, s.lists)
    && s.chains[Pool] == s.pool && |s.pool| <= DESCRIPTOR_PAGE_POOL
  }

  ghost predicate Ok(s: Store) {
    && PagesOk(s) && ListsOk(s.heap, s.chains, s.lists)
    && RingsOk(s.length, s.index, s.chains) && CursorsOk(s.heap, s.chains, s.collected)
  }

  ghost function ContentsOf(s: Store, id: ListId): seq<Ptr> {
    if id in s.chains then Contents(s.heap, s.chains[id]) else []
  }

  lemma Belongs(place: map<Ref, Place<ListId>>, p: Ref, id: ListId, touched: set<ListId>)
    requires p in place && place[p].id == id && id in touched
    ensures PagesBelong(place, touched, {p})
  {
  }

  lemma WriteOne(heap: Heap, p: Ref, page: Page, pages: set<Ref>)
    requires p in pages
    ensures HeapElsewhere(heap, heap[p := page], pages)
  {
  }

  lemma ExtendFrame(heap: Heap, heap': Heap, place: map<Ref, Place<ListId>>, id: ListId, last: Ref, p: Ref, page: Page)
    requires last in heap && heap' == heap[last := heap[last].(next := p)][p := page]
    requires p in place && place[p].id == Loose && last in place && place[last].id == id
    ensures PagesBelong(place, {id, Loose}, {p, last}) && HeapElsewhere(heap, heap', {p, last})
  {
  }

  // A change touches some lists and some pages. What it has to show is split into small parts.

  ghost predicate SameElsewhere(s: Store, s': Store, touched: set<ListId>) {
    forall id :: IsList(id) && id !in touched ==>
      && id in s.chains && id in s'.chains && id in s.lists && id in s'.lists
      && s'.chains[id] == s.chains[id] && s'.lists[id] == s.lists[id]
  }

  ghost predicate PagesBelong(place: map<Ref, Place<ListId>>, touched: set<ListId>, pages: set<Ref>) {
    forall r :: r in pages && r in place ==> place[r].id in touched
  }

  ghost predicate HeapElsewhere(heap: Heap, heap': Heap, pages: set<Ref>) {
    forall r :: r !in pages ==> (r in heap <==> r in heap') && (r in heap ==> heap[r] == heap'[r])
  }

  ghost predicate TouchedOk(s: Store, touched: set<ListId>) {
    forall id :: IsList(id) && id in touched ==>
      id in s.chains && id in s.lists && ListOk(s.heap, id, s.chains[id], s.lists[id])
  }

  ghost predicate InUse(length: map<Buf, nat>, touched: set<ListId>) {
    forall id :: id in touched && id.Slot? ==> id.buf in length && id.index < length[id.buf]
  }

  ghost predicate CursorsTouched(s: Store, s': Store, touched: set<ListId>) {
    forall k ::
      && k in s'.collected && k in s.collected && Expired(k) in s'.chains
      && (Expired(k) in touched ==> CursorOk(s'.heap, s'.chains[Expired(k)], s'.collected[k]))
      && (Expired(k) !in touched ==> s'.collected[k] == s.collected[k])
  }

  lemma ListsKept(s: Store, s': Store, touched: set<ListId>, pages: set<Ref>)
    requires Consistent(s.chains, s.place) && ListsOk(s.heap, s.chains, s.lists)
    requires KeysOk(s.chains, s.lists) && KeysOk(s'.chains, s'.lists)
    requires SameElsewhere(s, s', touched) && PagesBelong(s.place, touched, pages)
    requires HeapElsewhere(s.heap, s'.heap, pages) && TouchedOk(s', touched)
    ensures ListsOk(s'.heap, s'.chains, s'.lists)
    ensures forall id :: IsList(id) && id !in touched ==> ContentsOf(s', id) == ContentsOf(s, id)
    ensures forall id :: IsList(id) && id !in touched && s'.chains[id] != [] ==>
      Items(s'.heap, s'.chains[id][0]) == Items(s.heap, s.chains[id][0])
  {
    OtherLists(s.heap, s'.heap, s.chains, s.place, s.lists, touched, pages);
    forall id | id in s'.lists
      ensures id in s'.chains && ListOk(s'.heap, id, s'.chains[id], s'.lists[id])
    {
      if id in touched {} else { assert s'.chains[id] == s.chains[id]; }
    }
  }

  lemma RingsKept(s: Store, s': Store, touched: set<ListId>)
    requires RingsOk(s.length, s.index, s.chains) && InUse(s.length, touched) && SameElsewhere(s, s', touched)
    ensures RingsOk(s.length, s.index, s'.chains)
  {
    forall b, i | IsBuf(b) && s.length[b] <= i < GLOBAL_SLOTS
      ensures Slot(b, i) in s'.chains && |s'.chains[Slot(b, i)]| == 0
    {
      assert IsList(Slot(b, i)) && Slot(b, i) !in touched;
    }
  }

  lemma CursorsKept(s: Store, s': Store, touched: set<ListId>)
    requires CursorsOk(s.heap, s.chains, s.collected) && CursorsTouched(s, s', touched)
    requires SameElsewhere(s, s', touched)
    requires forall id :: IsList(id) && id !in touched && s'.chains[id] != [] ==>
      Items(s'.heap, s'.chains[id][0]) == Items(s.heap, s.chains[id][0])
    ensures CursorsOk(s'.heap, s'.chains, s'.collected)
  {
    forall k
      ensures k in s'.collected && Expired(k) in s'.chains && CursorOk(s'.heap, s'.chains[Expired(k)], s'.collected[k])
    {
      assert CursorOk(s.heap, s.chains[Expired(k)], s.collected[k]) && IsList(Expired(k));
    }
  }

  ghost predicate Changed(s: Store, s': Store, touched: set<ListId>, pages: set<Ref>) {
    && s'.length == s.length && s'.index == s.index
    && SameElsewhere(s, s', touched) && PagesBelong(s.place, touched, pages)
    && HeapElsewhere(s.heap, s'.heap, pages) && TouchedOk(s', touched)
    && InUse(s.length, touched) && CursorsTouched(s, s', touched)
  }

  lemma Rebuild(s: Store, s': Store, touched: set<ListId>, pages: set<Ref>)
    requires Ok(s) && PagesOk(s') && Changed(s, s', touched, pages)
    ensures Ok(s')
    ensures forall id :: IsList(id) && id !in touched ==> ContentsOf(s', id) == ContentsOf(s, id)
  {
    ListsKept(s, s', touched, pages);
    RingsKept(s, s', touched);
    CursorsKept(s, s', touched);
  }

  // ---------------------------------------------------------------- pages between lists

  ghost function TakePooled(s: Store): Store
    requires Pool in s.chains && Loose in s.chains && s.chains[Pool] == s.pool && |s.pool| > 0
  {
    var n := |s.pool| - 1;
    s.(heap := s.heap[s.pool[n] := Page(NULL, [])], pool := s.pool[..n],
       chains := s.chains[Pool := s.chains[Pool][..n]][Loose := s.chains[Loose] + s.chains[Pool][n..]],
       place := MoveFrom(s.place, Pool, n, Loose, |s.chains[Loose]|))
  }

  lemma TakePooledPages(s: Store)
    requires PagesOk(s) && |s.pool| > 0 && s.chains[Loose] == []
    ensures PagesOk(TakePooled(s)) && TakePooled(s).chains[Loose] == [s.pool[|s.pool| - 1]]
    ensures PagesBelong(s.place, {Pool, Loose}, {s.pool[|s.pool| - 1]})
  {
    hide Consistent, MoveFrom;
    var n := |s.pool| - 1;
    MoveFromKeeps(s.chains, s.place, Pool, n, Loose);
    LastIsUnique(s.chains, s.place, Pool);
    MoveKeepsKeys(s.place, Pool, n, Loose, |s.chains[Loose]|);
    assert TakePooled(s).chains.Keys == s.chains.Keys;
  }

  /** A change that leaves all page lists alone. */
  ghost predicate ListsAlone(s: Store, s': Store) {
    && s' == Store(s'.heap, s.lists, s'.pool, s.length, s.index, s.collected, s'.chains, s'.place)
    && forall id :: IsList(id) ==> id in s'.chains && id in s.chains && s'.chains[id] == s.chains[id]
  }

  lemma AloneFacts(s: Store, s': Store)
    requires ListsAlone(s, s')
    ensures forall id :: IsList(id) ==> id in s'.chains && id in s.chains && s'.chains[id] == s.chains[id]
  {
  }

  lemma AloneIsElsewhere(s: Store, s': Store)
    requires KeysOk(s.chains, s.lists) && CursorsOk(s.heap, s.chains, s.collected) && ListsAlone(s, s')
    ensures SameElsewhere(s, s', {Pool, Loose}) && TouchedOk(s', {Pool, Loose}) && InUse(s.length, {Pool, Loose})
    ensures CursorsTouched(s, s', {Pool, Loose})
  {
    hide CursorOk, ListOk;
    assert forall k :: IsList(Expired(k));
  }

  lemma RebuildAlone(s: Store, s': Store, pages: set<Ref>)
    requires Ok(s) && PagesOk(s') && ListsAlone(s, s')
    requires PagesBelong(s.place, {Pool, Loose}, pages) && HeapElsewhere(s.heap, s'.heap, pages)
    ensures Ok(s')
    ensures forall id :: IsList(id) ==> ContentsOf(s', id) == ContentsOf(s, id)
  {
    hide Consistent, ListsOk, RingsOk, CursorsOk, KeysOk, SameElsewhere, TouchedOk, InUse, CursorsTouched,
      PagesBelong, HeapElsewhere, ContentsOf;
    AloneIsElsewhere(s, s');
    Rebuild(s, s', {Pool, Loose}, pages);
  }

  lemma TakePooledKeeps(s: Store)
    requires Ok(s) && |s.pool| > 0 && s.chains[Loose] == []
    ensures Ok(TakePooled(s)) && TakePooled(s).chains[Loose] == [s.pool[|s.pool| - 1]]
    ensures ListsAlone(s, TakePooled(s)) && Loose in TakePooled(s).chains
    ensures forall id :: IsList(id) ==> ContentsOf(TakePooled(s), id) == ContentsOf(s, id)
  {
    hide Consistent, ListsOk, RingsOk, CursorsOk, ContentsOf;
    TakePooledPages(s);
    RebuildAlone(s, TakePooled(s), {s.pool[|s.pool| - 1]});
  }

  ghost function TakeNew(s: Store, p: Ref): Store
    requires Loose in s.chains
  {
    s.(heap := s.heap[p := Page(NULL, [])], chains := s.chains[Loose := s.chains[Loose] + [p]],
       place := s.place[p := Place(Loose, |s.chains[Loose]|)])
  }

  lemma TakeNewKeeps(s: Store, p: Ref)
    requires Ok(s) && p != NULL && p !in s.heap && s.chains[Loose] == []
    ensures Ok(TakeNew(s, p)) && TakeNew(s, p).chains[Loose] == [p]
    ensures ListsAlone(s, TakeNew(s, p)) && Loose in TakeNew(s, p).chains
    ensures forall id :: IsList(id) ==> ContentsOf(TakeNew(s, p), id) == ContentsOf(s, id)
  {
    hide Consistent, ListsOk, RingsOk, CursorsOk, ContentsOf;
    TakeNewPages(s, p);
    RebuildAlone(s, TakeNew(s, p), {p});
  }

  lemma TakeNewPages(s: Store, p: Ref)
    requires PagesOk(s) && p != NULL && p !in s.heap && s.chains[Loose] == []
    ensures PagesOk(TakeNew(s, p)) && PagesBelong(s.place, {Pool, Loose}, {p})
  {
    AddKeeps(s.chains, s.place, Loose, p);
  }

  /** An empty page has come loose, from the pool or from malloc; every list and its contents are as they
      were, and so is every other page that was not pooled. */
  ghost predicate PageTaken(s: Store, s': Store, p: Ref) {
    && s' == Store(s'.heap, s.lists, s'.pool, s.length, s.index, s.collected, s'.chains, s'.place)
    && Ok(s') && Loose in s'.chains && s'.chains[Loose] == [p]
    && (forall id :: IsList(id) ==> id in s.chains && id in s'.chains && s'.chains[id] == s.chains[id])
    && (forall id :: IsList(id) ==> ContentsOf(s', id) == ContentsOf(s, id))
    && (forall r :: r in s.heap && r !in s.pool ==> r in s'.heap && s'.heap[r] == s.heap[r])
    && p in s'.heap && s'.heap[p] == Page(NULL, [])
  }

  /** A pool without its last page, if it has one. */
  function PoolLess(pool: seq<Ref>): seq<Ref> { if pool == [] then [] else pool[..|pool| - 1] }

  lemma PooledTaken(s: Store)
    requires Ok(s) && |s.pool| > 0 && s.chains[Loose] == []
    ensures TakePooled.requires(s)
    ensures var s' := TakePooled(s); var p := s.pool[|s.pool| - 1];
            && PageTaken(s, s', p)
            && s' == s.(heap := s.heap[p := Page(NULL, [])], pool := s.pool[..|s.pool| - 1],
                        chains := s'.chains, place := s'.place)
  {
    hide Ok, ContentsOf, MoveFrom;
    ListsThere(s);
    TakePooledKeeps(s);
  }

  lemma NewTaken(s: Store, p: Ref)
    requires Ok(s) && p != NULL && p !in s.heap && s.chains[Loose] == []
    ensures Loose in s.chains
    ensures var s' := TakeNew(s, p);
            PageTaken(s, s', p) && s' == s.(heap := s.heap[p := Page(NULL, [])], chains := s'.chains, place := s'.place)
  {
    hide Ok, ContentsOf;
    ListsThere(s);
    TakeNewKeeps(s, p);
  }

  ghost function Pooled(s: Store, p: Ref): Store
    requires Pool in s.chains && Loose in s.chains
  {
    s.(pool := s.pool + [p],
       chains := s.chains[Loose := []][Pool := s.chains[Pool] + s.chains[Loose]],
       place := MoveFrom(s.place, Loose, 0, Pool, |s.chains[Pool]|))
  }

  ghost function Freed(s: Store, p: Ref): Store
    requires Loose in s.chains && |s.chains[Loose]| > 0
  {
    s.(heap := s.heap - {p}, chains := s.chains[Loose := s.chains[Loose][1..]], place := DropHead(s.place, Loose))
  }

  /** The loose page goes to the pool, or is freed when the pool is full. */
  ghost function Recycle(s: Store, p: Ref): Store
    requires Pool in s.chains && Loose in s.chains && |s.chains[Loose]| > 0
  {
    if |s.pool| < DESCRIPTOR_PAGE_POOL then Pooled(s, p) else Freed(s, p)
  }

  lemma RecycleKeeps(s: Store, p: Ref)
    requires Ok(s) && s.chains[Loose] == [p]
    ensures Ok(Recycle(s, p)) && Recycle(s, p).chains[Loose] == [] && ListsAlone(s, Recycle(s, p))
    ensures forall id :: IsList(id) ==> ContentsOf(Recycle(s, p), id) == ContentsOf(s, id)
  {
    hide Consistent, ListsOk, RingsOk, CursorsOk, ContentsOf;
    if |s.pool| < DESCRIPTOR_PAGE_POOL { PooledPages(s, p); } else { FreedPages(s, p); }
    RebuildAlone(s, Recycle(s, p), {p});
  }

  lemma PooledPages(s: Store, p: Ref)
    requires PagesOk(s) && s.chains[Loose] == [p] && |s.pool| < DESCRIPTOR_PAGE_POOL
    ensures PagesOk(Pooled(s, p)) && Pooled(s, p).chains[Loose] == []
    ensures PagesBelong(s.place, {Pool, Loose}, {p})
  {
    hide Consistent, MoveFrom;
    var s' := Pooled(s, p);
    LastIsUnique(s.chains, s.place, Loose);
    MoveAllKeeps(s.chains, s.place, Loose, Pool);
    MoveKeepsKeys(s.place, Loose, 0, Pool, |s.chains[Pool]|);
    assert s'.chains.Keys == s.chains.Keys;
  }

  lemma MoveKeepsKeys(place: map<Ref, Place<ListId>>, a: ListId, k: nat, b: ListId, end: nat)
    ensures MoveFrom(place, a, k, b, end).Keys == place.Keys
  {
  }

  lemma FreedPages(s: Store, p: Ref)
    requires PagesOk(s) && s.chains[Loose] == [p]
    ensures PagesOk(Freed(s, p)) && Freed(s, p).chains[Loose] == []
    ensures PagesBelong(s.place, {Pool, Loose}, {p})
  {
    hide Consistent, DropHead;
    LastIsUnique(s.chains, s.place, Loose);
    DropHeadKeeps(s.chains, s.place, Loose);
    assert Freed(s, p).chains.Keys == s.chains.Keys;
  }

  // ---------------------------------------------------------------- inserting

  ghost predicate SlotInUse(s: Store, id: ListId) {
    id.Slot? && IsList(id) && id.buf in s.length && id.index < s.length[id.buf]
  }

  ghost function PutStore(s: Store, id: ListId, ptr: Ptr): Store
    requires id in s.lists && s.lists[id].last in s.heap
  {
    var last := s.lists[id].last;
    s.(heap := s.heap[last := s.heap[last].(items := s.heap[last].items + [ptr])])
  }

  lemma CursorsAlone(s: Store, s': Store, touched: set<ListId>)
    requires CursorsOk(s.heap, s.chains, s.collected) && s'.collected == s.collected
    requires KeysOk(s'.chains, s'.lists) && forall id :: id in touched ==> !id.Expired?
    ensures CursorsTouched(s, s', touched)
  {
  }

  /** Everything the rebuilding of a store after an insert into list `id` needs besides the list itself. */
  lemma InsertRebuilds(s: Store, s': Store, id: ListId, pages: set<Ref>)
    requires Ok(s) && PagesOk(s') && SlotInUse(s, id)
    requires s' == Store(s'.heap, s'.lists, s'.pool, s.length, s.index, s.collected, s'.chains, s'.place)
    requires SameElsewhere(s, s', {id, Loose})
    requires PagesBelong(s.place, {id, Loose}, pages) && HeapElsewhere(s.heap, s'.heap, pages)
    requires ListOk(s'.heap, id, s'.chains[id], s'.lists[id])
    ensures Ok(s')
    ensures forall j :: IsList(j) && j != id ==> ContentsOf(s', j) == ContentsOf(s, j)
  {
    hide Consistent, ListsOk, ListOk, RingsOk, CursorsOk, SameElsewhere, PagesBelong, HeapElsewhere;
    CursorsAlone(s, s', {id, Loose});
    Rebuild(s, s', {id, Loose}, pages);
  }

  lemma PutKeeps(s: Store, id: ListId, ptr: Ptr)
    requires Ok(s) && SlotInUse(s, id) && s.chains[id] != []
    requires |s.heap[s.lists[id].last].items| < DESCRIPTORS_PER_PAGE
    ensures Ok(PutStore(s, id, ptr)) && ContentsOf(PutStore(s, id, ptr), id) == ContentsOf(s, id) + [ptr]
    ensures forall j :: IsList(j) && j != id ==> ContentsOf(PutStore(s, id, ptr), j) == ContentsOf(s, j)
  {
    hide Ok, PagesOk, ListOk, SameElsewhere, HeapElsewhere, PagesBelong, Consistent;
    ListAt(s, id);
    PutInLast(s.heap, id, s.chains[id], s.lists[id], ptr);
    var last := s.lists[id].last;
    PutFrame(s, PutStore(s, id, ptr), id, s.heap[last].(items := s.heap[last].items + [ptr]));
    InsertRebuilds(s, PutStore(s, id, ptr), id, {s.lists[id].last});
  }

  /** All pages of list `a` have gone to the end of list `b`. */
  ghost predicate Moved(s: Store, s': Store, a: ListId, b: ListId) {
    && a in s.chains && b in s.chains && a != b
    && s'.chains == s.chains[a := []][b := s.chains[b] + s.chains[a]]
    && s'.place == MoveFrom(s.place, a, 0, b, |s.chains[b]|)
    && s'.pool == s.pool && s'.heap.Keys == s.heap.Keys && s'.lists.Keys == s.lists.Keys
  }

  lemma MovedPages(s: Store, s': Store, a: ListId, b: ListId)
    requires PagesOk(s) && Moved(s, s', a, b) && a != Pool && b != Pool
    ensures PagesOk(s')
  {
    hide Consistent, KeysOk, MoveFrom;
    MoveAllKeeps(s.chains, s.place, a, b);
    MoveKeepsKeys(s.place, a, 0, b, |s.chains[b]|);
    HasPool(s.chains, s.lists);
    assert s'.chains.Keys == s.chains.Keys;
    SameKeys(s.chains, s.lists, s'.chains, s'.lists);
  }

  lemma HasPool(chains: Chains<ListId, Ref>, lists: map<ListId, PageList>)
    requires KeysOk(chains, lists)
    ensures Pool in chains && Loose in chains
  {
  }

  /** What the store's invariant says about one list. */
  lemma ListAt(s: Store, id: ListId)
    requires Ok(s) && IsList(id)
    ensures PagesOk(s) && id in s.chains && id in s.lists && Loose in s.chains
    ensures ListOk(s.heap, id, s.chains[id], s.lists[id])
    ensures s.chains[id] != [] ==>
      && s.lists[id] == PageList(s.chains[id][0], s.chains[id][|s.chains[id]| - 1])
      && s.lists[id].last in s.heap && s.lists[id].last in s.place && s.place[s.lists[id].last].id == id
      && forall i :: 0 <= i < |s.chains[id]| - 1 ==> s.chains[id][i] != s.lists[id].last
  {
    hide RingsOk, CursorsOk, Filled, Packed;
    if s.chains[id] != [] { LastIsUnique(s.chains, s.place, id); }
  }

  lemma PutFrame(s: Store, s': Store, id: ListId, page: Page)
    requires PagesOk(s) && id in s.lists && s.lists[id].last in s.heap && s.lists[id].last in s.place
    requires s.place[s.lists[id].last].id == id
    requires s' == s.(heap := s.heap[s.lists[id].last := page])
    ensures PagesOk(s') && SameElsewhere(s, s', {id, Loose})
    ensures PagesBelong(s.place, {id, Loose}, {s.lists[id].last})
    ensures HeapElsewhere(s.heap, s'.heap, {s.lists[id].last})
  {
    hide Consistent;
    assert s'.heap.Keys == s.heap.Keys;
  }

  /** The loose page becomes the last page of list `id`. */
  ghost function LinkLoose(s: Store, id: ListId, heap: Heap, l: PageList): Store
    requires Loose in s.chains && id in s.chains
  {
    s.(heap := heap, lists := s.lists[id := l],
       chains := s.chains[Loose := []][id := s.chains[id] + s.chains[Loose]],
       place := MoveFrom(s.place, Loose, 0, id, |s.chains[id]|))
  }

  lemma LinkLoosePages(s: Store, id: ListId, heap: Heap, l: PageList, p: Ref)
    requires PagesOk(s) && IsList(id) && s.chains[Loose] == [p] && heap.Keys == s.heap.Keys
    ensures PagesOk(LinkLoose(s, id, heap, l)) && LinkLoose(s, id, heap, l).chains[Loose] == []
    ensures LinkLoose(s, id, heap, l).chains[id] == s.chains[id] + [p]
    ensures SameElsewhere(s, LinkLoose(s, id, heap, l), {id, Loose})
    ensures p in s.heap && p in s.place && s.place[p] == Place(Loose, 0) && p !in s.chains[id]
  {
    hide Consistent, MoveFrom;
    LastIsUnique(s.chains, s.place, Loose);
    NotInList(s.chains, s.place, Loose, 0, id);
    assert LinkLoose(s, id, heap, l).lists.Keys == s.lists.Keys;
    MovedPages(s, LinkLoose(s, id, heap, l), Loose, id);
  }

  lemma NotInList(chains: Chains<ListId, Ref>, place: map<Ref, Place<ListId>>, a: ListId, i: nat, b: ListId)
    requires Consistent(chains, place) && a in chains && b in chains && a != b && i < |chains[a]|
    ensures chains[a][i] !in chains[b]
  {
    assert Knows(chains[a], a, place) && Knows(chains[b], b, place);
  }

  ghost function StartStore(s: Store, id: ListId, p: Ref, ptr: Ptr): Store
    requires Loose in s.chains && id in s.chains
  {
    LinkLoose(s, id, s.heap[p := Page(NULL, [ptr])], PageList(p, p))
  }

  lemma StartKeeps(s: Store, id: ListId, p: Ref, ptr: Ptr)
    requires Ok(s) && SlotInUse(s, id) && s.chains[Loose] == [p] && s.chains[id] == []
    ensures Ok(StartStore(s, id, p, ptr)) && StartStore(s, id, p, ptr).chains[Loose] == []
    ensures ContentsOf(StartStore(s, id, p, ptr), id) == ContentsOf(s, id) + [ptr]
    ensures forall j :: IsList(j) && j != id ==> ContentsOf(StartStore(s, id, p, ptr), j) == ContentsOf(s, j)
  {
    var s' := StartStore(s, id, p, ptr);
    StartPages(s, id, p, ptr);
    LastIsUnique(s.chains, s.place, Loose);
    Belongs(s.place, p, Loose, {id, Loose});
    WriteOne(s.heap, p, Page(NULL, [ptr]), {p});
    StartList(s.heap, id, p, ptr);
    hide Consistent, ListsOk, ListOk, RingsOk, CursorsOk, SameElsewhere, PagesBelong, HeapElsewhere, KeysOk;
    InsertRebuilds(s, s', id, {p});
  }

  lemma StartPages(s: Store, id: ListId, p: Ref, ptr: Ptr)
    requires PagesOk(s) && IsList(id) && s.chains[Loose] == [p] && s.chains[id] == []
    ensures var s' := StartStore(s, id, p, ptr);
            && p != NULL && PagesOk(s') && s'.chains[Loose] == [] && s'.chains[id] == [p]
            && SameElsewhere(s, s', {id, Loose})
  {
    assert Loose in s.chains && id in s.chains;
    hide Consistent, KeysOk, SameElsewhere;
    LastIsUnique(s.chains, s.place, Loose);
    var heap' := s.heap[p := Page(NULL, [ptr])];
    assert p in s.heap && heap'.Keys == s.heap.Keys;
    LinkLoosePages(s, id, heap', PageList(p, p), p);
  }

  ghost function ExtendStore(s: Store, id: ListId, p: Ref, ptr: Ptr): Store
    requires Loose in s.chains && id in s.chains && id in s.lists && s.lists[id].last in s.heap
  {
    var l := s.lists[id];
    LinkLoose(s, id, s.heap[l.last := s.heap[l.last].(next := p)][p := Page(NULL, [ptr])], PageList(l.first, p))
  }

  lemma ExtendKeeps(s: Store, id: ListId, p: Ref, ptr: Ptr)
    requires Ok(s) && SlotInUse(s, id) && s.chains[Loose] == [p] && s.chains[id] != []
    requires |s.heap[s.lists[id].last].items| == DESCRIPTORS_PER_PAGE
    ensures Ok(ExtendStore(s, id, p, ptr)) && ExtendStore(s, id, p, ptr).chains[Loose] == []
    ensures ContentsOf(ExtendStore(s, id, p, ptr), id) == ContentsOf(s, id) + [ptr]
    ensures forall j :: IsList(j) && j != id ==> ContentsOf(ExtendStore(s, id, p, ptr), j) == ContentsOf(s, j)
  {
    var s' := ExtendStore(s, id, p, ptr);
    assert ListOk(s.heap, id, s.chains[id], s.lists[id]);
    ListEnds(s.heap, id, s.chains[id], s.lists[id]);
    ExtendPages(s, id, p, ptr);
    LastIsUnique(s.chains, s.place, Loose);
    LastIsUnique(s.chains, s.place, id);
    ExtendFrame(s.heap, s'.heap, s.place, id, s.lists[id].last, p, Page(NULL, [ptr]));
    ExtendList(s.heap, id, s.chains[id], s.lists[id], p, ptr);
    hide Consistent, ListsOk, ListOk, RingsOk, CursorsOk, SameElsewhere, PagesBelong, HeapElsewhere, KeysOk;
    InsertRebuilds(s, s', id, {p, s.lists[id].last});
  }

  lemma ExtendPages(s: Store, id: ListId, p: Ref, ptr: Ptr)
    requires PagesOk(s) && IsList(id) && s.chains[Loose] == [p] && s.chains[id] != []
    requires s.lists[id].last == s.chains[id][|s.chains[id]| - 1] && s.lists[id].last in s.heap
    ensures var s' := ExtendStore(s, id, p, ptr);
            && p != NULL && p !in s.chains[id]
            && PagesOk(s') && s'.chains[Loose] == [] && s'.chains[id] == s.chains[id] + [p]
            && SameElsewhere(s, s', {id, Loose})
  {
    var l := s.lists[id];
    assert Loose in s.chains && id in s.chains;
    hide Consistent, KeysOk, SameElsewhere;
    LastIsUnique(s.chains, s.place, Loose);
    LastIsUnique(s.chains, s.place, id);
    var heap' := s.heap[l.last := s.heap[l.last].(next := p)][p := Page(NULL, [ptr])];
    assert p in s.heap && heap'.Keys == s.heap.Keys;
    LinkLoosePages(s, id, heap', PageList(l.first, p), p);
  }

  // ---------------------------------------------------------------- expiring

  /** All pages of slot `id` go to the end of the expired list of kind `k`. */
  ghost function ExpireStore(s: Store, id: ListId, k: Kind): Store
    requires id in s.chains && Expired(k) in s.chains && id in s.lists && Expired(k) in s.lists
    requires s.lists[Expired(k)].first != NULL ==> s.lists[Expired(k)].last in s.heap
  {
    var e, l := s.lists[Expired(k)], s.lists[id];
    var joined :=
      if e.first == NULL then s.(lists := s.lists[Expired(k) := l][id := PageList(NULL, NULL)],
                                 collected := s.collected[k := 0])
      else s.(heap := s.heap[e.last := s.heap[e.last].(next := l.first)],
              lists := s.lists[Expired(k) := PageList(e.first, l.last)][id := PageList(NULL, NULL)]);
    joined.(chains := s.chains[id := []][Expired(k) := s.chains[Expired(k)] + s.chains[id]],
            place := MoveFrom(s.place, id, 0, Expired(k), |s.chains[Expired(k)]|))
  }

  lemma ExpirePages(s: Store, id: ListId, k: Kind)
    requires PagesOk(s) && IsList(id) && id.Slot? && ExpireStore.requires(s, id, k) && Loose in s.chains
    ensures var s' := ExpireStore(s, id, k);
            && PagesOk(s') && s'.chains[id] == [] && s'.chains[Expired(k)] == s.chains[Expired(k)] + s.chains[id]
            && s'.chains[Loose] == s.chains[Loose]
  {
    hide Consistent, KeysOk, Moved, PagesOk;
    var s' := ExpireStore(s, id, k);
    assert s'.heap.Keys == s.heap.Keys && s'.lists.Keys == s.lists.Keys;
    ExpireMoves(s, id, k);
    MovedPages(s, s', id, Expired(k));
  }

  lemma ExpireMoves(s: Store, id: ListId, k: Kind)
    requires id.Slot? && ExpireStore.requires(s, id, k) && Loose in s.chains
    requires ExpireStore(s, id, k).heap.Keys == s.heap.Keys && ExpireStore(s, id, k).lists.Keys == s.lists.Keys
    ensures Moved(s, ExpireStore(s, id, k), id, Expired(k))
    ensures ExpireStore(s, id, k).chains[Loose] == s.chains[Loose]
  {
  }

  lemma SameKeys(chains: Chains<ListId, Ref>, lists: map<ListId, PageList>,
                 chains': Chains<ListId, Ref>, lists': map<ListId, PageList>)
    requires KeysOk(chains, lists) && chains'.Keys == chains.Keys && lists'.Keys == lists.Keys
    ensures KeysOk(chains', lists')
  {
  }

  /** A slot list is in order as an expired list, too. */
  lemma ListElsewhere(heap: Heap, x: ListId, id: ListId, chain: seq<Ref>, l: PageList)
    requires ListOk(heap, id, chain, l) && x.Expired?
    ensures ListOk(heap, x, chain, l)
  {
  }

  lemma ExpireLists(s: Store, id: ListId, k: Kind)
    requires PagesOk(s) && ListsOk(s.heap, s.chains, s.lists) && IsList(id) && id.Slot? && s.chains[id] != []
    ensures ExpireStore.requires(s, id, k)
    ensures var s' := ExpireStore(s, id, k); var x := Expired(k);
            && ListOk(s'.heap, x, s.chains[x] + s.chains[id], s'.lists[x])
            && Contents(s'.heap, s.chains[x] + s.chains[id]) == ContentsOf(s, x) + ContentsOf(s, id)
            && (s.lists[x].first == NULL <==> s.chains[x] == [])
            && (s.chains[x] != [] ==> Items(s'.heap, s.chains[x][0]) == Items(s.heap, s.chains[x][0]))
            && (s.chains[x] != [] ==> s.lists[x].last == s.chains[x][|s.chains[x]| - 1])
  {
    hide Consistent, Filled, Packed, Linked, Contents;
    var x := Expired(k);
    ListFacts(s, x);
    ListFacts(s, id);
    if s.chains[x] == [] { ExpireToEmpty(s, id, k); } else { ExpireToList(s, id, k); }
  }

  lemma ExpireToEmpty(s: Store, id: ListId, k: Kind)
    requires ExpireStore.requires(s, id, k) && ListOk(s.heap, id, s.chains[id], s.lists[id])
    requires s.chains[Expired(k)] == [] && s.lists[Expired(k)].first == NULL && id.Slot?
    ensures var s' := ExpireStore(s, id, k); var x := Expired(k);
            && ListOk(s'.heap, x, s.chains[x] + s.chains[id], s'.lists[x])
            && Contents(s'.heap, s.chains[x] + s.chains[id]) == ContentsOf(s, x) + ContentsOf(s, id)
  {
    hide ListOk, Contents, MoveFrom;
    assert [] + s.chains[id] == s.chains[id];
    ListElsewhere(s.heap, Expired(k), id, s.chains[id], s.lists[id]);
    NoContents(s.heap);
  }

  lemma ExpireToList(s: Store, id: ListId, k: Kind)
    requires ExpireStore.requires(s, id, k) && ListOk(s.heap, id, s.chains[id], s.lists[id]) && id.Slot?
    requires Consistent(s.chains, s.place) && s.chains[id] != [] && s.chains[Expired(k)] != []
    requires ListOk(s.heap, Expired(k), s.chains[Expired(k)], s.lists[Expired(k)]) && s.lists[Expired(k)].first != NULL
    requires s.lists[Expired(k)].last == s.chains[Expired(k)][|s.chains[Expired(k)]| - 1]
    ensures var s' := ExpireStore(s, id, k); var x := Expired(k);
            && ListOk(s'.heap, x, s.chains[x] + s.chains[id], s'.lists[x])
            && Contents(s'.heap, s.chains[x] + s.chains[id]) == ContentsOf(s, x) + ContentsOf(s, id)
            && Items(s'.heap, s.chains[x][0]) == Items(s.heap, s.chains[x][0])
  {
    hide Consistent, ListOk, Contents, MoveFrom;
    var x := Expired(k);
    LastIsUnique(s.chains, s.place, x);
    NotInList(s.chains, s.place, x, |s.chains[x]| - 1, id);
    JoinLists(s.heap, x, s.chains[x], s.lists[x], id, s.chains[id], s.lists[id]);
  }

  lemma NoContents(heap: Heap)
    ensures Contents(heap, []) == []
  {
  }

  lemma ListFacts(s: Store, id: ListId)
    requires PagesOk(s) && ListsOk(s.heap, s.chains, s.lists) && IsList(id)
    ensures id in s.lists && id in s.chains && ListOk(s.heap, id, s.chains[id], s.lists[id])
    ensures s.lists[id].first == NULL <==> s.chains[id] == []
    ensures s.chains[id] == [] ==> s.lists[id] == PageList(NULL, NULL)
    ensures s.chains[id] != [] ==>
      s.lists[id] == PageList(s.chains[id][0], s.chains[id][|s.chains[id]| - 1]) && s.lists[id].last in s.heap
  {
    hide Consistent, Filled, Packed;
  }

  lemma ExpireKeeps(s: Store, id: ListId, k: Kind)
    requires Ok(s) && SlotInUse(s, id) && s.chains[id] != []
    ensures ExpireStore.requires(s, id, k)
    ensures var s' := ExpireStore(s, id, k);
            && Ok(s') && s'.chains[Loose] == s.chains[Loose] && ContentsOf(s', id) == []
            && ContentsOf(s', Expired(k)) == ContentsOf(s, Expired(k)) + ContentsOf(s, id)
            && (forall j :: IsList(j) && j != id && j != Expired(k) ==> ContentsOf(s', j) == ContentsOf(s, j))
  {
    var x := Expired(k);
    hide Consistent, ListsOk, ListOk, RingsOk, CursorsOk, SameElsewhere, TouchedOk, CursorsTouched, MoveFrom;
    ExpireLists(s, id, k);
    ExpirePages(s, id, k);
    var s' := ExpireStore(s, id, k);
    if s.chains[x] != [] { LastIsUnique(s.chains, s.place, x); }
    assert Joined(s, s', id, k);
    ExpireChanged(s, s', id, k);
    Rebuild(s, s', {id, x}, if s.chains[x] == [] then {} else {s.lists[x].last});
  }

  /** What joining slot `id` to the expired list of kind `k` does to the two lists. */
  ghost predicate Joined(s: Store, s': Store, id: ListId, k: Kind) {
    && id in s.chains && Expired(k) in s.chains && Expired(k) in s.lists
    && id in s'.chains && Expired(k) in s'.chains && Expired(k) in s'.lists
    && ListOk(s'.heap, Expired(k), s'.chains[Expired(k)], s'.lists[Expired(k)])
    && s'.chains[id] == [] && s'.chains[Expired(k)] == s.chains[Expired(k)] + s.chains[id]
    && (s.lists[Expired(k)].first == NULL <==> s.chains[Expired(k)] == [])
    && (s.chains[Expired(k)] != [] ==>
          Items(s'.heap, s.chains[Expired(k)][0]) == Items(s.heap, s.chains[Expired(k)][0]))
  }

  lemma ExpireChanged(s: Store, s': Store, id: ListId, k: Kind)
    requires ExpireStore.requires(s, id, k) && s' == ExpireStore(s, id, k)
    requires KeysOk(s.chains, s.lists) && IsList(id) && id.Slot?
    requires CursorsOk(s.heap, s.chains, s.collected) && Joined(s, s', id, k)
    ensures SameElsewhere(s, s', {id, Expired(k)}) && TouchedOk(s', {id, Expired(k)})
    ensures CursorsTouched(s, s', {id, Expired(k)})
  {
    hide ListOk, CursorsOk, CursorsTouched, SameElsewhere, TouchedOk, KeysOk, ExpireStore;
    ExpireElsewhere(s, id, k);
    ExpireTouched(s, s', id, k);
    ExpireCursors(s, s', id, k);
  }

  lemma ExpireElsewhere(s: Store, id: ListId, k: Kind)
    requires ExpireStore.requires(s, id, k) && KeysOk(s.chains, s.lists)
    ensures SameElsewhere(s, ExpireStore(s, id, k), {id, Expired(k)})
  {
    hide MoveFrom;
  }

  lemma ExpireTouched(s: Store, s': Store, id: ListId, k: Kind)
    requires ExpireStore.requires(s, id, k) && s' == ExpireStore(s, id, k) && id.Slot? && Joined(s, s', id, k)
    ensures TouchedOk(s', {id, Expired(k)})
  {
    hide ListOk, MoveFrom;
    EmptyListOk(s'.heap, id);
  }

  lemma ExpireCursors(s: Store, s': Store, id: ListId, k: Kind)
    requires id.Slot? && ExpireStore.requires(s, id, k)
    requires CursorsOk(s.heap, s.chains, s.collected) && s' == ExpireStore(s, id, k)
    requires s.lists[Expired(k)].first == NULL <==> s.chains[Expired(k)] == []
    requires s.chains[Expired(k)] != [] ==>
      Items(s'.heap, s.chains[Expired(k)][0]) == Items(s.heap, s.chains[Expired(k)][0])
    ensures CursorsTouched(s, s', {id, Expired(k)})
  {
    assert CursorOk(s.heap, s.chains[Expired(k)], s.collected[k]);
    assert forall j :: j in s.collected && Expired(j) in s.chains;
  }

  // ---------------------------------------------------------------- taking off an emptied page

  /** The first page of the expired list, all of it collected, becomes loose. */
  ghost function DetachStore(s: Store, k: Kind): Store
    requires Expired(k) in s.chains && Loose in s.chains && |s.chains[Expired(k)]| > 0
    requires Expired(k) in s.lists && s.lists[Expired(k)].first in s.heap
  {
    var x, l := Expired(k), s.lists[Expired(k)];
    var r := s.chains[x][0];
    s.(lists := s.lists[x := if l.first == l.last then PageList(NULL, NULL)
                             else PageList(s.heap[l.first].next, l.last)],
       collected := s.collected[k := 0],
       chains := s.chains[x := s.chains[x][1..]][Loose := s.chains[Loose] + [r]],
       place := DropHead(s.place, x)[r := Place(Loose, |s.chains[Loose]|)])
  }

  lemma DetachPages(s: Store, k: Kind)
    requires PagesOk(s) && s.chains[Loose] == [] && DetachStore.requires(s, k)
    ensures var s' := DetachStore(s, k);
            && PagesOk(s') && s'.chains[Loose] == [s.chains[Expired(k)][0]]
            && s'.chains[Expired(k)] == s.chains[Expired(k)][1..]
            && SameElsewhere(s, s', {Expired(k), Loose})
  {
    hide Consistent;
    var x := Expired(k);
    var r := s.chains[x][0];
    HeadIsPlaced(s.chains, s.place, x);
    DropHeadKeeps(s.chains, s.place, x);
    AddKeeps(s.chains[x := s.chains[x][1..]], DropHead(s.place, x), Loose, r);
    var s' := DetachStore(s, k);
    assert s'.place.Keys == s.place.Keys && s'.chains.Keys == s.chains.Keys && s'.lists.Keys == s.lists.Keys;
  }

  lemma HeadIsPlaced(chains: Chains<ListId, Ref>, place: map<Ref, Place<ListId>>, id: ListId)
    requires Consistent(chains, place) && id in chains && chains[id] != []
    ensures chains[id][0] in place
  {
    assert Knows(chains[id], id, place);
  }

  lemma DetachLists(s: Store, k: Kind)
    requires PagesOk(s) && ListsOk(s.heap, s.chains, s.lists) && s.chains[Expired(k)] != []
    ensures DetachStore.requires(s, k)
    ensures var s', x := DetachStore(s, k), Expired(k);
            && ListOk(s.heap, x, s.chains[x][1..], s'.lists[x])
            && s.lists[x].first == s.chains[x][0]
            && (s.lists[x].first == s.lists[x].last <==> |s.chains[x]| == 1)
            && ContentsOf(s, x) == Items(s.heap, s.chains[x][0]) + Contents(s.heap, s.chains[x][1..])
            && (|s.chains[x]| > 1 ==> s'.lists[x].first == s.chains[x][1])
  {
    var x := Expired(k);
    assert IsList(x) && ListOk(s.heap, x, s.chains[x], s.lists[x]);
    LastIsUnique(s.chains, s.place, x);
    if |s.chains[x]| == 1 {
      assert s.chains[x] == [s.chains[x][0]];
      ContentsOne(s.heap, s.chains[x][0]);
    } else {
      CutHead(s.heap, x, s.chains[x], s.lists[x]);
    }
  }

  lemma DetachKeeps(s: Store, k: Kind)
    requires Ok(s) && s.chains[Loose] == [] && s.chains[Expired(k)] != []
    ensures DetachStore.requires(s, k)
    ensures var s' := DetachStore(s, k);
            && Ok(s') && s'.chains[Loose] == [s.chains[Expired(k)][0]]
            && s'.chains[Expired(k)] == s.chains[Expired(k)][1..]
            && ContentsOf(s, Expired(k)) == Items(s.heap, s.chains[Expired(k)][0]) + ContentsOf(s', Expired(k))
            && (forall j :: IsList(j) && j != Expired(k) ==> ContentsOf(s', j) == ContentsOf(s, j))
  {
    hide Consistent, ListsOk, ListOk, RingsOk, CursorsOk, SameElsewhere, CursorsTouched;
    DetachLists(s, k);
    DetachPages(s, k);
    var s' := DetachStore(s, k);
    DetachCursors(s, s', k);
    Rebuild(s, s', {Expired(k), Loose}, {});
  }

  lemma DetachCursors(s: Store, s': Store, k: Kind)
    requires DetachStore.requires(s, k) && s' == DetachStore(s, k) && CursorsOk(s.heap, s.chains, s.collected)
    ensures CursorsTouched(s, s', {Expired(k), Loose})
  {
    assert forall j :: j in s.collected && Expired(j) in s.chains;
  }

  /** Page conservation: every allocated page is in exactly one slot, expired list or pool position;
      no page in a slot or an expired list is empty, all slot pages but the last are full. */
  lemma PagesAreConserved(s: Store)
    requires Ok(s) && s.chains[Loose] == []
    ensures forall r :: r in s.heap <==> r in s.pool || exists id :: IsList(id) && r in s.chains[id]
    ensures forall a, i, b, j :: IsList(a) && IsList(b) && 0 <= i < |s.chains[a]| && 0 <= j < |s.chains[b]| ==>
              s.chains[a][i] == s.chains[b][j] ==> a == b && i == j
    ensures forall a, i, j :: IsList(a) && 0 <= i < |s.chains[a]| && 0 <= j < |s.pool| ==> s.chains[a][i] != s.pool[j]
    ensures forall i, j :: 0 <= i < j < |s.pool| ==> s.pool[i] != s.pool[j]
    ensures |s.pool| <= DESCRIPTOR_PAGE_POOL
    ensures forall id :: IsList(id) ==> Filled(s.heap, s.chains[id]) && (id.Slot? ==> Packed(s.heap, s.chains[id]))
  {
    hide Consistent, ListsOk, RingsOk, CursorsOk, Filled, Packed;
    EachPageOnce(s.chains, s.place);
    FilledLists(s);
    EveryPageListed(s);
  }

  lemma FilledLists(s: Store)
    requires Ok(s)
    ensures forall id :: IsList(id) ==> Filled(s.heap, s.chains[id]) && (id.Slot? ==> Packed(s.heap, s.chains[id]))
  {
    hide Consistent, RingsOk, CursorsOk, Linked, Filled, Packed;
    forall id | IsList(id)
      ensures Filled(s.heap, s.chains[id]) && (id.Slot? ==> Packed(s.heap, s.chains[id]))
    {
      assert ListOk(s.heap, id, s.chains[id], s.lists[id]);
    }
  }

  lemma EveryPageListed(s: Store)
    requires Ok(s) && s.chains[Loose] == []
    ensures forall r :: r in s.heap <==> r in s.pool || exists id :: IsList(id) && r in s.chains[id]
  {
    hide Consistent, ListsOk, RingsOk, CursorsOk;
    EachPageOnce(s.chains, s.place);
    forall r | r in s.heap
      ensures r in s.pool || exists id :: IsList(id) && r in s.chains[id]
    {
      var a :| a in s.chains && r in s.chains[a];
      assert a == Pool || IsList(a);
    }
    assert Pool in s.chains;
  }

  // ---------------------------------------------------------------- the abstract view

  /** The ring a buffer stands for. */
  ghost function RingOf(s: Store, b: Buf): Ring<Ptr> {
    if b in s.length && b in s.index then Ring(seq(s.length[b], i => SlotContents(s, b, i)), s.index[b]) else Unused()
  }

  ghost function SlotContents(s: Store, b: Buf, i: int): seq<Ptr> {
    if i < 0 then [] else ContentsOf(s, Slot(b, i))
  }

  /** The queue an expired list stands for: its descriptors without the collected ones. */
  ghost function QueueOf(s: Store, k: Kind): seq<Ptr> {
    var c := ContentsOf(s, Expired(k));
    if k in s.collected && s.collected[k] <= |c| then c[s.collected[k]..] else []
  }

  lemma CursorInBounds(s: Store, k: Kind)
    requires Ok(s)
    ensures s.collected[k] <= |ContentsOf(s, Expired(k))|
    ensures s.chains[Expired(k)] != [] ==>
      Items(s.heap, s.chains[Expired(k)][0]) <= ContentsOf(s, Expired(k))
  {
    var chain := s.chains[Expired(k)];
    assert CursorOk(s.heap, chain, s.collected[k]);
    if chain != [] {
      assert chain == [chain[0]] + chain[1..];
      ContentsConcat(s.heap, [chain[0]], chain[1..]);
      ContentsOne(s.heap, chain[0]);
    }
  }

  /** An insert appends to one slot of one ring. */
  lemma InsertView(s: Store, s': Store, b: Buf, expiration: nat, ptr: Ptr)
    requires Ok(s) && IsBuf(b) && s.length[b] > 0 && s'.length == s.length && s'.index == s.index
    requires s'.collected == s.collected
    requires var id := Slot(b, Wrap(s.index[b] + expiration, s.length[b]));
             && ContentsOf(s', id) == ContentsOf(s, id) + [ptr]
             && forall j :: IsList(j) && j != id ==> ContentsOf(s', j) == ContentsOf(s, j)
    ensures Used(RingOf(s, b)) && RingOf(s', b) == Insert(RingOf(s, b), ptr, expiration)
    ensures forall c :: IsBuf(c) && c != b ==> RingOf(s', c) == RingOf(s, c)
    ensures forall k :: QueueOf(s', k) == QueueOf(s, k)
  {
    hide Consistent, ListsOk, CursorsOk, KeysOk;
    forall c, i | IsBuf(c) && 0 <= i < s.length[c]
      ensures IsList(Slot(c, i))
    {
    }
    assert forall k :: IsList(Expired(k));
  }

  /** Emptying one slot changes one ring. */
  lemma EmptiedView(s: Store, s': Store, b: Buf, i: nat)
    requires RingsOk(s.length, s.index, s.chains) && IsBuf(b) && i < s.length[b]
    requires s'.length == s.length && s'.index == s.index && ContentsOf(s', Slot(b, i)) == []
    requires forall j :: IsList(j) && j.Slot? && j != Slot(b, i) ==> ContentsOf(s', j) == ContentsOf(s, j)
    ensures RingOf(s', b) == RingOf(s, b).(slots := RingOf(s, b).slots[i := []])
    ensures forall c :: IsBuf(c) && c != b ==> RingOf(s', c) == RingOf(s, c)
  {
    forall c, j | IsBuf(c) && 0 <= j < s.length[c]
      ensures IsList(Slot(c, j))
    {
    }
  }

  /** Appending to an expired list appends to its queue. */
  lemma AppendedView(s: Store, s': Store, k: Kind, more: seq<Ptr>)
    requires k in s.collected && s.collected[k] <= |ContentsOf(s, Expired(k))|
    requires k in s'.collected && s'.collected[k] == s.collected[k]
    requires ContentsOf(s', Expired(k)) == ContentsOf(s, Expired(k)) + more
    ensures QueueOf(s', k) == QueueOf(s, k) + more
  {
  }

  /** Expiring a slot moves its contents from the ring to the end of the queue. */
  lemma ExpireView(s: Store, b: Buf, i: nat)
    requires Ok(s) && IsBuf(b) && b in s.length && i < s.length[b]
    requires s.chains[Slot(b, i)] != []
    ensures ExpireStore.requires(s, Slot(b, i), b.kind)
    ensures var s' := ExpireStore(s, Slot(b, i), b.kind);
            && Ok(s') && s'.chains[Loose] == s.chains[Loose]
            && i < |RingOf(s, b).slots|
            && RingOf(s', b) == RingOf(s, b).(slots := RingOf(s, b).slots[i := []])
            && (forall c :: IsBuf(c) && c != b ==> RingOf(s', c) == RingOf(s, c))
            && QueueOf(s', b.kind) == QueueOf(s, b.kind) + RingOf(s, b).slots[i]
            && (forall k :: k != b.kind ==> QueueOf(s', k) == QueueOf(s, k))
  {
    hide Consistent, KeysOk, ListsOk, ContentsOf, ExpireStore;
    BufInUse(s, b);
    ExpireKeeps(s, Slot(b, i), b.kind);
    ExpireCollected(s, Slot(b, i), b.kind);
    var s' := ExpireStore(s, Slot(b, i), b.kind);
    EmptiedView(s, s', b, i);
    CursorInBounds(s, b.kind);
    AppendedView(s, s', b.kind, ContentsOf(s, Slot(b, i)));
    assert forall k :: IsList(Expired(k));
  }

  lemma ExpireCollected(s: Store, id: ListId, k: Kind)
    requires Ok(s) && SlotInUse(s, id) && s.chains[id] != [] && ExpireStore.requires(s, id, k)
    ensures ExpireStore(s, id, k).length == s.length && ExpireStore(s, id, k).index == s.index
    ensures ExpireStore(s, id, k).collected == s.collected
  {
    hide Consistent, ListsOk, RingsOk;
    FirstIsNull(s, Expired(k));
    assert CursorOk(s.heap, s.chains[Expired(k)], s.collected[k]);
    assert s.collected[k := s.collected[k]] == s.collected;
  }

  /** A slot without pages holds no descriptors. */
  lemma RingFields(s: Store, b: Buf)
    requires Ok(s) && IsBuf(b)
    ensures b in s.length && b in s.index && RingOf(s, b).cur == s.index[b] && |RingOf(s, b).slots| == s.length[b]
  {
    hide Consistent, ListsOk, CursorsOk;
  }

  lemma EmptySlot(s: Store, b: Buf, i: nat)
    requires Ok(s) && IsBuf(b) && b in s.length && i < s.length[b] && s.chains[Slot(b, i)] == []
    ensures i < |RingOf(s, b).slots| && RingOf(s, b).slots[i] == []
    ensures RingOf(s, b) == RingOf(s, b).(slots := RingOf(s, b).slots[i := []])
  {
  }

  // ---------------------------------------------------------------- collecting

  ghost function CollectStore(s: Store, k: Kind): Store
    requires k in s.collected
  {
    s.(collected := s.collected[k := s.collected[k] + 1])
  }

  /** Reading the descriptor under the cursor and moving the cursor on pops the queue. */
  lemma CollectView(s: Store, k: Kind)
    requires Ok(s) && k in s.collected && s.chains[Expired(k)] != []
    requires s.collected[k] < |Items(s.heap, s.chains[Expired(k)][0])|
    ensures Ok(CollectStore(s, k)) && QueueOf(s, k) != []
    ensures QueueOf(s, k)[0] == Items(s.heap, s.chains[Expired(k)][0])[s.collected[k]]
    ensures QueueOf(CollectStore(s, k), k) == QueueOf(s, k)[1..]
    ensures forall j :: j != k ==> QueueOf(CollectStore(s, k), j) == QueueOf(s, j)
    ensures forall b :: IsBuf(b) ==> RingOf(CollectStore(s, k), b) == RingOf(s, b)
  {
    hide Consistent, KeysOk, ListsOk;
    CursorInBounds(s, k);
    var s' := CollectStore(s, k);
    assert forall id :: ContentsOf(s', id) == ContentsOf(s, id);
    assert forall j :: CursorOk(s.heap, s.chains[Expired(j)], s.collected[j]);
  }

  /** Taking off a fully collected page changes neither the queues nor the rings. */
  lemma DetachView(s: Store, k: Kind)
    requires Ok(s) && s.chains[Loose] == [] && k in s.collected && s.chains[Expired(k)] != []
    requires s.collected[k] == |Items(s.heap, s.chains[Expired(k)][0])|
    ensures DetachStore.requires(s, k)
    ensures var s' := DetachStore(s, k);
            && Ok(s') && s'.chains[Loose] == [s.chains[Expired(k)][0]]
            && s'.chains[Expired(k)] == s.chains[Expired(k)][1..]
            && (forall j :: QueueOf(s', j) == QueueOf(s, j))
            && (forall b :: IsBuf(b) ==> RingOf(s', b) == RingOf(s, b))
  {
    hide Consistent, KeysOk, ListsOk, ContentsOf;
    DetachKeeps(s, k);
    CursorInBounds(s, k);
    assert forall j :: IsList(Expired(j));
    var s' := DetachStore(s, k);
    SameRings(s, s');
    assert QueueOf(s', k) == QueueOf(s, k);
  }

  lemma SameRings(s: Store, s': Store)
    requires RingsOk(s.length, s.index, s.chains) && s'.length == s.length && s'.index == s.index
    requires forall j :: IsList(j) && j.Slot? ==> ContentsOf(s', j) == ContentsOf(s, j)
    ensures forall b :: IsBuf(b) ==> RingOf(s', b) == RingOf(s, b)
  {
    forall b, i | IsBuf(b) && 0 <= i < s.length[b]
      ensures IsList(Slot(b, i))
    {
    }
  }

  /** Page `p` has gone to the pool if that had room, and was freed otherwise. */
  ghost predicate Dropped(s: Store, pool: seq<Ref>, heap: Heap, p: Ref) {
    && (|s.pool| < DESCRIPTOR_PAGE_POOL ==> pool == s.pool + [p] && p in heap && heap == s.heap)
    && (|s.pool| >= DESCRIPTOR_PAGE_POOL ==> pool == s.pool && heap == s.heap - {p})
  }

  lemma PoolLimit(s: Store)
    requires Ok(s)
    ensures |s.pool| <= DESCRIPTOR_PAGE_POOL
  {
  }

  lemma LooseInHeap(s: Store, p: Ref)
    requires Ok(s) && s.chains[Loose] == [p]
    ensures p in s.heap && p !in s.pool
  {
    hide ListsOk, RingsOk, CursorsOk;
    NotInList(s.chains, s.place, Loose, 0, Pool);
    LastIsUnique(s.chains, s.place, Loose);
  }

  lemma PoolInHeap(s: Store)
    requires Ok(s)
    ensures forall r :: r in s.pool ==> r in s.heap
  {
    hide ListsOk, RingsOk, CursorsOk;
    assert Knows(s.chains[Pool], Pool, s.place);
  }

  // ---------------------------------------------------------------- how many pages a slot has

  lemma {:induction false} FullLength(heap: Heap, chain: seq<Ref>)
    requires forall i :: 0 <= i < |chain| ==> |Items(heap, chain[i])| == DESCRIPTORS_PER_PAGE
    ensures |Contents(heap, chain)| == |chain| * DESCRIPTORS_PER_PAGE
  {
    if chain != [] { FullLength(heap, chain[..|chain| - 1]); }
  }

  lemma {:induction false} MultiplePlus(n: nat, m: nat, d: nat)
    requires 0 < m <= d
    ensures (n * d + m) % d == 0 <==> m == d
  {
    if n == 0 {
      if m == d { RemainderStep(d, d); }
    } else {
      assert n * d + m == (n - 1) * d + m + d;
      MultiplePlus(n - 1, m, d);
      Product(n, d);
      RemainderStep(n * d + m, d);
    }
  }

  /** As all pages of a slot but the last are full, the next descriptor needs a new page if and only if
      the slot holds a multiple of what fits into a page. */
  lemma NeedsPageIff(heap: Heap, id: ListId, chain: seq<Ref>, l: PageList)
    requires ListOk(heap, id, chain, l) && id.Slot?
    ensures |Contents(heap, chain)| % DESCRIPTORS_PER_PAGE == 0 <==>
            chain == [] || |heap[l.last].items| == DESCRIPTORS_PER_PAGE
  {
    hide Contents, Filled, Packed;
    if chain == [] {
      NoContents(heap);
    } else {
      PackedLength(heap, id, chain, l);
      MultiplePlus(|chain| - 1, |heap[l.last].items|, DESCRIPTORS_PER_PAGE);
    }
  }

  lemma PackedLength(heap: Heap, id: ListId, chain: seq<Ref>, l: PageList)
    requires ListOk(heap, id, chain, l) && id.Slot? && chain != []
    ensures l.last in heap && 0 < |heap[l.last].items| <= DESCRIPTORS_PER_PAGE
    ensures |Contents(heap, chain)| == (|chain| - 1) * DESCRIPTORS_PER_PAGE + |heap[l.last].items|
  {
    var front := chain[..|chain| - 1];
    FullLength(heap, front);
    assert Contents(heap, chain) == Contents(heap, front) + Items(heap, l.last);
  }

  lemma SlotNeedsPage(s: Store, b: Buf, i: nat)
    requires Ok(s) && IsBuf(b) && b in s.length && i < s.length[b]
    ensures Slot(b, i) in s.lists && i < |RingOf(s, b).slots|
    ensures s.lists[Slot(b, i)].first != NULL ==> s.lists[Slot(b, i)].last in s.heap
    ensures |RingOf(s, b).slots[i]| % DESCRIPTORS_PER_PAGE == 0 <==>
            var l := s.lists[Slot(b, i)]; l.first == NULL || |s.heap[l.last].items| == DESCRIPTORS_PER_PAGE
  {
    hide Consistent, CursorsOk, Contents, Filled, Packed;
    BufInUse(s, b);
    ListFacts(s, Slot(b, i));
    NeedsPageIff(s.heap, Slot(b, i), s.chains[Slot(b, i)], s.lists[Slot(b, i)]);
  }

  lemma RecycleView(s: Store, p: Ref)
    requires Ok(s) && s.chains[Loose] == [p]
    ensures Ok(Recycle(s, p)) && Recycle(s, p).chains[Loose] == []
    ensures forall id :: IsList(id) ==> id in s.chains && Recycle(s, p).chains[id] == s.chains[id]
    ensures forall j :: QueueOf(Recycle(s, p), j) == QueueOf(s, j)
    ensures forall b :: IsBuf(b) ==> RingOf(Recycle(s, p), b) == RingOf(s, b)
  {
    hide Consistent, ListsOk, ContentsOf;
    RecycleKeeps(s, p);
    SameRings(s, Recycle(s, p));
    assert forall j :: IsList(Expired(j));
  }

  /** The first page of an expired list, and when the queue is empty. */
  lemma HeadOfList(s: Store, k: Kind)
    requires Ok(s)
    ensures var x := Expired(k);
            && x in s.lists && x in s.chains && k in s.collected
            && (s.lists[x].first == NULL <==> s.chains[x] == [])
            && (s.chains[x] == [] ==> QueueOf(s, k) == [])
            && (s.chains[x] != [] ==>
                  && s.lists[x].first == s.chains[x][0] && s.lists[x].first in s.heap
                  && Items(s.heap, s.chains[x][0]) == s.heap[s.lists[x].first].items
                  && s.collected[k] <= |s.heap[s.lists[x].first].items| && 0 < |s.heap[s.lists[x].first].items|)
  {
    hide Consistent, RingsOk;
    FirstIsNull(s, Expired(k));
    assert CursorOk(s.heap, s.chains[Expired(k)], s.collected[k]);
  }

  lemma ActivateView(s: Store, s': Store, b: Buf)
    requires Ok(s) && IsBuf(b) && b in s.length && s.length[b] in {0, LOCAL_SLOTS}
    requires s' == s.(length := s.length[b := LOCAL_SLOTS])
    ensures Ok(s')
    ensures RingOf(s', b) == if RingOf(s, b).slots == [] then Empty(LOCAL_SLOTS) else RingOf(s, b)
    ensures forall c :: IsBuf(c) && c != b ==> RingOf(s', c) == RingOf(s, c)
    ensures forall k :: QueueOf(s', k) == QueueOf(s, k)
  {
    hide Consistent, ListsOk, CursorsOk;
    assert forall id :: ContentsOf(s', id) == ContentsOf(s, id);
    assert forall c, i :: SlotContents(s', c, i) == SlotContents(s, c, i);
    if s.length[b] == 0 {
      assert RingOf(s', b) == Empty(LOCAL_SLOTS);
    }
  }

  /** A store without pages. */
  lemma NewStore(s: Store)
    requires KeysOk(s.chains, s.lists) && s.heap == map[] && s.place == map[] && s.pool == []
    requires forall id :: id in s.chains ==> s.chains[id] == []
    requires forall id :: id in s.lists ==> s.lists[id] == PageList(NULL, NULL)
    requires forall b :: IsBuf(b) ==> b in s.length && b in s.index && s.length[b] <= GLOBAL_SLOTS && s.index[b] == 0
    requires forall k :: k in s.collected && s.collected[k] == 0
    ensures Ok(s) && s.chains[Loose] == []
    ensures forall b :: IsBuf(b) ==> RingOf(s, b) == Empty(s.length[b])
    ensures forall k :: QueueOf(s, k) == []
  {
    forall id | id in s.lists ensures ListOk(s.heap, id, s.chains[id], s.lists[id]) { EmptyListOk(s.heap, id); }
    forall b, i | IsBuf(b) && s.length[b] <= i < GLOBAL_SLOTS
      ensures Slot(b, i) in s.chains
    {
      assert IsList(Slot(b, i));
    }
    forall k ensures Expired(k) in s.chains { assert IsList(Expired(k)); }
  }

  lemma IndexView(s: Store, s': Store, b: Buf)
    requires Ok(s) && b in s.length && IsBuf(b) && b in s.index && s.length[b] > 0
    requires s' == s.(index := s'.index) && s'.index == s.index[b := Wrap(s.index[b] + 1, s.length[b])]
    ensures Used(RingOf(s, b)) && RingOf(s', b) == RingOf(s, b).(cur := Wrap(s.index[b] + 1, s.length[b]))
    ensures forall c :: IsBuf(c) && c != b ==> RingOf(s', c) == RingOf(s, c)
    ensures forall k :: QueueOf(s', k) == QueueOf(s, k)
  {
    hide Consistent, KeysOk, ListsOk, CursorsOk, Contents;
    assert forall id :: ContentsOf(s', id) == ContentsOf(s, id);
    assert forall c, i :: SlotContents(s', c, i) == SlotContents(s, c, i);
  }

  lemma ListsThere(s: Store)
    requires Ok(s)
    ensures Loose in s.chains && Pool in s.chains && s.chains[Pool] == s.pool
    ensures forall id :: IsList(id) ==> id in s.chains
  {
  }

  lemma BufInUse(s: Store, b: Buf)
    requires Ok(s) && IsBuf(b)
    ensures b in s.length && b in s.index && (s.length[b] > 0 ==> s.index[b] < s.length[b])
    ensures forall i :: 0 <= i < s.length[b] ==> SlotInUse(s, Slot(b, i))
  {
  }

  lemma FirstIsNull(s: Store, id: ListId)
    requires Ok(s) && IsList(id)
    ensures id in s.lists && id in s.chains && (s.lists[id].first == NULL <==> s.chains[id] == [])
    ensures s.chains[id] != [] ==>
      && s.lists[id] == PageList(s.chains[id][0], s.chains[id][|s.chains[id]| - 1])
      && s.lists[id].first in s.heap && s.lists[id].last in s.heap
      && 0 < |s.heap[s.lists[id].first].items|
      && |s.heap[s.lists[id].last].items| <= DESCRIPTORS_PER_PAGE
      && s.lists[id].last !in s.pool
  {
    assert ListOk(s.heap, id, s.chains[id], s.lists[id]);
    if s.chains[id] != [] {
      NotInList(s.chains, s.place, id, |s.chains[id]| - 1, Pool);
    }
  }

  // ---------------------------------------------------------------- the store

  class DescriptorStore {
    var heap: Heap
    var lists: map<ListId, PageList>
    var pool: seq<Ref>
    var length: map<Buf, nat>
    var index: map<Buf, nat>
    var collected: map<Kind, nat>
    ghost var chains: Chains<ListId, Ref>
    ghost var place: map<Ref, Place<ListId>>

    ghost function State(): Store
      reads this
    {
      Store(heap, lists, pool, length, index, collected, chains, place)
    }

    /** Between calls every page is in a slot, in an expired list or in the pool. */
    ghost predicate Valid()
      reads this
    {
      Ok(State()) && chains[Loose] == []
    }

    /** The buffers of a new root: only the base clock and the global clock have slots. */
    constructor ()
      ensures Valid() && heap == map[]
      ensures forall b :: IsBuf(b) ==>
        && b in length
        && length[b] == (if b.clock == MAX_CLOCKS then GLOBAL_SLOTS else if b.clock == 0 then LOCAL_SLOTS else 0)
        && RingOf(State(), b) == Empty(length[b])
      ensures forall k :: QueueOf(State(), k) == []
    {
      heap, pool := map[], [];
      lists := map id | id in AllLists() :: PageList(NULL, NULL);
      length := map b | b in AllBufs() ::
                  if b.clock == MAX_CLOCKS then GLOBAL_SLOTS else if b.clock == 0 then LOCAL_SLOTS else 0;
      index := map b | b in AllBufs() :: 0;
      collected := map[ObjectKind := 0, RegionKind := 0];
      place := map[];
      chains := map id | id in AllLists() + {Pool, Loose} :: [];
      new;
      hide ListOk, RingOf, QueueOf, Ok;
      forall k ensures k in collected && collected[k] == 0 { assert k == ObjectKind || k == RegionKind; }
      NewStore(State());
    }

    /** Gives an unused buffer its slots; a buffer that has them keeps its contents. */
    method Activate(b: Buf)
      requires Valid() && IsBuf(b) && b.clock < MAX_CLOCKS && length[b] in {0, LOCAL_SLOTS}
      modifies this`length
      ensures Valid() && length == old(length)[b := LOCAL_SLOTS]
      ensures RingOf(State(), b) ==
              (if old(RingOf(State(), b)).slots == [] then Empty(LOCAL_SLOTS) else old(RingOf(State(), b)))
      ensures forall c :: IsBuf(c) && c != b ==> RingOf(State(), c) == old(RingOf(State(), c))
      ensures forall k :: QueueOf(State(), k) == old(QueueOf(State(), k))
    {
      hide Ok, ContentsOf, QueueOf, RingOf;
      ghost var s := State();
      BufInUse(s, b);
      length := length[b := LOCAL_SLOTS];
      ActivateView(s, State(), b);
    }

    method IncrementCurrentIndex(b: Buf)
      requires Valid() && IsBuf(b) && length[b] > 0
      modifies this`index
      ensures Valid() && index == old(index)[b := Wrap(old(index[b]) + 1, length[b])]
    {
      WrapIsRemainder(index[b] + 1, length[b]);
      index := index[b := (index[b] + 1) % length[b]];
    }

    method NewDescriptorPage(spare: Ref) returns (p: Ref)
      requires Valid() && spare != NULL && spare !in heap
      modifies this
      ensures PageTaken(old(State()), State(), p) && p == if old(pool) == [] then spare else old(pool)[|old(pool)| - 1]
      ensures pool == PoolLess(old(pool)) && heap == old(heap)[p := Page(NULL, [])]
    {
      hide Ok, PageTaken, TakePooled, TakeNew;
      ghost var s := State();
      ListsThere(s);
      ghost var s' := if |pool| > 0 then TakePooled(s) else TakeNew(s, spare);
      if |pool| > 0 {
        PooledTaken(s);
        p := pool[|pool| - 1];
        pool := pool[..|pool| - 1];
      } else {
        NewTaken(s, spare);
        p := spare;
      }
      heap := heap[p := Page(NULL, [])];
      chains, place := s'.chains, s'.place;
      assert State() == s';
    }

    method RecycleDescriptorPage(p: Ref)
      requires Ok(State()) && chains[Loose] == [p]
      modifies this
      ensures lists == old(lists) && length == old(length) && index == old(index) && collected == old(collected)
      ensures Valid() && State() == Recycle(old(State()), p)
      ensures |old(pool)| < DESCRIPTOR_PAGE_POOL ==> pool == old(pool) + [p] && heap == old(heap) && p in heap
      ensures |old(pool)| >= DESCRIPTOR_PAGE_POOL ==> pool == old(pool) && heap == old(heap) - {p}
      ensures forall id :: IsList(id) ==> chains[id] == old(chains)[id]
      ensures forall id :: IsList(id) ==> ContentsOf(State(), id) == ContentsOf(old(State()), id)
    {
      hide Ok, ContentsOf, ListsAlone, MoveFrom, DropHead;
      ListsThere(State());
      ghost var s' := Recycle(State(), p);
      RecycleKeeps(State(), p);
      AloneFacts(State(), s');
      LooseInHeap(State(), p);
      if |pool| < DESCRIPTOR_PAGE_POOL {
        pool := pool + [p];
      } else {
        heap := heap - {p};
      }
      chains, place := s'.chains, s'.place;
      assert State() == s';
    }

    /** An empty slot gets its first page. */
    method StartPageList(id: ListId, ptr: Ptr, spare: Ref)
      requires Valid() && SlotInUse(State(), id) && chains[id] == [] && spare != NULL && spare !in heap
      modifies this
      ensures length == old(length) && index == old(index) && collected == old(collected)
      ensures Valid() && ContentsOf(State(), id) == old(ContentsOf(State(), id)) + [ptr]
      ensures forall j :: IsList(j) && j != id ==> ContentsOf(State(), j) == ContentsOf(old(State()), j)
      ensures pool == PoolLess(old(pool)) && heap.Keys == old(heap).Keys + (if old(pool) == [] then {spare} else {})
    {
      hide Ok, ContentsOf, MoveFrom;
      FirstIsNull(State(), id);
      PoolInHeap(State());
      var p := NewDescriptorPage(spare);
      ghost var s := State();
      assert id in chains;
      ghost var s' := StartStore(s, id, p, ptr);
      StartKeeps(s, id, p, ptr);
      lists := lists[id := PageList(p, p)];
      assert heap[p].items + [ptr] == [ptr];
      heap := heap[p := heap[p].(items := heap[p].items + [ptr])];
      chains, place := s'.chains, s'.place;
      assert State() == s';
    }

    /** A slot whose last page is full gets another one. */
    method ExtendPageList(id: ListId, ptr: Ptr, spare: Ref)
      requires Valid() && SlotInUse(State(), id) && chains[id] != [] && spare != NULL && spare !in heap
      requires |heap[lists[id].last].items| == DESCRIPTORS_PER_PAGE
      modifies this
      ensures length == old(length) && index == old(index) && collected == old(collected)
      ensures Valid() && ContentsOf(State(), id) == old(ContentsOf(State(), id)) + [ptr]
      ensures forall j :: IsList(j) && j != id ==> ContentsOf(State(), j) == ContentsOf(old(State()), j)
      ensures pool == PoolLess(old(pool)) && heap.Keys == old(heap).Keys + (if old(pool) == [] then {spare} else {})
    {
      hide Ok, ContentsOf, ExtendStore;
      FirstIsNull(State(), id);
      PoolInHeap(State());
      var page := lists[id].last;
      var p := NewDescriptorPage(spare);
      assert page != p && id in chains;
      ExtendKeeps(State(), id, p, ptr);
      LinkPage(id, p, ptr);
    }

    /** Links the empty page `p` behind the last page of a slot and puts the descriptor into it. */
    method LinkPage(id: ListId, p: Ref, ptr: Ptr)
      requires ExtendStore.requires(State(), id, p, ptr) && p != lists[id].last
      requires p in heap && heap[p] == Page(NULL, [])
      modifies this
      ensures State() == ExtendStore(old(State()), id, p, ptr) && heap.Keys == old(heap).Keys && pool == old(pool)
      ensures length == old(length) && index == old(index) && collected == old(collected)
    {
      hide MoveFrom;
      ghost var s' := ExtendStore(State(), id, p, ptr);
      var page := lists[id].last;
      heap := heap[page := heap[page].(next := p)];
      lists := lists[id := lists[id].(last := p)];
      assert heap[p].items + [ptr] == [ptr];
      heap := heap[p := heap[p].(items := heap[p].items + [ptr])];
      chains, place := s'.chains, s'.place;
    }

    /** Places a descriptor; `spare` is what malloc returns if a page is needed and the pool is empty. */
    method InsertDescriptor(ptr: Ptr, b: Buf, expiration: nat, spare: Ref)
      requires Valid() && IsBuf(b) && length[b] > 0 && spare != NULL && spare !in heap
      modifies this
      ensures length == old(length) && index == old(index) && collected == old(collected)
      ensures Valid()
      ensures Used(old(RingOf(State(), b))) && RingOf(State(), b) == Insert(old(RingOf(State(), b)), ptr, expiration)
      ensures forall c :: IsBuf(c) && c != b ==> RingOf(State(), c) == old(RingOf(State(), c))
      ensures forall k :: QueueOf(State(), k) == old(QueueOf(State(), k))
      ensures var was := old(RingOf(State(), b)); var i := Wrap(was.cur + expiration, length[b]);
              && i < |was.slots|
              && if |was.slots[i]| % DESCRIPTORS_PER_PAGE == 0
                 then && pool == PoolLess(old(pool))
                      && heap.Keys == old(heap).Keys + (if old(pool) == [] then {spare} else {})
                 else pool == old(pool) && heap.Keys == old(heap).Keys
    {
      hide Ok, ContentsOf, RingOf, QueueOf, Insert;
      ghost var s0 := State();
      RingFields(s0, b);
      BufInUse(s0, b);
      WrapIsRemainder(index[b] + expiration, length[b]);
      var id := Slot(b, (index[b] + expiration) % length[b]);
      FirstIsNull(s0, id);
      SlotNeedsPage(s0, b, id.index);
      if lists[id].first == NULL {
        StartPageList(id, ptr, spare);
      } else if |heap[lists[id].last].items| == DESCRIPTORS_PER_PAGE {
        ExtendPageList(id, ptr, spare);
      } else {
        PutKeeps(s0, id, ptr);
        var page := lists[id].last;
        heap := heap[page := heap[page].(items := heap[page].items + [ptr])];
        assert State() == PutStore(s0, id, ptr);
      }
      InsertView(s0, State(), b, expiration, ptr);
    }

    /** Joins a slot list that has pages to an expired list and empties the slot. */
    method JoinExpired(id: ListId, k: Kind)
      requires ExpireStore.requires(State(), id, k) && id != Expired(k)
      modifies this
      ensures State() == ExpireStore(old(State()), id, k) && length == old(length) && index == old(index)
      ensures pool == old(pool) && heap.Keys == old(heap).Keys
    {
      hide MoveFrom;
      var x := Expired(k);
      ghost var s' := ExpireStore(State(), id, k);
      var expired := lists[x];
      if expired.first == NULL {
        lists := lists[x := lists[id]];
        collected := collected[k := 0];
      } else {
        heap := heap[expired.last := heap[expired.last].(next := lists[id].first)];
        lists := lists[x := expired.(last := lists[id].last)];
      }
      lists := lists[id := PageList(NULL, NULL)];
      chains, place := s'.chains, s'.place;
    }

    /** Appends the slot before the current one to the expired list of its kind. The branch for a
        slot whose first page is empty is unreachable. */
    method ExpireBuffer(b: Buf)
      requires Valid() && IsBuf(b) && length[b] > 0
      modifies this
      ensures Valid() && length == old(length) && index == old(index)
      ensures pool == old(pool) && heap.Keys == old(heap).Keys
      ensures var i := if index[b] == 0 then length[b] - 1 else index[b] - 1;
              var was := old(RingOf(State(), b));
              && i < |was.slots| && RingOf(State(), b) == was.(slots := was.slots[i := []])
              && QueueOf(State(), b.kind) == old(QueueOf(State(), b.kind)) + was.slots[i]
      ensures forall c :: IsBuf(c) && c != b ==> RingOf(State(), c) == old(RingOf(State(), c))
      ensures forall k :: k != b.kind ==> QueueOf(State(), k) == old(QueueOf(State(), k))
    {
      hide Ok, ContentsOf, RingOf, QueueOf, ExpireStore;
      ghost var s := State();
      BufInUse(s, b);
      var i: int := index[b];
      i := i - 1;
      if i < 0 {
        i := i + length[b];
      }
      var id := Slot(b, i);
      assert SlotInUse(s, id);
      FirstIsNull(s, id);
      if lists[id].first != NULL {
        ExpireView(s, b, i);
        if |heap[lists[id].first].items| != 0 {
          JoinExpired(id, b.kind);
        } else {
          assert false;
        }
      } else {
        EmptySlot(s, b, i);
      }
    }

    /** Makes the time of a buffer progress: increments its index and expires the slot it left. */
    method AdvanceBuffer(b: Buf)
      requires Valid() && IsBuf(b) && length[b] > 0
      modifies this
      ensures Valid() && length == old(length) && pool == old(pool) && heap.Keys == old(heap).Keys
      ensures Used(old(RingOf(State(), b))) && RingOf(State(), b) == Advance(old(RingOf(State(), b)))
      ensures QueueOf(State(), b.kind) == old(QueueOf(State(), b.kind)) + Released(old(RingOf(State(), b)))
      ensures forall c :: IsBuf(c) && c != b ==> RingOf(State(), c) == old(RingOf(State(), c))
      ensures forall k :: k != b.kind ==> QueueOf(State(), k) == old(QueueOf(State(), k))
    {
      hide Ok, ContentsOf, QueueOf;
      BufInUse(State(), b);
      ghost var s := State();
      IncrementCurrentIndex(b);
      IndexView(s, State(), b);
      WrapShift(s.index[b], 1, s.length[b]);
      ExpireBuffer(b);
    }

    /** Takes a fully collected first page off an expired list; the next page, if any, is untouched. */
    method DropEmptiedPage(k: Kind)
      requires Valid() && chains[Expired(k)] != [] && lists[Expired(k)].first in heap
      requires collected[k] == |heap[lists[Expired(k)].first].items|
      modifies this
      ensures Valid() && length == old(length) && index == old(index) && k in collected && collected[k] == 0
      ensures Dropped(old(State()), pool, heap, old(lists[Expired(k)].first))
      ensures |pool| == if |old(pool)| < DESCRIPTOR_PAGE_POOL then |old(pool)| + 1 else DESCRIPTOR_PAGE_POOL
      ensures forall j :: QueueOf(State(), j) == old(QueueOf(State(), j))
      ensures forall b :: IsBuf(b) ==> RingOf(State(), b) == old(RingOf(State(), b))
    {
      hide Ok, ContentsOf, RingOf, QueueOf;
      var x := Expired(k);
      HeadOfList(State(), k);
      PoolLimit(State());
      var emptied := lists[x].first;
      ghost var s := State();
      DetachView(s, k);
      ghost var s' := DetachStore(s, k);
      if lists[x].first == lists[x].last {
        lists := lists[x := PageList(NULL, NULL)];
      } else {
        lists := lists[x := lists[x].(first := heap[emptied].next)];
      }
      collected := collected[k := 0];
      chains, place := s'.chains, s'.place;
      assert State() == s';
      RecycleView(s', emptied);
      RecycleDescriptorPage(emptied);
    }

    /** Returns the oldest expired descriptor that has not been collected, if there is one. The first page
        is dropped exactly if everything in it had been collected before the call. */
    method GetExpiredMemory(k: Kind) returns (r: Option)
      requires Valid()
      modifies this
      ensures Valid() && length == old(length) && index == old(index)
      ensures k in old(collected) && Expired(k) in old(lists)
      ensures var first := old(lists)[Expired(k)].first;
              && (first != NULL ==> first in old(heap))
              && if first != NULL && old(collected)[k] == |old(heap)[first].items|
                 then && Dropped(old(State()), pool, heap, first)
                      && |pool| == if |old(pool)| < DESCRIPTOR_PAGE_POOL then |old(pool)| + 1 else DESCRIPTOR_PAGE_POOL
                 else pool == old(pool) && heap == old(heap)
      ensures old(QueueOf(State(), k)) == [] ==> r == None && QueueOf(State(), k) == []
      ensures old(QueueOf(State(), k)) != [] ==>
        r == Some(old(QueueOf(State(), k))[0]) && QueueOf(State(), k) == old(QueueOf(State(), k))[1..]
      ensures forall j :: j != k ==> QueueOf(State(), j) == old(QueueOf(State(), j))
      ensures forall b :: IsBuf(b) ==> RingOf(State(), b) == old(RingOf(State(), b))
    {
      hide Ok, ContentsOf, RingOf, QueueOf;
      var x := Expired(k);
      HeadOfList(State(), k);
      if lists[x].first == NULL {
        return None;
      }
      if collected[k] == |heap[lists[x].first].items| {
        DropEmptiedPage(k);
        HeadOfList(State(), k);
        if lists[x].first == NULL {
          return None;
        }
      }
      r := Some(heap[lists[x].first].items[collected[k]]);
      CollectView(State(), k);
      collected := collected[k := collected[k] + 1];
    }
  }
}
