/** The thread-local operations of scm.c as they work on a descriptor root: registering clocks,
    ticking, placing descriptors and collecting expired ones. Each is proved to do to the page-level
    store exactly what the value-level model of module Roots does. */
module Scm {
  import opened Config
  import opened Rings
  import opened Roots
  import opened Descriptors
  import H = Holdings
  import R = Regions

  /** The bank of rings and the queue that the buffers of one kind stand for. */
  ghost function RingAt(s: Store, k: Kind, c: int): Ring<Ptr> {
    if c < 0 then Unused() else RingOf(s, Buf(k, c))
  }

  ghost function BankView(s: Store, k: Kind): Bank<Ptr> {
    Bank(seq(MAX_CLOCKS + 1, c => RingAt(s, k, c)), QueueOf(s, k))
  }

  ghost predicate SameBank(s: Store, s': Store, k: Kind) {
    && (forall c: nat :: c <= MAX_CLOCKS ==> RingOf(s', Buf(k, c)) == RingOf(s, Buf(k, c)))
    && QueueOf(s', k) == QueueOf(s, k)
  }

  lemma BankKept(s: Store, s': Store, k: Kind)
    requires SameBank(s, s', k)
    ensures BankView(s', k) == BankView(s, k)
  {
    hide RingOf, QueueOf;
    forall c | 0 <= c <= MAX_CLOCKS ensures RingAt(s', k, c) == RingAt(s, k, c) { }
  }

  lemma BankAdvanced(s: Store, s': Store, k: Kind, c: nat)
    requires c <= MAX_CLOCKS && Used(RingOf(s, Buf(k, c)))
    requires RingOf(s', Buf(k, c)) == Advance(RingOf(s, Buf(k, c)))
    requires QueueOf(s', k) == QueueOf(s, k) + Released(RingOf(s, Buf(k, c)))
    requires forall d: nat :: d <= MAX_CLOCKS && d != c ==> RingOf(s', Buf(k, d)) == RingOf(s, Buf(k, d))
    ensures BankView(s', k) == AdvanceBank(BankView(s, k), c)
  {
    hide RingOf, QueueOf, Advance, Released;
    forall d | 0 <= d <= MAX_CLOCKS && d != c ensures RingAt(s', k, d) == RingAt(s, k, d) { }
  }

  lemma BankInserted(s: Store, s': Store, k: Kind, c: nat, x: Ptr, e: nat)
    requires c <= MAX_CLOCKS && Used(RingOf(s, Buf(k, c)))
    requires RingOf(s', Buf(k, c)) == Insert(RingOf(s, Buf(k, c)), x, e)
    requires QueueOf(s', k) == QueueOf(s, k)
    requires forall d: nat :: d <= MAX_CLOCKS && d != c ==> RingOf(s', Buf(k, d)) == RingOf(s, Buf(k, d))
    ensures BankView(s', k) == InsertBank(BankView(s, k), c, x, e)
  {
    hide RingOf, QueueOf, Insert;
    forall d | 0 <= d <= MAX_CLOCKS && d != c ensures RingAt(s', k, d) == RingAt(s, k, d) { }
  }

  lemma BankPopped(s: Store, s': Store, k: Kind)
    requires forall c: nat :: c <= MAX_CLOCKS ==> RingOf(s', Buf(k, c)) == RingOf(s, Buf(k, c))
    requires QueueOf(s, k) == [] ==> QueueOf(s', k) == []
    requires QueueOf(s, k) != [] ==> QueueOf(s', k) == QueueOf(s, k)[1..]
    ensures BankView(s', k) == Drop(BankView(s, k), 1)
  {
    hide RingOf, QueueOf;
    forall c | 0 <= c <= MAX_CLOCKS ensures RingAt(s', k, c) == RingAt(s, k, c) { }
  }

  lemma BankActivated(s: Store, s': Store, k: Kind, c: nat)
    requires c <= MAX_CLOCKS && RingOf(s', Buf(k, c)) == Activate(RingOf(s, Buf(k, c)))
    requires QueueOf(s', k) == QueueOf(s, k)
    requires forall d: nat :: d <= MAX_CLOCKS && d != c ==> RingOf(s', Buf(k, d)) == RingOf(s, Buf(k, d))
    ensures BankView(s', k) == BankView(s, k).(rings := BankView(s, k).rings[c := Activate(BankView(s, k).rings[c])])
  {
    hide RingOf, QueueOf, Activate;
    forall d | 0 <= d <= MAX_CLOCKS && d != c ensures RingAt(s', k, d) == RingAt(s, k, d) { }
  }

  /** The number of slots of a buffer is the length the store keeps for it. */
  lemma RingLength(s: Store, k: Kind, c: nat)
    requires Ok(s) && c <= MAX_CLOCKS
    ensures Buf(k, c) in s.length && |BankView(s, k).rings[c].slots| == s.length[Buf(k, c)]
    ensures BankView(s, k).rings[c] == RingOf(s, Buf(k, c))
    ensures Used(BankView(s, k).rings[c]) <==> s.length[Buf(k, c)] > 0
  {
    BufInUse(s, Buf(k, c));
  }

  // ---------------------------------------------------------------- searching for a clock

  /** The clock `n` steps after `start` among 1 .. MAX_CLOCKS-1. */
  function Cyclic(start: nat, n: nat): nat
    requires 1 <= start < MAX_CLOCKS && n < MAX_CLOCKS
  {
    if start + n < MAX_CLOCKS then start + n else start + n - MAX_CLOCKS + 1
  }

  predicate RegisteredBefore(r: Root<Ptr>, start: nat, n: nat)
    requires |r.age| == MAX_CLOCKS && 1 <= start < MAX_CLOCKS && n < MAX_CLOCKS
  {
    forall m :: 0 <= m < n ==> Registered(r, Cyclic(start, m))
  }

  lemma CyclicCovers(start: nat, c: nat)
    requires 1 <= start < MAX_CLOCKS && 1 <= c < MAX_CLOCKS
    ensures exists n: nat :: n < MAX_CLOCKS - 1 && Cyclic(start, n) == c
  {
    assert Cyclic(start, if c >= start then c - start else c + MAX_CLOCKS - 1 - start) == c;
  }

  /** The clock at which the search stops is the first unregistered one from its start on. */
  lemma CyclicNextFit(r: Root<Ptr>, n: nat)
    requires |r.age| == MAX_CLOCKS && 1 <= r.nextClock < MAX_CLOCKS && n < MAX_CLOCKS - 1
    requires RegisteredBefore(r, r.nextClock, n) && !Registered(r, Cyclic(r.nextClock, n))
    ensures IsNextFit(r, Cyclic(r.nextClock, n))
  {
    var start, c := r.nextClock, Cyclic(r.nextClock, n);
    forall d | 1 <= d < MAX_CLOCKS && start <= d && (d < c || c < start)
      ensures Registered(r, d)
    {
      assert Cyclic(start, d - start) == d;
    }
    forall d | 1 <= d < c && c < start
      ensures Registered(r, d)
    {
      assert Cyclic(start, d + MAX_CLOCKS - 1 - start) == d;
    }
  }

  lemma NextRemainder(i: nat)
    requires i < MAX_CLOCKS
    ensures (i + 1) % MAX_CLOCKS == if i + 1 == MAX_CLOCKS then 0 else i + 1
  {
    WrapIsRemainder(i + 1, MAX_CLOCKS);
    WrapShift(i, 1, MAX_CLOCKS);
  }

  // ---------------------------------------------------------------- collecting

  /** The headers of the allocated objects that are in no region: their descriptor counters. */
  class ObjectHeap {
    var dc: map<Ptr, nat>

    constructor ()
      ensures dc == map[]
    {
      dc := map[];
    }
  }

  /** Every queued descriptor is counted by its object. */
  ghost predicate QueueCounted(q: seq<Ptr>, dc: map<Ptr, nat>) {
    forall p :: p in q ==> p in dc && multiset(q)[p] <= dc[p]
  }

  /** `dc` is `before` after the descriptors in `done` have been collected: each decremented its object
      exactly once, and an object whose counter reached zero is gone if its finalizer returned 0. */
  ghost predicate Settled(before: map<Ptr, nat>, dc: map<Ptr, nat>, done: seq<Ptr>, finalizer: Ptr -> int) {
    dc.Keys <= before.Keys && forall p :: p in before ==> SettledAt(before, dc, multiset(done)[p], finalizer, p)
  }

  ghost predicate SettledAt(before: map<Ptr, nat>, dc: map<Ptr, nat>, m: nat, finalizer: Ptr -> int, p: Ptr)
    requires p in before
  {
    && m <= before[p]
    && if m > 0 && m == before[p] && finalizer(p) == 0 then p !in dc else p in dc && dc[p] == before[p] - m
  }

  /** The counters after one descriptor naming `p` has been collected. */
  ghost function AfterExpiry(dc: map<Ptr, nat>, p: Ptr, finalizer: Ptr -> int): map<Ptr, nat>
    requires p in dc && dc[p] >= 1
  {
    if dc[p] == 1 && finalizer(p) == 0 then dc - {p} else dc[p := dc[p] - 1]
  }

  /** The counters after the head of queue `q`, if there is one, has been collected. */
  ghost function DcAfterPop(dc: map<Ptr, nat>, q: seq<Ptr>, finalizer: Ptr -> int): map<Ptr, nat> {
    if q != [] && q[0] in dc && dc[q[0]] >= 1 then AfterExpiry(dc, q[0], finalizer) else dc
  }

  ghost function RegionsAfterPop(v: R.Snapshot, q: seq<Ptr>): R.Snapshot {
    if q != [] && R.Listed(v) && q[0] < MAX_REGIONS && v.regions[q[0]].dc >= 1 then R.CountedOff(v, q[0]) else v
  }

  lemma CountedOffCounts(v: R.Snapshot, i: nat)
    requires R.Listed(v) && i < MAX_REGIONS && v.regions[i].dc >= 1
    ensures var v' := R.CountedOff(v, i);
            && |v'.regions| == |v.regions| == MAX_REGIONS && v'.regions[i].dc == v.regions[i].dc - 1
            && forall j :: 0 <= j < MAX_REGIONS && j != i ==> v'.regions[j] == v.regions[j]
  {
  }

  lemma SettledNone(before: map<Ptr, nat>, finalizer: Ptr -> int)
    ensures Settled(before, before, [], finalizer)
  {
  }

  lemma SettledStep(before: map<Ptr, nat>, dc: map<Ptr, nat>, done: seq<Ptr>, finalizer: Ptr -> int, q: seq<Ptr>)
    requires Settled(before, dc, done, finalizer) && q != [] && QueueCounted(done + q, before)
    ensures q[0] in dc && dc[q[0]] >= 1
    ensures Settled(before, AfterExpiry(dc, q[0], finalizer), done + [q[0]], finalizer)
    ensures QueueCounted((done + [q[0]]) + q[1..], before)
  {
    var p := q[0];
    assert (done + [p]) + q[1..] == done + q;
    CountOfHead(done, q);
    assert p in done + q;
    assert SettledAt(before, dc, multiset(done)[p], finalizer, p);
    var dc' := AfterExpiry(dc, p, finalizer);
    forall x | x in before
      ensures SettledAt(before, dc', multiset(done + [p])[x], finalizer, x)
    {
      assert SettledAt(before, dc, multiset(done)[x], finalizer, x);
      CountOfAppended(done, p, x);
    }
  }

  lemma CountOfHead(done: seq<Ptr>, q: seq<Ptr>)
    requires q != []
    ensures multiset(done)[q[0]] < multiset(done + q)[q[0]]
  {
    assert q == [q[0]] + q[1..];
    assert multiset(done + q) == multiset(done) + multiset([q[0]]) + multiset(q[1..]);
  }

  lemma CountOfAppended(done: seq<Ptr>, p: Ptr, x: Ptr)
    ensures multiset(done + [p])[x] == multiset(done)[x] + if x == p then 1 else 0
  {
    assert multiset(done + [p]) == multiset(done) + multiset([p]);
  }

  function CountOf(dc: map<Ptr, nat>, p: Ptr): nat { if p in dc then dc[p] else 0 }

  function RegionCount(regions: seq<R.Region>, p: Ptr): nat { if p < |regions| then regions[p].dc else 0 }

  /** Every uncollected object descriptor of the root is counted by its object. Other roots may hold
      further descriptors of the same object. */
  ghost predicate Accounted(b: Bank<Ptr>, dc: map<Ptr, nat>) {
    forall p: Ptr :: H.Held(b, H.Naming(p)) <= CountOf(dc, p)
  }

  ghost predicate RegionsAccounted(b: Bank<Ptr>, regions: seq<R.Region>) {
    forall p: Ptr :: H.Held(b, H.Naming(p)) <= RegionCount(regions, p)
  }

  lemma AccountedQueue(b: Bank<Ptr>, dc: map<Ptr, nat>)
    requires Accounted(b, dc)
    ensures QueueCounted(b.expired, dc)
  {
    hide H.Unexpired;
    forall p: Ptr | p in b.expired
      ensures p in dc && multiset(b.expired)[p] <= dc[p]
    {
      Queued(b.expired, p);
      assert H.Held(b, H.Naming(p)) <= CountOf(dc, p);
    }
  }

  lemma RegionsAccountedQueue(b: Bank<Ptr>, regions: seq<R.Region>)
    requires RegionsAccounted(b, regions)
    ensures RegionsCounted(b.expired, regions)
  {
    hide H.Unexpired;
    forall p: Ptr | p in b.expired
      ensures p < |regions| && multiset(b.expired)[p] <= regions[p].dc
    {
      Queued(b.expired, p);
      assert H.Held(b, H.Naming(p)) <= RegionCount(regions, p);
    }
  }

  lemma PoppedNaming(b: Bank<Ptr>, p: Ptr)
    ensures H.Held(Drop(b, 1), H.Naming(p)) +
            (if b.expired != [] && b.expired[0] == p then 1 else 0) == H.Held(b, H.Naming(p))
  {
    H.NamingIsAdditive(p);
    H.DropWeight(b, 1, H.Naming(p));
    if b.expired != [] { assert b.expired[..1] == [b.expired[0]]; }
  }

  lemma PopAccounted(b: Bank<Ptr>, dc: map<Ptr, nat>, finalizer: Ptr -> int, dc': map<Ptr, nat>)
    requires Accounted(b, dc)
    requires b.expired == [] ==> dc' == dc
    requires b.expired != [] ==> var p := b.expired[0]; p in dc && dc[p] >= 1 && dc' == AfterExpiry(dc, p, finalizer)
    ensures Accounted(Drop(b, 1), dc')
  {
    forall p: Ptr
      ensures H.Held(Drop(b, 1), H.Naming(p)) <= CountOf(dc', p)
    {
      assert H.Held(b, H.Naming(p)) <= CountOf(dc, p);
      PoppedNaming(b, p);
    }
  }

  lemma PopRegionsAccounted(b: Bank<Ptr>, regions: seq<R.Region>, regions': seq<R.Region>)
    requires RegionsAccounted(b, regions)
    requires b.expired == [] ==> regions' == regions
    requires b.expired != [] ==>
      var i := b.expired[0];
      && i < |regions| == |regions'| && regions[i].dc >= 1 && regions'[i].dc == regions[i].dc - 1
      && forall j :: 0 <= j < |regions| && j != i ==> regions'[j] == regions[j]
    ensures RegionsAccounted(Drop(b, 1), regions')
  {
    forall p: Ptr
      ensures H.Held(Drop(b, 1), H.Naming(p)) <= RegionCount(regions', p)
    {
      assert H.Held(b, H.Naming(p)) <= RegionCount(regions, p);
      PoppedNaming(b, p);
    }
  }

  lemma PlaceAccounted(b: Bank<Ptr>, c: nat, x: Ptr, e: nat, dc: map<Ptr, nat>)
    requires Accounted(b, dc) && x in dc && c < |b.rings| && Used(b.rings[c])
    ensures Accounted(InsertBank(b, c, x, e), dc[x := dc[x] + 1])
    ensures H.Unexpired(InsertBank(b, c, x, e), H.Naming(x)) >= 1
  {
    H.NamingIsAdditive(x);
    H.InsertWeight(b, c, x, e, H.Naming(x));
    forall p: Ptr
      ensures H.Held(InsertBank(b, c, x, e), H.Naming(p)) <= CountOf(dc[x := dc[x] + 1], p)
    {
      assert H.Held(b, H.Naming(p)) <= CountOf(dc, p);
      H.NamingIsAdditive(p);
      H.InsertWeight(b, c, x, e, H.Naming(p));
    }
  }

  lemma PlaceRegionAccounted(b: Bank<Ptr>, c: nat, x: Ptr, e: nat, regions: seq<R.Region>)
    requires RegionsAccounted(b, regions) && x < |regions| && c < |b.rings| && Used(b.rings[c])
    ensures RegionsAccounted(InsertBank(b, c, x, e), regions[x := regions[x].(dc := regions[x].dc + 1)])
    ensures H.Unexpired(InsertBank(b, c, x, e), H.Naming(x)) >= 1
  {
    H.NamingIsAdditive(x);
    H.InsertWeight(b, c, x, e, H.Naming(x));
    forall p: Ptr
      ensures H.Held(InsertBank(b, c, x, e), H.Naming(p)) <=
              RegionCount(regions[x := regions[x].(dc := regions[x].dc + 1)], p)
    {
      assert H.Held(b, H.Naming(p)) <= RegionCount(regions, p);
      H.NamingIsAdditive(p);
      H.InsertWeight(b, c, x, e, H.Naming(p));
    }
  }

  /** Rotating rings moves descriptors without changing how many name a target. */
  lemma SameAccounted(b: Bank<Ptr>, b': Bank<Ptr>, dc: map<Ptr, nat>, regions: seq<R.Region>)
    requires forall p: Ptr :: H.Held(b', H.Naming(p)) == H.Held(b, H.Naming(p))
    ensures Accounted(b, dc) ==> Accounted(b', dc)
    ensures RegionsAccounted(b, regions) ==> RegionsAccounted(b', regions)
  {
    hide H.Held;
    if Accounted(b, dc) {
      forall p: Ptr ensures H.Held(b', H.Naming(p)) <= CountOf(dc, p) {
        assert H.Held(b, H.Naming(p)) <= CountOf(dc, p);
      }
    }
    if RegionsAccounted(b, regions) {
      forall p: Ptr ensures H.Held(b', H.Naming(p)) <= RegionCount(regions, p) {
        assert H.Held(b, H.Naming(p)) <= RegionCount(regions, p);
      }
    }
  }

  lemma TickAccounted(r: Root<Ptr>, c: nat, dc: map<Ptr, nat>, regions: seq<R.Region>)
    requires RootOk(r) && c < MAX_CLOCKS && Used(r.obj.rings[c])
    requires Accounted(r.obj, dc) && RegionsAccounted(r.reg, regions)
    ensures var r' := Roots.TickClock(r, c); Accounted(r'.obj, dc) && RegionsAccounted(r'.reg, regions)
  {
    hide H.Held, Roots.TickClock, Accounted, RegionsAccounted;
    var r' := Roots.TickClock(r, c);
    forall p: Ptr
      ensures H.Held(r'.obj, H.Naming(p)) == H.Held(r.obj, H.Naming(p))
      ensures H.Held(r'.reg, H.Naming(p)) == H.Held(r.reg, H.Naming(p))
    {
      H.NamingIsAdditive(p);
      H.TickWeight(r, c, H.Naming(p));
    }
    SameAccounted(r.obj, r'.obj, dc, regions);
    SameAccounted(r.reg, r'.reg, dc, regions);
  }

  lemma GlobalTickAccounted(r: Root<Ptr>, effective: bool, dc: map<Ptr, nat>, regions: seq<R.Region>)
    requires RootOk(r) && Accounted(r.obj, dc) && RegionsAccounted(r.reg, regions)
    ensures var r' := Roots.GlobalTick(r, effective); Accounted(r'.obj, dc) && RegionsAccounted(r'.reg, regions)
  {
    hide H.Held, Roots.GlobalTick, Accounted, RegionsAccounted;
    var r' := Roots.GlobalTick(r, effective);
    forall p: Ptr
      ensures H.Held(r'.obj, H.Naming(p)) == H.Held(r.obj, H.Naming(p))
      ensures H.Held(r'.reg, H.Naming(p)) == H.Held(r.reg, H.Naming(p))
    {
      H.NamingIsAdditive(p);
      H.GlobalTickWeight(r, effective, H.Naming(p));
    }
    SameAccounted(r.obj, r'.obj, dc, regions);
    SameAccounted(r.reg, r'.reg, dc, regions);
  }

  /** A refresh or tick before its collection. Total, so that contracts can use it; it is the call itself
      whenever the call is possible. */
  ghost function Uncollected(r: Root<Ptr>, call: H.Call<Ptr>): Root<Ptr> {
    if !RootOk(r) || !H.Callable(r, call) then r else
    match call
    case RefreshObject(x, c, e) => r.(obj := InsertBank(r.obj, c, x, e))
    case RefreshRegion(x, c, e) => r.(reg := InsertBank(r.reg, c, x, e))
    case Tick(c) => Roots.TickClock(r, c)
    case TickGlobally(effective) => Roots.GlobalTick(r, effective)
    case _ => r
  }

  /** A refresh or tick with the lazy collection at its end. */
  ghost function Lazily(r: Root<Ptr>, call: H.Call<Ptr>): Root<Ptr> { Collect(Uncollected(r, call), 1, 1) }

  /** It is the call whose runs `Holdings.LazyCollectionBound` bounds. */
  lemma LazilyIsLazyCall(r: Root<Ptr>, call: H.Call<Ptr>)
    requires RootOk(r) && H.Callable(r, call)
    requires call.RefreshObject? || call.RefreshRegion? || call.Tick? || call.TickGlobally?
    ensures Lazily(r, call) == H.LazyCall(r, call)
  {
  }

  lemma UncollectedTick(r: Root<Ptr>, c: nat)
    requires RootOk(r) && c < MAX_CLOCKS && Used(r.obj.rings[c])
    ensures Uncollected(r, H.Tick(c)) == Roots.TickClock(r, c)
  {
  }

  lemma UncollectedGlobalTick(r: Root<Ptr>, effective: bool)
    requires RootOk(r)
    ensures Uncollected(r, H.TickGlobally(effective)) == Roots.GlobalTick(r, effective)
  {
  }

  lemma UncollectedRefresh(r: Root<Ptr>, c: nat, x: Ptr, e: nat)
    requires RootOk(r) && c <= GLOBAL && Used(r.obj.rings[c])
    ensures c < |r.obj.rings| && c < |r.reg.rings| && Used(r.reg.rings[c])
    ensures Uncollected(r, H.RefreshObject(x, c, e)) == r.(obj := InsertBank(r.obj, c, x, e))
    ensures Uncollected(r, H.RefreshRegion(x, c, e)) == r.(reg := InsertBank(r.reg, c, x, e))
  {
  }

  /** A target with an unexpired descriptor stays counted whatever is popped from the queue. */
  lemma UnexpiredCounted(b: Bank<Ptr>, x: Ptr, dc: map<Ptr, nat>)
    requires Accounted(b, dc) && H.Unexpired(b, H.Naming(x)) >= 1
    ensures x in dc && dc[x] >= 1
  {
    assert H.Held(b, H.Naming(x)) <= CountOf(dc, x);
  }

  lemma UnexpiredRegionCounted(b: Bank<Ptr>, x: Ptr, regions: seq<R.Region>)
    requires RegionsAccounted(b, regions) && H.Unexpired(b, H.Naming(x)) >= 1
    ensures x < |regions| && regions[x].dc >= 1
  {
    assert H.Held(b, H.Naming(x)) <= RegionCount(regions, x);
  }

  /** One descriptor of region `i` was counted, then the head of the queue `q` was counted off; region `i`
      has kept its pages and its objects. */
  ghost predicate RegionRefreshed(v: R.Snapshot, v': R.Snapshot, i: nat, q: seq<Ptr>) {
    && i < |v.regions| && v' == RegionsAfterPop(R.CountedOn(v, i), q)
    && i < |v'.regions| && v'.regions[i].dc >= 1
    && R.Of(i) in v.chains && R.Of(i) in v'.chains && v'.chains[R.Of(i)] == v.chains[R.Of(i)]
    && i < |v.objects| && i < |v'.objects| && v'.objects[i] == v.objects[i]
  }

  /** What a refresh of a region does to the root, the object counters and the regions: nothing unless
      `counted`, that is, for an invalid index or a saturated counter. */
  ghost predicate RegionRefreshCall(r: Root<Ptr>, r': Root<Ptr>, dc: map<Ptr, nat>, dc': map<Ptr, nat>,
                                    v: R.Snapshot, v': R.Snapshot, counted: bool, index: int, c: nat, e: nat,
                                    finalizer: Ptr -> int) {
    if counted && index >= 0
    then && r' == Lazily(r, H.RefreshRegion(index, c, e))
         && RegionRefreshed(v, v', index, r.reg.expired)
         && dc' == DcAfterPop(dc, r.obj.expired, finalizer)
    else r' == r && dc' == dc && v' == v
  }

  lemma StoreListed(regions: R.RegionStore)
    requires regions.Valid()
    ensures R.Listed(regions.State()) && |regions.regions| == MAX_REGIONS
  {
    hide R.PagesOk, R.RegionsOk, R.PoolOk;
    R.StateListed(regions.heap, regions.place, regions.State(), regions.pool, regions.pooled);
  }

  lemma RefreshedRegion(v: R.Snapshot, v': R.Snapshot, i: nat, q: seq<Ptr>)
    requires R.Listed(v) && i < MAX_REGIONS && v' == RegionsAfterPop(R.CountedOn(v, i), q)
    requires i < |v'.regions| && v'.regions[i].dc >= 1
    ensures RegionRefreshed(v, v', i, q)
  {
    hide R.Prefix;
    var v1 := R.CountedOn(v, i);
    if q != [] && q[0] < MAX_REGIONS && R.Listed(v1) && v1.regions[q[0]].dc == 1 {
      R.RecycledLists(v1, q[0], v'.chains);
    }
  }

  /** The counters after one more descriptor of `p` has been counted. */
  ghost function Counted(dc: map<Ptr, nat>, p: Ptr): map<Ptr, nat> { if p in dc then dc[p := dc[p] + 1] else dc }

  ghost predicate RegionsCounted(q: seq<Ptr>, regions: seq<R.Region>) {
    forall p :: p in q ==> p < |regions| && multiset(q)[p] <= regions[p].dc
  }

  /** What `m` collected descriptors of region `i` did to it: all its descriptors recycle it, fewer only
      count down and leave its pages and objects alone. */
  ghost predicate RegionSettledAt(v: R.Snapshot, v': R.Snapshot, i: nat, m: nat)
    requires R.Listed(v) && R.Listed(v') && i < MAX_REGIONS
  {
    var r, chain := v.regions[i], v.chains[R.Of(i)];
    && m <= r.dc
    && if m > 0 && m == r.dc
       then && v'.regions[i] == R.RecycledRegion(r, chain, R.Live(v, i)) && v'.objects[i] == []
            && v'.chains[R.Of(i)] == if R.Live(v, i) then chain[..1] else []
       else v'.regions[i] == r.(dc := r.dc - m) && v'.objects[i] == v.objects[i] && v'.chains[R.Of(i)] == chain
  }

  ghost predicate RegionsSettled(v: R.Snapshot, v': R.Snapshot, done: seq<Ptr>) {
    && R.Listed(v) && R.Listed(v') && v'.time == v.time && v'.nextReg == v.nextReg
    && forall i :: 0 <= i < MAX_REGIONS ==> RegionSettledAt(v, v', i, multiset(done)[i])
  }

  lemma RegionsSettledNone(v: R.Snapshot)
    requires R.Listed(v)
    ensures RegionsSettled(v, v, [])
  {
  }

  /** Collecting one descriptor of region `i` settles it once more and leaves the other regions settled. */
  lemma CountedOffSettles(v: R.Snapshot, v': R.Snapshot, i: nat, j: nat, m: nat)
    requires R.Listed(v) && R.Listed(v') && i < MAX_REGIONS && j < MAX_REGIONS && v'.time == v.time
    requires RegionSettledAt(v, v', j, m) && v'.regions[i].dc >= 1
    ensures R.Listed(R.CountedOff(v', i))
    ensures RegionSettledAt(v, R.CountedOff(v', i), j, if j == i then m + 1 else m)
  {
    hide R.Prefix;
    var v'' := R.CountedOff(v', i);
    if v'.regions[i].dc == 1 {
      R.RecyclingListed(v', i);
      R.RecycledLists(v', i, v''.chains);
    }
  }

  lemma RegionsSettledStep(v: R.Snapshot, v': R.Snapshot, done: seq<Ptr>, q: seq<Ptr>)
    requires RegionsSettled(v, v', done) && q != [] && RegionsCounted(done + q, v.regions)
    ensures q[0] < MAX_REGIONS && v'.regions[q[0]].dc >= 1
    ensures RegionsCounted((done + [q[0]]) + q[1..], v.regions)
    ensures RegionsSettled(v, R.CountedOff(v', q[0]), done + [q[0]])
  {
    hide RegionSettledAt, R.CountedOff, R.Listed;
    var p := q[0];
    assert (done + [p]) + q[1..] == done + q;
    SettledHead(v, v', done, q);
    CountedOffTime(v', p);
    forall i: nat | i < MAX_REGIONS
      ensures R.Listed(R.CountedOff(v', p))
      ensures RegionSettledAt(v, R.CountedOff(v', p), i, multiset(done + [p])[i])
    {
      CountOfAppended(done, p, i);
      CountedOffSettles(v, v', p, i, multiset(done)[i]);
    }
  }

  lemma CountedOffTime(v: R.Snapshot, i: nat)
    requires R.Listed(v) && i < MAX_REGIONS && v.regions[i].dc >= 1
    ensures R.Listed(R.CountedOff(v, i)) && R.CountedOff(v, i).time == v.time && R.CountedOff(v, i).nextReg == v.nextReg
  {
    hide R.Prefix;
    if v.regions[i].dc == 1 { R.RecyclingListed(v, i); }
  }

  /** The region at the head of the queue still has that descriptor counted. */
  lemma SettledHead(v: R.Snapshot, v': R.Snapshot, done: seq<Ptr>, q: seq<Ptr>)
    requires RegionsSettled(v, v', done) && q != [] && RegionsCounted(done + q, v.regions)
    ensures |v.regions| == |v'.regions| == MAX_REGIONS && q[0] < MAX_REGIONS && v'.regions[q[0]].dc >= 1
  {
    CountOfHead(done, q);
    assert q[0] in done + q;
    assert RegionSettledAt(v, v', q[0], multiset(done)[q[0]]);
  }

  lemma GlobalIsUsed(r: Root<Ptr>)
    requires RootOk(r)
    ensures GLOBAL < |r.obj.rings| && GLOBAL < |r.reg.rings| && Used(r.obj.rings[GLOBAL]) && Used(r.reg.rings[GLOBAL])
  {
  }

  /** The clock has been registered at some time, so its buffers have slots. */
  predicate HasSlots(r: Root<Ptr>, c: nat) {
    c < |r.obj.rings| && Used(r.obj.rings[c])
  }

  class DescriptorRoot {
    const store: DescriptorStore
    var objAge: seq<int>
    var regAge: seq<int>
    var currentTime: int
    var roundRobin: nat
    var nextClock: nat

    ghost function View(): Root<Ptr>
      reads this, store
    {
      Root(BankView(store.State(), ObjectKind), BankView(store.State(), RegionKind),
           objAge, currentTime, roundRobin, nextClock)
    }

    ghost predicate Valid()
      reads this, store
    {
      store.Valid() && RootOk(View()) && regAge == objAge
    }

    /** The source has one current time; here the root and the store of its regions both keep it. */
    ghost predicate SameTime(regions: R.RegionStore)
      reads this, regions
    {
      currentTime == regions.currentTime
    }

    /** The root of a thread that registers without a terminated root to reuse. */
    constructor ()
      ensures Valid() && fresh(store) && View() == FreshRoot<Ptr>()
    {
      hide RootOk, Ok, RingOf, QueueOf, BankView;
      store := new DescriptorStore();
      objAge := seq(MAX_CLOCKS, c => if c == 0 then 1 else 0);
      regAge := seq(MAX_CLOCKS, c => if c == 0 then 1 else 0);
      currentTime, roundRobin, nextClock := 1, 1, 1;
      new;
      FreshView(store.State(), ObjectKind);
      FreshView(store.State(), RegionKind);
      assert objAge == regAge == FreshRoot<Ptr>().age;
      FreshOk<Ptr>();
      assert View() == FreshRoot<Ptr>();
    }

    /** Rotates the object and the region buffer of clock `c` (MAX_CLOCKS for the global ones). */
    method IncrementAndExpireClock(c: nat)
      requires Valid() && c <= MAX_CLOCKS && Used(View().obj.rings[c])
      modifies store
      ensures Valid() && CanAdvance(old(View()), c) && View() == IncrementAndExpire(old(View()), c)
    {
      hide RootOk, Ok, RingOf, QueueOf, BankView, Advance, Released, Used;
      ghost var s := store.State();
      AdvanceKeepsOk(View(), c);
      RingLength(s, ObjectKind, c);
      RingLength(s, RegionKind, c);
      UsedLengths(View(), s, c);
      store.AdvanceBuffer(Buf(ObjectKind, c));
      ghost var s1 := store.State();
      BankAdvanced(s, s1, ObjectKind, c);
      BankKept(s, s1, RegionKind);
      RingLength(s1, RegionKind, c);
      store.AdvanceBuffer(Buf(RegionKind, c));
      BankAdvanced(s1, store.State(), RegionKind, c);
      BankKept(s1, store.State(), ObjectKind);
    }

    /** Rotates the buffers under index `i` if they are a used zombie and moves the round-robin index on. */
    method CleanZombie(i: nat)
      requires Valid() && MAX_CLOCKS > 1 && i < MAX_CLOCKS
      modifies this, store
      ensures Valid() && View() == Roots.CleanZombie(old(View()), i)
      ensures currentTime == old(currentTime)
    {
      hide Ok, RingOf, QueueOf, BankView, Advance, Released;
      ghost var r := View();
      RingLength(store.State(), ObjectKind, i);
      CleanKeepsOk(r, i);
      if objAge[i] != currentTime && store.length[Buf(ObjectKind, i)] != 0 {
        IncrementAndExpireClock(i);
        NextRemainder(i);
        roundRobin := (i + 1) % MAX_CLOCKS;
        if roundRobin == 0 {
          roundRobin := 1;
        }
      }
    }

    /** Advances clock `c` and offers one zombie for cleaning. Collection follows separately. */
    method TickClock(c: nat)
      requires Valid() && c < MAX_CLOCKS && Used(View().obj.rings[c])
      modifies this, store
      ensures Valid() && View() == Roots.TickClock(old(View()), c)
      ensures currentTime == old(currentTime)
    {
      hide Ok, RingOf, QueueOf, BankView, Advance, Released, Roots.CleanZombie;
      TickKeepsOk(View(), c);
      IncrementAndExpireClock(c);
      if MAX_CLOCKS > 1 {
        var i := roundRobin;
        if i == c {
          NextRemainder(i);
          i := (i + 1) % MAX_CLOCKS;
          if i == 0 {
            i := 1;
          }
        }
        CleanZombie(i);
      }
    }

    /** The thread-local part of a global tick; `effective` is the outcome of the unlocked comparison. */
    method GlobalTick(effective: bool)
      requires Valid()
      modifies this, store
      ensures Valid() && View() == Roots.GlobalTick(old(View()), effective)
      ensures currentTime == old(currentTime)
    {
      hide Ok, RingOf, QueueOf, BankView, Advance, Released, Roots.CleanZombie;
      GlobalTickKeepsOk(View(), effective);
      if effective {
        AdvanceKeepsOk(View(), GLOBAL);
        IncrementAndExpireClock(MAX_CLOCKS);
      }
      if MAX_CLOCKS > 1 {
        CleanZombie(roundRobin);
      }
    }

    /** Registers the first unregistered clock from the next-fit index on, or returns -1 if every clock
        is registered. */
    method RegisterClock() returns (clock: int)
      requires Valid()
      modifies this, store
      ensures Valid()
      ensures clock == -1 <==> forall c :: 1 <= c < MAX_CLOCKS ==> Registered(old(View()), c)
      ensures clock == -1 ==> View() == old(View())
      ensures clock != -1 ==>
        && IsNextFit(old(View()), clock) && View() == RegisterClockAt(old(View()), clock)
        && nextClock == if clock + 1 == MAX_CLOCKS then 1 else clock + 1
    {
      hide Ok, RingOf, QueueOf, BankView, BankOk, SameIndices;
      ghost var r := View();
      if MAX_CLOCKS <= 1 {
        return -1;
      }
      var start := nextClock;
      var i := start;
      ghost var n := 0;
      while objAge[i] == currentTime
        invariant unchanged(this) && unchanged(store) && 1 <= i < MAX_CLOCKS == |objAge| && n < MAX_CLOCKS - 1
        invariant i == Cyclic(start, n) && RegisteredBefore(r, start, n)
        decreases MAX_CLOCKS - n
      {
        NextRemainder(i);
        i := (i + 1) % MAX_CLOCKS;
        i := if i != 0 then i else 1;
        n := n + 1;
        if i == start {
          forall c | 1 <= c < MAX_CLOCKS
            ensures Registered(r, c)
          {
            CyclicCovers(start, c);
          }
          return -1;
        }
      }
      CyclicNextFit(r, n);
      ActivateClock(i);
      NextRemainder(i);
      start := (i + 1) % MAX_CLOCKS;
      start := if start != 0 then start else 1;
      nextClock := start;
      RegistrationKeepsOk(r, i, 0);
      return i;
    }

    /** Gives the buffers of clock `i` their slots and the age of the running thread. */
    method ActivateClock(i: nat)
      requires Valid() && 1 <= i < MAX_CLOCKS
      modifies this, store
      ensures Valid() && View() == RegisterClockAt(old(View()), i).(nextClock := old(nextClock))
    {
      hide Ok, RingOf, QueueOf, BankView;
      ghost var r := View();
      ghost var s := store.State();
      RegistrationKeepsOk(r, i, 0);
      RingLength(s, ObjectKind, i);
      RingLength(s, RegionKind, i);
      store.Activate(Buf(ObjectKind, i));
      ghost var s1 := store.State();
      BankActivated(s, s1, ObjectKind, i);
      BankKept(s, s1, RegionKind);
      RingLength(s1, RegionKind, i);
      store.Activate(Buf(RegionKind, i));
      BankActivated(s1, store.State(), RegionKind, i);
      BankKept(s1, store.State(), ObjectKind);
      objAge := objAge[i := currentTime];
      regAge := regAge[i := currentTime];
    }

    method UnregisterClock(clock: int)
      requires Valid()
      modifies this
      ensures Valid() && View() == Roots.UnregisterClock(old(View()), clock)
    {
      hide Ok, RingOf, QueueOf, BankView;
      RegistrationKeepsOk(View(), 0, clock);
      if clock <= 1 || clock >= MAX_CLOCKS {
        return;
      }
      objAge := objAge[clock := currentTime - 1];
      regAge := regAge[clock := currentTime - 1];
    }

    /** A new thread takes over this root of a terminated one. */
    method TakeOver()
      requires Valid()
      modifies this
      ensures Valid() && View() == Reuse(old(View()))
    {
      hide Ok, RingOf, QueueOf, BankView;
      RegistrationKeepsOk(View(), 0, 0);
      currentTime := currentTime + 1;
      objAge := objAge[0 := currentTime];
      regAge := regAge[0 := currentTime];
    }

    /** Places a descriptor of a refresh; `c` is a local clock, or MAX_CLOCKS for a global refresh. */
    method PlaceDescriptor(k: Kind, ptr: Ptr, c: nat, expiration: nat, spare: Ref)
      requires Valid() && c <= MAX_CLOCKS && Used(View().obj.rings[c]) && spare != NULL && spare !in store.heap
      modifies store
      ensures Valid() && CanAdvance(old(View()), c)
      ensures View() == if k == ObjectKind
                        then old(View()).(obj := InsertBank(old(View()).obj, c, ptr, expiration))
                        else old(View()).(reg := InsertBank(old(View()).reg, c, ptr, expiration))
    {
      hide Ok, RingOf, QueueOf, BankView, Insert, RootOk;
      ghost var r := View();
      ghost var s := store.State();
      AdvanceKeepsOk(r, c);
      H.InsertKeepsOk(r, c, ptr, expiration);
      UsedLengths(r, s, c);
      RingLength(s, k, c);
      var other := if k == ObjectKind then RegionKind else ObjectKind;
      store.InsertDescriptor(ptr, Buf(k, c), expiration, spare);
      BankInserted(s, store.State(), k, c, ptr, expiration);
      BankKept(s, store.State(), other);
    }

    /** Pops the oldest expired descriptor of a kind. */
    method PopExpired(k: Kind) returns (r: Option)
      requires Valid()
      modifies store
      ensures Valid()
      ensures var q := if k == ObjectKind then old(View()).obj.expired else old(View()).reg.expired;
              r == if q == [] then None else Some(q[0])
      ensures View() == if k == ObjectKind then old(View()).(obj := Drop(old(View()).obj, 1))
                        else old(View()).(reg := Drop(old(View()).reg, 1))
    {
      hide Ok, RingOf, QueueOf, RootOk;
      ghost var s := store.State();
      r := store.GetExpiredMemory(k);
      BankPopped(s, store.State(), k);
      BankKept(s, store.State(), if k == ObjectKind then RegionKind else ObjectKind);
      DropKeepsOk(old(View()));
    }

    /** Collects one object descriptor; `finalizer` is what the object's finalizer would return. */
    method ExpireObjectDescriptor(objects: ObjectHeap, finalizer: Ptr -> int) returns (more: bool)
      requires Valid() && QueueCounted(View().obj.expired, objects.dc)
      modifies store, objects
      ensures Valid() && View() == old(View()).(obj := Drop(old(View()).obj, 1))
      ensures more <==> old(View()).obj.expired != []
      ensures !more ==> objects.dc == old(objects.dc)
      ensures more ==> var p := old(View()).obj.expired[0]; var dc := old(objects.dc);
                       && p in dc && dc[p] >= 1
                       && objects.dc == AfterExpiry(dc, p, finalizer)
    {
      hide Ok, RingOf, QueueOf, RootOk, BankView;
      ghost var q := View().obj.expired;
      var r := PopExpired(ObjectKind);
      if r == None {
        return false;
      }
      var p := r.ptr;
      Queued(q, p);
      objects.dc := objects.dc[p := objects.dc[p] - 1];
      if objects.dc[p] == 0 {
        if finalizer(p) != 0 {
          return true;
        }
        objects.dc := objects.dc - {p};
        assert objects.dc == old(objects.dc) - {p};
      }
      return true;
    }

    /** Collects one region descriptor; the last one of a region recycles it. */
    method ExpireRegionDescriptor(regions: R.RegionStore) returns (more: bool)
      requires Valid() && regions.Valid() && RegionsCounted(View().reg.expired, regions.regions)
      requires SameTime(regions)
      modifies store, regions
      ensures Valid() && regions.Valid() && View() == old(View()).(reg := Drop(old(View()).reg, 1))
      ensures more <==> old(View()).reg.expired != []
      ensures !more ==> regions.State() == old(regions.State())
      ensures more ==>
        var i, v := old(View()).reg.expired[0], old(regions.State());
        && R.Listed(v) && i < MAX_REGIONS && v.regions[i].dc >= 1 && regions.State() == R.CountedOff(v, i)
      ensures SameTime(regions)
    {
      hide Ok, RingOf, QueueOf, RootOk, BankView, R.PagesOk, R.RegionOk, R.PoolOk, R.CountedOff, R.Listed;
      ghost var q := View().reg.expired;
      var r := PopExpired(RegionKind);
      if r == None {
        return false;
      }
      Queued(q, r.ptr);
      regions.ExpireDescriptor(r.ptr);
      return true;
    }

    /** Collects one object and one region descriptor, as every call does without eager collection. */
    method LazyCollect(objects: ObjectHeap, regions: R.RegionStore, finalizer: Ptr -> int)
      requires Valid() && regions.Valid()
      requires SameTime(regions)
      requires Accounted(View().obj, objects.dc) && RegionsAccounted(View().reg, regions.regions)
      modifies store, objects, regions
      ensures Valid() && regions.Valid() && View() == Collect(old(View()), 1, 1)
      ensures Accounted(View().obj, objects.dc) && RegionsAccounted(View().reg, regions.regions)
      ensures objects.dc == DcAfterPop(old(objects.dc), old(View()).obj.expired, finalizer)
      ensures regions.State() == RegionsAfterPop(old(regions.State()), old(View()).reg.expired)
      ensures SameTime(regions)
    {
      hide Ok, RingOf, QueueOf, RootOk, BankView, Accounted, RegionsAccounted, R.RegionStore.Valid, R.CountedOff,
           R.Listed;
      ghost var r, dc, was := View(), objects.dc, regions.State();
      AccountedQueue(r.obj, dc);
      RegionsAccountedQueue(r.reg, was.regions);
      var more := ExpireObjectDescriptor(objects, finalizer);
      PopAccounted(r.obj, dc, finalizer, objects.dc);
      more := ExpireRegionDescriptor(regions);
      if more { CountedOffCounts(was, r.reg.expired[0]); }
      PopRegionsAccounted(r.reg, was.regions, regions.regions);
    }

    /** Advances a clock, cleans one zombie and collects lazily. */
    method ScmTickClock(c: nat, objects: ObjectHeap, regions: R.RegionStore, finalizer: Ptr -> int)
      requires Valid() && regions.Valid() && (c < MAX_CLOCKS ==> HasSlots(View(), c))
      requires SameTime(regions)
      requires Accounted(View().obj, objects.dc) && RegionsAccounted(View().reg, regions.regions)
      modifies this, store, objects, regions
      ensures Valid() && regions.Valid()
      ensures View() == if c < MAX_CLOCKS then Lazily(old(View()), H.Tick(c)) else old(View())
      ensures Accounted(View().obj, objects.dc) && RegionsAccounted(View().reg, regions.regions)
      ensures c >= MAX_CLOCKS ==> objects.dc == old(objects.dc) && regions.State() == old(regions.State())
      ensures c < MAX_CLOCKS ==>
        var ticked := Uncollected(old(View()), H.Tick(c));
        && objects.dc == DcAfterPop(old(objects.dc), ticked.obj.expired, finalizer)
        && regions.State() == RegionsAfterPop(old(regions.State()), ticked.reg.expired)
      ensures SameTime(regions)
    {
      hide Ok, RingOf, QueueOf, BankView, Accounted, RegionsAccounted, R.RegionStore.Valid, Roots.TickClock, RootOk,
           Drop, Uncollected,
           DcAfterPop, RegionsAfterPop;
      if c >= MAX_CLOCKS {
        return;
      }
      TickAccounted(View(), c, objects.dc, regions.regions);
      UncollectedTick(View(), c);
      TickClock(c);
      LazyCollect(objects, regions, finalizer);
    }

    /** The thread-local part of a global tick with the collection at its end. */
    method ScmGlobalTick(effective: bool, objects: ObjectHeap, regions: R.RegionStore, finalizer: Ptr -> int)
      requires Valid() && regions.Valid()
      requires SameTime(regions)
      requires Accounted(View().obj, objects.dc) && RegionsAccounted(View().reg, regions.regions)
      modifies this, store, objects, regions
      ensures Valid() && regions.Valid()
      ensures View() == Lazily(old(View()), H.TickGlobally(effective))
      ensures Accounted(View().obj, objects.dc) && RegionsAccounted(View().reg, regions.regions)
      ensures var ticked := Uncollected(old(View()), H.TickGlobally(effective));
              && objects.dc == DcAfterPop(old(objects.dc), ticked.obj.expired, finalizer)
              && regions.State() == RegionsAfterPop(old(regions.State()), ticked.reg.expired)
      ensures SameTime(regions)
    {
      hide Ok, RingOf, QueueOf, BankView, Accounted, RegionsAccounted, R.RegionStore.Valid, Roots.GlobalTick, RootOk,
           Drop,
           DcAfterPop, RegionsAfterPop, Uncollected;
      UncollectedGlobalTick(View(), effective);
      GlobalTickAccounted(View(), effective, objects.dc, regions.regions);
      GlobalTick(effective);
      LazyCollect(objects, regions, finalizer);
    }

    /** Refreshes an object with a local clock. It never frees the object it refreshes. */
    method ScmRefreshWithClock(ptr: Ptr, extension: nat, clock: nat, spare: Ref,
                               objects: ObjectHeap, regions: R.RegionStore, finalizer: Ptr -> int)
      requires Valid() && regions.Valid() && ptr in objects.dc && spare != NULL && spare !in store.heap
      requires SameTime(regions)
      requires clock < MAX_CLOCKS ==> HasSlots(View(), clock)
      requires Accounted(View().obj, objects.dc) && RegionsAccounted(View().reg, regions.regions)
      modifies this, store, objects, regions
      ensures Valid() && regions.Valid() && ptr in objects.dc
      ensures Accounted(View().obj, objects.dc) && RegionsAccounted(View().reg, regions.regions)
      ensures old(objects.dc)[ptr] == INT_MAX || clock >= MAX_CLOCKS ==>
        View() == old(View()) && objects.dc == old(objects.dc) && regions.State() == old(regions.State())
      ensures old(objects.dc)[ptr] != INT_MAX && clock < MAX_CLOCKS ==>
        && View() == Lazily(old(View()), H.RefreshObject(ptr, clock, CheckExtension(extension)))
        && objects.dc == DcAfterPop(Counted(old(objects.dc), ptr), old(View()).obj.expired, finalizer)
        && regions.State() == RegionsAfterPop(old(regions.State()), old(View()).reg.expired)
      ensures SameTime(regions)
    {
      hide Ok, RingOf, QueueOf, BankView, Accounted, RegionsAccounted, R.RegionStore.Valid, RootOk,
           DcAfterPop, RegionsAfterPop, Uncollected;
      if objects.dc[ptr] == INT_MAX {
        return;
      }
      var e := CheckExtension(extension);
      if clock >= MAX_CLOCKS {
        return;
      }
      PlaceObject(ptr, clock, e, spare, objects, regions, finalizer);
    }

    /** Refreshes an object with the global clock: the descriptor is placed two slots later. */
    method ScmGlobalRefresh(ptr: Ptr, extension: nat, spare: Ref,
                            objects: ObjectHeap, regions: R.RegionStore, finalizer: Ptr -> int)
      requires Valid() && regions.Valid() && ptr in objects.dc && spare != NULL && spare !in store.heap
      requires SameTime(regions)
      requires Accounted(View().obj, objects.dc) && RegionsAccounted(View().reg, regions.regions)
      modifies this, store, objects, regions
      ensures Valid() && regions.Valid() && ptr in objects.dc
      ensures Accounted(View().obj, objects.dc) && RegionsAccounted(View().reg, regions.regions)
      ensures old(objects.dc)[ptr] == INT_MAX ==>
        View() == old(View()) && objects.dc == old(objects.dc) && regions.State() == old(regions.State())
      ensures old(objects.dc)[ptr] != INT_MAX ==>
        && View() == Lazily(old(View()), H.RefreshObject(ptr, GLOBAL, CheckExtension(extension) + 2))
        && objects.dc == DcAfterPop(Counted(old(objects.dc), ptr), old(View()).obj.expired, finalizer)
        && regions.State() == RegionsAfterPop(old(regions.State()), old(View()).reg.expired)
      ensures SameTime(regions)
    {
      hide Ok, RingOf, QueueOf, BankView, Accounted, RegionsAccounted, R.RegionStore.Valid, RootOk,
           DcAfterPop, RegionsAfterPop, Uncollected;
      GlobalIsUsed(View());
      if objects.dc[ptr] == INT_MAX {
        return;
      }
      var e := CheckExtension(extension);
      PlaceObject(ptr, GLOBAL, e + 2, spare, objects, regions, finalizer);
    }

    /** What both refreshes of an object do after their checks: count, place, collect. */
    method PlaceObject(ptr: Ptr, c: nat, e: nat, spare: Ref,
                       objects: ObjectHeap, regions: R.RegionStore, finalizer: Ptr -> int)
      requires Valid() && regions.Valid() && ptr in objects.dc && spare != NULL && spare !in store.heap
      requires SameTime(regions)
      requires c <= MAX_CLOCKS && HasSlots(View(), c)
      requires Accounted(View().obj, objects.dc) && RegionsAccounted(View().reg, regions.regions)
      modifies store, objects, regions
      ensures Valid() && regions.Valid() && ptr in objects.dc
      ensures Accounted(View().obj, objects.dc) && RegionsAccounted(View().reg, regions.regions)
      ensures View() == Lazily(old(View()), H.RefreshObject(ptr, c, e))
      ensures objects.dc == DcAfterPop(Counted(old(objects.dc), ptr), old(View()).obj.expired, finalizer)
      ensures regions.State() == RegionsAfterPop(old(regions.State()), old(View()).reg.expired)
      ensures SameTime(regions)
    {
      hide Ok, RingOf, QueueOf, BankView, Accounted, RegionsAccounted, R.RegionStore.Valid, Insert, RootOk,
           DcAfterPop, RegionsAfterPop, Uncollected;
      UncollectedRefresh(View(), c, ptr, e);
      PlaceAccounted(View().obj, c, ptr, e, objects.dc);
      objects.dc := objects.dc[ptr := objects.dc[ptr] + 1];
      PlaceDescriptor(ObjectKind, ptr, c, e, spare);
      ghost var r := View();
      LazyCollect(objects, regions, finalizer);
      assert View().obj.rings == r.obj.rings;
      UnexpiredCounted(View().obj, ptr, objects.dc);
    }

    /** Refreshes a region with a local clock. It never recycles the region it refreshes. */
    method ScmRefreshRegionWithClock(index: int, extension: nat, clock: nat, spare: Ref,
                                     objects: ObjectHeap, regions: R.RegionStore, finalizer: Ptr -> int)
      requires Valid() && regions.Valid() && spare != NULL && spare !in store.heap
      requires SameTime(regions)
      requires clock < MAX_CLOCKS ==> HasSlots(View(), clock)
      requires Accounted(View().obj, objects.dc) && RegionsAccounted(View().reg, regions.regions)
      modifies this, store, objects, regions
      ensures clock >= MAX_CLOCKS ==>
        View() == old(View()) && objects.dc == old(objects.dc) && regions.State() == old(regions.State())
      ensures clock < MAX_CLOCKS ==>
        RegionRefreshCall(old(View()), View(), old(objects.dc), objects.dc, old(regions.State()), regions.State(),
                          0 <= index < MAX_REGIONS && index < |old(regions.regions)|
                          && old(regions.regions)[index].dc != INT_MAX,
                          index, clock, CheckExtension(extension), finalizer)
      ensures Valid() && regions.Valid()
      ensures Accounted(View().obj, objects.dc) && RegionsAccounted(View().reg, regions.regions)
      ensures SameTime(regions)
    {
      hide Ok, RingOf, QueueOf, BankView, Accounted, RegionsAccounted, R.RegionStore.Valid, RootOk,
           DcAfterPop, RegionRefreshed, Uncollected;
      StoreListed(regions);
      if index < 0 || index >= MAX_REGIONS {
        return;
      }
      var e := CheckExtension(extension);
      if clock >= MAX_CLOCKS {
        return;
      }
      if regions.regions[index].dc == INT_MAX {
        return;
      }
      PlaceRegion(index, clock, e, spare, objects, regions, finalizer);
    }

    /** Refreshes a region with the global clock: the descriptor is placed two slots later. */
    method ScmGlobalRefreshRegion(index: int, extension: nat, spare: Ref,
                                  objects: ObjectHeap, regions: R.RegionStore, finalizer: Ptr -> int)
      requires Valid() && regions.Valid() && spare != NULL && spare !in store.heap
      requires SameTime(regions)
      requires Accounted(View().obj, objects.dc) && RegionsAccounted(View().reg, regions.regions)
      modifies this, store, objects, regions
      ensures RegionRefreshCall(old(View()), View(), old(objects.dc), objects.dc, old(regions.State()), regions.State(),
                                0 <= index < MAX_REGIONS && index < |old(regions.regions)|
                                && old(regions.regions)[index].dc != INT_MAX,
                                index, GLOBAL, CheckExtension(extension) + 2, finalizer)
      ensures Valid() && regions.Valid()
      ensures Accounted(View().obj, objects.dc) && RegionsAccounted(View().reg, regions.regions)
      ensures SameTime(regions)
    {
      hide Ok, RingOf, QueueOf, BankView, Accounted, RegionsAccounted, R.RegionStore.Valid, RootOk,
           DcAfterPop, RegionRefreshed, Uncollected;
      GlobalIsUsed(View());
      StoreListed(regions);
      if index < 0 || index >= MAX_REGIONS {
        return;
      }
      var e := CheckExtension(extension);
      if regions.regions[index].dc == INT_MAX {
        return;
      }
      PlaceRegion(index, GLOBAL, e + 2, spare, objects, regions, finalizer);
    }

    /** What both refreshes of a region do after their checks: count, place, collect. */
    method PlaceRegion(i: nat, c: nat, e: nat, spare: Ref,
                       objects: ObjectHeap, regions: R.RegionStore, finalizer: Ptr -> int)
      requires Valid() && regions.Valid() && spare != NULL && spare !in store.heap
      requires SameTime(regions)
      requires i < MAX_REGIONS && c <= MAX_CLOCKS && HasSlots(View(), c)
      requires Accounted(View().obj, objects.dc) && RegionsAccounted(View().reg, regions.regions)
      modifies store, objects, regions
      ensures Valid() && regions.Valid()
      ensures Accounted(View().obj, objects.dc) && RegionsAccounted(View().reg, regions.regions)
      ensures View() == Lazily(old(View()), H.RefreshRegion(i, c, e))
      ensures RegionRefreshed(old(regions.State()), regions.State(), i, old(View()).reg.expired)
      ensures objects.dc == DcAfterPop(old(objects.dc), old(View()).obj.expired, finalizer)
      ensures SameTime(regions)
    {
      hide Ok, RingOf, QueueOf, BankView, Accounted, RegionsAccounted, R.RegionStore.Valid, R.Listed, Insert, RootOk,
           DcAfterPop, RegionsAfterPop, RegionRefreshed, Uncollected;
      UncollectedRefresh(View(), c, i, e);
      StoreListed(regions);
      PlaceRegionAccounted(View().reg, c, i, e, regions.regions);
      ghost var was := regions.State();
      regions.CountDescriptor(i);
      PlaceDescriptor(RegionKind, i, c, e, spare);
      ghost var r := View();
      LazyCollect(objects, regions, finalizer);
      assert View().reg.rings == r.reg.rings;
      UnexpiredRegionCounted(View().reg, i, regions.regions);
      RefreshedRegion(was, regions.State(), i, r.reg.expired);
    }

    /** Collects all expired descriptors. Both loops end because every collection shortens a queue. */
    method EagerCollect(objects: ObjectHeap, regions: R.RegionStore, finalizer: Ptr -> int)
      requires Valid() && regions.Valid()
      requires SameTime(regions)
      requires QueueCounted(View().obj.expired, objects.dc) && RegionsCounted(View().reg.expired, regions.regions)
      modifies store, objects, regions
      ensures Valid() && regions.Valid()
      ensures View() == old(View()).(obj := old(View()).obj.(expired := []), reg := old(View()).reg.(expired := []))
      ensures Settled(old(objects.dc), objects.dc, old(View()).obj.expired, finalizer)
      ensures RegionsSettled(old(regions.State()), regions.State(), old(View()).reg.expired)
      ensures SameTime(regions)
    {
      hide Ok, RingOf, QueueOf, RootOk, BankView, QueueCounted, Settled, RegionsCounted, RegionsSettled;
      CollectObjects(objects, finalizer);
      CollectRegions(regions);
    }

    method CollectObjects(objects: ObjectHeap, finalizer: Ptr -> int)
      requires Valid() && QueueCounted(View().obj.expired, objects.dc)
      modifies store, objects
      ensures Valid() && View() == old(View()).(obj := old(View()).obj.(expired := []))
      ensures Settled(old(objects.dc), objects.dc, old(View()).obj.expired, finalizer)
    {
      hide Ok, RingOf, QueueOf, RootOk, BankView, Settled, QueueCounted, AfterExpiry, Drop;
      ghost var before, r := objects.dc, View();
      ghost var done, q := [], r.obj.expired;
      var more := true;
      SettledNone(before, finalizer);
      assert done + q == q && r == r.(obj := r.obj.(expired := q));
      while more
        invariant Valid() && View() == r.(obj := r.obj.(expired := q)) && done + q == r.obj.expired
        invariant QueueCounted(done + q, before)
        invariant Settled(before, objects.dc, done, finalizer)
        invariant !more ==> q == []
        decreases |q|, more
      {
        if q != [] { SettledStep(before, objects.dc, done, finalizer, q); }
        StillCounted(before, objects.dc, done, finalizer, q);
        more := ExpireObjectDescriptor(objects, finalizer);
        DropQueue(r, q);
        if q != [] {
          ShiftHead(done, q);
          done, q := done + [q[0]], q[1..];
        }
      }
      assert done == done + q;
    }

    method CollectRegions(regions: R.RegionStore)
      requires Valid() && regions.Valid() && RegionsCounted(View().reg.expired, regions.regions)
      requires SameTime(regions)
      modifies store, regions
      ensures Valid() && regions.Valid() && View() == old(View()).(reg := old(View()).reg.(expired := []))
      ensures RegionsSettled(old(regions.State()), regions.State(), old(View()).reg.expired)
      ensures SameTime(regions)
    {
      hide Ok, RingOf, QueueOf, RootOk, BankView, R.RegionStore.Valid, R.Listed, R.CountedOff, Drop, RegionsCounted,
           RegionsSettled;
      ghost var v, r := regions.State(), View();
      ghost var done, q := [], r.reg.expired;
      var more := true;
      StoreListed(regions);
      RegionsSettledNone(v);
      assert done + q == q && r == r.(reg := r.reg.(expired := q));
      while more
        invariant Valid() && regions.Valid() && View() == r.(reg := r.reg.(expired := q)) && done + q == r.reg.expired
        invariant RegionsCounted(done + q, v.regions) && RegionsSettled(v, regions.State(), done)
        invariant SameTime(regions)
        invariant !more ==> q == []
        decreases |q|, more
      {
        if q != [] { RegionsSettledStep(v, regions.State(), done, q); }
        StillCountedRegions(v, regions.State(), done, q);
        more := ExpireRegionDescriptor(regions);
        DropQueue(r, q);
        if q != [] {
          ShiftHead(done, q);
          done, q := done + [q[0]], q[1..];
        }
      }
      assert done == done + q;
    }
  }

  /** A registration while the clock under the search index is not registered. */
  method HandOut(root: DescriptorRoot, ghost c: nat) returns (clock: int)
    requires root.Valid() && 1 <= c < MAX_CLOCKS && root.nextClock == c && !RegisteredAt(root.View(), c)
    modifies root, root.store
    ensures root.Valid() && clock == c && root.nextClock == if c + 1 == MAX_CLOCKS then 1 else c + 1
    ensures forall d :: 1 <= d < MAX_CLOCKS ==>
      (RegisteredAt(root.View(), d) <==> RegisteredAt(old(root.View()), d) || d == c)
  {
    hide RootOk, BankView, RegisterClockAt, IsNextFit, Ok;
    ghost var r := root.View();
    AgesListed(r);
    clock := root.RegisterClock();
    AgesListed(root.View());
    ClockHandedOut(r, clock, root.View(), c);
  }

  predicate RegisteredAt(r: Root<Ptr>, c: nat) { c < |r.age| && Registered(r, c) }

  lemma AgesListed(r: Root<Ptr>)
    requires RootOk(r)
    ensures |r.age| == MAX_CLOCKS
  {
  }

  /** A run of the code that shows the order: a new root hands out clocks 1 and 2, and after clock 2 has
      been unregistered it hands out clock 3, not clock 2 again. */
  method ClocksInTurn() returns (first: int, second: int, third: int)
    requires MAX_CLOCKS >= 4
    ensures first == 1 && second == 2 && third == 3
  {
    hide RootOk, BankView, Roots.UnregisterClock, Ok;
    var root := new DescriptorRoot();
    FreshOk<Ptr>();
    assert !RegisteredAt(root.View(), 2) && !RegisteredAt(root.View(), 3);
    first := HandOut(root, 1);
    assert !RegisteredAt(root.View(), 2) && !RegisteredAt(root.View(), 3);
    second := HandOut(root, 2);
    assert !RegisteredAt(root.View(), 3);
    ghost var r := root.View();
    AgesListed(r);
    root.UnregisterClock(2);
    AgesListed(root.View());
    ClockGivenBack(r, 2, root.View());
    third := HandOut(root, 3);
  }

  /** If the clock under the search index is not registered, it is the one handed out. */
  lemma ClockHandedOut(r: Root<Ptr>, clock: int, r': Root<Ptr>, c: nat)
    requires RootOk(r) && 1 <= c < MAX_CLOCKS && r.nextClock == c && !Registered(r, c)
    requires clock == -1 <==> forall d :: 1 <= d < MAX_CLOCKS ==> Registered(r, d)
    requires clock != -1 ==> IsNextFit(r, clock) && r' == RegisterClockAt(r, clock)
    ensures clock == c && RootOk(r') && r'.nextClock == if c + 1 == MAX_CLOCKS then 1 else c + 1
    ensures forall d :: 1 <= d < MAX_CLOCKS ==> (Registered(r', d) <==> Registered(r, d) || d == c)
  {
    hide BankOk, SameIndices;
    NextFitUnique(r, c, if clock == -1 then c else clock);
    RegistrationKeepsOk(r, c, 0);
  }

  lemma ClockGivenBack(r: Root<Ptr>, c: nat, r': Root<Ptr>)
    requires RootOk(r) && 2 <= c < MAX_CLOCKS && r' == Roots.UnregisterClock(r, c)
    ensures RootOk(r') && r'.nextClock == r.nextClock
    ensures forall d :: 1 <= d < MAX_CLOCKS ==> (Registered(r', d) <==> Registered(r, d) && d != c)
  {
    hide BankOk, SameIndices;
    RegistrationKeepsOk(r, 1, c);
  }

  /** A thread registers: it takes over the root of a terminated thread if there is one, and gets a new
      root otherwise. Either way only clock 0 is registered, and no region is in use. */
  method RegisterThread(terminated: seq<(DescriptorRoot, R.RegionStore)>)
    returns (root: DescriptorRoot, regions: R.RegionStore, rest: seq<(DescriptorRoot, R.RegionStore)>)
    requires terminated != [] ==>
      terminated[0].0.Valid() && terminated[0].1.Valid() && terminated[0].0.SameTime(terminated[0].1)
    modifies if terminated == [] then {} else {terminated[0].0, terminated[0].1}
    ensures root.Valid() && regions.Valid() && root.SameTime(regions)
    ensures terminated == [] ==>
      fresh(root) && fresh(regions) && root.View() == FreshRoot<Ptr>() && regions.heap == map[] && rest == []
    ensures terminated != [] ==>
      && (root, regions) == terminated[0] && rest == terminated[1..]
      && root.View() == Reuse(old(terminated[0].0.View()))
      && regions.State() == old(terminated[0].1.State()).(time := old(terminated[0].1.currentTime) + 1)
    ensures |root.View().age| == MAX_CLOCKS
    ensures forall c :: 0 <= c < MAX_CLOCKS ==> (Registered(root.View(), c) <==> c == 0)
    ensures forall i :: 0 <= i < |regions.regions| ==> regions.regions[i].age != regions.currentTime
  {
    hide Ok, RingOf, QueueOf, BankView, R.PagesOk, R.PoolOk, R.ObjectsOk;
    if terminated == [] {
      root := new DescriptorRoot();
      regions := new R.RegionStore();
      rest := [];
    } else {
      root, regions, rest := terminated[0].0, terminated[0].1, terminated[1..];
      root.TakeOver();
      regions.TakeOver();
    }
  }

  lemma Queued(q: seq<Ptr>, p: Ptr)
    requires p in q
    ensures multiset(q)[p] >= 1
  {
  }

  lemma DropKeepsOk(r: Root<Ptr>)
    requires RootOk(r)
    ensures RootOk(r.(obj := Drop(r.obj, 1))) && RootOk(r.(reg := Drop(r.reg, 1)))
  {
  }

  lemma ShiftHead(done: seq<Ptr>, q: seq<Ptr>)
    requires q != []
    ensures done + q == (done + [q[0]]) + q[1..]
  {
  }

  /** Popping the head of a queue, or nothing from an empty one. */
  lemma DropQueue(r: Root<Ptr>, q: seq<Ptr>)
    ensures Drop(r.obj.(expired := q), 1) == r.obj.(expired := if q == [] then [] else q[1..])
    ensures Drop(r.reg.(expired := q), 1) == r.reg.(expired := if q == [] then [] else q[1..])
  {
  }

  /** What is still queued is still counted. */
  lemma StillCounted(before: map<Ptr, nat>, dc: map<Ptr, nat>, done: seq<Ptr>, finalizer: Ptr -> int, q: seq<Ptr>)
    requires Settled(before, dc, done, finalizer) && QueueCounted(done + q, before)
    ensures QueueCounted(q, dc)
  {
    assert multiset(done + q) == multiset(done) + multiset(q);
    forall p | p in q
      ensures p in dc && multiset(q)[p] <= dc[p]
    {
      assert p in done + q && multiset(q)[p] >= 1;
      assert SettledAt(before, dc, multiset(done)[p], finalizer, p);
    }
  }

  lemma StillCountedRegions(v: R.Snapshot, v': R.Snapshot, done: seq<Ptr>, q: seq<Ptr>)
    requires RegionsSettled(v, v', done) && RegionsCounted(done + q, v.regions)
    ensures RegionsCounted(q, v'.regions)
  {
    assert multiset(done + q) == multiset(done) + multiset(q);
    forall p | p in q
      ensures p < |v'.regions| && multiset(q)[p] <= v'.regions[p].dc
    {
      assert p in done + q && multiset(q)[p] >= 1;
      assert RegionSettledAt(v, v', p, multiset(done)[p]);
    }
  }

  lemma FreshView(s: Store, k: Kind)
    requires forall c: nat :: c <= MAX_CLOCKS ==>
      RingOf(s, Buf(k, c)) ==
      Empty(if c == MAX_CLOCKS then GLOBAL_SLOTS else if c == 0 then LOCAL_SLOTS else 0)
    requires QueueOf(s, k) == []
    ensures BankView(s, k) == FreshBank<Ptr>()
  {
    hide RingOf, QueueOf;
    forall c | 0 <= c <= MAX_CLOCKS
      ensures RingAt(s, k, c) == FreshRing(c)
    {
      assert Empty<Ptr>(0) == Unused();
    }
    forall c | 0 <= c <= MAX_CLOCKS
      ensures BankView(s, k).rings[c] == FreshBank<Ptr>().rings[c]
    {
      assert RingAt(s, k, c) == FreshRing(c);
    }
  }

  lemma UsedLengths(r: Root<Ptr>, s: Store, c: nat)
    requires RootOk(r) && c <= MAX_CLOCKS && Ok(s) && Used(r.obj.rings[c])
    requires r.obj == BankView(s, ObjectKind) && r.reg == BankView(s, RegionKind)
    ensures Buf(ObjectKind, c) in s.length && s.length[Buf(ObjectKind, c)] > 0
    ensures Buf(RegionKind, c) in s.length && s.length[Buf(RegionKind, c)] > 0
  {
    hide Ok, RingOf, BankView;
    RingLength(s, ObjectKind, c);
    RingLength(s, RegionKind, c);
  }
}
