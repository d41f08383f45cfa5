/** How many descriptors a thread holds, in total or naming one target. Both are weights that add up
    over concatenation, so one set of lemmas says how inserting, expiring and collecting move them. */
module Holdings {
  import opened Config
  import opened Rings
  import opened Roots
  import opened Sums

  type Weight<!T> = seq<T> -> nat

  ghost predicate Additive<T(!new)>(w: Weight<T>) {
    && w([]) == 0
    && forall a, b :: w(a + b) == w(a) + w(b)
  }

  function Length<T>(): Weight<T> { (s: seq<T>) => |s| }

  ghost function Naming<T>(x: T): Weight<T> { (s: seq<T>) => multiset(s)[x] }

  lemma LengthIsAdditive<T(!new)>() ensures Additive(Length<T>()) {
  }

  lemma NamingIsAdditive<T(!new)>(x: T) ensures Additive(Naming(x)) {
    assert forall a: seq<T>, b: seq<T> :: multiset(a + b) == multiset(a) + multiset(b);
  }

  function OfRing<T>(w: Weight<T>): Ring<T> -> nat { (r: Ring<T>) => Sum(r.slots, w) }

  /** Descriptors still in a ring of the bank. */
  function Unexpired<T>(b: Bank<T>, w: Weight<T>): nat { Sum(b.rings, OfRing(w)) }

  /** All uncollected descriptors of the bank. */
  function Held<T>(b: Bank<T>, w: Weight<T>): nat { Unexpired(b, w) + w(b.expired) }

  lemma InsertWeight<T(!new)>(b: Bank<T>, c: nat, x: T, expiration: nat, w: Weight<T>)
    requires Additive(w) && c < |b.rings| && Used(b.rings[c])
    ensures var b' := InsertBank(b, c, x, expiration);
            Unexpired(b', w) == Unexpired(b, w) + w([x]) && Held(b', w) == Held(b, w) + w([x])
  {
    var r := b.rings[c];
    var i := Wrap(r.cur + expiration, |r.slots|);
    SumUpdate(r.slots, w, i, r.slots[i] + [x]);
    SumUpdate(b.rings, OfRing(w), c, Insert(r, x, expiration));
  }

  lemma AdvanceWeight<T(!new)>(b: Bank<T>, c: nat, w: Weight<T>)
    requires Additive(w) && c < |b.rings| && Used(b.rings[c])
    ensures var b' := AdvanceBank(b, c);
            Unexpired(b', w) + w(Released(b.rings[c])) == Unexpired(b, w) && Held(b', w) == Held(b, w)
  {
    var r := b.rings[c];
    SumUpdate(r.slots, w, r.cur, []);
    SumUpdate(b.rings, OfRing(w), c, Advance(r));
  }

  lemma DropWeight<T(!new)>(b: Bank<T>, n: nat, w: Weight<T>)
    requires Additive(w)
    ensures var b' := Drop(b, n);
            && Unexpired(b', w) == Unexpired(b, w)
            && Held(b', w) + w(if n <= |b.expired| then b.expired[..n] else b.expired) == Held(b, w)
  {
    if n <= |b.expired| { assert b.expired == b.expired[..n] + b.expired[n..]; }
  }

  /** Rotating buffers moves descriptors but neither loses nor invents one. */
  lemma TickWeight<T(!new)>(r: Root<T>, c: nat, w: Weight<T>)
    requires RootOk(r) && c < MAX_CLOCKS && Used(r.obj.rings[c]) && Additive(w)
    ensures var r' := TickClock(r, c);
            && Held(r'.obj, w) == Held(r.obj, w) && Held(r'.reg, w) == Held(r.reg, w)
            && Unexpired(r'.obj, w) <= Unexpired(r.obj, w) && Unexpired(r'.reg, w) <= Unexpired(r.reg, w)
  {
    AdvanceKeepsOk(r, c);
    AdvanceWeight(r.obj, c, w);
    AdvanceWeight(r.reg, c, w);
    if MAX_CLOCKS > 1 { CleanWeight(IncrementAndExpire(r, c), Candidate(r, c), w); }
  }

  lemma CleanWeight<T(!new)>(r: Root<T>, i: nat, w: Weight<T>)
    requires RootOk(r) && MAX_CLOCKS > 1 && i < MAX_CLOCKS && Additive(w)
    ensures var r' := CleanZombie(r, i);
            && Held(r'.obj, w) == Held(r.obj, w) && Held(r'.reg, w) == Held(r.reg, w)
            && Unexpired(r'.obj, w) <= Unexpired(r.obj, w) && Unexpired(r'.reg, w) <= Unexpired(r.reg, w)
  {
    if IsZombie(r, i) {
      AdvanceWeight(r.obj, i, w);
      AdvanceWeight(r.reg, i, w);
    }
  }

  lemma GlobalTickWeight<T(!new)>(r: Root<T>, effective: bool, w: Weight<T>)
    requires RootOk(r) && Additive(w)
    ensures var r' := GlobalTick(r, effective);
            && Held(r'.obj, w) == Held(r.obj, w) && Held(r'.reg, w) == Held(r.reg, w)
            && Unexpired(r'.obj, w) <= Unexpired(r.obj, w) && Unexpired(r'.reg, w) <= Unexpired(r.reg, w)
  {
    if effective {
      AdvanceKeepsOk(r, GLOBAL);
      AdvanceWeight(r.obj, GLOBAL, w);
      AdvanceWeight(r.reg, GLOBAL, w);
    }
    var r1 := if effective then IncrementAndExpire(r, GLOBAL) else r;
    if MAX_CLOCKS > 1 { CleanWeight(r1, r1.roundRobin, w); }
  }

  /** Registering a clock gives an unused buffer its slots, all of them empty. */
  lemma RegisterWeight<T(!new)>(r: Root<T>, i: nat, w: Weight<T>)
    requires RootOk(r) && 1 <= i < MAX_CLOCKS && Additive(w)
    ensures var r' := RegisterClockAt(r, i);
            && Held(r'.obj, w) == Held(r.obj, w) && Held(r'.reg, w) == Held(r.reg, w)
            && Unexpired(r'.obj, w) == Unexpired(r.obj, w) && Unexpired(r'.reg, w) == Unexpired(r.reg, w)
  {
    SumUpdate(r.obj.rings, OfRing(w), i, Activate(r.obj.rings[i]));
    SumUpdate(r.reg.rings, OfRing(w), i, Activate(r.reg.rings[i]));
    EmptyWeight(LOCAL_SLOTS, w);
  }

  lemma EmptyWeight<T(!new)>(length: nat, w: Weight<T>)
    requires Additive(w)
    ensures OfRing(w)(Empty(length)) == 0
  {
    if Sum(Empty<T>(length).slots, w) > 0 { var i := SumWitness(Empty<T>(length).slots, w); }
  }

  lemma FreshWeight<T(!new)>(w: Weight<T>)
    requires Additive(w)
    ensures Held(FreshBank<T>(), w) == 0
  {
    EmptyWeight(LOCAL_SLOTS, w);
    EmptyWeight(GLOBAL_SLOTS, w);
    var b := FreshBank<T>();
    if Unexpired(b, w) > 0 { var i := SumWitness(b.rings, OfRing(w)); }
  }

  // ---------------------------------------------------------------- lazy collection

  /** The calls that place, expire or collect descriptors. A refresh names a kind, a ring (a local
      clock or GLOBAL) and an expiration; `Register` covers registering a clock. */
  datatype Call<T> =
    | RefreshObject(x: T, ring: nat, expiration: nat)
    | RefreshRegion(x: T, ring: nat, expiration: nat)
    | Tick(clock: nat)
    | TickGlobally(effective: bool)
    | Register(clock: nat)
    | Unregister(handle: int)
    | TakeOver

  predicate Callable<T>(r: Root<T>, call: Call<T>)
    requires RootOk(r)
  {
    match call
    case RefreshObject(_, c, _) => c <= GLOBAL && Used(r.obj.rings[c])
    case RefreshRegion(_, c, _) => c <= GLOBAL && Used(r.reg.rings[c])
    case Tick(c) => c < MAX_CLOCKS && Used(r.obj.rings[c])
    case Register(c) => 1 <= c < MAX_CLOCKS && !Registered(r, c)
    case _ => true
  }

  /** A call of the library built with lazy collection: one descriptor of each kind is collected at
      the end of every refresh and every tick. */
  function LazyCall<T>(r: Root<T>, call: Call<T>): Root<T>
    requires RootOk(r) && Callable(r, call)
  {
    match call
    case RefreshObject(x, c, e) => Collect(r.(obj := InsertBank(r.obj, c, x, e)), 1, 1)
    case RefreshRegion(x, c, e) => Collect(r.(reg := InsertBank(r.reg, c, x, e)), 1, 1)
    case Tick(c) => Collect(TickClock(r, c), 1, 1)
    case TickGlobally(effective) => Collect(GlobalTick(r, effective), 1, 1)
    case Register(c) => RegisterClockAt(r, c)
    case Unregister(c) => UnregisterClock(r, c)
    case TakeOver => Reuse(r)
  }

  lemma LazyCallKeepsOk<T>(r: Root<T>, call: Call<T>)
    requires RootOk(r) && Callable(r, call)
    ensures RootOk(LazyCall(r, call))
  {
    hide TickClock, GlobalTick, InsertBank, Valid;
    match call
    case Tick(c) => TickKeepsOk(r, c);
    case TickGlobally(effective) => GlobalTickKeepsOk(r, effective);
    case Register(c) => RegistrationKeepsOk(r, c, 0);
    case Unregister(c) => RegistrationKeepsOk(r, 0, c);
    case TakeOver => RegistrationKeepsOk(r, 0, 0);
    case RefreshObject(x, c, e) => InsertKeepsOk(r, c, x, e);
    case RefreshRegion(x, c, e) => InsertKeepsOk(r, c, x, e);
  }

  lemma InsertKeepsOk<T>(r: Root<T>, c: nat, x: T, e: nat)
    requires RootOk(r) && c <= GLOBAL && Used(r.obj.rings[c])
    ensures RootOk(r.(obj := InsertBank(r.obj, c, x, e))) && Used(r.reg.rings[c])
    ensures RootOk(r.(reg := InsertBank(r.reg, c, x, e)))
  {
  }

  predicate LazyRun<T>(r: Root<T>, calls: seq<Call<T>>)
    requires RootOk(r)
    decreases |calls|
  {
    calls == [] ||
    (Callable(r, calls[0]) && (LazyCallKeepsOk(r, calls[0]); LazyRun(LazyCall(r, calls[0]), calls[1..])))
  }

  function LazyExec<T>(r: Root<T>, calls: seq<Call<T>>): Root<T>
    requires RootOk(r) && LazyRun(r, calls)
    decreases |calls|
  {
    if calls == [] then r else
      LazyCallKeepsOk(r, calls[0]);
      LazyExec(LazyCall(r, calls[0]), calls[1..])
  }

  function Max(a: nat, b: nat): nat { if a < b then b else a }

  /** The largest number of unexpired descriptors of a kind after any call of the run, and before it. */
  function Peak<T>(r: Root<T>, calls: seq<Call<T>>, bank: Root<T> -> Bank<T>): nat
    requires RootOk(r) && LazyRun(r, calls)
    decreases |calls|
  {
    if calls == [] then Unexpired(bank(r), Length()) else
      LazyCallKeepsOk(r, calls[0]);
      Max(Unexpired(bank(r), Length()), Peak(LazyCall(r, calls[0]), calls[1..], bank))
  }

  function ObjectBank<T>(): Root<T> -> Bank<T> { (r: Root<T>) => r.obj }
  function RegionBank<T>(): Root<T> -> Bank<T> { (r: Root<T>) => r.reg }

  /** One call: what is held does not grow, unless nothing waits for collection afterwards. */
  lemma LazyCallHeld<T(!new)>(r: Root<T>, call: Call<T>, bank: Root<T> -> Bank<T>)
    requires RootOk(r) && Callable(r, call) && (bank == ObjectBank() || bank == RegionBank())
    ensures var r' := LazyCall(r, call);
            || Held(bank(r'), Length()) <= Held(bank(r), Length())
            || Held(bank(r'), Length()) == Unexpired(bank(r'), Length())
  {
    hide TickClock, GlobalTick, RegisterClockAt, InsertBank, Valid;
    var w := Length<T>();
    LengthIsAdditive<T>();
    match call
    case RefreshObject(x, c, e) => InsertWeight(r.obj, c, x, e, w);
    case RefreshRegion(x, c, e) => InsertWeight(r.reg, c, x, e, w);
    case Tick(c) => TickWeight(r, c, w);
    case TickGlobally(effective) => GlobalTickWeight(r, effective, w);
    case Register(c) => RegisterWeight(r, c, w);
    case _ =>
  }

  lemma {:induction false} LazyBoundFrom<T(!new)>(r: Root<T>, calls: seq<Call<T>>, bank: Root<T> -> Bank<T>, peak: nat)
    requires RootOk(r) && LazyRun(r, calls) && (bank == ObjectBank() || bank == RegionBank())
    requires Held(bank(r), Length()) <= peak
    ensures Held(bank(LazyExec(r, calls)), Length()) <= Max(peak, Peak(r, calls, bank))
    decreases |calls|
  {
    if calls != [] {
      LazyCallKeepsOk(r, calls[0]);
      LazyCallHeld(r, calls[0], bank);
      var r' := LazyCall(r, calls[0]);
      LazyBoundFrom(r', calls[1..], bank, Max(peak, Unexpired(bank(r'), Length())));
      PeakStarts(r', calls[1..], bank);
    }
  }

  lemma PeakStarts<T>(r: Root<T>, calls: seq<Call<T>>, bank: Root<T> -> Bank<T>)
    requires RootOk(r) && LazyRun(r, calls)
    ensures Unexpired(bank(r), Length()) <= Peak(r, calls, bank)
  {
  }

  /** With lazy collection a thread never holds more descriptors, expired ones included, than the
      largest number that were unexpired at the same time: over every run of a fresh root. */
  lemma LazyCollectionBound<T(!new)>(calls: seq<Call<T>>)
    requires (FreshOk<T>(); LazyRun(FreshRoot<T>(), calls))
    ensures (FreshOk<T>();
             var r, r' := FreshRoot<T>(), LazyExec(FreshRoot<T>(), calls);
             && Held(r'.obj, Length()) <= Peak(r, calls, ObjectBank())
             && Held(r'.reg, Length()) <= Peak(r, calls, RegionBank()))
  {
    FreshOk<T>();
    LengthIsAdditive<T>();
    FreshWeight<T>(Length());
    LazyBoundFrom(FreshRoot<T>(), calls, ObjectBank(), 0);
    LazyBoundFrom(FreshRoot<T>(), calls, RegionBank(), 0);
  }
}
