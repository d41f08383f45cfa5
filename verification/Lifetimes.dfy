/** The whole system: any number of descriptor roots run the global-time protocol, rotate and collect
    their own rings, and share the descriptor counters in the headers of objects and regions. One
    step is one atomic access to shared memory together with the thread-local work next to it.

    A descriptor may be collected by its thread at any time between calls, so both lazy and eager
    collection are runs of this system. Finalizers are an arbitrary result. */
module Lifetimes {
  import opened Config
  import opened Rings
  import opened Roots
  import opened Sums
  import opened Holdings
  import G = GlobalTime

  /** What a descriptor names: an object, or a region of the root that owns it. */
  datatype Target = Object(id: nat) | Region(owner: nat, index: nat)

  /** A target is dying from the decrement that reached zero until the finalizer has decided. */
  datatype Header = Header(dc: nat, dying: bool, reaper: nat)

  datatype Activity =
    | Ready
    | Placing(x: Target, ring: nat, expiration: nat) // counter incremented, descriptor not yet placed
    | Releasing(x: Target)                           // counter reached zero, finalizer not yet run

  /** `advances` is history: how often each ring of the root has been rotated. */
  datatype Local = Local(root: Root<Target>, doing: Activity, advances: seq<nat>)

  datatype State = State(global: G.State, locals: seq<Local>, heap: map<Target, Header>)

  /** What rotates rings of a root or changes which of its clocks are registered. */
  datatype Turning =
    | Tick(clock: nat)
    | Clean
    | RegisterClock(clock: nat)
    | UnregisterClock(handle: int)
    | TakeOver

  datatype Step =
    | Protocol(g: G.Step)
    | Malloc(id: nat)
    | Free(id: nat)
    | Turn(t: nat, how: Turning)
    | Refresh(t: nat, x: Target, ring: nat, given: nat)
    | Place(t: nat)
    | Collect(t: nat, regions: bool)
    | Release(t: nat, result: int)

  const Init := State(G.Init, [], map[])

  // ---------------------------------------------------------------- steps

  predicate Usable(l: Local, ring: nat) {
    ring <= GLOBAL && CanAdvance(l.root, ring)
  }

  function BankOf(r: Root<Target>, regions: bool): Bank<Target> { if regions then r.reg else r.obj }

  function WithBank(r: Root<Target>, regions: bool, b: Bank<Target>): Root<Target> {
    if regions then r.(reg := b) else r.(obj := b)
  }

  predicate CanTurn(l: Local, how: Turning) {
    && RootOk(l.root) && |l.advances| == MAX_CLOCKS + 1
    && match how
       case Tick(c) => c < MAX_CLOCKS && Used(l.root.obj.rings[c])
       case Clean => MAX_CLOCKS > 1
       case RegisterClock(c) => 1 <= c < MAX_CLOCKS && !Registered(l.root, c)
       case UnregisterClock(_) => true
       case TakeOver => true
  }

  /** No call of thread `t` is under way: neither a refresh or a collection nor a global tick. */
  predicate BetweenCalls(s: State, t: nat)
    requires |s.locals| == |s.global.threads|
  {
    t < |s.locals| && s.locals[t].doing == Ready && s.global.threads[t].pc == G.Idle
  }

  /** Thread `t` starts something only while no other call of it is under way; in particular it turns,
      collects and refreshes only before its global tick has begun or after it has decremented the
      countdown and, if it was the last, advanced the time. The client contract is in the two cases
      that name a target: it is allocated and its release has not begun. */
  predicate Enabled(s: State, step: Step)
    requires |s.locals| == |s.global.threads|
  {
    match step
    case Protocol(g) => G.Enabled(s.global, g) && (g == G.Create || s.locals[g.t].doing == Ready)
    case Malloc(id) => Object(id) !in s.heap
    case Free(id) => Object(id) in s.heap && !s.heap[Object(id)].dying
    case Turn(t, how) => BetweenCalls(s, t) && CanTurn(s.locals[t], how)
    case Refresh(t, x, ring, _) =>
      && BetweenCalls(s, t) && Usable(s.locals[t], ring)
      && x in s.heap && !s.heap[x].dying && (x.Region? ==> x.owner == t)
    case Place(t) =>
      t < |s.locals| && s.locals[t].doing.Placing? && Usable(s.locals[t], s.locals[t].doing.ring)
    case Collect(t, regions) =>
      BetweenCalls(s, t) && |BankOf(s.locals[t].root, regions).expired| > 0
    case Release(t, _) => t < |s.locals| && s.locals[t].doing.Releasing?
  }

  function TurnAdvances(l: Local, how: Turning, d: nat): nat
    requires CanTurn(l, how) && d <= GLOBAL
  {
    match how
    case Tick(c) => TickAdvances(l.root, c, d)
    case Clean => if d == l.root.roundRobin && IsZombie(l.root, d) then 1 else 0
    case RegisterClock(_) => 0
    case UnregisterClock(_) => 0
    case TakeOver => 0
  }

  function TurnRoot(r: Root<Target>, how: Turning): Root<Target>
    requires RootOk(r)
    requires how.Tick? ==> how.clock < MAX_CLOCKS && Used(r.obj.rings[how.clock])
    requires how.Clean? ==> MAX_CLOCKS > 1
    requires how.RegisterClock? ==> 1 <= how.clock < MAX_CLOCKS
  {
    match how
    case Tick(c) => TickClock(r, c)
    case Clean => CleanZombie(r, r.roundRobin)
    case RegisterClock(c) => RegisterClockAt(r, c)
    case UnregisterClock(c) => Roots.UnregisterClock(r, c)
    case TakeOver => Reuse(r)
  }

  function Turned(l: Local, how: Turning): Local
    requires CanTurn(l, how)
  {
    l.(root := TurnRoot(l.root, how),
       advances := seq(MAX_CLOCKS + 1, d requires 0 <= d <= MAX_CLOCKS =>
         l.advances[d] + TurnAdvances(l, how, d)))
  }

  /** An effective global tick rotates the globally clocked rings of its own root. */
  function Rotate(l: Local): Local
    requires Usable(l, GLOBAL) && |l.advances| == MAX_CLOCKS + 1
  {
    l.(root := IncrementAndExpire(l.root, GLOBAL), advances := l.advances[GLOBAL := l.advances[GLOBAL] + 1])
  }

  function Expiration(ring: nat, given: nat): nat {
    if ring == GLOBAL then CheckExtension(given) + 2 else CheckExtension(given)
  }

  function Popped(l: Local, regions: bool): Local {
    l.(root := WithBank(l.root, regions, Drop(BankOf(l.root, regions), 1)))
  }

  /** The atomic decrement of a collection. An object whose counter it brings to zero starts dying; a
      region is recycled on the spot. */
  function Decrement(heap: map<Target, Header>, x: Target, t: nat): map<Target, Header> {
    if x !in heap || heap[x].dc == 0 then heap
    else heap[x := Header(heap[x].dc - 1, heap[x].dc == 1 && x.Object?, t)]
  }

  function NewRegions(t: nat): map<Target, Header> {
    map i | 0 <= i < MAX_REGIONS :: Region(t, i) := Header(0, false, 0)
  }

  predicate Shaped(s: State) {
    && |s.locals| == |s.global.threads|
    && forall t :: 0 <= t < |s.locals| ==>
         RootOk(s.locals[t].root) && |s.locals[t].advances| == MAX_CLOCKS + 1
  }

  function With(s: State, t: nat, l: Local, heap: map<Target, Header>): State
    requires t < |s.locals|
  {
    s.(locals := s.locals[t := l], heap := heap)
  }

  function Apply(s: State, step: Step): State
    requires Shaped(s) && Enabled(s, step)
  {
    match step
    case Protocol(g) => ApplyProtocol(s, g)
    case Malloc(id) => s.(heap := s.heap[Object(id) := Header(0, false, 0)])
    case Free(id) => if s.heap[Object(id)].dc == 0 then s.(heap := s.heap - {Object(id)}) else s
    case Turn(t, how) => With(s, t, Turned(s.locals[t], how), s.heap)
    case Refresh(t, x, ring, given) =>
      if s.heap[x].dc == INT_MAX then s
      else With(s, t, s.locals[t].(doing := Placing(x, ring, Expiration(ring, given))),
                s.heap[x := s.heap[x].(dc := s.heap[x].dc + 1)])
    case Place(t) => With(s, t, Placed(s.locals[t]), s.heap)
    case Collect(t, regions) =>
      var x := BankOf(s.locals[t].root, regions).expired[0];
      With(s, t, Collected(s.locals[t], regions, s.heap), Decrement(s.heap, x, t))
    case Release(t, result) =>
      With(s, t, s.locals[t].(doing := Ready), Settled(s.heap, s.locals[t].doing.x, result))
  }

  function ApplyProtocol(s: State, g: G.Step): State
    requires Shaped(s) && Enabled(s, Protocol(g))
  {
    var s' := s.(global := G.Apply(s.global, g));
    if g == G.Create then
      s'.(locals := s.locals + [NewLocal()], heap := NewRegions(|s.locals|) + s.heap)
    else if g.Bump? then s'.(locals := s.locals[g.t := Rotate(s.locals[g.t])])
    else s'
  }

  function NewLocal(): Local { Local(FreshRoot(), Ready, seq(MAX_CLOCKS + 1, _ => 0)) }

  /** A thread whose decrement brings an object's counter to zero goes on to release it. */
  function Collected(l: Local, regions: bool, heap: map<Target, Header>): Local
    requires |BankOf(l.root, regions).expired| > 0
  {
    var x := BankOf(l.root, regions).expired[0];
    Popped(l, regions).(doing := if x.Object? && Dc(heap, x) == 1 then Releasing(x) else Ready)
  }

  /** A finalizer that returns non-zero keeps the object. */
  function Settled(heap: map<Target, Header>, x: Target, result: int): map<Target, Header> {
    if result == 0 then heap - {x}
    else if x in heap then heap[x := heap[x].(dying := false)] else heap
  }

  /** Object descriptors go to the object bank, region descriptors to the region bank. */
  function Placed(l: Local): Local
    requires l.doing.Placing? && Usable(l, l.doing.ring)
  {
    var Placing(x, ring, expiration) := l.doing;
    var b := BankOf(l.root, x.Region?);
    l.(root := WithBank(l.root, x.Region?, InsertBank(b, ring, x, expiration)), doing := Ready)
  }

  // ---------------------------------------------------------------- the invariant

  /** The descriptors of a root that name `x`, collected ones excluded, plus a refresh of `x` under way. */
  ghost function Holds(x: Target): Local -> nat {
    (l: Local) =>
      Held(l.root.obj, Naming(x)) + Held(l.root.reg, Naming(x))
      + if l.doing.Placing? && l.doing.x == x then 1 else 0
  }

  ghost function Total(s: State, x: Target): nat { Sum(s.locals, Holds(x)) }

  function Dc(heap: map<Target, Header>, x: Target): nat { if x in heap then heap[x].dc else 0 }

  /** Reference-count conservation; a target that is not allocated is named by no descriptor. */
  ghost predicate Counted(s: State) {
    forall x :: Dc(s.heap, x) == Total(s, x)
  }

  ghost predicate LocalOk(l: Local, th: G.Thread) {
    && RootOk(l.root) && |l.advances| == MAX_CLOCKS + 1
    && l.advances[GLOBAL] == th.ticks
    && (l.doing.Placing? ==> Usable(l, l.doing.ring))
  }

  ghost predicate DyingOk(s: State) {
    && (forall x :: x in s.heap && s.heap[x].dying ==>
          && x.Object? && s.heap[x].dc == 0
          && s.heap[x].reaper < |s.locals| && s.locals[s.heap[x].reaper].doing == Releasing(x))
    && (forall t :: 0 <= t < |s.locals| && s.locals[t].doing.Releasing? ==>
          var x := s.locals[t].doing.x; x in s.heap && s.heap[x].dying && s.heap[x].reaper == t)
  }

  ghost predicate LocalsOk(s: State) {
    && |s.locals| == |s.global.threads|
    && forall t :: 0 <= t < |s.locals| ==> LocalOk(s.locals[t], s.global.threads[t])
  }

  /** The regions of every root have headers, and only they; region headers are never removed. */
  ghost predicate RegionsOk(s: State) {
    forall x: Target :: x.Region? ==> (x in s.heap <==> x.owner < |s.locals| && x.index < MAX_REGIONS)
  }

  /** The same regions have headers. */
  ghost predicate SameRegions(heap: map<Target, Header>, heap': map<Target, Header>) {
    forall x: Target :: x.Region? ==> (x in heap' <==> x in heap)
  }

  ghost predicate Inv(s: State) {
    G.Inv(s.global) && LocalsOk(s) && Counted(s) && DyingOk(s) && RegionsOk(s)
  }

  lemma InvShaped(s: State)
    requires LocalsOk(s)
    ensures Shaped(s)
  {
    assert forall t :: 0 <= t < |s.locals| ==> LocalOk(s.locals[t], s.global.threads[t]);
  }

  // ---------------------------------------------------------------- preservation

  /** Changing one root and the heap keeps the counts if both change by the same amount. */
  lemma ChangeOne(s: State, t: nat, l: Local, heap: map<Target, Header>)
    requires Inv(s) && t < |s.locals| && LocalOk(l, s.global.threads[t])
    requires forall x :: Dc(heap, x) + Holds(x)(s.locals[t]) == Dc(s.heap, x) + Holds(x)(l)
    requires SameRegions(s.heap, heap) && DyingOk(With(s, t, l, heap))
    ensures Inv(With(s, t, l, heap))
  {
    hide G.Inv, LocalOk, DyingOk;
    var s' := With(s, t, l, heap);
    forall x
      ensures Dc(heap, x) == Total(s', x)
    {
      assert Dc(s.heap, x) == Total(s, x);
      SumUpdate(s.locals, Holds(x), t, l);
    }
    assert RegionsOk(s');
  }

  /** Rotating and registering neither lose nor invent descriptors. */
  lemma TurnHolds(l: Local, how: Turning, x: Target)
    requires CanTurn(l, how)
    ensures Holds(x)(Turned(l, how)) == Holds(x)(l)
  {
    var w := Naming(x);
    NamingIsAdditive(x);
    match how
    case Tick(c) => TickWeight(l.root, c, w);
    case Clean => CleanWeight(l.root, l.root.roundRobin, w);
    case RegisterClock(c) => RegisterWeight(l.root, c, w);
    case UnregisterClock(_) =>
    case TakeOver =>
  }

  lemma TurnRootOk(r: Root<Target>, how: Turning)
    requires TurnRoot.requires(r, how)
    ensures RootOk(TurnRoot(r, how))
  {
    match how
    case Tick(c) => TickKeepsOk(r, c);
    case Clean => CleanKeepsOk(r, r.roundRobin);
    case RegisterClock(c) => RegistrationKeepsOk(r, c, 0);
    case UnregisterClock(c) => RegistrationKeepsOk(r, 0, c);
    case TakeOver => RegistrationKeepsOk(r, 0, 0);
  }

  lemma TurnKeepsInv(s: State, t: nat, how: Turning)
    requires Inv(s) && Enabled(s, Turn(t, how))
    ensures Inv(With(s, t, Turned(s.locals[t], how), s.heap))
  {
    hide G.Inv, RegionsOk, Counted, Total, DyingOk;
    var l := s.locals[t];
    assert LocalOk(l, s.global.threads[t]);
    TurnRootOk(l.root, how);
    forall x ensures Holds(x)(Turned(l, how)) == Holds(x)(l) { TurnHolds(l, how, x); }
    SameDying(s, t, Turned(l, how));
    ChangeOne(s, t, Turned(l, how), s.heap);
  }

  lemma SameDying(s: State, t: nat, l: Local)
    requires DyingOk(s) && t < |s.locals|
    requires !s.locals[t].doing.Releasing? && !l.doing.Releasing?
    ensures DyingOk(With(s, t, l, s.heap))
  {
  }

  lemma BumpKeepsInv(s: State, t: nat)
    requires Inv(s) && Shaped(s) && Enabled(s, Protocol(G.Bump(t)))
    ensures Inv(ApplyProtocol(s, G.Bump(t)))
  {
    hide G.Inv, DyingOk;
    G.StepKeepsInv(s.global, G.Bump(t));
    var l := s.locals[t];
    assert LocalOk(l, s.global.threads[t]);
    RotateKeeps(l, s.global.threads[t]);
    var s' := ApplyProtocol(s, G.Bump(t));
    BumpCounts(s, s', t);
    SameDying(s, t, Rotate(l));
    OnlyGlobal(With(s, t, Rotate(l), s.heap), s');
  }

  /** The counters and the dying targets do not depend on the global-time protocol. */
  lemma OnlyGlobal(s: State, s': State)
    requires s'.locals == s.locals && s'.heap == s.heap
    ensures DyingOk(s) ==> DyingOk(s')
  {
  }

  lemma RotateKeeps(l: Local, th: G.Thread)
    requires LocalOk(l, th) && Usable(l, GLOBAL) && l.doing == Ready
    ensures LocalOk(Rotate(l), th.(ticks := th.ticks + 1)) && Rotate(l).doing == Ready
  {
    AdvanceKeepsOk(l.root, GLOBAL);
  }

  lemma BumpCounts(s: State, s': State, t: nat)
    requires Counted(s) && t < |s.locals| && Usable(s.locals[t], GLOBAL) && |s.locals[t].advances| == MAX_CLOCKS + 1
    requires s'.locals == s.locals[t := Rotate(s.locals[t])] && s'.heap == s.heap
    ensures Counted(s')
  {
    var l := s.locals[t];
    forall x
      ensures Dc(s.heap, x) == Sum(s.locals[t := Rotate(l)], Holds(x))
    {
      assert Dc(s.heap, x) == Total(s, x);
      NamingIsAdditive(x);
      AdvanceWeight(l.root.obj, GLOBAL, Naming(x));
      AdvanceWeight(l.root.reg, GLOBAL, Naming(x));
      SumUpdate(s.locals, Holds(x), t, Rotate(l));
    }
  }

  lemma CreateKeepsInv(s: State)
    requires Inv(s) && Shaped(s)
    ensures Inv(ApplyProtocol(s, G.Create))
  {
    G.StepKeepsInv(s.global, G.Create);
    var s' := ApplyProtocol(s, G.Create);
    forall x
      ensures Dc(s'.heap, x) == Total(s', x)
    {
      assert Dc(s.heap, x) == Total(s, x);
      NewLocalHolds(x);
      SumAppend(s.locals, Holds(x), NewLocal());
    }
    NewLocalOk();
    CreateDying(s);
  }

  lemma NewLocalHolds(x: Target)
    ensures Holds(x)(NewLocal()) == 0
  {
    NamingIsAdditive(x);
    FreshWeight(Naming(x));
  }

  lemma NewLocalOk()
    ensures LocalOk(NewLocal(), G.NewThread)
  {
    FreshOk<Target>();
  }

  lemma CreateDying(s: State)
    requires DyingOk(s) && RegionsOk(s)
    ensures var s' := s.(locals := s.locals + [NewLocal()], heap := NewRegions(|s.locals|) + s.heap);
            DyingOk(s') && RegionsOk(s')
  {
  }

  lemma ProtocolKeepsInv(s: State, g: G.Step)
    requires Inv(s) && Shaped(s) && Enabled(s, Protocol(g))
    ensures Inv(ApplyProtocol(s, g))
  {
    hide Inv, Shaped;
    if g == G.Create {
      CreateKeepsInv(s);
    } else if g.Bump? {
      BumpKeepsInv(s, g.t);
    } else {
      OnlyGlobalKeepsInv(s, g);
    }
  }

  lemma OnlyGlobalKeepsInv(s: State, g: G.Step)
    requires Inv(s) && G.Enabled(s.global, g) && g != G.Create && !g.Bump?
    ensures Inv(s.(global := G.Apply(s.global, g)))
  {
    hide G.Inv, G.Apply, RootOk;
    G.StepKeepsInv(s.global, g);
    var s' := s.(global := G.Apply(s.global, g));
    assert forall x :: Total(s', x) == Total(s, x);
    TicksKept(s.global, g);
    OnlyGlobal(s, s');
    assert forall t :: 0 <= t < |s.locals| ==> LocalOk(s.locals[t], s.global.threads[t]);
  }

  lemma TicksKept(g: G.State, step: G.Step)
    requires G.Enabled(g, step) && step != G.Create && !step.Bump?
    ensures |G.Apply(g, step).threads| == |g.threads|
    ensures forall t :: 0 <= t < |g.threads| ==> G.Apply(g, step).threads[t].ticks == g.threads[t].ticks
  {
  }

  lemma RefreshKeepsInv(s: State, t: nat, x: Target, ring: nat, given: nat)
    requires Inv(s) && Shaped(s) && Enabled(s, Refresh(t, x, ring, given))
    ensures Inv(Apply(s, Refresh(t, x, ring, given)))
  {
    hide G.Inv, RegionsOk, Counted, Total, DyingOk;
    var s' := Apply(s, Refresh(t, x, ring, given));
    assert LocalOk(s.locals[t], s.global.threads[t]);
    if s.heap[x].dc != INT_MAX {
      RefreshDying(s, t, x, s'.locals[t], s'.heap);
      ChangeOne(s, t, s'.locals[t], s'.heap);
    }
  }

  lemma RefreshDying(s: State, t: nat, x: Target, l: Local, heap: map<Target, Header>)
    requires DyingOk(s) && t < |s.locals| && s.locals[t].doing == Ready && l.doing.Placing?
    requires x in s.heap && !s.heap[x].dying && heap == s.heap[x := s.heap[x].(dc := s.heap[x].dc + 1)]
    ensures DyingOk(With(s, t, l, heap))
  {
  }

  lemma PlacedOk(l: Local)
    requires RootOk(l.root) && l.doing.Placing? && Usable(l, l.doing.ring)
    ensures RootOk(Placed(l).root)
  {
    hide RootOk, InsertBank;
    UsableRing(l, l.doing.ring);
    InsertKeepsOk(l.root, l.doing.ring, l.doing.x, l.doing.expiration);
  }

  lemma UsableRing(l: Local, ring: nat)
    requires RootOk(l.root) && Usable(l, ring)
    ensures ring <= GLOBAL && ring < |l.root.obj.rings| && Used(l.root.obj.rings[ring])
  {
  }

  lemma PlacedHolds(l: Local, x: Target)
    requires RootOk(l.root) && l.doing.Placing? && Usable(l, l.doing.ring)
    ensures Holds(x)(Placed(l)) == Holds(x)(l)
  {
    NamingIsAdditive(x);
    var y := l.doing.x;
    InsertWeight(BankOf(l.root, y.Region?), l.doing.ring, y, l.doing.expiration, Naming(x));
    assert multiset([y])[x] == if x == y then 1 else 0;
  }

  lemma PlaceKeepsInv(s: State, t: nat)
    requires Inv(s) && Enabled(s, Place(t))
    ensures Inv(With(s, t, Placed(s.locals[t]), s.heap))
  {
    hide G.Inv, RegionsOk, Counted, Total, DyingOk;
    var l := s.locals[t];
    assert LocalOk(l, s.global.threads[t]);
    forall x ensures Holds(x)(Placed(l)) == Holds(x)(l) { PlacedHolds(l, x); }
    PlacedOk(l);
    SameDying(s, t, Placed(l));
    ChangeOne(s, t, Placed(l), s.heap);
  }

  lemma PoppedHolds(l: Local, regions: bool, x: Target)
    requires |BankOf(l.root, regions).expired| > 0 && l.doing == Ready
    ensures var y := BankOf(l.root, regions).expired[0];
            Holds(x)(Popped(l, regions)) + (if x == y then 1 else 0) == Holds(x)(l)
  {
    var b := BankOf(l.root, regions);
    NamingIsAdditive(x);
    DropWeight(b, 1, Naming(x));
    assert b.expired[..1] == [b.expired[0]];
    assert multiset([b.expired[0]])[x] == if x == b.expired[0] then 1 else 0;
  }

  /** A collected descriptor names an allocated target whose counter is positive. */
  lemma CollectedIsCounted(s: State, t: nat, regions: bool)
    requires Inv(s) && Enabled(s, Collect(t, regions))
    ensures var x := BankOf(s.locals[t].root, regions).expired[0];
            x in s.heap && s.heap[x].dc >= 1 && !s.heap[x].dying
  {
    var x := BankOf(s.locals[t].root, regions).expired[0];
    PoppedHolds(s.locals[t], regions, x);
    SumAtLeast(s.locals, Holds(x), t);
    assert Dc(s.heap, x) == Total(s, x);
  }

  lemma CollectKeepsInv(s: State, t: nat, regions: bool)
    requires Inv(s) && Shaped(s) && Enabled(s, Collect(t, regions))
    ensures Inv(Apply(s, Collect(t, regions)))
  {
    hide G.Inv, DyingOk, RegionsOk, Counted, Total, Holds, Collected, Decrement;
    var s' := Apply(s, Collect(t, regions));
    var l, l' := s.locals[t], s'.locals[t];
    assert LocalOk(l, s.global.threads[t]);
    CollectedIsCounted(s, t, regions);
    CollectedOk(l, regions, s.heap, s.global.threads[t]);
    CollectedHolds(l, regions, s.heap, t, BankOf(l.root, regions).expired[0]);
    forall x
      ensures Dc(s'.heap, x) + Holds(x)(l) == Dc(s.heap, x) + Holds(x)(l')
    {
      CollectedHolds(l, regions, s.heap, t, x);
    }
    CollectDying(s, t, regions);
    ChangeOne(s, t, l', s'.heap);
  }

  lemma CollectedOk(l: Local, regions: bool, heap: map<Target, Header>, th: G.Thread)
    requires LocalOk(l, th) && |BankOf(l.root, regions).expired| > 0
    ensures LocalOk(Collected(l, regions, heap), th)
  {
  }

  lemma CollectedHolds(l: Local, regions: bool, heap: map<Target, Header>, t: nat, x: Target)
    requires |BankOf(l.root, regions).expired| > 0 && l.doing == Ready
    requires var y := BankOf(l.root, regions).expired[0]; y in heap && heap[y].dc >= 1
    ensures var y := BankOf(l.root, regions).expired[0];
            && Decrement(heap, y, t).Keys == heap.Keys
            && Dc(Decrement(heap, y, t), x) + Holds(x)(l) == Dc(heap, x) + Holds(x)(Collected(l, regions, heap))
  {
    PoppedHolds(l, regions, x);
  }

  lemma CollectDying(s: State, t: nat, regions: bool)
    requires DyingOk(s) && Shaped(s) && Enabled(s, Collect(t, regions))
    requires var x := BankOf(s.locals[t].root, regions).expired[0];
             x in s.heap && s.heap[x].dc >= 1 && !s.heap[x].dying
    ensures DyingOk(Apply(s, Collect(t, regions)))
  {
  }

  lemma ReleaseKeepsInv(s: State, t: nat, result: int)
    requires Inv(s) && Shaped(s) && Enabled(s, Release(t, result))
    ensures Inv(Apply(s, Release(t, result)))
  {
    hide G.Inv, RegionsOk;
    var s' := Apply(s, Release(t, result));
    assert LocalOk(s.locals[t], s.global.threads[t]);
    ReleaseDying(s, t, result);
    ChangeOne(s, t, s'.locals[t], s'.heap);
  }

  lemma ReleaseDying(s: State, t: nat, result: int)
    requires DyingOk(s) && Shaped(s) && Enabled(s, Release(t, result))
    ensures DyingOk(Apply(s, Release(t, result)))
    ensures forall x :: Dc(Apply(s, Release(t, result)).heap, x) == Dc(s.heap, x)
    ensures SameRegions(s.heap, Apply(s, Release(t, result)).heap)
  {
  }

  lemma HeapKeepsInv(s: State, step: Step)
    requires Inv(s) && Shaped(s) && Enabled(s, step) && (step.Malloc? || step.Free?)
    ensures Inv(Apply(s, step))
  {
    hide G.Inv, LocalOk, RootOk;
    var s' := Apply(s, step);
    forall x
      ensures Dc(s'.heap, x) == Total(s', x)
    {
      assert Dc(s.heap, x) == Total(s, x);
    }
  }

  lemma StepKeepsInv(s: State, step: Step)
    requires Inv(s) && Enabled(s, step)
    ensures Shaped(s) && Inv(Apply(s, step))
  {
    InvShaped(s);
    match step
    case Protocol(g) => ProtocolKeepsInv(s, g);
    case Malloc(_) => HeapKeepsInv(s, step);
    case Free(_) => HeapKeepsInv(s, step);
    case Turn(t, how) => TurnKeepsInv(s, t, how);
    case Refresh(t, x, ring, given) => RefreshKeepsInv(s, t, x, ring, given);
    case Place(t) => PlaceKeepsInv(s, t);
    case Collect(t, regions) => CollectKeepsInv(s, t, regions);
    case Release(t, result) => ReleaseKeepsInv(s, t, result);
  }
}
