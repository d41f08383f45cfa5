/** What the whole system guarantees over every run: a target that waits in a ring stays allocated
    until that ring has been rotated past it, and how many ticks of the local clock, or of all
    threads on the global clock, that takes. */
module Guarantees {
  import opened Config
  import opened Rings
  import opened Roots
  import opened Sums
  import opened Holdings
  import opened Lifetimes
  import Z = ZombieCleanup
  import G = GlobalTime

  predicate Run(s: State, steps: seq<Step>)
    decreases |steps|
  {
    Shaped(s) && (steps == [] || (Enabled(s, steps[0]) && Run(Apply(s, steps[0]), steps[1..])))
  }

  function Exec(s: State, steps: seq<Step>): State
    requires Run(s, steps)
    decreases |steps|
  {
    if steps == [] then s else Exec(Apply(s, steps[0]), steps[1..])
  }

  lemma {:induction false} RunKeepsInv(s: State, steps: seq<Step>)
    requires Inv(s) && Run(s, steps)
    ensures Inv(Exec(s, steps))
    decreases |steps|
  {
    if steps != [] {
      StepKeepsInv(s, steps[0]);
      RunKeepsInv(Apply(s, steps[0]), steps[1..]);
    }
  }

  // ---------------------------------------------------------------- descriptor counters

  /** In every reachable state the counter of every allocated target is the number of uncollected
      descriptors naming it, over the rings and expired queues of all roots, plus the refreshes that
      have counted but not yet placed theirs; and no descriptor names a target that is not allocated. */
  lemma CountersAreExact(steps: seq<Step>, x: Target)
    requires Run(Lifetimes.Init, steps)
    ensures var s := Exec(Lifetimes.Init, steps);
            && (x in s.heap ==> s.heap[x].dc == Sum(s.locals, Holds(x)))
            && (x !in s.heap ==> Sum(s.locals, Holds(x)) == 0)
  {
    InitOk();
    RunKeepsInv(Lifetimes.Init, steps);
    var s := Exec(Lifetimes.Init, steps);
    assert Dc(s.heap, x) == Total(s, x);
  }

  lemma InitOk()
    ensures Inv(Lifetimes.Init) && Shaped(Lifetimes.Init)
  {
    assert forall y :: Total(Lifetimes.Init, y) == 0;
  }

  /** A counter reaches zero exactly at the collection of the last descriptor. */
  lemma ZeroIffLast(s: State, t: nat, regions: bool)
    requires Inv(s) && Shaped(s) && Enabled(s, Collect(t, regions))
    ensures var x := BankOf(s.locals[t].root, regions).expired[0];
            Dc(Apply(s, Collect(t, regions)).heap, x) == 0 <==> Total(s, x) == 1
  {
    CollectedIsCounted(s, t, regions);
    var x := BankOf(s.locals[t].root, regions).expired[0];
    assert Dc(s.heap, x) == Total(s, x);
  }

  /** The thread that collects the last descriptor of an object frees it if and only if the finalizer
      returns 0; a collection that leaves descriptors behind frees nothing. */
  lemma LastDescriptorFrees(s: State, t: nat, result: int)
    requires Inv(s) && Shaped(s) && Enabled(s, Collect(t, false))
    requires BankOf(s.locals[t].root, false).expired[0].Object?
    ensures var x := BankOf(s.locals[t].root, false).expired[0]; var s1 := Apply(s, Collect(t, false));
            && Shaped(s1)
            && (Total(s, x) == 1 <==> Enabled(s1, Release(t, result)))
            && (Total(s, x) == 1 ==> (x in Apply(s1, Release(t, result)).heap <==> result != 0))
            && (Total(s, x) > 1 ==> x in s1.heap)
  {
    hide Inv, RootOk, Total;
    CollectedIsCounted(s, t, false);
    var x := BankOf(s.locals[t].root, false).expired[0];
    InvCounted(s, x);
    PoppedShaped(s, t);
  }

  lemma InvCounted(s: State, x: Target)
    requires Inv(s)
    ensures Dc(s.heap, x) == Total(s, x)
  {
  }

  lemma PoppedShaped(s: State, t: nat)
    requires Shaped(s) && Enabled(s, Collect(t, false))
    ensures Shaped(Apply(s, Collect(t, false)))
  {
    var s1 := Apply(s, Collect(t, false));
    assert RootOk(s1.locals[t].root);
  }

  // ---------------------------------------------------------------- waiting in a ring

  /** `x` waits in ring `c`; the (k+1)-th rotation from now expires it. */
  predicate Waits(l: Local, c: nat, x: Target, k: nat)
    requires RootOk(l.root)
  {
    c <= GLOBAL && var r := BankOf(l.root, x.Region?).rings[c]; k < |r.slots| && Used(r) && x in Due(r, k)
  }

  lemma WaitingIsAlive(s: State, t: nat, c: nat, x: Target, k: nat)
    requires Inv(s) && t < |s.locals| && RootOk(s.locals[t].root) && Waits(s.locals[t], c, x, k)
    ensures x in s.heap && 1 <= s.heap[x].dc && !s.heap[x].dying
  {
    hide G.Inv, LocalsOk, RegionsOk, RootOk, Waits;
    WaitingIsHeld(s.locals[t], c, x, k);
    SumAtLeast(s.locals, Holds(x), t);
    assert Dc(s.heap, x) == Total(s, x);
  }

  lemma WaitingIsHeld(l: Local, c: nat, x: Target, k: nat)
    requires RootOk(l.root) && Waits(l, c, x, k)
    ensures Holds(x)(l) >= 1
  {
    hide Wrap;
    var b := BankOf(l.root, x.Region?);
    var r := b.rings[c];
    var i := Wrap(r.cur + k, |r.slots|);
    SumAtLeast(r.slots, Naming(x), i);
    SumAtLeast(b.rings, OfRing(Naming(x)), c);
    assert Naming(x)(r.slots[i]) >= 1;
  }

  lemma TurnRings(l: Local, how: Turning, c: nat, regions: bool)
    requires CanTurn(l, how) && c <= GLOBAL && Used(BankOf(l.root, regions).rings[c])
    ensures BankOf(Turned(l, how).root, regions).rings[c] ==
            AdvanceTimes(BankOf(l.root, regions).rings[c], TurnAdvances(l, how, c))
  {
    AdvanceFew(BankOf(l.root, regions).rings[c]);
    match how
    case Tick(d) => TickAdvancesRings(l.root, d, c);
    case Clean =>
    case RegisterClock(_) =>
    case UnregisterClock(_) =>
    case TakeOver =>
  }

  /** How often ring `c` was rotated between two states of a root. */
  function Rotations(l: Local, l': Local, c: nat): int
    requires c < |l.advances| && c < |l'.advances|
  {
    var after: int, before: int := l'.advances[c], l.advances[c];
    after - before
  }

  /** From `l` to `l'` the target moved forward by the rotations of its ring and by nothing else. */
  predicate Moved(l: Local, l': Local, c: nat, x: Target, k: nat) {
    && RootOk(l'.root) && c < |l.advances| && c < |l'.advances|
    && var n := Rotations(l, l', c);
    && n >= 0 && (n <= k ==> Waits(l', c, x, k - n))
  }

  lemma WaitsTurn(l: Local, how: Turning, c: nat, x: Target, k: nat)
    requires CanTurn(l, how) && Waits(l, c, x, k)
    ensures Moved(l, Turned(l, how), c, x, k)
  {
    hide TurnRoot, Due, Advance;
    TurnRootOk(l.root, how);
    TurnRings(l, how, c, x.Region?);
    var r := BankOf(l.root, x.Region?).rings[c];
    var n := TurnAdvances(l, how, c);
    if n <= k { Z.AdvanceTimesDue(r, n, k - n); }
  }

  lemma BankShape(r: Root<Target>)
    requires RootOk(r)
    ensures |r.obj.rings| == |r.reg.rings| == MAX_CLOCKS + 1
  {
  }

  lemma WaitsRotate(l: Local, c: nat, x: Target, k: nat)
    requires RootOk(l.root) && |l.advances| == MAX_CLOCKS + 1 && Usable(l, GLOBAL) && Waits(l, c, x, k)
    ensures Moved(l, Rotate(l), c, x, k)
  {
    hide Advance, Rings.Released, Due, RootOk;
    BankShape(l.root);
    AdvanceKeepsOk(l.root, GLOBAL);
    AdvanceDue(BankOf(l.root, x.Region?).rings[c]);
  }

  lemma WaitsPlaced(l: Local, c: nat, x: Target, k: nat)
    requires RootOk(l.root) && |l.advances| == MAX_CLOCKS + 1
    requires l.doing.Placing? && Usable(l, l.doing.ring) && Waits(l, c, x, k)
    ensures Moved(l, Placed(l), c, x, k)
  {
    hide Insert, Due, Wrap, RootOk;
    PlacedOk(l);
    BankShape(l.root);
    var y := l.doing.x;
    InsertDue(BankOf(l.root, y.Region?).rings[l.doing.ring], y, l.doing.expiration);
  }

  lemma WaitsCollected(l: Local, regions: bool, heap: map<Target, Header>, c: nat, x: Target, k: nat)
    requires RootOk(l.root) && |l.advances| == MAX_CLOCKS + 1
    requires |BankOf(l.root, regions).expired| > 0 && Waits(l, c, x, k)
    ensures Moved(l, Collected(l, regions, heap), c, x, k)
  {
  }

  /** The state of root `t` after a step. */
  function LocalAfter(s: State, step: Step, t: nat): Local
    requires Shaped(s) && Enabled(s, step) && t < |s.locals|
  {
    var l := s.locals[t];
    match step
    case Protocol(g) => if g == G.Bump(t) then Rotate(l) else l
    case Turn(u, how) => if u == t then Turned(l, how) else l
    case Place(u) => if u == t then Placed(l) else l
    case Collect(u, regions) => if u == t then Collected(l, regions, s.heap) else l
    case Refresh(u, x, ring, given) =>
      if u == t && s.heap[x].dc != INT_MAX then l.(doing := Placing(x, ring, Expiration(ring, given))) else l
    case Release(u, _) => if u == t then l.(doing := Ready) else l
    case Malloc(_) => l
    case Free(_) => l
  }

  lemma ApplyLocal(s: State, step: Step, t: nat)
    requires Shaped(s) && Enabled(s, step) && t < |s.locals|
    ensures t < |Apply(s, step).locals| && Apply(s, step).locals[t] == LocalAfter(s, step, t)
  {
  }

  lemma WaitsStep(s: State, step: Step, t: nat, c: nat, x: Target, k: nat)
    requires Shaped(s) && Enabled(s, step) && t < |s.locals| && Waits(s.locals[t], c, x, k)
    ensures Moved(s.locals[t], LocalAfter(s, step, t), c, x, k)
  {
    hide Rotate, Turned, Placed, Collected, CanTurn, G.Enabled, Due, Waits;
    var l := s.locals[t];
    match step
    case Protocol(g) => if g == G.Bump(t) { WaitsRotate(l, c, x, k); } else { NotMoved(l, l, c, x, k); }
    case Turn(u, how) => if u == t { WaitsTurn(l, how, c, x, k); } else { NotMoved(l, l, c, x, k); }
    case Place(u) => if u == t { WaitsPlaced(l, c, x, k); } else { NotMoved(l, l, c, x, k); }
    case Collect(u, regions) =>
      if u == t { WaitsCollected(l, regions, s.heap, c, x, k); } else { NotMoved(l, l, c, x, k); }
    case Refresh(_, _, _, _) => NotMoved(l, LocalAfter(s, step, t), c, x, k);
    case Release(_, _) => NotMoved(l, LocalAfter(s, step, t), c, x, k);
    case Malloc(_) => NotMoved(l, l, c, x, k);
    case Free(_) => NotMoved(l, l, c, x, k);
  }

  lemma {:induction false} WaitsRun(s: State, steps: seq<Step>, t: nat, c: nat, x: Target, k: nat)
    requires Run(s, steps) && t < |s.locals| && Waits(s.locals[t], c, x, k)
    ensures var s' := Exec(s, steps); t < |s'.locals| && Moved(s.locals[t], s'.locals[t], c, x, k)
    decreases |steps|
  {
    hide Apply, LocalAfter, Waits, Enabled;
    if steps != [] {
      WaitsStep(s, steps[0], t, c, x, k);
      ApplyLocal(s, steps[0], t);
      var s1 := Apply(s, steps[0]);
      var n := Rotations(s.locals[t], s1.locals[t], c);
      AdvancesGrow(s1, steps[1..], t, c);
      if n <= k { WaitsRun(s1, steps[1..], t, c, x, k - n); }
      MovedFurther(s.locals[t], s1.locals[t], Exec(s1, steps[1..]).locals[t], c, x, k);
    } else {
      NotMoved(s.locals[t], s.locals[t], c, x, k);
    }
  }

  lemma NotMoved(l: Local, l': Local, c: nat, x: Target, k: nat)
    requires RootOk(l.root) && |l.advances| == MAX_CLOCKS + 1 && Waits(l, c, x, k)
    requires l'.root == l.root && l'.advances == l.advances
    ensures Moved(l, l', c, x, k)
  {
  }

  lemma MovedFurther(l: Local, l1: Local, l2: Local, c: nat, x: Target, k: nat)
    requires Moved(l, l1, c, x, k) && RootOk(l2.root) && c < |l2.advances| && 0 <= Rotations(l1, l2, c)
    requires Rotations(l, l1, c) <= k ==> Moved(l1, l2, c, x, k - Rotations(l, l1, c))
    ensures Moved(l, l2, c, x, k)
  {
  }

  lemma {:induction false} AdvancesGrow(s: State, steps: seq<Step>, t: nat, c: nat)
    requires Run(s, steps) && t < |s.locals| && c <= GLOBAL
    ensures var s' := Exec(s, steps);
            && t < |s'.locals| && RootOk(s'.locals[t].root) && c < |s'.locals[t].advances|
            && 0 <= Rotations(s.locals[t], s'.locals[t], c)
    decreases |steps|
  {
    if steps != [] {
      ApplyLocal(s, steps[0], t);
      AdvancesGrow(Apply(s, steps[0]), steps[1..], t, c);
    }
  }

  /** Over every run: as long as the ring has not been rotated more than k times, the target is still
      waiting, allocated, and its counter is positive, whatever all threads do in between. */
  lemma Survives(s: State, steps: seq<Step>, t: nat, c: nat, x: Target, k: nat)
    requires Inv(s) && Run(s, steps) && t < |s.locals| && Waits(s.locals[t], c, x, k)
    ensures var s' := Exec(s, steps);
            && t < |s'.locals| && c < |s'.locals[t].advances|
            && (Rotations(s.locals[t], s'.locals[t], c) <= k ==>
                  x in s'.heap && 1 <= s'.heap[x].dc && !s'.heap[x].dying)
  {
    WaitsRun(s, steps, t, c, x, k);
    RunKeepsInv(s, steps);
    var s' := Exec(s, steps);
    if Rotations(s.locals[t], s'.locals[t], c) <= k { MovedIsAlive(s.locals[t], s', t, c, x, k); }
  }

  lemma MovedIsAlive(l: Local, s': State, t: nat, c: nat, x: Target, k: nat)
    requires Inv(s') && t < |s'.locals| && Moved(l, s'.locals[t], c, x, k) && Rotations(l, s'.locals[t], c) <= k
    ensures x in s'.heap && 1 <= s'.heap[x].dc && !s'.heap[x].dying
  {
    WaitingIsAlive(s', t, c, x, k - Rotations(l, s'.locals[t], c));
  }

  // ---------------------------------------------------------------- what a refresh guarantees

  predicate Gone(s: State, x: Target) {
    x !in s.heap || s.heap[x].dc == 0 || s.heap[x].dying
  }

  /** A placed descriptor waits at its expiration modulo the number of slots. */
  lemma PlacedWaits(l: Local)
    requires RootOk(l.root) && l.doing.Placing? && Usable(l, l.doing.ring)
    ensures RootOk(Placed(l).root)
    ensures var r := BankOf(l.root, l.doing.x.Region?).rings[l.doing.ring];
            Waits(Placed(l), l.doing.ring, l.doing.x, Wrap(l.doing.expiration, |r.slots|))
  {
    PlacedOk(l);
    var r := BankOf(l.root, l.doing.x.Region?).rings[l.doing.ring];
    InsertDue(r, l.doing.x, l.doing.expiration);
  }

  lemma PlaceThenSurvives(s: State, t: nat, steps: seq<Step>)
    requires Inv(s) && Shaped(s) && Enabled(s, Place(t)) && Run(Apply(s, Place(t)), steps)
    ensures var s' := Exec(Apply(s, Place(t)), steps);
            var Placing(x, c, e) := s.locals[t].doing;
            var slots := |BankOf(s.locals[t].root, x.Region?).rings[c].slots|;
            && slots > 0 && t < |s'.locals| && c < |s'.locals[t].advances|
            && 0 <= Rotations(s.locals[t], s'.locals[t], c)
            && (Gone(s', x) ==> Rotations(s.locals[t], s'.locals[t], c) > Wrap(e, slots))
  {
    var l := s.locals[t];
    var Placing(x, c, e) := l.doing;
    PlacedWaits(l);
    StepKeepsInv(s, Place(t));
    var s1 := Apply(s, Place(t));
    var k := Wrap(e, |BankOf(l.root, x.Region?).rings[c].slots|);
    Survives(s1, steps, t, c, x, k);
    AdvancesGrow(s1, steps, t, c);
  }

  /** A refresh never frees what it refreshes: as long as the thread has not rotated a ring, neither
      its own collections nor anything other threads do can bring the counter to zero. */
  lemma RefreshProtects(s: State, t: nat, steps: seq<Step>)
    requires Inv(s) && Shaped(s) && Enabled(s, Place(t)) && Run(Apply(s, Place(t)), steps)
    requires forall i :: 0 <= i < |steps| ==> steps[i] != Protocol(G.Bump(t)) && !(steps[i].Turn? && steps[i].t == t)
    ensures !Gone(Exec(Apply(s, Place(t)), steps), s.locals[t].doing.x)
  {
    var s1 := Apply(s, Place(t));
    PlaceThenSurvives(s, t, steps);
    NoRotation(s1, steps, t, s.locals[t].doing.ring);
  }

  lemma {:induction false} NoRotation(s: State, steps: seq<Step>, t: nat, c: nat)
    requires Run(s, steps) && t < |s.locals| && c <= GLOBAL
    requires forall i :: 0 <= i < |steps| ==> steps[i] != Protocol(G.Bump(t)) && !(steps[i].Turn? && steps[i].t == t)
    ensures var s' := Exec(s, steps);
            t < |s'.locals| && c < |s'.locals[t].advances| && Rotations(s.locals[t], s'.locals[t], c) == 0
    decreases |steps|
  {
    if steps != [] {
      ApplyLocal(s, steps[0], t);
      assert steps[0] != Protocol(G.Bump(t));
      NoRotation(Apply(s, steps[0]), steps[1..], t, c);
    }
  }

  // ---------------------------------------------------------------- local clocks

  function Ticks(steps: seq<Step>, t: nat, c: nat): nat {
    if steps == [] then 0
    else (if steps[0] == Turn(t, Turning.Tick(c)) then 1 else 0) + Ticks(steps[1..], t, c)
  }

  /** The step leaves clock `c` of root `t` registered: clocks 0 and 1 are never unregistered, and clock
      0 stays registered when the root is passed on to another thread. */
  predicate KeepsRegistered(step: Step, t: nat, c: nat) {
    && (c <= 1 || step != Turn(t, UnregisterClock(c)))
    && (c == 0 || step != Turn(t, Turning.TakeOver))
  }

  predicate StaysRegistered(steps: seq<Step>, t: nat, c: nat) {
    forall i :: 0 <= i < |steps| ==> KeepsRegistered(steps[i], t, c)
  }

  lemma RegisteredStep(s: State, step: Step, t: nat, c: nat)
    requires Shaped(s) && Enabled(s, step) && t < |s.locals| && c < MAX_CLOCKS
    requires Registered(s.locals[t].root, c)
    requires KeepsRegistered(step, t, c)
    ensures var l' := LocalAfter(s, step, t);
            && |l'.root.age| == MAX_CLOCKS && Registered(l'.root, c) && |l'.advances| == MAX_CLOCKS + 1
            && Rotations(s.locals[t], l', c) == if step == Turn(t, Turning.Tick(c)) then 1 else 0
  {
    var l := s.locals[t];
    match step
    case Turn(u, how) => if u == t { RegisteredTurn(l, how, c); }
    case Protocol(g) =>
    case Place(_) =>
    case Collect(_, _) =>
    case Refresh(_, _, _, _) =>
    case Release(_, _) =>
    case Malloc(_) =>
    case Free(_) =>
  }

  lemma RegisteredTurn(l: Local, how: Turning, c: nat)
    requires CanTurn(l, how) && c < MAX_CLOCKS && Registered(l.root, c)
    requires (c <= 1 || how != UnregisterClock(c)) && (c == 0 || how != Turning.TakeOver)
    ensures var l' := Turned(l, how);
            && |l'.root.age| == MAX_CLOCKS && Registered(l'.root, c)
            && Rotations(l, l', c) == if how == Turning.Tick(c) then 1 else 0
  {
    match how
    case Tick(d) => TickAdvancesRings(l.root, d, c);
    case Clean =>
    case RegisterClock(_) =>
    case UnregisterClock(_) =>
    case TakeOver =>
  }

  /** The buffers of a registered clock are rotated by its own ticks and by nothing else. */
  lemma {:induction false} RotationsAreTicks(s: State, steps: seq<Step>, t: nat, c: nat)
    requires Run(s, steps) && t < |s.locals| && c < MAX_CLOCKS && Registered(s.locals[t].root, c)
    requires StaysRegistered(steps, t, c)
    ensures var s' := Exec(s, steps);
            && t < |s'.locals| && c < |s'.locals[t].advances|
            && Rotations(s.locals[t], s'.locals[t], c) == Ticks(steps, t, c)
    decreases |steps|
  {
    if steps != [] {
      assert KeepsRegistered(steps[0], t, c);
      RegisteredStep(s, steps[0], t, c);
      ApplyLocal(s, steps[0], t);
      RotationsAreTicks(Apply(s, steps[0]), steps[1..], t, c);
    }
  }

  /** A target refreshed on a registered clock with extension e is not freed or recycled before that
      clock has ticked e + 1 times, whatever happens to its other descriptors. As this holds for each
      refresh, a target refreshed on several clocks lives until all of them have ticked that often. */
  lemma LocalLifetime(s: State, t: nat, x: Target, c: nat, given: nat, steps: seq<Step>)
    requires Inv(s) && Shaped(s) && Enabled(s, Place(t)) && Run(Apply(s, Place(t)), steps)
    requires c < MAX_CLOCKS && s.locals[t].doing == Placing(x, c, Expiration(c, given))
    requires Registered(s.locals[t].root, c) && StaysRegistered(steps, t, c)
    requires Gone(Exec(Apply(s, Place(t)), steps), x)
    ensures Ticks(steps, t, c) >= CheckExtension(given) + 1
  {
    var s1 := Apply(s, Place(t));
    PlaceThenSurvives(s, t, steps);
    RotationsAreTicks(s1, steps, t, c);
    LocalRefreshDue(given);
  }

  // ---------------------------------------------------------------- the global clock

  function Projection(steps: seq<Step>): seq<G.Step> {
    if steps == [] then []
    else (if steps[0].Protocol? then [steps[0].g] else []) + Projection(steps[1..])
  }

  /** Every run of the system is a run of the global-time protocol. */
  lemma {:induction false} ProjectionRuns(s: State, steps: seq<Step>)
    requires Run(s, steps)
    ensures G.Run(s.global, Projection(steps))
    ensures Exec(s, steps).global == G.Exec(s.global, Projection(steps))
    decreases |steps|
  {
    hide Apply, Enabled, G.Apply, G.Enabled;
    if steps != [] {
      var s1, rest := Apply(s, steps[0]), steps[1..];
      GlobalAfter(s, steps[0]);
      ProjectionRuns(s1, rest);
      if steps[0].Protocol? {
        assert Projection(steps) == [steps[0].g] + Projection(rest);
        assert ([steps[0].g] + Projection(rest))[1..] == Projection(rest);
      } else {
        assert Projection(steps) == Projection(rest);
      }
    }
  }

  lemma GlobalAfter(s: State, step: Step)
    requires Shaped(s) && Enabled(s, step)
    ensures step.Protocol? ==> G.Enabled(s.global, step.g) && Apply(s, step).global == G.Apply(s.global, step.g)
    ensures !step.Protocol? ==> Apply(s, step).global == s.global
  {
    hide RootOk, G.Enabled, G.Apply;
  }

  lemma {:induction false} ProjectionHas(steps: seq<Step>, g: G.Step)
    ensures g in Projection(steps) ==> Protocol(g) in steps
  {
    if steps != [] { ProjectionHas(steps[1..], g); }
  }

  /** A target refreshed globally with an extension below the maximum is not freed or recycled before
      the global time has advanced e + 2 times and every thread that participated all along has made
      at least e + 1 effective global ticks. The refreshing thread may block, resume, terminate and
      have its root reused in between. */
  lemma GlobalLifetime(s: State, t: nat, x: Target, given: nat, steps: seq<Step>)
    requires Inv(s) && Shaped(s) && Enabled(s, Place(t)) && Run(Apply(s, Place(t)), steps)
    requires given < MAX_EXTENSION && s.locals[t].doing == Placing(x, GLOBAL, Expiration(GLOBAL, given))
    requires Gone(Exec(Apply(s, Place(t)), steps), x)
    ensures var g, g' := s.global, Exec(Apply(s, Place(t)), steps).global;
            && g'.time >= g.time + given + 2
            && forall u :: 0 <= u < |g.threads| && !g.threads[u].blocked && Protocol(G.Block(u)) !in steps ==>
                 u < |g'.threads| && g'.threads[u].ticks >= g.threads[u].ticks + given + 1
  {
    var s1 := Apply(s, Place(t));
    var s', ps := Exec(s1, steps), Projection(steps);
    PlaceThenSurvives(s, t, steps);
    GlobalRefreshDue(given);
    StepKeepsInv(s, Place(t));
    RunKeepsInv(s1, steps);
    ProjectionRuns(s1, steps);
    RotationsAreGlobalTicks(s, s', t);
    G.TicksNeedTime(s.global, ps, t);
    forall u | 0 <= u < |s.global.threads| && !s.global.threads[u].blocked && Protocol(G.Block(u)) !in steps
      ensures u < |s'.global.threads| && s'.global.threads[u].ticks >= s.global.threads[u].ticks + given + 1
    {
      ProjectionHas(steps, G.Block(u));
      G.TimeNeedsTicks(s.global, ps, u);
    }
  }

  lemma RotationsAreGlobalTicks(s: State, s': State, t: nat)
    requires LocalsOk(s) && LocalsOk(s') && t < |s.locals| && t < |s'.locals|
    ensures GLOBAL < |s.locals[t].advances| && GLOBAL < |s'.locals[t].advances|
    ensures Rotations(s.locals[t], s'.locals[t], GLOBAL) == s'.global.threads[t].ticks - s.global.threads[t].ticks
  {
    assert LocalOk(s.locals[t], s.global.threads[t]) && LocalOk(s'.locals[t], s'.global.threads[t]);
  }

  /** At the maximal extension the guarantee fails: the insert wraps to the slot that is about to
      expire, and the thread's next effective tick already expires the descriptor. */
  lemma MaximalExtensionWraps(l: Local, x: Target, given: nat)
    requires RootOk(l.root) && |l.advances| == MAX_CLOCKS + 1
    requires l.doing == Placing(x, GLOBAL, Expiration(GLOBAL, given)) && Usable(l, GLOBAL)
    ensures RootOk(Placed(l).root) && Usable(Placed(l), GLOBAL)
    ensures Waits(Placed(l), GLOBAL, x, if given < MAX_EXTENSION then given + 2 else 0)
    ensures given >= MAX_EXTENSION ==> x in BankOf(Rotate(Placed(l)).root, x.Region?).expired
  {
    PlacedWaits(l);
    GlobalRefreshDue(given);
    AdvanceDue(BankOf(Placed(l).root, x.Region?).rings[GLOBAL]);
  }

  /** So the bound on the global time is lost: while another thread still has to tick, an object whose
      only descriptor was placed with the maximal extension is freed by the refreshing thread's next
      tick and the collection after it, in the same period. */
  lemma MaximalExtensionFreesEarly(s: State, t: nat, x: Target, given: nat)
    requires Inv(s) && Shaped(s) && Enabled(s, Place(t)) && given >= MAX_EXTENSION
    requires s.locals[t].doing == Placing(x, GLOBAL, Expiration(GLOBAL, given)) && x.Object? && Dc(s.heap, x) == 1
    requires s.locals[t].root.obj.expired == [] && Due(s.locals[t].root.obj.rings[GLOBAL], 0) == []
    requires AboutToTick(s, t)
    ensures var s1 := Apply(s, Place(t));
            && Run(s1, EarlySteps(t)) && x !in Exec(s1, EarlySteps(t)).heap
            && Exec(s1, EarlySteps(t)).global.time == s.global.time
  {
    hide Inv;
    WrappedExpires(s.locals[t], x, given);
    StepKeepsShape(s, Place(t));
    EarlyFromCompare(Apply(s, Place(t)), t, x);
  }

  /** A global tick of a thread that is not the last to tick, and the collection at its end. */
  function EarlySteps(t: nat): seq<Step> {
    [Protocol(G.Compare(t)), Protocol(G.Bump(t)), Protocol(G.Decrement(t)), Collect(t, false), Release(t, 0)]
  }

  /** Thread `t` has not ticked in this period, and it is not the only one. */
  predicate AboutToTick(s: State, t: nat) {
    && t < |s.global.threads| && s.global.countdown > 1
    && var th := s.global.threads[t]; !th.blocked && th.pc == G.Idle && th.phase == s.global.time
  }

  lemma EarlyFromCompare(s: State, t: nat, x: Target)
    requires Inv(s) && Shaped(s) && t < |s.locals| && s.locals[t].doing == Ready && x.Object? && Dc(s.heap, x) == 1
    requires AboutToTick(s, t)
    requires Usable(s.locals[t], GLOBAL) && Rotate(s.locals[t]).root.obj.expired == [x]
    ensures Run(s, EarlySteps(t)) && x !in Exec(s, EarlySteps(t)).heap
    ensures Exec(s, EarlySteps(t)).global.time == s.global.time
  {
    hide Inv, RootOk, Rotate;
    var compare := Protocol(G.Compare(t));
    var rest := [Protocol(G.Bump(t)), Protocol(G.Decrement(t)), Collect(t, false), Release(t, 0)];
    StepKeepsShape(s, compare);
    EarlyFromBump(Apply(s, compare), t, x);
    OneMore(s, compare, rest);
    assert [compare] + rest == EarlySteps(t);
  }

  lemma EarlyFromBump(s: State, t: nat, x: Target)
    requires Inv(s) && Shaped(s) && t < |s.locals| && s.locals[t].doing == Ready && x.Object? && Dc(s.heap, x) == 1
    requires s.global.threads[t].pc == G.Matched && s.global.countdown > 1
    requires Usable(s.locals[t], GLOBAL) && Rotate(s.locals[t]).root.obj.expired == [x]
    ensures var steps := [Protocol(G.Bump(t)), Protocol(G.Decrement(t)), Collect(t, false), Release(t, 0)];
            Run(s, steps) && x !in Exec(s, steps).heap && Exec(s, steps).global.time == s.global.time
  {
    hide Inv, RootOk, Rotate;
    var bump, rest := Protocol(G.Bump(t)), [Protocol(G.Decrement(t)), Collect(t, false), Release(t, 0)];
    StepKeepsShape(s, bump);
    RotateReady(s.locals[t]);
    EarlyFromDecrement(Apply(s, bump), t, x);
    OneMore(s, bump, rest);
    assert [bump] + rest == [bump, Protocol(G.Decrement(t)), Collect(t, false), Release(t, 0)];
  }

  lemma RotateReady(l: Local)
    requires Usable(l, GLOBAL) && |l.advances| == MAX_CLOCKS + 1
    ensures Rotate(l).doing == l.doing && Rotate(l).root == IncrementAndExpire(l.root, GLOBAL)
  {
  }

  lemma EarlyFromDecrement(s: State, t: nat, x: Target)
    requires Inv(s) && Shaped(s) && t < |s.locals| && s.locals[t].doing == Ready && x.Object? && Dc(s.heap, x) == 1
    requires s.global.threads[t].pc == G.Bumped && s.global.countdown > 1 && s.locals[t].root.obj.expired == [x]
    ensures var steps := [Protocol(G.Decrement(t)), Collect(t, false), Release(t, 0)];
            Run(s, steps) && x !in Exec(s, steps).heap && Exec(s, steps).global.time == s.global.time
  {
    hide Inv, RootOk;
    var decrement, rest := Protocol(G.Decrement(t)), [Collect(t, false), Release(t, 0)];
    StepKeepsShape(s, decrement);
    EarlyFromCollect(Apply(s, decrement), t, x);
    OneMore(s, decrement, rest);
    assert [decrement] + rest == [decrement, Collect(t, false), Release(t, 0)];
  }

  lemma EarlyFromCollect(s: State, t: nat, x: Target)
    requires Inv(s) && Shaped(s) && BetweenCalls(s, t) && x.Object? && Dc(s.heap, x) == 1
    requires s.locals[t].root.obj.expired == [x]
    ensures var steps := [Collect(t, false), Release(t, 0)];
            Run(s, steps) && x !in Exec(s, steps).heap && Exec(s, steps).global.time == s.global.time
  {
    hide Inv, RootOk, Valid, BankOk;
    var collect, release := Collect(t, false), Release(t, 0);
    StepKeepsShape(s, collect);
    var s1 := Apply(s, collect);
    StepKeepsShape(s1, release);
    OneMore(s1, release, []);
    OneMore(s, collect, [release]);
    assert [collect] + [release] == [collect, release];
  }

  lemma StepKeepsShape(s: State, step: Step)
    requires Inv(s) && Enabled(s, step)
    ensures Shaped(s) && Inv(Apply(s, step)) && Shaped(Apply(s, step))
  {
    StepKeepsInv(s, step);
    InvShaped(Apply(s, step));
  }

  lemma WrappedExpires(l: Local, x: Target, given: nat)
    requires RootOk(l.root) && |l.advances| == MAX_CLOCKS + 1 && given >= MAX_EXTENSION
    requires l.doing == Placing(x, GLOBAL, Expiration(GLOBAL, given)) && Usable(l, GLOBAL) && x.Object?
    requires l.root.obj.expired == [] && Due(l.root.obj.rings[GLOBAL], 0) == []
    ensures Usable(Placed(l), GLOBAL) && Rotate(Placed(l)).root.obj.expired == [x]
    ensures Placed(l).doing == Ready
  {
    GlobalRefreshDue(given);
    InsertDue(l.root.obj.rings[GLOBAL], x, l.doing.expiration);
    AdvanceDue(Placed(l).root.obj.rings[GLOBAL]);
  }

  lemma OneMore(s: State, step: Step, rest: seq<Step>)
    requires Shaped(s) && Enabled(s, step) && Run(Apply(s, step), rest)
    ensures Run(s, [step] + rest) && Exec(s, [step] + rest) == Exec(Apply(s, step), rest)
  {
    assert ([step] + rest)[1..] == rest;
  }

  // ---------------------------------------------------------------- from the call of a refresh on

  /** A thread that has counted its refresh does nothing else until it has placed the descriptor. */
  lemma {:induction false} PlacingStays(s: State, steps: seq<Step>, t: nat)
    requires Run(s, steps) && t < |s.locals| && s.locals[t].doing.Placing? && Place(t) !in steps
    ensures var s' := Exec(s, steps); t < |s'.locals| && s'.locals[t] == s.locals[t]
    decreases |steps|
  {
    if steps != [] {
      assert steps[0] in steps;
      ApplyLocal(s, steps[0], t);
      PlacingStays(Apply(s, steps[0]), steps[1..], t);
    }
  }

  ghost predicate AboutToPlace(s: State, t: nat, l: Local) {
    Shaped(s) && Enabled(s, Place(t)) && s.locals[t] == l
  }

  /** The call has counted its descriptor; other threads run until it places it. */
  lemma RefreshPlaces(s: State, t: nat, x: Target, c: nat, given: nat, others: seq<Step>)
    requires t < |s.locals| && Shaped(s) && Enabled(s, Refresh(t, x, c, given)) && Dc(s.heap, x) != INT_MAX
    requires Inv(s) && Place(t) !in others
    requires Run(Apply(s, Refresh(t, x, c, given)), others)
    ensures var s1 := Exec(Apply(s, Refresh(t, x, c, given)), others);
            && Inv(s1) && !Gone(s1, x)
            && AboutToPlace(s1, t, s.locals[t].(doing := Placing(x, c, Expiration(c, given))))
  {
    hide Inv, LocalAfter;
    var s0 := Apply(s, Refresh(t, x, c, given));
    StepKeepsShape(s, Refresh(t, x, c, given));
    RunKeepsInv(s0, others);
    var s1 := Exec(s0, others);
    InvShaped(s1);
    PlacingStays(s0, others, t);
    PlacingIsAlive(s1, t);
  }

  lemma PlacingIsAlive(s: State, t: nat)
    requires Inv(s) && t < |s.locals| && s.locals[t].doing.Placing?
    ensures !Gone(s, s.locals[t].doing.x)
  {
    hide G.Inv, LocalsOk, RegionsOk;
    var x := s.locals[t].doing.x;
    SumAtLeast(s.locals, Holds(x), t);
    assert Dc(s.heap, x) == Total(s, x);
  }

  /** From the call of a refresh with a registered clock on: the target is neither freed nor recycled
      before that clock has ticked e + 1 times. `others` are the steps between counting and placing. */
  lemma RefreshLifetime(s: State, t: nat, x: Target, c: nat, given: nat, others: seq<Step>, steps: seq<Step>)
    requires Inv(s) && Shaped(s) && Enabled(s, Refresh(t, x, c, given)) && Dc(s.heap, x) != INT_MAX
    requires Run(Apply(s, Refresh(t, x, c, given)), others) && Place(t) !in others
    requires c < MAX_CLOCKS && Registered(s.locals[t].root, c) && StaysRegistered(steps, t, c)
    ensures var s1 := Exec(Apply(s, Refresh(t, x, c, given)), others);
            && Shaped(s1) && Enabled(s1, Place(t))
            && (Run(Apply(s1, Place(t)), steps) && Gone(Exec(Apply(s1, Place(t)), steps), x) ==>
                  Ticks(steps, t, c) >= CheckExtension(given) + 1)
  {
    hide Inv, Gone, Expiration;
    RefreshPlaces(s, t, x, c, given, others);
    var s1 := Exec(Apply(s, Refresh(t, x, c, given)), others);
    if Run(Apply(s1, Place(t)), steps) && Gone(Exec(Apply(s1, Place(t)), steps), x) {
      LocalLifetime(s1, t, x, c, given, steps);
    }
  }

  /** From the call of a global refresh with an extension e below the maximum on: the target is neither
      freed nor recycled before the global time has advanced e + 2 times and every thread that takes
      part throughout has made e + 1 effective global ticks. */
  lemma GlobalRefreshLifetime(s: State, t: nat, x: Target, given: nat, others: seq<Step>, steps: seq<Step>)
    requires Inv(s) && Shaped(s) && Enabled(s, Refresh(t, x, GLOBAL, given)) && Dc(s.heap, x) != INT_MAX
    requires Run(Apply(s, Refresh(t, x, GLOBAL, given)), others) && Place(t) !in others
    requires given < MAX_EXTENSION
    ensures var s1 := Exec(Apply(s, Refresh(t, x, GLOBAL, given)), others);
            && Shaped(s1) && Enabled(s1, Place(t))
            && (Run(Apply(s1, Place(t)), steps) && Gone(Exec(Apply(s1, Place(t)), steps), x) ==>
                  var g, g' := s.global, Exec(Apply(s1, Place(t)), steps).global;
                  && g'.time >= g.time + given + 2
                  && forall u :: 0 <= u < |g.threads| && !g.threads[u].blocked
                                 && Protocol(G.Block(u)) !in others && Protocol(G.Block(u)) !in steps ==>
                       u < |g'.threads| && g'.threads[u].ticks >= g.threads[u].ticks + given + 1)
  {
    hide Inv, Gone, Expiration;
    RefreshPlaces(s, t, x, GLOBAL, given, others);
    var s0 := Apply(s, Refresh(t, x, GLOBAL, given));
    var s1 := Exec(s0, others);
    GlobalUnchanged(s, t, x, given);
    if Run(Apply(s1, Place(t)), steps) && Gone(Exec(Apply(s1, Place(t)), steps), x) {
      GlobalLifetime(s1, t, x, given, steps);
      TimePasses(s0, others);
      forall u | 0 <= u < |s.global.threads| && !s.global.threads[u].blocked
                 && Protocol(G.Block(u)) !in others && Protocol(G.Block(u)) !in steps
        ensures u < |s1.global.threads| && !s1.global.threads[u].blocked
        ensures s1.global.threads[u].ticks >= s.global.threads[u].ticks
      {
        TicksPass(s0, others, u);
      }
    }
  }

  lemma GlobalUnchanged(s: State, t: nat, x: Target, given: nat)
    requires Inv(s) && Shaped(s) && Enabled(s, Refresh(t, x, GLOBAL, given))
    ensures var s0 := Apply(s, Refresh(t, x, GLOBAL, given)); s0.global == s.global && Inv(s0)
  {
    StepKeepsInv(s, Refresh(t, x, GLOBAL, given));
  }

  lemma TimePasses(s: State, steps: seq<Step>)
    requires Run(s, steps)
    ensures s.global.time <= Exec(s, steps).global.time
  {
    ProjectionRuns(s, steps);
    G.TimeNeverGoesBack(s.global, Projection(steps));
  }

  lemma TicksPass(s: State, steps: seq<Step>, u: nat)
    requires Inv(s) && Run(s, steps) && u < |s.global.threads| && !s.global.threads[u].blocked
    requires Protocol(G.Block(u)) !in steps
    ensures var g' := Exec(s, steps).global;
            u < |g'.threads| && !g'.threads[u].blocked && g'.threads[u].ticks >= s.global.threads[u].ticks
  {
    ProjectionRuns(s, steps);
    ProjectionHas(steps, G.Block(u));
    G.TimeNeedsTicks(s.global, Projection(steps), u);
    G.TicksNeedTime(s.global, Projection(steps), u);
  }
}
