/** The other half of the lifetime theorems: what has no further descriptor is reclaimed. A target whose
    only descriptor is the one placed, and which is not refreshed again, is gone if and only if its clock
    has ticked often enough, provided that the thread has collected what expired. */
module Reclamation {
  import opened Config
  import opened Rings
  import opened Roots
  import opened Sums
  import opened Holdings
  import opened Lifetimes
  import opened Guarantees
  import Z = ZombieCleanup
  import G = GlobalTime

  predicate NotPlacing(l: Local, x: Target) {
    !(l.doing.Placing? && l.doing.x == x)
  }

  predicate NoRefresh(step: Step, x: Target) {
    step.Refresh? ==> step.x != x
  }

  predicate NeverRefreshed(steps: seq<Step>, x: Target) {
    forall i :: 0 <= i < |steps| ==> NoRefresh(steps[i], x)
  }

  // ---------------------------------------------------------------- descriptors do not multiply

  ghost function HeldIn(l: Local, x: Target, regions: bool): nat { Held(BankOf(l.root, regions), Naming(x)) }

  lemma TurnHeld(l: Local, how: Turning, x: Target, regions: bool)
    requires CanTurn(l, how)
    ensures HeldIn(Turned(l, how), x, regions) == HeldIn(l, x, regions)
  {
    var w := Naming(x);
    NamingIsAdditive(x);
    match how
    case Tick(c) => TickWeight(l.root, c, w);
    case Clean => CleanWeight(l.root, l.root.roundRobin, w);
    case RegisterClock(c) => RegisterWeight(l.root, c, w);
    case UnregisterClock(_) =>
    case TakeOver =>
  }

  lemma RotateHeld(l: Local, x: Target, regions: bool)
    requires RootOk(l.root) && |l.advances| == MAX_CLOCKS + 1 && Usable(l, GLOBAL)
    ensures HeldIn(Rotate(l), x, regions) == HeldIn(l, x, regions)
  {
    NamingIsAdditive(x);
    AdvanceWeight(BankOf(l.root, regions), GLOBAL, Naming(x));
  }

  lemma PlacedHeld(l: Local, x: Target, regions: bool)
    requires l.doing.Placing? && Usable(l, l.doing.ring) && NotPlacing(l, x)
    ensures HeldIn(Placed(l), x, regions) == HeldIn(l, x, regions)
  {
    hide InsertBank;
    var y := l.doing.x;
    NamingIsAdditive(x);
    InsertWeight(BankOf(l.root, y.Region?), l.doing.ring, y, l.doing.expiration, Naming(x));
    assert multiset([y])[x] == 0;
  }

  lemma CollectedHeld(l: Local, heap: map<Target, Header>, x: Target, kind: bool, regions: bool)
    requires |BankOf(l.root, kind).expired| > 0
    ensures HeldIn(Collected(l, kind, heap), x, regions) <= HeldIn(l, x, regions)
  {
    NamingIsAdditive(x);
    DropWeight(BankOf(l.root, kind), 1, Naming(x));
  }

  /** A step that is no refresh of `x` gives no root a further descriptor of it. */
  lemma HeldStep(s: State, step: Step, u: nat, x: Target, regions: bool)
    requires Shaped(s) && Enabled(s, step) && u < |s.locals| && NotPlacing(s.locals[u], x) && NoRefresh(step, x)
    ensures var l := LocalAfter(s, step, u);
            NotPlacing(l, x) && HeldIn(l, x, regions) <= HeldIn(s.locals[u], x, regions)
  {
    hide RootOk, CanTurn, Turned, Rotate, Placed, Collected, HeldIn, Usable, G.Enabled;
    var l := s.locals[u];
    match step
    case Protocol(g) => if g == G.Bump(u) { RotateUsable(l); RotateHeld(l, x, regions); RotateReady(l); }
    case Turn(v, how) => if v == u { TurnHeld(l, how, x, regions); TurnedDoing(l, how); }
    case Place(v) => if v == u { PlacedHeld(l, x, regions); PlacedDoing(l); }
    case Collect(v, kind) =>
      if v == u { CollectedHeld(l, s.heap, x, kind, regions); CollectedDoing(l, kind, s.heap); }
    case Refresh(v, y, ring, given) => RootOnly(l, LocalAfter(s, step, u), x, regions);
    case Release(v, _) => RootOnly(l, LocalAfter(s, step, u), x, regions);
    case Malloc(_) =>
    case Free(_) =>
  }

  lemma RootOnly(l: Local, l': Local, x: Target, regions: bool)
    requires l'.root == l.root
    ensures HeldIn(l', x, regions) == HeldIn(l, x, regions)
  {
  }

  lemma RotateUsable(l: Local)
    requires RootOk(l.root)
    ensures Usable(l, GLOBAL)
  {
  }

  lemma TurnedDoing(l: Local, how: Turning)
    requires CanTurn(l, how)
    ensures Turned(l, how).doing == l.doing
  {
  }

  lemma PlacedDoing(l: Local)
    requires l.doing.Placing? && Usable(l, l.doing.ring)
    ensures Placed(l).doing == Ready
  {
  }

  lemma CollectedDoing(l: Local, regions: bool, heap: map<Target, Header>)
    requires |BankOf(l.root, regions).expired| > 0
    ensures !Collected(l, regions, heap).doing.Placing?
  {
  }

  /** No descriptor of root `u` names `x`, and none is about to. */
  ghost predicate Free(l: Local, x: Target) {
    NotPlacing(l, x) && HeldIn(l, x, false) == 0 && HeldIn(l, x, true) == 0
  }

  lemma FreeIsZero(l: Local, x: Target)
    ensures Free(l, x) <==> Holds(x)(l) == 0
  {
  }

  lemma FreeStep(s: State, step: Step, u: nat, x: Target)
    requires Shaped(s) && Enabled(s, step) && NoRefresh(step, x)
    requires u < |Apply(s, step).locals| && (u < |s.locals| ==> Free(s.locals[u], x))
    ensures Free(Apply(s, step).locals[u], x)
  {
    hide Enabled, RootOk, HeldIn, LocalAfter;
    if u < |s.locals| {
      HeldStep(s, step, u, x, false);
      HeldStep(s, step, u, x, true);
      ApplyLocal(s, step, u);
    } else {
      NewLocalHolds(x);
      FreeIsZero(NewLocal(), x);
      ApplyCreates(s, step, u);
    }
  }

  lemma ApplyCreates(s: State, step: Step, u: nat)
    requires Shaped(s) && Enabled(s, step) && |s.locals| <= u < |Apply(s, step).locals|
    ensures Apply(s, step).locals[u] == NewLocal()
  {
  }

  // ---------------------------------------------------------------- where a lone descriptor can be

  /** In the rings for its kind, `x` occurs only in ring `c`, due before the (m+1)-th rotation. */
  ghost predicate RingsBelow(l: Local, c: nat, x: Target, m: int) {
    BankBelow(BankOf(l.root, x.Region?), c, x, m)
  }

  ghost predicate BankBelow(b: Bank<Target>, c: nat, x: Target, m: int) {
    forall d, j :: 0 <= d < |b.rings| && 0 <= j < |b.rings[d].slots| && x in Due(b.rings[d], j) ==> d == c && j < m
  }

  /** What a ring says about `x` after it has been rotated `n` times. */
  lemma RotatedBelow(r: Ring<Target>, n: nat, x: Target, here: bool, m: int, j: nat)
    requires Used(r) && j < |r.slots| && x in Due(AdvanceTimes(r, n), j)
    requires forall i :: 0 <= i < |r.slots| ==> x in Due(r, i) ==> here && i < m
    ensures here && j < m - n
  {
    Z.AdvanceTimesDue(r, n, j);
    assert x in Due(r, j + n);
  }

  lemma RingBelow(l: Local, c: nat, x: Target, m: int, d: nat)
    requires RingsBelow(l, c, x, m) && d < |BankOf(l.root, x.Region?).rings|
    ensures var r := BankOf(l.root, x.Region?).rings[d];
            forall i :: 0 <= i < |r.slots| ==> x in Due(r, i) ==> d == c && i < m
  {
  }

  lemma UnusedTurn(l: Local, how: Turning, d: nat, regions: bool, j: nat)
    requires CanTurn(l, how) && d <= GLOBAL && !Used(BankOf(l.root, regions).rings[d])
    requires |BankOf(Turned(l, how).root, regions).rings| == MAX_CLOCKS + 1
    requires j < |BankOf(Turned(l, how).root, regions).rings[d].slots|
    ensures Due(BankOf(Turned(l, how).root, regions).rings[d], j) == []
  {
    match how
    case Tick(c) => TickAdvancesRings(l.root, c, d);
    case Clean =>
    case RegisterClock(_) =>
    case UnregisterClock(_) =>
    case TakeOver =>
  }

  lemma TurnBelow(l: Local, how: Turning, c: nat, x: Target, m: int)
    requires CanTurn(l, how) && c <= GLOBAL && RingsBelow(l, c, x, m)
    ensures RingsBelow(Turned(l, how), c, x, m - TurnAdvances(l, how, c))
  {
    hide Turned, Due, TurnAdvances;
    var b, b' := BankOf(l.root, x.Region?), BankOf(Turned(l, how).root, x.Region?);
    TurnedShape(l, how);
    BankShape(l.root);
    BankShape(Turned(l, how).root);
    forall d, j | 0 <= d < |b'.rings| && 0 <= j < |b'.rings[d].slots| && x in Due(b'.rings[d], j)
      ensures d == c && j < m - TurnAdvances(l, how, c)
    {
      if Used(b.rings[d]) {
        TurnRings(l, how, d, x.Region?);
        RingBelow(l, c, x, m, d);
        RotatedBelow(b.rings[d], TurnAdvances(l, how, d), x, d == c, m, j);
      } else {
        UnusedTurn(l, how, d, x.Region?, j);
      }
    }
  }

  lemma TurnedShape(l: Local, how: Turning)
    requires CanTurn(l, how)
    ensures RootOk(Turned(l, how).root)
  {
    TurnRootOk(l.root, how);
  }

  lemma RotateBelow(l: Local, c: nat, x: Target, m: int)
    requires RootOk(l.root) && |l.advances| == MAX_CLOCKS + 1 && Usable(l, GLOBAL) && c <= GLOBAL
    requires RingsBelow(l, c, x, m)
    ensures RingsBelow(Rotate(l), c, x, if c == GLOBAL then m - 1 else m)
  {
    hide Due, Advance, Released;
    var b := BankOf(l.root, x.Region?);
    AdvanceDue(b.rings[GLOBAL]);
    RingBelow(l, c, x, m, GLOBAL);
  }

  lemma PlacedBelow(l: Local, c: nat, x: Target, m: int)
    requires RootOk(l.root) && l.doing.Placing? && Usable(l, l.doing.ring) && NotPlacing(l, x) && RingsBelow(l, c, x, m)
    ensures RingsBelow(Placed(l), c, x, m)
  {
    hide Due, Insert, Wrap, RootOk;
    var Placing(y, ring, e) := l.doing;
    BankShape(l.root);
    if y.Region? == x.Region? {
      var b := BankOf(l.root, x.Region?);
      InsertDue(b.rings[ring], y, e);
      forall d, j | 0 <= d < |b.rings| && 0 <= j < |b.rings[d].slots| && x in Due(InsertBank(b, ring, y, e).rings[d], j)
        ensures d == c && j < m
      {
        assert x in Due(b.rings[d], j);
      }
    }
  }

  lemma StepBelow(s: State, step: Step, t: nat, c: nat, x: Target, m: int)
    requires Shaped(s) && Enabled(s, step) && t < |s.locals| && c <= GLOBAL
    requires RingsBelow(s.locals[t], c, x, m) && NotPlacing(s.locals[t], x)
    ensures var l := LocalAfter(s, step, t);
            c < |s.locals[t].advances| && c < |l.advances| && RingsBelow(l, c, x, m - Rotations(s.locals[t], l, c))
  {
    hide Rotate, Placed, Collected, TurnAdvances, TurnRoot, G.Enabled, BankBelow, Usable, RootOk;
    var l := s.locals[t];
    match step
    case Protocol(g) =>
      if g == G.Bump(t) { RotateUsable(l); RotateBelow(l, c, x, m); RotateAdvances(l, c); }
    case Turn(u, how) => if u == t { TurnBelow(l, how, c, x, m); }
    case Place(u) => if u == t { PlacedBelow(l, c, x, m); PlacedAdvances(l); }
    case Collect(u, regions) => if u == t { CollectedBelow(l, regions, s.heap, c, x, m); }
    case Refresh(_, _, _, _) =>
    case Release(_, _) =>
    case Malloc(_) =>
    case Free(_) =>
  }

  lemma RotateAdvances(l: Local, c: nat)
    requires |l.advances| == MAX_CLOCKS + 1 && Usable(l, GLOBAL) && c <= GLOBAL
    ensures |Rotate(l).advances| == MAX_CLOCKS + 1 && Rotations(l, Rotate(l), c) == if c == GLOBAL then 1 else 0
  {
  }

  lemma PlacedAdvances(l: Local)
    requires l.doing.Placing? && Usable(l, l.doing.ring)
    ensures Placed(l).advances == l.advances
  {
  }

  lemma CollectedBelow(l: Local, regions: bool, heap: map<Target, Header>, c: nat, x: Target, m: int)
    requires |BankOf(l.root, regions).expired| > 0 && RingsBelow(l, c, x, m)
    ensures RingsBelow(Collected(l, regions, heap), c, x, m) && Collected(l, regions, heap).advances == l.advances
  {
    hide Due;
  }

  /** The descriptors of `x` are all in the rings and the queue of its kind of root `t`; in the rings they
      are due in ring `c` before its (m+1)-th rotation. */
  ghost predicate Lone(s: State, t: nat, c: nat, x: Target, m: int) {
    && t < |s.locals| && c <= GLOBAL && RingsBelow(s.locals[t], c, x, m)
    && NotPlacing(s.locals[t], x) && HeldIn(s.locals[t], x, !x.Region?) == 0
    && forall u :: 0 <= u < |s.locals| && u != t ==> Free(s.locals[u], x)
  }

  lemma LoneStep(s: State, step: Step, t: nat, c: nat, x: Target, m: int)
    requires Shaped(s) && Enabled(s, step) && Lone(s, t, c, x, m) && NoRefresh(step, x)
    ensures var s1 := Apply(s, step);
            && t < |s1.locals| && c < |s.locals[t].advances| && c < |s1.locals[t].advances|
            && Lone(s1, t, c, x, m - Rotations(s.locals[t], s1.locals[t], c))
  {
    hide Apply, Enabled, LocalAfter, HeldIn, RingsBelow, Shaped, Free;
    ApplyLocal(s, step, t);
    StepBelow(s, step, t, c, x, m);
    HeldStep(s, step, t, x, !x.Region?);
    forall u | 0 <= u < |Apply(s, step).locals| && u != t
      ensures Free(Apply(s, step).locals[u], x)
    {
      FreeStep(s, step, u, x);
    }
  }

  lemma {:induction false} LoneRun(s: State, steps: seq<Step>, t: nat, c: nat, x: Target, m: int)
    requires Run(s, steps) && Lone(s, t, c, x, m) && NeverRefreshed(steps, x)
    ensures var s' := Exec(s, steps);
            && t < |s'.locals| && c < |s.locals[t].advances| && c < |s'.locals[t].advances|
            && Lone(s', t, c, x, m - Rotations(s.locals[t], s'.locals[t], c))
    decreases |steps|
  {
    hide Apply, Enabled, Lone;
    LoneBounds(s, t, c, x, m);
    if steps != [] {
      assert NoRefresh(steps[0], x);
      LoneStep(s, steps[0], t, c, x, m);
      var s1 := Apply(s, steps[0]);
      LoneRun(s1, steps[1..], t, c, x, m - Rotations(s.locals[t], s1.locals[t], c));
    }
  }

  lemma LoneBounds(s: State, t: nat, c: nat, x: Target, m: int)
    requires Lone(s, t, c, x, m)
    ensures t < |s.locals| && c <= GLOBAL
  {
  }

  /** Every slot is due at some time. */
  lemma SlotIsDue(r: Ring<Target>, i: nat) returns (j: nat)
    requires Used(r) && i < |r.slots|
    ensures j < |r.slots| && Due(r, j) == r.slots[i]
  {
    j := if i >= r.cur then i - r.cur else i + |r.slots| - r.cur;
    WrapShift(r.cur, j, |r.slots|);
  }

  lemma NothingWaits(b: Bank<Target>, c: nat, x: Target, m: int)
    requires BankOk(b) && BankBelow(b, c, x, m) && m <= 0
    ensures Unexpired(b, Naming(x)) == 0
  {
    if Unexpired(b, Naming(x)) > 0 {
      var d := SumWitness(b.rings, OfRing(Naming(x)));
      var i := SumWitness(b.rings[d].slots, Naming(x));
      var j := SlotIsDue(b.rings[d], i);
    }
  }

  /** Once its ring has rotated past it and the queue holds it no more, no descriptor names it. */
  lemma LoneIsGone(s: State, t: nat, c: nat, x: Target, m: int)
    requires Inv(s) && Lone(s, t, c, x, m) && m <= 0 && x !in BankOf(s.locals[t].root, x.Region?).expired
    ensures Gone(s, x)
  {
    hide G.Inv, DyingOk, RegionsOk, HeldIn;
    var l := s.locals[t];
    assert LocalOk(l, s.global.threads[t]);
    NothingWaits(BankOf(l.root, x.Region?), c, x, m);
    NothingHeld(l, x);
    forall u | 0 <= u < |s.locals|
      ensures Holds(x)(s.locals[u]) == 0
    {
      FreeIsZero(s.locals[u], x);
    }
    if Total(s, x) > 0 { var u := SumWitness(s.locals, Holds(x)); }
    assert Dc(s.heap, x) == Total(s, x);
  }

  lemma NothingHeld(l: Local, x: Target)
    requires Unexpired(BankOf(l.root, x.Region?), Naming(x)) == 0 && x !in BankOf(l.root, x.Region?).expired
    ensures HeldIn(l, x, x.Region?) == 0
  {
  }

  // ---------------------------------------------------------------- the first and only descriptor

  lemma OnlyPlacing(s: State, t: nat)
    requires Inv(s) && t < |s.locals| && s.locals[t].doing.Placing? && Dc(s.heap, s.locals[t].doing.x) == 1
    ensures HeldIn(s.locals[t], s.locals[t].doing.x, false) == 0 && HeldIn(s.locals[t], s.locals[t].doing.x, true) == 0
    ensures forall u :: 0 <= u < |s.locals| && u != t ==> Free(s.locals[u], s.locals[t].doing.x)
  {
    hide G.Inv, LocalsOk, DyingOk, RegionsOk;
    var x := s.locals[t].doing.x;
    SumAtLeast(s.locals, Holds(x), t);
    assert Dc(s.heap, x) == Total(s, x);
    forall u | 0 <= u < |s.locals| && u != t
      ensures Free(s.locals[u], x)
    {
      SumAtLeastTwo(s.locals, Holds(x), if u < t then u else t, if u < t then t else u);
      FreeIsZero(s.locals[u], x);
    }
  }

  lemma NowhereDue(b: Bank<Target>, x: Target, d: nat, j: nat)
    requires Held(b, Naming(x)) == 0 && d < |b.rings| && j < |b.rings[d].slots|
    ensures x !in Due(b.rings[d], j)
  {
    hide Wrap;
    var r := b.rings[d];
    var i := Wrap(r.cur + j, |r.slots|);
    SumAtLeast(b.rings, OfRing(Naming(x)), d);
    SumAtLeast(r.slots, Naming(x), i);
  }

  lemma PlacedLone(s: State, t: nat)
    requires Inv(s) && Shaped(s) && Enabled(s, Place(t)) && Dc(s.heap, s.locals[t].doing.x) == 1
    ensures var Placing(x, c, e) := s.locals[t].doing;
            var slots := |BankOf(s.locals[t].root, x.Region?).rings[c].slots|;
            slots > 0 && Lone(Apply(s, Place(t)), t, c, x, Wrap(e, slots) + 1)
  {
    hide Inv, RootOk, HeldIn, Wrap, RingsBelow, Free;
    var l := s.locals[t];
    OnlyPlacing(s, t);
    PlacedRings(l);
    PlacedOther(l);
    PlacedDoing(l);
  }

  lemma PlacedOther(l: Local)
    requires l.doing.Placing? && Usable(l, l.doing.ring)
    ensures HeldIn(Placed(l), l.doing.x, !l.doing.x.Region?) == HeldIn(l, l.doing.x, !l.doing.x.Region?)
  {
  }

  lemma PlacedRings(l: Local)
    requires RootOk(l.root) && l.doing.Placing? && Usable(l, l.doing.ring)
    requires HeldIn(l, l.doing.x, l.doing.x.Region?) == 0
    ensures var Placing(x, c, e) := l.doing;
            var slots := |BankOf(l.root, x.Region?).rings[c].slots|;
            slots > 0 && RingsBelow(Placed(l), c, x, Wrap(e, slots) + 1)
  {
    hide Due, Insert, Wrap, RootOk, Held;
    var Placing(x, c, e) := l.doing;
    BankShape(l.root);
    var b := BankOf(l.root, x.Region?);
    InsertDue(b.rings[c], x, e);
    forall d, j | 0 <= d < |b.rings| && 0 <= j < |b.rings[d].slots|
      ensures x !in Due(b.rings[d], j)
    {
      NowhereDue(b, x, d, j);
    }
  }

  /** A target whose only descriptor has been placed and which is not refreshed again, once the descriptor
      is not waiting to be collected: it is gone if and only if its ring has rotated past it. */
  lemma PlacedGoneIff(s: State, t: nat, steps: seq<Step>)
    requires Inv(s) && Shaped(s) && Enabled(s, Place(t)) && Run(Apply(s, Place(t)), steps)
    requires Dc(s.heap, s.locals[t].doing.x) == 1 && NeverRefreshed(steps, s.locals[t].doing.x)
    ensures var s' := Exec(Apply(s, Place(t)), steps);
            var Placing(x, c, e) := s.locals[t].doing;
            var slots := |BankOf(s.locals[t].root, x.Region?).rings[c].slots|;
            && slots > 0 && t < |s'.locals| && c < |s'.locals[t].advances|
            && (x !in BankOf(s'.locals[t].root, x.Region?).expired ==>
                  (Gone(s', x) <==> Rotations(s.locals[t], s'.locals[t], c) > Wrap(e, slots)))
  {
    hide Inv, Gone, Lone, Wrap, RootOk;
    var Placing(x, c, e) := s.locals[t].doing;
    var slots := |BankOf(s.locals[t].root, x.Region?).rings[c].slots|;
    PlaceThenSurvives(s, t, steps);
    PlacedLone(s, t);
    StepKeepsShape(s, Place(t));
    var s1 := Apply(s, Place(t));
    PlacedAdvances(s.locals[t]);
    LoneRun(s1, steps, t, c, x, Wrap(e, slots) + 1);
    RunKeepsInv(s1, steps);
    var s' := Exec(s1, steps);
    var m := Wrap(e, slots) + 1 - Rotations(s1.locals[t], s'.locals[t], c);
    if x !in BankOf(s'.locals[t].root, x.Region?).expired && m <= 0 { LoneIsGone(s', t, c, x, m); }
  }

  /** Local clocks, both ways: if the descriptor placed with extension e on a registered clock is the only
      one, then the target is gone if and only if the clock has ticked e + 1 times, whatever else all
      threads did, and provided that the descriptor is not waiting for collection. */
  lemma LocalLifetimeExact(s: State, t: nat, x: Target, c: nat, given: nat, steps: seq<Step>)
    requires Inv(s) && Shaped(s) && Enabled(s, Place(t)) && Run(Apply(s, Place(t)), steps)
    requires c < MAX_CLOCKS && s.locals[t].doing == Placing(x, c, Expiration(c, given))
    requires Registered(s.locals[t].root, c) && StaysRegistered(steps, t, c)
    requires Dc(s.heap, x) == 1 && NeverRefreshed(steps, x)
    ensures var s' := Exec(Apply(s, Place(t)), steps);
            && t < |s'.locals|
            && (x !in BankOf(s'.locals[t].root, x.Region?).expired ==>
                  (Gone(s', x) <==> Ticks(steps, t, c) >= CheckExtension(given) + 1))
  {
    hide Inv, Gone;
    PlacedGoneIff(s, t, steps);
    RotationsAreTicks(Apply(s, Place(t)), steps, t, c);
    LocalRefreshDue(given);
  }

  /** The global clock, both ways: the target is gone if and only if its thread has made e + 3 effective
      global ticks, or one if the extension was maximal. */
  lemma GlobalLifetimeExact(s: State, t: nat, x: Target, given: nat, steps: seq<Step>)
    requires Inv(s) && Shaped(s) && Enabled(s, Place(t)) && Run(Apply(s, Place(t)), steps)
    requires s.locals[t].doing == Placing(x, GLOBAL, Expiration(GLOBAL, given))
    requires Dc(s.heap, x) == 1 && NeverRefreshed(steps, x)
    ensures var s' := Exec(Apply(s, Place(t)), steps);
            && t < |s'.locals| && t < |s'.global.threads|
            && (x !in BankOf(s'.locals[t].root, x.Region?).expired ==>
                  (Gone(s', x) <==>
                   s'.global.threads[t].ticks >=
                   s.global.threads[t].ticks + if given < MAX_EXTENSION then given + 3 else 1))
  {
    hide Gone;
    PlacedGoneIff(s, t, steps);
    GlobalRefreshDue(given);
    StepKeepsShape(s, Place(t));
    var s1 := Apply(s, Place(t));
    RunKeepsInv(s1, steps);
    RotationsAreGlobalTicks(s, Exec(s1, steps), t);
  }

  // ---------------------------------------------------------------- from the call of a refresh on

  lemma {:induction false} CountShrinks(s: State, steps: seq<Step>, x: Target)
    requires Run(s, steps) && NeverRefreshed(steps, x)
    ensures Dc(Exec(s, steps).heap, x) <= Dc(s.heap, x)
    decreases |steps|
  {
    if steps != [] {
      assert NoRefresh(steps[0], x);
      CountStep(s, steps[0], x);
      CountShrinks(Apply(s, steps[0]), steps[1..], x);
    }
  }

  lemma CountStep(s: State, step: Step, x: Target)
    requires Shaped(s) && Enabled(s, step) && NoRefresh(step, x)
    ensures Dc(Apply(s, step).heap, x) <= Dc(s.heap, x)
  {
    hide RootOk, G.Enabled, CanTurn;
  }

  /** A refresh of a target without descriptors, and no other refresh of it before this one places its
      descriptor: then that is the only one. */
  lemma RefreshIsOnly(s: State, t: nat, x: Target, c: nat, given: nat, others: seq<Step>)
    requires t < |s.locals| && Shaped(s) && Enabled(s, Refresh(t, x, c, given)) && Dc(s.heap, x) == 0
    requires Inv(s) && Place(t) !in others && NeverRefreshed(others, x)
    requires Run(Apply(s, Refresh(t, x, c, given)), others)
    ensures var s1 := Exec(Apply(s, Refresh(t, x, c, given)), others);
            && Inv(s1) && Dc(s1.heap, x) == 1
            && AboutToPlace(s1, t, s.locals[t].(doing := Placing(x, c, Expiration(c, given))))
  {
    hide Inv, RootOk, Expiration;
    RefreshPlaces(s, t, x, c, given, others);
    CountShrinks(Apply(s, Refresh(t, x, c, given)), others, x);
  }

  /** From the call of a local refresh on: a target that had no descriptor and is not refreshed again is
      gone if and only if the clock has ticked e + 1 times since the descriptor was placed. */
  lemma RefreshLifetimeExact(s: State, t: nat, x: Target, c: nat, given: nat, others: seq<Step>, steps: seq<Step>)
    requires t < |s.locals| && Shaped(s) && Enabled(s, Refresh(t, x, c, given)) && Dc(s.heap, x) == 0
    requires Inv(s) && Place(t) !in others && NeverRefreshed(others, x) && NeverRefreshed(steps, x)
    requires Run(Apply(s, Refresh(t, x, c, given)), others)
    requires c < MAX_CLOCKS && Registered(s.locals[t].root, c) && StaysRegistered(steps, t, c)
    ensures var s1 := Exec(Apply(s, Refresh(t, x, c, given)), others);
            && Shaped(s1) && Enabled(s1, Place(t))
            && (Run(Apply(s1, Place(t)), steps) ==>
                  var s' := Exec(Apply(s1, Place(t)), steps);
                  && t < |s'.locals|
                  && (x !in BankOf(s'.locals[t].root, x.Region?).expired ==>
                        (Gone(s', x) <==> Ticks(steps, t, c) >= CheckExtension(given) + 1)))
  {
    hide Inv, Gone, Expiration;
    RefreshIsOnly(s, t, x, c, given, others);
    var s1 := Exec(Apply(s, Refresh(t, x, c, given)), others);
    if Run(Apply(s1, Place(t)), steps) { LocalLifetimeExact(s1, t, x, c, given, steps); }
  }
}
