/** The calls of one thread, proved on pages in module Scm, are runs of the whole system of module
    Lifetimes. Each lemma gives the steps of a call on its own root and shows that they lead from a
    system state that stands for the root, the object counters and the region counters before the call
    to one that stands for them after it. What holds in every run of the system holds for the calls. */
module Conformance {
  import opened Config
  import opened Rings
  import opened Roots
  import opened Sums
  import opened Renaming
  import opened Lifetimes
  import opened Guarantees
  import opened Reclamation
  import H = Holdings
  import G = GlobalTime
  import S = Scm
  import R = Regions

  type Ptr = nat

  function ObjectName(): Ptr -> Target { (p: Ptr) => Object(p) }

  function RegionName(t: nat): Ptr -> Target { (i: Ptr) => Target.Region(t, i) }

  /** The root of thread `t` as the system sees it. */
  function Named(r: Root<Ptr>, t: nat): Root<Target> { MapRoot(ObjectName(), RegionName(t), r) }

  ghost predicate ObjectsStand(heap: map<Target, Header>, dc: map<Ptr, nat>) {
    forall p: Ptr :: if p in dc then Object(p) in heap && !heap[Object(p)].dying && heap[Object(p)].dc == dc[p]
                     else Object(p) in heap ==> heap[Object(p)].dying
  }

  ghost predicate RegionsStand(heap: map<Target, Header>, t: nat, regions: seq<R.Region>) {
    && |regions| == MAX_REGIONS
    && forall i: nat :: i < MAX_REGIONS ==> Target.Region(t, i) in heap && heap[Target.Region(t, i)].dc == regions[i].dc
  }

  /** In system state `s` thread `t` is between calls, its root is `r`, the objects that are allocated and
      not being released have the counters `dc`, and its regions have the counters of `regions`. */
  ghost predicate Stands(s: State, t: nat, r: Root<Ptr>, dc: map<Ptr, nat>, regions: seq<R.Region>) {
    && Inv(s) && Shaped(s) && BetweenCalls(s, t) && RootOk(r) && s.locals[t].root == Named(r, t)
    && ObjectsStand(s.heap, dc) && RegionsStand(s.heap, t, regions)
  }

  // ---------------------------------------------------------------- the preconditions of the calls

  lemma NamesDiffer(t: nat)
    ensures Injective(ObjectName()) && Injective(RegionName(t))
  {
  }

  lemma HeldByRoot(s: State, t: nat, r: Root<Ptr>, x: Target)
    requires Inv(s) && t < |s.locals| && s.locals[t].root == Named(r, t)
    ensures H.Held(MapBank(ObjectName(), r.obj), H.Naming(x)) <= Dc(s.heap, x)
    ensures H.Held(MapBank(RegionName(t), r.reg), H.Naming(x)) <= Dc(s.heap, x)
  {
    hide G.Inv, LocalsOk, DyingOk, RegionsOk, H.Held;
    SumAtLeast(s.locals, Holds(x), t);
    assert Dc(s.heap, x) == Total(s, x);
  }

  /** What the calls demand of the counters holds in every such state: it follows from the conservation
      of descriptors in the whole system, other threads' descriptors included. */
  lemma StandsIsAccounted(s: State, t: nat, r: Root<Ptr>, dc: map<Ptr, nat>, regions: seq<R.Region>)
    requires Stands(s, t, r, dc, regions)
    ensures S.Accounted(r.obj, dc) && S.RegionsAccounted(r.reg, regions)
  {
    hide G.Inv, LocalsOk, Counted, H.Held, RootOk;
    NamesDiffer(t);
    forall p: Ptr
      ensures H.Held(r.obj, H.Naming(p)) <= S.CountOf(dc, p)
      ensures H.Held(r.reg, H.Naming(p)) <= S.RegionCount(regions, p)
    {
      HeldByRoot(s, t, r, Object(p));
      HeldByRoot(s, t, r, Target.Region(t, p));
      MapHeld(ObjectName(), r.obj, p);
      MapHeld(RegionName(t), r.reg, p);
    }
  }

  // ---------------------------------------------------------------- runs

  lemma {:induction false} RunConcat(s: State, a: seq<Step>, b: seq<Step>)
    requires Run(s, a) && Run(Exec(s, a), b)
    ensures Run(s, a + b) && Exec(s, a + b) == Exec(Exec(s, a), b)
    decreases |a|
  {
    hide Enabled, Apply, Shaped;
    if a == [] {
      assert [] + b == b;
    } else {
      RunConcat(Apply(s, a[0]), a[1..], b);
      assert (a + b)[1..] == a[1..] + b;
    }
  }

  lemma OneStep(s: State, step: Step)
    requires Inv(s) && Enabled(s, step)
    ensures Shaped(s) && Run(s, [step]) && Exec(s, [step]) == Apply(s, step)
    ensures Inv(Apply(s, step)) && Shaped(Apply(s, step))
  {
    hide Inv, Enabled, Apply, Shaped;
    StepKeepsShape(s, step);
    assert [step][1..] == [];
  }

  // ---------------------------------------------------------------- calls of one thread among others

  /** The steps a call of thread `t` may take; allocating and freeing objects belong to no thread. */
  predicate OwnStep(step: Step, t: nat) {
    match step
    case Protocol(g) => !g.Create? && g.t == t
    case Malloc(_) => true
    case Free(_) => true
    case Turn(u, _) => u == t
    case Refresh(u, _, _, _) => u == t
    case Place(u) => u == t
    case Collect(u, _) => u == t
    case Release(u, _) => u == t
  }

  predicate OwnSteps(steps: seq<Step>, t: nat) {
    forall i :: 0 <= i < |steps| ==> OwnStep(steps[i], t)
  }

  lemma OwnConcat(a: seq<Step>, b: seq<Step>, t: nat)
    requires OwnSteps(a, t) && OwnSteps(b, t)
    ensures OwnSteps(a + b, t)
  {
    hide OwnStep;
  }

  /** A call of thread `t`: the steps it takes, and the root, the object counters and the regions it
      leaves behind. */
  datatype Call = Call(t: nat, steps: seq<Step>, root: Root<Ptr>, dc: map<Ptr, nat>, regions: seq<R.Region>)

  /** From state `s` the call is a run of steps of its own thread with that outcome. */
  ghost predicate Performs(s: State, call: Call) {
    && Run(s, call.steps) && OwnSteps(call.steps, call.t)
    && Stands(Exec(s, call.steps), call.t, call.root, call.dc, call.regions)
  }

  lemma OthersStep(s: State, step: Step, t: nat, u: nat, i: nat)
    requires Inv(s) && Shaped(s) && Enabled(s, step) && OwnStep(step, t)
    requires t < |s.locals| && u < |s.locals| && u != t && Reclamation.Free(s.locals[t], Target.Region(u, i))
    ensures var s1 := Apply(s, step); var x := Target.Region(u, i);
            && |s1.locals| == |s.locals| && s1.locals[u] == s.locals[u]
            && |s1.global.threads| == |s.global.threads| && s1.global.threads[u] == s.global.threads[u]
            && (x in s1.heap <==> x in s.heap) && Dc(s1.heap, x) == Dc(s.heap, x)
            && Reclamation.Free(s1.locals[t], x)
  {
    hide G.Inv, LocalsOk, Counted, RegionsOk, RootOk, CanTurn, Turned, HeldIn;
    var x := Target.Region(u, i);
    FreeStep(s, step, t, x);
    if step.Collect? { HeadIsHeld(s.locals[t], step.regions, x); }
  }

  lemma HeadIsHeld(l: Local, regions: bool, x: Target)
    requires |BankOf(l.root, regions).expired| > 0
    ensures BankOf(l.root, regions).expired[0] == x ==> HeldIn(l, x, regions) >= 1
  {
    assert BankOf(l.root, regions).expired[0] in BankOf(l.root, regions).expired;
  }

  lemma {:induction false} OthersRun(s: State, steps: seq<Step>, t: nat, u: nat, i: nat)
    requires Inv(s) && Run(s, steps) && OwnSteps(steps, t)
    requires t < |s.locals| && u < |s.locals| && u != t && Reclamation.Free(s.locals[t], Target.Region(u, i))
    ensures var s' := Exec(s, steps); var x := Target.Region(u, i);
            && |s'.locals| == |s.locals| && s'.locals[u] == s.locals[u]
            && |s'.global.threads| == |s.global.threads| == |s.locals| && s'.global.threads[u] == s.global.threads[u]
            && (x in s'.heap <==> x in s.heap) && Dc(s'.heap, x) == Dc(s.heap, x)
    decreases |steps|
  {
    hide Inv, Apply, Enabled, Reclamation.Free;
    if steps != [] {
      assert OwnStep(steps[0], t);
      OthersStep(s, steps[0], t, u, i);
      StepKeepsShape(s, steps[0]);
      OthersRun(Apply(s, steps[0]), steps[1..], t, u, i);
    }
  }

  /** The root of a thread between calls names no region of another thread. */
  lemma NamesOwnRegions(s: State, t: nat, r: Root<Ptr>, u: nat, i: nat)
    requires t < |s.locals| && s.locals[t].doing == Ready && s.locals[t].root == Named(r, t) && u != t
    ensures Reclamation.Free(s.locals[t], Target.Region(u, i))
  {
    MapMisses(ObjectName(), r.obj, Target.Region(u, i));
    MapMisses(RegionName(t), r.reg, Target.Region(u, i));
  }

  /** A call of thread `t` keeps what another thread's state stands for, with the new object counters. */
  lemma CallKeepsOther(s: State, call: Call, r: Root<Ptr>, dc: map<Ptr, nat>, regions: seq<R.Region>,
                       u: nat, ru: Root<Ptr>, regionsU: seq<R.Region>)
    requires Performs(s, call) && Stands(s, call.t, r, dc, regions) && Stands(s, u, ru, dc, regionsU) && u != call.t
    ensures Stands(Exec(s, call.steps), u, ru, call.dc, regionsU)
  {
    hide Inv, RootOk, Run, Exec, Reclamation.Free, Shaped;
    var s' := Exec(s, call.steps);
    NamesOwnRegions(s, call.t, r, u, 0);
    OthersRun(s, call.steps, call.t, u, 0);
    forall i: nat | i < MAX_REGIONS
      ensures Target.Region(u, i) in s'.heap && s'.heap[Target.Region(u, i)].dc == regionsU[i].dc
    {
      NamesOwnRegions(s, call.t, r, u, i);
      OthersRun(s, call.steps, call.t, u, i);
    }
  }

  /** The roots and regions of all threads and the counters of the objects they share. */
  datatype World = World(roots: seq<Root<Ptr>>, dc: map<Ptr, nat>, regions: seq<seq<R.Region>>)

  ghost predicate AllStand(s: State, w: World) {
    && |w.roots| == |w.regions| == |s.locals|
    && forall t :: 0 <= t < |w.roots| ==> Stands(s, t, w.roots[t], w.dc, w.regions[t])
  }

  function AfterCall(w: World, call: Call): World {
    if call.t < |w.roots| && call.t < |w.regions|
    then World(w.roots[call.t := call.root], call.dc, w.regions[call.t := call.regions])
    else w
  }

  lemma CallKeepsAll(s: State, w: World, call: Call)
    requires AllStand(s, w) && Performs(s, call) && call.t < |w.roots|
    ensures AllStand(Exec(s, call.steps), AfterCall(w, call))
  {
    hide Stands, Run, Exec, OwnSteps;
    var s', w' := Exec(s, call.steps), AfterCall(w, call);
    SameThreads(s, call, w.roots[call.t], w.dc, w.regions[call.t]);
    forall u | 0 <= u < |w'.roots|
      ensures Stands(s', u, w'.roots[u], w'.dc, w'.regions[u])
    {
      if u != call.t {
        CallKeepsOther(s, call, w.roots[call.t], w.dc, w.regions[call.t], u, w.roots[u], w.regions[u]);
      }
    }
  }

  lemma SameThreads(s: State, call: Call, r: Root<Ptr>, dc: map<Ptr, nat>, regions: seq<R.Region>)
    requires Performs(s, call) && Stands(s, call.t, r, dc, regions)
    ensures |Exec(s, call.steps).locals| == |s.locals|
  {
    OwnKeepsCount(s, call.steps, call.t);
  }

  lemma {:induction false} OwnKeepsCount(s: State, steps: seq<Step>, t: nat)
    requires Run(s, steps) && OwnSteps(steps, t)
    ensures |Exec(s, steps).locals| == |s.locals|
    decreases |steps|
  {
    if steps != [] {
      assert OwnStep(steps[0], t);
      OwnKeepsCount(Apply(s, steps[0]), steps[1..], t);
    }
  }

  /** Each call in turn is performed from the state the one before it has left. */
  ghost predicate CallRun(s: State, w: World, calls: seq<Call>)
    decreases |calls|
  {
    calls == [] ||
    (&& calls[0].t < |w.roots| && Performs(s, calls[0])
     && CallRun(Exec(s, calls[0].steps), AfterCall(w, calls[0]), calls[1..]))
  }

  function AllSteps(calls: seq<Call>): seq<Step> {
    if calls == [] then [] else calls[0].steps + AllSteps(calls[1..])
  }

  function AfterCalls(w: World, calls: seq<Call>): World
    decreases |calls|
  {
    if calls == [] then w else AfterCalls(AfterCall(w, calls[0]), calls[1..])
  }

  /** Calls compose: any sequence of calls of any threads is one run of the system, and afterwards its
      state stands for what the calls have made of all roots, all counters and all regions. */
  lemma {:induction false} CallsCompose(s: State, w: World, calls: seq<Call>)
    requires Shaped(s) && AllStand(s, w) && CallRun(s, w, calls)
    ensures Run(s, AllSteps(calls)) && AllStand(Exec(s, AllSteps(calls)), AfterCalls(w, calls))
    decreases |calls|
  {
    hide Stands, AllStand;
    if calls != [] {
      CallKeepsAll(s, w, calls[0]);
      var s1 := Exec(s, calls[0].steps);
      RunEndsShaped(s, calls[0].steps);
      CallsCompose(s1, AfterCall(w, calls[0]), calls[1..]);
      RunConcat(s, calls[0].steps, AllSteps(calls[1..]));
    }
  }

  lemma {:induction false} RunEndsShaped(s: State, steps: seq<Step>)
    requires Run(s, steps)
    ensures Shaped(Exec(s, steps))
    decreases |steps|
  {
    hide Shaped, Enabled, Apply;
    if steps != [] { RunEndsShaped(Apply(s, steps[0]), steps[1..]); }
  }

  // ---------------------------------------------------------------- collecting

  /** Collecting the head of the object queue, and releasing the object if its counter reaches zero. */
  function ObjectSteps(t: nat, q: seq<Ptr>, dc: map<Ptr, nat>, finalizer: Ptr -> int): seq<Step> {
    if q == [] then []
    else [Collect(t, false)] + if q[0] in dc && dc[q[0]] == 1 then [Release(t, finalizer(q[0]))] else []
  }

  function RegionSteps(t: nat, q: seq<Ptr>): seq<Step> { if q == [] then [] else [Collect(t, true)] }

  lemma HeadIsCounted(s: State, t: nat, r: Root<Ptr>, dc: map<Ptr, nat>, regions: seq<R.Region>)
    requires Stands(s, t, r, dc, regions)
    ensures r.obj.expired != [] ==> r.obj.expired[0] in dc && dc[r.obj.expired[0]] >= 1
    ensures r.reg.expired != [] ==> r.reg.expired[0] < MAX_REGIONS && regions[r.reg.expired[0]].dc >= 1
  {
    hide Inv, RootOk, S.Accounted, S.RegionsAccounted;
    StandsIsAccounted(s, t, r, dc, regions);
    S.AccountedQueue(r.obj, dc);
    S.RegionsAccountedQueue(r.reg, regions);
    if r.obj.expired != [] { S.Queued(r.obj.expired, r.obj.expired[0]); }
    if r.reg.expired != [] { S.Queued(r.reg.expired, r.reg.expired[0]); }
  }

  lemma CollectObject(s: State, t: nat, r: Root<Ptr>, dc: map<Ptr, nat>, regions: seq<R.Region>, finalizer: Ptr -> int)
    requires Stands(s, t, r, dc, regions)
    ensures var steps := ObjectSteps(t, r.obj.expired, dc, finalizer);
            && Run(s, steps)
            && Stands(Exec(s, steps), t, r.(obj := Drop(r.obj, 1)), S.DcAfterPop(dc, r.obj.expired, finalizer), regions)
  {
    hide Stands;
    HeadIsCounted(s, t, r, dc, regions);
    if r.obj.expired == [] {
      ShapedStands(s, t, r, dc, regions);
      assert r.(obj := Drop(r.obj, 1)) == r;
    } else if dc[r.obj.expired[0]] == 1 {
      CollectLast(s, t, r, dc, regions, finalizer);
    } else {
      CollectOne(s, t, r, dc, regions, finalizer);
      assert [Collect(t, false)] + [] == [Collect(t, false)];
    }
  }

  /** A descriptor that is not the last one of its object. */
  lemma CollectOne(s: State, t: nat, r: Root<Ptr>, dc: map<Ptr, nat>, regions: seq<R.Region>, finalizer: Ptr -> int)
    requires Stands(s, t, r, dc, regions) && r.obj.expired != []
    requires r.obj.expired[0] in dc && dc[r.obj.expired[0]] > 1
    ensures var steps := [Collect(t, false)];
            && Run(s, steps)
            && Stands(Exec(s, steps), t, r.(obj := Drop(r.obj, 1)), S.AfterExpiry(dc, r.obj.expired[0], finalizer),
                      regions)
  {
    hide Inv, RootOk;
    S.DropKeepsOk(r);
    MapDrop(ObjectName(), r.obj, 1);
    OneStep(s, Collect(t, false));
  }

  /** Between the decrement that reached zero and the finalizer: object `p` is being released by `t`. */
  ghost predicate StandsReleasing(s: State, t: nat, r: Root<Ptr>, dc: map<Ptr, nat>, regions: seq<R.Region>, p: Ptr) {
    && Inv(s) && Shaped(s) && t < |s.locals| && s.locals[t].doing == Releasing(Object(p))
    && s.global.threads[t].pc == G.Idle && RootOk(r) && s.locals[t].root == Named(r, t)
    && Object(p) in s.heap && s.heap[Object(p)].dc == 0 && p !in dc
    && ObjectsStand(s.heap, dc) && RegionsStand(s.heap, t, regions)
  }

  lemma CollectLast(s: State, t: nat, r: Root<Ptr>, dc: map<Ptr, nat>, regions: seq<R.Region>, finalizer: Ptr -> int)
    requires Stands(s, t, r, dc, regions) && r.obj.expired != []
    requires r.obj.expired[0] in dc && dc[r.obj.expired[0]] == 1
    ensures var steps := [Collect(t, false)] + [Release(t, finalizer(r.obj.expired[0]))];
            && Run(s, steps)
            && Stands(Exec(s, steps), t, r.(obj := Drop(r.obj, 1)), S.AfterExpiry(dc, r.obj.expired[0], finalizer),
                      regions)
  {
    hide Stands, StandsReleasing, Run, Exec;
    var p := r.obj.expired[0];
    LastDecrement(s, t, r, dc, regions);
    var s1, r1 := Exec(s, [Collect(t, false)]), r.(obj := Drop(r.obj, 1));
    Finalized(s1, t, r1, dc - {p}, regions, p, finalizer(p));
    assert dc[p := 0] == (dc - {p})[p := 0];
    RunConcat(s, [Collect(t, false)], [Release(t, finalizer(p))]);
  }

  lemma LastDecrement(s: State, t: nat, r: Root<Ptr>, dc: map<Ptr, nat>, regions: seq<R.Region>)
    requires Stands(s, t, r, dc, regions) && r.obj.expired != []
    requires r.obj.expired[0] in dc && dc[r.obj.expired[0]] == 1
    ensures var p := r.obj.expired[0];
            && Run(s, [Collect(t, false)])
            && StandsReleasing(Exec(s, [Collect(t, false)]), t, r.(obj := Drop(r.obj, 1)), dc - {p}, regions, p)
  {
    hide Inv, RootOk;
    S.DropKeepsOk(r);
    MapDrop(ObjectName(), r.obj, 1);
    OneStep(s, Collect(t, false));
  }

  /** The finalizer decides whether the object is freed. */
  lemma Finalized(s: State, t: nat, r: Root<Ptr>, dc: map<Ptr, nat>, regions: seq<R.Region>, p: Ptr, result: int)
    requires StandsReleasing(s, t, r, dc, regions, p)
    ensures Run(s, [Release(t, result)])
    ensures Stands(Exec(s, [Release(t, result)]), t, r, if result == 0 then dc else dc[p := 0], regions)
  {
    hide Inv, RootOk;
    OneStep(s, Release(t, result));
  }

  lemma CollectRegion(s: State, t: nat, r: Root<Ptr>, dc: map<Ptr, nat>, v: R.Snapshot)
    requires Stands(s, t, r, dc, v.regions) && R.Listed(v)
    ensures var steps := RegionSteps(t, r.reg.expired);
            && Run(s, steps)
            && Stands(Exec(s, steps), t, r.(reg := Drop(r.reg, 1)), dc, S.RegionsAfterPop(v, r.reg.expired).regions)
  {
    hide Inv, R.CountedOff, R.Listed;
    var q := r.reg.expired;
    HeadIsCounted(s, t, r, dc, v.regions);
    S.DropKeepsOk(r);
    MapDrop(RegionName(t), r.reg, 1);
    if q != [] {
      S.CountedOffCounts(v, q[0]);
      OneStep(s, Collect(t, true));
    } else {
      assert Drop(r.reg, 1) == r.reg;
    }
  }

  /** Lazy collection at the end of a call that left the root in state `r`. */
  function LazySteps(t: nat, r: Root<Ptr>, dc: map<Ptr, nat>, finalizer: Ptr -> int): seq<Step> {
    ObjectSteps(t, r.obj.expired, dc, finalizer) + RegionSteps(t, r.reg.expired)
  }

  lemma LazyCollectPerforms(s: State, t: nat, r: Root<Ptr>, dc: map<Ptr, nat>, v: R.Snapshot, finalizer: Ptr -> int)
    requires Stands(s, t, r, dc, v.regions) && R.Listed(v)
    ensures var steps := LazySteps(t, r, dc, finalizer);
            && Run(s, steps)
            && Stands(Exec(s, steps), t, Roots.Collect(r, 1, 1), S.DcAfterPop(dc, r.obj.expired, finalizer),
                      S.RegionsAfterPop(v, r.reg.expired).regions)
  {
    hide Stands, ObjectSteps, RegionSteps, S.DcAfterPop, S.RegionsAfterPop, Run, Exec;
    CollectObject(s, t, r, dc, v.regions, finalizer);
    var a := ObjectSteps(t, r.obj.expired, dc, finalizer);
    var r1, dc1 := r.(obj := Drop(r.obj, 1)), S.DcAfterPop(dc, r.obj.expired, finalizer);
    CollectRegion(Exec(s, a), t, r1, dc1, v);
    RunConcat(s, a, RegionSteps(t, r.reg.expired));
  }

  lemma LazyIsOwn(t: nat, r: Root<Ptr>, dc: map<Ptr, nat>, finalizer: Ptr -> int)
    ensures OwnSteps(LazySteps(t, r, dc, finalizer), t)
  {
  }

  /** What the lazy collection at the end of a call by thread `t` leaves behind, `before` being its steps
      until then and `r1` its root. */
  ghost function Collecting(t: nat, before: seq<Step>, r1: Root<Ptr>, dc: map<Ptr, nat>, v: R.Snapshot,
                      finalizer: Ptr -> int): Call
  {
    Call(t, before + LazySteps(t, r1, dc, finalizer), Roots.Collect(r1, 1, 1),
         S.DcAfterPop(dc, r1.obj.expired, finalizer),
         S.RegionsAfterPop(v, r1.reg.expired).regions)
  }

  lemma ThenCollect(s: State, before: seq<Step>, t: nat, r1: Root<Ptr>, dc: map<Ptr, nat>, v: R.Snapshot,
                    finalizer: Ptr -> int)
    requires Run(s, before) && OwnSteps(before, t) && Stands(Exec(s, before), t, r1, dc, v.regions) && R.Listed(v)
    ensures Performs(s, Collecting(t, before, r1, dc, v, finalizer))
  {
    hide Stands, LazySteps, S.DcAfterPop, S.RegionsAfterPop, Run, Exec, OwnSteps;
    LazyCollectPerforms(Exec(s, before), t, r1, dc, v, finalizer);
    RunConcat(s, before, LazySteps(t, r1, dc, finalizer));
    LazyIsOwn(t, r1, dc, finalizer);
    OwnConcat(before, LazySteps(t, r1, dc, finalizer), t);
  }

  // ---------------------------------------------------------------- ticks

  /** A step that turns the root of thread `t` changes no counter. */
  lemma TurnStands(s: State, t: nat, r: Root<Ptr>, dc: map<Ptr, nat>, regions: seq<R.Region>, how: Turning,
                   r1: Root<Ptr>)
    requires Stands(s, t, r, dc, regions) && CanTurn(s.locals[t], how) && RootOk(r1)
    requires TurnRoot.requires(Named(r, t), how) && Named(r1, t) == TurnRoot(Named(r, t), how)
    ensures Run(s, [Turn(t, how)]) && Stands(Exec(s, [Turn(t, how)]), t, r1, dc, regions)
  {
    hide Inv, RootOk, TurnRoot, CanTurn;
    OneStep(s, Turn(t, how));
  }

  /** scm_tick_clock: the tick and one lazy collection. */
  lemma TickPerforms(s: State, t: nat, r: Root<Ptr>, dc: map<Ptr, nat>, v: R.Snapshot, c: nat, finalizer: Ptr -> int)
    requires Stands(s, t, r, dc, v.regions) && R.Listed(v) && c < MAX_CLOCKS && S.HasSlots(r, c)
    ensures var r1 := S.Uncollected(r, H.Tick(c));
            var steps := [Turn(t, Turning.Tick(c))] + LazySteps(t, r1, dc, finalizer);
            Performs(s, Call(t, steps, S.Lazily(r, H.Tick(c)), S.DcAfterPop(dc, r1.obj.expired, finalizer),
                             S.RegionsAfterPop(v, r1.reg.expired).regions))
  {
    hide Inv, RootOk, TickClock, S.Uncollected, LazySteps, S.DcAfterPop, S.RegionsAfterPop, Run, Exec, R.Listed;
    var r1 := S.Uncollected(r, H.Tick(c));
    S.UncollectedTick(r, c);
    TickKeepsOk(r, c);
    MapTick(ObjectName(), RegionName(t), r, c);
    TurnStands(s, t, r, dc, v.regions, Turning.Tick(c), r1);
    ThenCollect(s, [Turn(t, Turning.Tick(c))], t, r1, dc, v, finalizer);
  }

  /** The atomic steps of a global tick, uninterrupted. */
  function ProtocolSteps(s: State, t: nat): seq<Step>
    requires t < |s.global.threads|
  {
    if s.global.threads[t].phase != s.global.time then [Protocol(G.Compare(t))]
    else [Protocol(G.Compare(t)), Protocol(G.Bump(t)), Protocol(G.Decrement(t))]
         + if s.global.countdown == 1 then [Protocol(G.Reset(t)), Protocol(G.Advance(t))] else []
  }

  /** A step of the protocol that rotates no ring changes nothing a thread can see of its root. */
  lemma ProtocolStep(s: State, g: G.Step)
    requires Inv(s) && Shaped(s) && G.Enabled(s.global, g) && g != G.Create && !g.Bump? && s.locals[g.t].doing == Ready
    ensures var s1 := s.(global := G.Apply(s.global, g));
            Run(s, [Protocol(g)]) && Exec(s, [Protocol(g)]) == s1 && Inv(s1) && Shaped(s1)
  {
    hide Inv, Shaped, G.Enabled, G.Apply;
    ShapedLengths(s);
    OneStep(s, Protocol(g));
  }

  lemma ShapedLengths(s: State)
    requires Shaped(s)
    ensures |s.locals| == |s.global.threads|
  {
  }

  lemma BumpStep(s: State, t: nat)
    requires Inv(s) && Shaped(s) && t < |s.locals| && s.locals[t].doing == Ready && s.global.threads[t].pc == G.Matched
    ensures Usable(s.locals[t], GLOBAL) && |s.locals[t].advances| == MAX_CLOCKS + 1
    ensures var s1 := s.(global := G.Apply(s.global, G.Bump(t)), locals := s.locals[t := Rotate(s.locals[t])]);
            Run(s, [Protocol(G.Bump(t))]) && Exec(s, [Protocol(G.Bump(t))]) == s1 && Inv(s1) && Shaped(s1)
  {
    hide Inv;
    GlobalUsable(s.locals[t]);
    OneStep(s, Protocol(G.Bump(t)));
  }

  lemma GlobalUsable(l: Local)
    requires RootOk(l.root)
    ensures Usable(l, GLOBAL)
  {
  }

  /** Taking the lock after the final decrement: nobody else can hold it. */
  lemma LastTakesLock(s: G.State, t: nat)
    requires G.Inv(s) && t < |s.threads| && s.threads[t].pc == G.Last
    ensures G.LockFree(s)
  {
    forall u | 0 <= u < |s.threads|
      ensures s.threads[u].pc != G.Holding
    {
      if s.threads[u].pc == G.Holding { G.OneCloser(s, t, u); }
    }
  }

  lemma InvGlobal(s: State)
    requires Inv(s)
    ensures G.Inv(s.global)
  {
  }

  /** After an uninterrupted tick the thread is between calls again, and its global rings were rotated if
      and only if it had not ticked in this period. */
  ghost predicate TickedThrough(s: State, s': State, t: nat) {
    && Inv(s') && Shaped(s') && s'.heap == s.heap && BetweenCalls(s', t)
    && t < |s.locals| && t < |s.global.threads|
    && Usable(s.locals[t], GLOBAL) && |s.locals[t].advances| == MAX_CLOCKS + 1
    && s'.locals[t] == (if s.global.threads[t].phase == s.global.time then Rotate(s.locals[t]) else s.locals[t])
  }

  lemma ProtocolTick(s: State, t: nat)
    requires Inv(s) && Shaped(s) && BetweenCalls(s, t) && !s.global.threads[t].blocked
    ensures Run(s, ProtocolSteps(s, t)) && TickedThrough(s, Exec(s, ProtocolSteps(s, t)), t)
  {
    hide Inv, Run, Exec, Usable, Rotate, RootOk;
    GlobalUsable(s.locals[t]);
    ProtocolStep(s, G.Compare(t));
    var s1 := s.(global := G.Apply(s.global, G.Compare(t)));
    if s.global.threads[t].phase == s.global.time {
      FromMatched(s1, t);
      var rest := [Protocol(G.Bump(t)), Protocol(G.Decrement(t))]
                  + if s.global.countdown == 1 then [Protocol(G.Reset(t)), Protocol(G.Advance(t))] else [];
      RunConcat(s, [Protocol(G.Compare(t))], rest);
      assert [Protocol(G.Compare(t))] + rest == ProtocolSteps(s, t);
    }
  }

  lemma FromMatched(s: State, t: nat)
    requires Inv(s) && Shaped(s) && t < |s.locals| && s.locals[t].doing == Ready && s.global.threads[t].pc == G.Matched
    ensures Usable(s.locals[t], GLOBAL) && |s.locals[t].advances| == MAX_CLOCKS + 1
    ensures var steps := [Protocol(G.Bump(t)), Protocol(G.Decrement(t))]
                         + if s.global.countdown == 1 then [Protocol(G.Reset(t)), Protocol(G.Advance(t))] else [];
            && Run(s, steps)
            && var s' := Exec(s, steps);
            && Inv(s') && Shaped(s') && s'.heap == s.heap && BetweenCalls(s', t) && s'.locals[t] == Rotate(s.locals[t])
  {
    hide Inv, Run, Exec, Usable, Rotate, RootOk;
    BumpStep(s, t);
    RotateReady(s.locals[t]);
    var s1 := s.(global := G.Apply(s.global, G.Bump(t)), locals := s.locals[t := Rotate(s.locals[t])]);
    FromBumped(s1, t);
    var rest := [Protocol(G.Decrement(t))]
                + if s.global.countdown == 1 then [Protocol(G.Reset(t)), Protocol(G.Advance(t))] else [];
    RunConcat(s, [Protocol(G.Bump(t))], rest);
    assert [Protocol(G.Bump(t))] + rest == [Protocol(G.Bump(t)), Protocol(G.Decrement(t))]
           + if s.global.countdown == 1 then [Protocol(G.Reset(t)), Protocol(G.Advance(t))] else [];
  }

  lemma FromBumped(s: State, t: nat)
    requires Inv(s) && Shaped(s) && t < |s.locals| && s.locals[t].doing == Ready && s.global.threads[t].pc == G.Bumped
    ensures var steps := [Protocol(G.Decrement(t))]
                         + if s.global.countdown == 1 then [Protocol(G.Reset(t)), Protocol(G.Advance(t))] else [];
            && Run(s, steps)
            && var s' := Exec(s, steps);
            && Inv(s') && Shaped(s') && s'.heap == s.heap && BetweenCalls(s', t) && s'.locals[t] == s.locals[t]
  {
    hide Inv, Run, Exec, RootOk;
    ProtocolStep(s, G.Decrement(t));
    var s1 := s.(global := G.Apply(s.global, G.Decrement(t)));
    if s.global.countdown == 1 {
      FromLast(s1, t);
      RunConcat(s, [Protocol(G.Decrement(t))], [Protocol(G.Reset(t)), Protocol(G.Advance(t))]);
    } else {
      assert [Protocol(G.Decrement(t))] + [] == [Protocol(G.Decrement(t))];
    }
  }

  lemma FromLast(s: State, t: nat)
    requires Inv(s) && Shaped(s) && t < |s.locals| && s.locals[t].doing == Ready && s.global.threads[t].pc == G.Last
    ensures var steps := [Protocol(G.Reset(t)), Protocol(G.Advance(t))];
            && Run(s, steps)
            && var s' := Exec(s, steps);
            && Inv(s') && Shaped(s') && s'.heap == s.heap && BetweenCalls(s', t) && s'.locals[t] == s.locals[t]
  {
    hide Inv, Run, Exec, RootOk, G.LockFree;
    InvGlobal(s);
    LastTakesLock(s.global, t);
    ProtocolStep(s, G.Reset(t));
    var s1 := s.(global := G.Apply(s.global, G.Reset(t)));
    ProtocolStep(s1, G.Advance(t));
    RunConcat(s, [Protocol(G.Reset(t))], [Protocol(G.Advance(t))]);
    assert [Protocol(G.Reset(t))] + [Protocol(G.Advance(t))] == [Protocol(G.Reset(t)), Protocol(G.Advance(t))];
  }

  lemma ProtocolTickStands(s: State, t: nat, r: Root<Ptr>, dc: map<Ptr, nat>, regions: seq<R.Region>)
    requires Stands(s, t, r, dc, regions) && !s.global.threads[t].blocked
    ensures var steps := ProtocolSteps(s, t); var effective := s.global.threads[t].phase == s.global.time;
            && Run(s, steps) && CanAdvance(r, GLOBAL)
            && Stands(Exec(s, steps), t, if effective then IncrementAndExpire(r, GLOBAL) else r, dc, regions)
  {
    hide Inv, RootOk, Run, Exec, IncrementAndExpire, CanAdvance, Rotate;
    ProtocolTick(s, t);
    GlobalCanAdvance(r);
    AdvanceKeepsOk(r, GLOBAL);
    MapIncrement(ObjectName(), RegionName(t), r, GLOBAL);
    RotateReady(s.locals[t]);
  }

  lemma GlobalCanAdvance(r: Root<Ptr>)
    requires RootOk(r)
    ensures GLOBAL < |r.obj.rings| && Used(r.obj.rings[GLOBAL])
  {
  }

  function CleanSteps(t: nat): seq<Step> { if MAX_CLOCKS > 1 then [Turn(t, Clean)] else [] }

  lemma CleanStands(s: State, t: nat, r: Root<Ptr>, dc: map<Ptr, nat>, regions: seq<R.Region>)
    requires Stands(s, t, r, dc, regions) && (MAX_CLOCKS > 1 ==> r.roundRobin < MAX_CLOCKS)
    ensures Run(s, CleanSteps(t))
    ensures Stands(Exec(s, CleanSteps(t)), t, if MAX_CLOCKS > 1 then CleanZombie(r, r.roundRobin) else r, dc, regions)
  {
    hide Inv, RootOk, CleanZombie;
    if MAX_CLOCKS > 1 {
      CleanKeepsOk(r, r.roundRobin);
      MapClean(ObjectName(), RegionName(t), r, r.roundRobin);
      TurnStands(s, t, r, dc, regions, Clean, CleanZombie(r, r.roundRobin));
    }
  }

  lemma IndexBound(r: Root<Ptr>)
    requires RootOk(r)
    ensures MAX_CLOCKS > 1 ==> r.roundRobin < MAX_CLOCKS
  {
  }

  lemma GlobalTickParts(r: Root<Ptr>, effective: bool)
    requires RootOk(r) && CanAdvance(r, GLOBAL)
    ensures var r1 := if effective then IncrementAndExpire(r, GLOBAL) else r;
            && RootOk(r1)
            && GlobalTick(r, effective) == if MAX_CLOCKS > 1 then CleanZombie(r1, r1.roundRobin) else r1
  {
    AdvanceKeepsOk(r, GLOBAL);
  }

  lemma TickIsOwn(s: State, t: nat)
    requires t < |s.global.threads|
    ensures OwnSteps(ProtocolSteps(s, t) + CleanSteps(t), t)
  {
  }

  /** scm_global_tick of a participating thread, uninterrupted: the steps of the protocol, the cleaning of
      one zombie and one lazy collection. The rings are rotated in the step that bumps the phase. */
  lemma GlobalTickPerforms(s: State, t: nat, r: Root<Ptr>, dc: map<Ptr, nat>, v: R.Snapshot, finalizer: Ptr -> int)
    requires Stands(s, t, r, dc, v.regions) && R.Listed(v) && !s.global.threads[t].blocked
    ensures var effective := s.global.threads[t].phase == s.global.time;
            var r1 := S.Uncollected(r, H.TickGlobally(effective));
            var steps := ProtocolSteps(s, t) + CleanSteps(t) + LazySteps(t, r1, dc, finalizer);
            Performs(s, Call(t, steps, S.Lazily(r, H.TickGlobally(effective)),
                             S.DcAfterPop(dc, r1.obj.expired, finalizer), S.RegionsAfterPop(v, r1.reg.expired).regions))
  {
    hide Inv, RootOk, GlobalTick, CleanZombie, IncrementAndExpire, CanAdvance, S.Uncollected, LazySteps,
         ProtocolSteps, CleanSteps,
         S.DcAfterPop, S.RegionsAfterPop, Run, Exec, R.Listed;
    var effective := s.global.threads[t].phase == s.global.time;
    S.UncollectedGlobalTick(r, effective);
    ProtocolTickStands(s, t, r, dc, v.regions);
    GlobalTickParts(r, effective);
    var rA := if effective then IncrementAndExpire(r, GLOBAL) else r;
    IndexBound(rA);
    CleanStands(Exec(s, ProtocolSteps(s, t)), t, rA, dc, v.regions);
    RunConcat(s, ProtocolSteps(s, t), CleanSteps(t));
    TickIsOwn(s, t);
    ThenCollect(s, ProtocolSteps(s, t) + CleanSteps(t), t, GlobalTick(r, effective), dc, v, finalizer);
  }

  // ---------------------------------------------------------------- refreshes

  function RefreshSteps(t: nat, x: Target, c: nat, given: nat): seq<Step> { [Refresh(t, x, c, given), Place(t)] }

  lemma RefreshIsOwn(t: nat, x: Target, c: nat, given: nat)
    ensures OwnSteps(RefreshSteps(t, x, c, given), t)
  {
  }

  /** Counting and placing, with nothing of the same thread in between. */
  lemma RefreshThenPlace(s: State, t: nat, x: Target, c: nat, given: nat)
    requires Inv(s) && Shaped(s) && Enabled(s, Refresh(t, x, c, given)) && s.heap[x].dc != INT_MAX
    ensures var l := s.locals[t].(doing := Placing(x, c, Expiration(c, given)));
            && Usable(l, c)
            && Run(s, RefreshSteps(t, x, c, given))
            && var s' := Exec(s, RefreshSteps(t, x, c, given));
            && Inv(s') && Shaped(s')
            && s' == With(s, t, Placed(l), s.heap[x := s.heap[x].(dc := s.heap[x].dc + 1)])
  {
    hide Inv, RootOk, Placed, Expiration;
    OneStep(s, Refresh(t, x, c, given));
    var s1 := Apply(s, Refresh(t, x, c, given));
    OneStep(s1, Place(t));
    RunConcat(s, [Refresh(t, x, c, given)], [Place(t)]);
    assert [Refresh(t, x, c, given)] + [Place(t)] == RefreshSteps(t, x, c, given);
  }

  lemma PlacedNamed(r: Root<Ptr>, t: nat, l: Local, p: Ptr)
    requires RootOk(r) && l.root == Named(r, t) && l.doing.Placing? && l.doing.ring <= GLOBAL
    requires S.HasSlots(r, l.doing.ring)
    requires l.doing.x == Object(p) || l.doing.x == Target.Region(t, p)
    ensures Usable(l, l.doing.ring)
    ensures var call := if l.doing.x.Object? then H.RefreshObject(p, l.doing.ring, l.doing.expiration)
                        else H.RefreshRegion(p, l.doing.ring, l.doing.expiration);
            Placed(l) == l.(root := Named(S.Uncollected(r, call), t), doing := Ready) && RootOk(S.Uncollected(r, call))
  {
    hide RootOk, S.Uncollected, InsertBank;
    var Placing(x, c, e) := l.doing;
    NamedUsable(r, t, c);
    S.UncollectedRefresh(r, c, p, e);
    H.InsertKeepsOk(r, c, p, e);
    MapInsertBank(ObjectName(), r.obj, c, p, e);
    MapInsertBank(RegionName(t), r.reg, c, p, e);
  }

  lemma NamedUsable(r: Root<Ptr>, t: nat, c: nat)
    requires RootOk(r) && c <= GLOBAL && S.HasSlots(r, c)
    ensures CanAdvance(Named(r, t), c)
  {
    MapOk(ObjectName(), RegionName(t), r);
  }

  lemma RefreshQueues(r: Root<Ptr>, c: nat, x: Ptr, e: nat)
    requires RootOk(r) && c <= GLOBAL && S.HasSlots(r, c)
    ensures var r1 := S.Uncollected(r, H.RefreshObject(x, c, e));
            r1.obj.expired == r.obj.expired && r1.reg.expired == r.reg.expired
    ensures var r1 := S.Uncollected(r, H.RefreshRegion(x, c, e));
            r1.obj.expired == r.obj.expired && r1.reg.expired == r.reg.expired
  {
    S.UncollectedRefresh(r, c, x, e);
  }

  /** scm_refresh_with_clock and, with ring GLOBAL, scm_global_refresh of an object whose counter is not
      saturated: counting, placing and one lazy collection. */
  lemma RefreshPerforms(s: State, t: nat, r: Root<Ptr>, dc: map<Ptr, nat>, v: R.Snapshot, p: Ptr, c: nat, given: nat,
                        finalizer: Ptr -> int)
    requires Stands(s, t, r, dc, v.regions) && R.Listed(v) && p in dc && dc[p] != INT_MAX && c <= GLOBAL
    requires S.HasSlots(r, c)
    ensures var call := H.RefreshObject(p, c, Expiration(c, given)); var r1 := S.Uncollected(r, call);
            var steps := RefreshSteps(t, Object(p), c, given) + LazySteps(t, r1, S.Counted(dc, p), finalizer);
            Performs(s, Call(t, steps, S.Lazily(r, call), S.DcAfterPop(S.Counted(dc, p), r.obj.expired, finalizer),
                             S.RegionsAfterPop(v, r.reg.expired).regions))
  {
    hide Inv, RootOk, S.Uncollected, LazySteps, S.DcAfterPop, S.RegionsAfterPop, Run, Exec, R.Listed, Expiration,
         Placed, RefreshSteps;
    var x, e := Object(p), Expiration(c, given);
    NamedUsable(r, t, c);
    RefreshThenPlace(s, t, x, c, given);
    PlacedNamed(r, t, s.locals[t].(doing := Placing(x, c, e)), p);
    var r1 := S.Uncollected(r, H.RefreshObject(p, c, e));
    RefreshQueues(r, c, p, e);
    assert Stands(Exec(s, RefreshSteps(t, x, c, given)), t, r1, S.Counted(dc, p), v.regions);
    RefreshIsOwn(t, x, c, given);
    ThenCollect(s, RefreshSteps(t, x, c, given), t, r1, S.Counted(dc, p), v, finalizer);
  }

  /** The same for a region of the calling thread. */
  lemma RegionRefreshPerforms(s: State, t: nat, r: Root<Ptr>, dc: map<Ptr, nat>, v: R.Snapshot, i: nat, c: nat,
                              given: nat,
                              finalizer: Ptr -> int)
    requires Stands(s, t, r, dc, v.regions) && R.Listed(v) && i < MAX_REGIONS && v.regions[i].dc != INT_MAX
    requires c <= GLOBAL && S.HasSlots(r, c)
    ensures var call := H.RefreshRegion(i, c, Expiration(c, given)); var r1 := S.Uncollected(r, call);
            var steps := RefreshSteps(t, Target.Region(t, i), c, given) + LazySteps(t, r1, dc, finalizer);
            Performs(s, Call(t, steps, S.Lazily(r, call), S.DcAfterPop(dc, r.obj.expired, finalizer),
                             S.RegionsAfterPop(R.CountedOn(v, i), r.reg.expired).regions))
  {
    hide Inv, RootOk, S.Uncollected, LazySteps, S.DcAfterPop, S.RegionsAfterPop, Run, Exec, R.Listed, Expiration,
         Placed, RefreshSteps;
    var x, e := Target.Region(t, i), Expiration(c, given);
    NamedUsable(r, t, c);
    RegionsLive(s, t, i);
    RefreshThenPlace(s, t, x, c, given);
    PlacedNamed(r, t, s.locals[t].(doing := Placing(x, c, e)), i);
    var r1 := S.Uncollected(r, H.RefreshRegion(i, c, e));
    RefreshQueues(r, c, i, e);
    CountedOnListed(v, i);
    assert Stands(Exec(s, RefreshSteps(t, x, c, given)), t, r1, dc, R.CountedOn(v, i).regions);
    RefreshIsOwn(t, x, c, given);
    ThenCollect(s, RefreshSteps(t, x, c, given), t, r1, dc, R.CountedOn(v, i), finalizer);
  }

  lemma CountedOnListed(v: R.Snapshot, i: nat)
    requires R.Listed(v) && i < MAX_REGIONS
    ensures R.Listed(R.CountedOn(v, i))
  {
  }

  /** Regions are recycled on the spot; their release is never pending. */
  lemma RegionsLive(s: State, t: nat, i: nat)
    requires Inv(s) && Target.Region(t, i) in s.heap
    ensures !s.heap[Target.Region(t, i)].dying
  {
    hide G.Inv, LocalsOk, Counted, RegionsOk;
  }

  // ---------------------------------------------------------------- clocks

  /** scm_register_clock, scm_unregister_clock and the reuse of a root by a new thread. */
  lemma RegistrationPerforms(s: State, t: nat, r: Root<Ptr>, dc: map<Ptr, nat>, regions: seq<R.Region>, i: nat, c: int)
    requires Stands(s, t, r, dc, regions)
    ensures 1 <= i < MAX_CLOCKS && i < |r.age| && !Registered(r, i) ==>
      Performs(s, Call(t, [Turn(t, RegisterClock(i))], RegisterClockAt(r, i), dc, regions))
    ensures Performs(s, Call(t, [Turn(t, Turning.UnregisterClock(c))], Roots.UnregisterClock(r, c), dc, regions))
    ensures Performs(s, Call(t, [Turn(t, Turning.TakeOver)], Reuse(r), dc, regions))
  {
    hide Inv, RootOk, RegisterClockAt, Roots.UnregisterClock, Reuse, Run, Exec;
    RegistrationKeepsOk(r, i, c);
    MapRegistration(ObjectName(), RegionName(t), r, i, c);
    if 1 <= i < MAX_CLOCKS && i < |r.age| && !Registered(r, i) {
      TurnStands(s, t, r, dc, regions, RegisterClock(i), RegisterClockAt(r, i));
    }
    TurnStands(s, t, r, dc, regions, Turning.UnregisterClock(c), Roots.UnregisterClock(r, c));
    TurnStands(s, t, r, dc, regions, Turning.TakeOver, Reuse(r));
  }

  // ---------------------------------------------------------------- eager collection

  function EagerObjectSteps(t: nat, q: seq<Ptr>, dc: map<Ptr, nat>, finalizer: Ptr -> int): seq<Step> {
    if q == [] then []
    else ObjectSteps(t, q, dc, finalizer) + EagerObjectSteps(t, q[1..], PoppedDc(dc, q, finalizer), finalizer)
  }

  /** The counters after the head of a queue was collected, computably. */
  function PoppedDc(dc: map<Ptr, nat>, q: seq<Ptr>, finalizer: Ptr -> int): (dc': map<Ptr, nat>)
    ensures dc' == S.DcAfterPop(dc, q, finalizer)
  {
    if q != [] && q[0] in dc && dc[q[0]] >= 1
    then if dc[q[0]] == 1 && finalizer(q[0]) == 0 then dc - {q[0]} else dc[q[0] := dc[q[0]] - 1]
    else dc
  }

  function EagerRegionSteps(t: nat, q: seq<Ptr>): seq<Step> {
    if q == [] then [] else [Collect(t, true)] + EagerRegionSteps(t, q[1..])
  }

  function NoObjectsQueued(r: Root<Ptr>): Root<Ptr> { r.(obj := r.obj.(expired := [])) }
  function NoRegionsQueued(r: Root<Ptr>): Root<Ptr> { r.(reg := r.reg.(expired := [])) }

  /** Collecting the whole object queue: `dc'` is any outcome the code may have, that is, the one that
      settles every descriptor exactly once. */
  lemma {:induction false} EagerObjects(s: State, t: nat, r: Root<Ptr>, before: map<Ptr, nat>, done: seq<Ptr>,
                                        dc: map<Ptr, nat>, regions: seq<R.Region>, finalizer: Ptr -> int,
                                        dc': map<Ptr, nat>)
    requires Stands(s, t, r, dc, regions) && S.QueueCounted(done + r.obj.expired, before)
    requires S.Settled(before, dc, done, finalizer) && S.Settled(before, dc', done + r.obj.expired, finalizer)
    ensures var steps := EagerObjectSteps(t, r.obj.expired, dc, finalizer);
            Run(s, steps) && Stands(Exec(s, steps), t, NoObjectsQueued(r), dc', regions)
    decreases |r.obj.expired|
  {
    hide Stands, ObjectSteps, S.Settled, S.QueueCounted, S.AfterExpiry;
    var q := r.obj.expired;
    if q == [] {
      assert done + [] == done && NoObjectsQueued(r) == r;
      SettledUnique(before, dc, dc', done, finalizer);
      ShapedStands(s, t, r, dc, regions);
    } else {
      S.SettledStep(before, dc, done, finalizer, q);
      CollectObject(s, t, r, dc, regions, finalizer);
      var a, r1, dc1 := ObjectSteps(t, q, dc, finalizer), r.(obj := Drop(r.obj, 1)), PoppedDc(dc, q, finalizer);
      assert (done + [q[0]]) + q[1..] == done + q;
      EagerObjects(Exec(s, a), t, r1, before, done + [q[0]], dc1, regions, finalizer, dc');
      RunConcat(s, a, EagerObjectSteps(t, q[1..], dc1, finalizer));
      assert NoObjectsQueued(r1) == NoObjectsQueued(r);
    }
  }

  lemma ShapedStands(s: State, t: nat, r: Root<Ptr>, dc: map<Ptr, nat>, regions: seq<R.Region>)
    requires Stands(s, t, r, dc, regions)
    ensures Shaped(s)
  {
  }

  lemma SettledUnique(before: map<Ptr, nat>, a: map<Ptr, nat>, b: map<Ptr, nat>, done: seq<Ptr>, finalizer: Ptr -> int)
    requires S.Settled(before, a, done, finalizer) && S.Settled(before, b, done, finalizer)
    ensures a == b
  {
    forall p | p in before
      ensures (p in a <==> p in b) && (p in a ==> a[p] == b[p])
    {
      assert S.SettledAt(before, a, multiset(done)[p], finalizer, p);
      assert S.SettledAt(before, b, multiset(done)[p], finalizer, p);
    }
    assert a.Keys == b.Keys;
  }

  lemma {:induction false} EagerRegions(s: State, t: nat, r: Root<Ptr>, before: R.Snapshot, done: seq<Ptr>,
                                        dc: map<Ptr, nat>, v: R.Snapshot, v': R.Snapshot)
    requires Stands(s, t, r, dc, v.regions) && S.RegionsCounted(done + r.reg.expired, before.regions)
    requires S.RegionsSettled(before, v, done) && S.RegionsSettled(before, v', done + r.reg.expired)
    ensures var steps := EagerRegionSteps(t, r.reg.expired);
            Run(s, steps) && Stands(Exec(s, steps), t, NoRegionsQueued(r), dc, v'.regions)
    decreases |r.reg.expired|
  {
    hide Stands, S.RegionSettledAt, S.RegionsCounted, R.CountedOff, R.Listed;
    var q := r.reg.expired;
    if q == [] {
      assert done + [] == done && NoRegionsQueued(r) == r;
      SameCounts(before, v, v', done);
      SameCountsStand(s, t, r, dc, v.regions, v'.regions);
      ShapedStands(s, t, r, dc, v.regions);
    } else {
      S.RegionsSettledStep(before, v, done, q);
      CollectRegion(s, t, r, dc, v);
      var r1, v1 := r.(reg := Drop(r.reg, 1)), R.CountedOff(v, q[0]);
      assert (done + [q[0]]) + q[1..] == done + q;
      PopIsCountedOff(v, q);
      EagerRegions(Exec(s, [Collect(t, true)]), t, r1, before, done + [q[0]], dc, v1, v');
      RunConcat(s, [Collect(t, true)], EagerRegionSteps(t, q[1..]));
      assert NoRegionsQueued(r1) == NoRegionsQueued(r);
    }
  }

  lemma PopIsCountedOff(v: R.Snapshot, q: seq<Ptr>)
    requires q != [] && R.Listed(v) && q[0] < MAX_REGIONS && v.regions[q[0]].dc >= 1
    ensures S.RegionsAfterPop(v, q) == R.CountedOff(v, q[0])
  {
  }

  lemma SameCounts(before: R.Snapshot, v: R.Snapshot, v': R.Snapshot, done: seq<Ptr>)
    requires S.RegionsSettled(before, v, done) && S.RegionsSettled(before, v', done)
    ensures |v.regions| == |v'.regions| == MAX_REGIONS
    ensures forall i :: 0 <= i < MAX_REGIONS ==> v'.regions[i].dc == v.regions[i].dc
  {
    forall i | 0 <= i < MAX_REGIONS
      ensures v'.regions[i].dc == v.regions[i].dc
    {
      assert S.RegionSettledAt(before, v, i, multiset(done)[i]) && S.RegionSettledAt(before, v', i, multiset(done)[i]);
    }
  }

  lemma SameCountsStand(s: State, t: nat, r: Root<Ptr>, dc: map<Ptr, nat>, regions: seq<R.Region>,
                        regions': seq<R.Region>)
    requires Stands(s, t, r, dc, regions) && |regions| == |regions'|
    requires forall i :: 0 <= i < |regions| ==> regions'[i].dc == regions[i].dc
    ensures Stands(s, t, r, dc, regions')
  {
    hide Inv, RootOk;
  }

  /** eager_collect: one collection per queued descriptor, objects first. `dc'` and `v'` are what the code
      leaves behind according to `Scm.DescriptorRoot.EagerCollect`. */
  lemma EagerCollectPerforms(s: State, t: nat, r: Root<Ptr>, dc: map<Ptr, nat>, v: R.Snapshot, finalizer: Ptr -> int,
                             dc': map<Ptr, nat>, v': R.Snapshot)
    requires Stands(s, t, r, dc, v.regions) && R.Listed(v)
    requires S.Settled(dc, dc', r.obj.expired, finalizer) && S.RegionsSettled(v, v', r.reg.expired)
    ensures var steps := EagerObjectSteps(t, r.obj.expired, dc, finalizer) + EagerRegionSteps(t, r.reg.expired);
            Performs(s, Call(t, steps, NoRegionsQueued(NoObjectsQueued(r)), dc', v'.regions))
  {
    hide Stands, S.Settled, S.RegionsSettled, S.QueueCounted, S.RegionsCounted, S.Accounted, S.RegionsAccounted,
         EagerObjectSteps, EagerRegionSteps, Run, Exec, OwnSteps;
    StandsIsAccounted(s, t, r, dc, v.regions);
    S.AccountedQueue(r.obj, dc);
    S.RegionsAccountedQueue(r.reg, v.regions);
    S.SettledNone(dc, finalizer);
    S.RegionsSettledNone(v);
    assert [] + r.obj.expired == r.obj.expired && [] + r.reg.expired == r.reg.expired;
    var a := EagerObjectSteps(t, r.obj.expired, dc, finalizer);
    EagerObjects(s, t, r, dc, [], dc, v.regions, finalizer, dc');
    EagerRegions(Exec(s, a), t, NoObjectsQueued(r), v, [], dc', v, v');
    RunConcat(s, a, EagerRegionSteps(t, r.reg.expired));
    EagerObjectsOwn(t, r.obj.expired, dc, finalizer);
    EagerRegionsOwn(t, r.reg.expired);
    OwnConcat(a, EagerRegionSteps(t, r.reg.expired), t);
  }

  lemma {:induction false} EagerObjectsOwn(t: nat, q: seq<Ptr>, dc: map<Ptr, nat>, finalizer: Ptr -> int)
    ensures OwnSteps(EagerObjectSteps(t, q, dc, finalizer), t)
    decreases |q|
  {
    if q != [] {
      EagerObjectsOwn(t, q[1..], PoppedDc(dc, q, finalizer), finalizer);
      var rest := EagerObjectSteps(t, q[1..], PoppedDc(dc, q, finalizer), finalizer);
      OwnConcat(ObjectSteps(t, q, dc, finalizer), rest, t);
    }
  }

  lemma {:induction false} EagerRegionsOwn(t: nat, q: seq<Ptr>)
    ensures OwnSteps(EagerRegionSteps(t, q), t)
  {
    if q != [] { EagerRegionsOwn(t, q[1..]); }
  }

  // ---------------------------------------------------------------- objects

  /** Allocating an object and freeing one, which succeeds exactly at counter zero. */
  lemma MallocAndFreePerform(s: State, t: nat, r: Root<Ptr>, dc: map<Ptr, nat>, regions: seq<R.Region>, p: Ptr)
    requires Stands(s, t, r, dc, regions)
    ensures Object(p) !in s.heap ==> Performs(s, Call(t, [Malloc(p)], r, dc[p := 0], regions))
    ensures p in dc ==>
      Performs(s, Call(t, [Step.Free(p)], r, if dc[p] == 0 then dc - {p} else dc, regions))
  {
    hide Inv, RootOk;
    if Object(p) !in s.heap { OneStep(s, Malloc(p)); }
    if p in dc { OneStep(s, Step.Free(p)); }
  }
}
