/** The operations on rings, banks and roots do not look at what a descriptor names: renaming the
    descriptors of a root and operating on it commute. */
module Renaming {
  import opened Config
  import opened Rings
  import opened Roots
  import opened Sums
  import opened Holdings

  function MapSeq<A, B>(f: A -> B, s: seq<A>): (r: seq<B>)
    ensures |r| == |s|
  {
    seq(|s|, i requires 0 <= i < |s| => f(s[i]))
  }

  function MapSlots<A, B>(f: A -> B, slots: seq<seq<A>>): (r: seq<seq<B>>)
    ensures |r| == |slots|
  {
    seq(|slots|, i requires 0 <= i < |slots| => MapSeq(f, slots[i]))
  }

  function MapRing<A, B>(f: A -> B, r: Ring<A>): Ring<B> { Ring(MapSlots(f, r.slots), r.cur) }

  function MapRings<A, B>(f: A -> B, rings: seq<Ring<A>>): (r: seq<Ring<B>>)
    ensures |r| == |rings|
  {
    seq(|rings|, i requires 0 <= i < |rings| => MapRing(f, rings[i]))
  }

  function MapBank<A, B>(f: A -> B, b: Bank<A>): Bank<B> { Bank(MapRings(f, b.rings), MapSeq(f, b.expired)) }

  /** Object descriptors are renamed by `f`, region descriptors by `g`. */
  function MapRoot<A, B>(f: A -> B, g: A -> B, r: Root<A>): Root<B> {
    Root(MapBank(f, r.obj), MapBank(g, r.reg), r.age, r.currentTime, r.roundRobin, r.nextClock)
  }

  lemma MapAppend<A, B>(f: A -> B, s: seq<A>, t: seq<A>)
    ensures MapSeq(f, s + t) == MapSeq(f, s) + MapSeq(f, t)
  {
  }

  lemma MapDrop<A, B>(f: A -> B, b: Bank<A>, n: nat)
    ensures MapBank(f, Drop(b, n)) == Drop(MapBank(f, b), n)
  {
    if n <= |b.expired| { assert MapSeq(f, b.expired[n..]) == MapSeq(f, b.expired)[n..]; }
  }

  lemma MapInsert<A, B>(f: A -> B, r: Ring<A>, x: A, e: nat)
    requires Used(r)
    ensures Used(MapRing(f, r)) && MapRing(f, Insert(r, x, e)) == Insert(MapRing(f, r), f(x), e)
  {
    hide Wrap;
    var i := Wrap(r.cur + e, |r.slots|);
    MapAppend(f, r.slots[i], [x]);
    assert MapSeq(f, [x]) == [f(x)];
    assert MapSlots(f, r.slots[i := r.slots[i] + [x]]) == MapSlots(f, r.slots)[i := MapSeq(f, r.slots[i] + [x])];
  }

  lemma MapAdvance<A, B>(f: A -> B, r: Ring<A>)
    requires Used(r)
    ensures Used(MapRing(f, r)) && MapRing(f, Advance(r)) == Advance(MapRing(f, r))
    ensures MapSeq(f, Released(r)) == Released(MapRing(f, r))
  {
    hide Wrap;
    assert MapSeq(f, []) == [];
    assert MapSlots(f, r.slots[r.cur := []]) == MapSlots(f, r.slots)[r.cur := []];
  }

  lemma MapInsertBank<A, B>(f: A -> B, b: Bank<A>, c: nat, x: A, e: nat)
    requires c < |b.rings| && Used(b.rings[c])
    ensures Used(MapBank(f, b).rings[c]) && MapBank(f, InsertBank(b, c, x, e)) == InsertBank(MapBank(f, b), c, f(x), e)
  {
    hide Insert;
    MapInsert(f, b.rings[c], x, e);
    var ring := Insert(b.rings[c], x, e);
    assert MapRings(f, b.rings[c := ring]) == MapRings(f, b.rings)[c := MapRing(f, ring)];
  }

  lemma MapAdvanceBank<A, B>(f: A -> B, b: Bank<A>, c: nat)
    requires c < |b.rings| && Used(b.rings[c])
    ensures Used(MapBank(f, b).rings[c]) && MapBank(f, AdvanceBank(b, c)) == AdvanceBank(MapBank(f, b), c)
  {
    hide Advance, Released;
    MapAdvance(f, b.rings[c]);
    MapAppend(f, b.expired, Released(b.rings[c]));
    assert MapRings(f, b.rings[c := Advance(b.rings[c])]) == MapRings(f, b.rings)[c := MapRing(f, Advance(b.rings[c]))];
  }

  lemma MapOk<A, B>(f: A -> B, g: A -> B, r: Root<A>)
    requires RootOk(r)
    ensures RootOk(MapRoot(f, g, r))
    ensures forall c :: 0 <= c <= GLOBAL ==> Used(MapRoot(f, g, r).obj.rings[c]) == Used(r.obj.rings[c])
    ensures forall c :: 0 <= c < MAX_CLOCKS ==> IsZombie(MapRoot(f, g, r), c) == IsZombie(r, c)
  {
  }

  lemma MapIncrement<A, B>(f: A -> B, g: A -> B, r: Root<A>, c: nat)
    requires CanAdvance(r, c)
    ensures CanAdvance(MapRoot(f, g, r), c)
    ensures MapRoot(f, g, IncrementAndExpire(r, c)) == IncrementAndExpire(MapRoot(f, g, r), c)
  {
    hide AdvanceBank, MapBank;
    MapShape(f, g, r);
    MapAdvanceBank(f, r.obj, c);
    MapAdvanceBank(g, r.reg, c);
  }

  lemma MapShape<A, B>(f: A -> B, g: A -> B, r: Root<A>)
    ensures |MapBank(f, r.obj).rings| == |r.obj.rings| && |MapBank(g, r.reg).rings| == |r.reg.rings|
  {
  }

  lemma MapClean<A, B>(f: A -> B, g: A -> B, r: Root<A>, i: nat)
    requires RootOk(r) && MAX_CLOCKS > 1 && i < MAX_CLOCKS
    ensures RootOk(MapRoot(f, g, r)) && MapRoot(f, g, CleanZombie(r, i)) == CleanZombie(MapRoot(f, g, r), i)
  {
    hide MapBank, AdvanceBank;
    MapOk(f, g, r);
    if IsZombie(r, i) { MapIncrement(f, g, r, i); }
  }

  lemma MapTick<A, B>(f: A -> B, g: A -> B, r: Root<A>, c: nat)
    requires RootOk(r) && c < MAX_CLOCKS && Used(r.obj.rings[c])
    ensures RootOk(MapRoot(f, g, r)) && Used(MapRoot(f, g, r).obj.rings[c])
    ensures MapRoot(f, g, TickClock(r, c)) == TickClock(MapRoot(f, g, r), c)
  {
    hide CleanZombie, IncrementAndExpire, RootOk;
    MapOk(f, g, r);
    AdvanceKeepsOk(r, c);
    AdvanceKeepsOk(MapRoot(f, g, r), c);
    MapIncrement(f, g, r, c);
    if MAX_CLOCKS > 1 {
      CandidateBound(r, c);
      MapClean(f, g, IncrementAndExpire(r, c), Candidate(r, c));
    }
  }

  lemma CandidateBound<A>(r: Root<A>, c: nat)
    requires RootOk(r) && MAX_CLOCKS > 1 && c < MAX_CLOCKS
    ensures Candidate(r, c) < MAX_CLOCKS
  {
  }

  lemma MapActivate<A, B>(f: A -> B, b: Bank<A>, i: nat)
    requires i < |b.rings|
    ensures MapBank(f, b.(rings := b.rings[i := Activate(b.rings[i])])) ==
            MapBank(f, b).(rings := MapBank(f, b).rings[i := Activate(MapBank(f, b).rings[i])])
  {
    assert MapSlots(f, Empty<A>(LOCAL_SLOTS).slots) == Empty<B>(LOCAL_SLOTS).slots;
    var ring := Activate(b.rings[i]);
    assert MapRings(f, b.rings[i := ring]) == MapRings(f, b.rings)[i := MapRing(f, ring)];
  }

  /** Registering, unregistering and passing on a root commute with renaming, too. */
  lemma MapRegistration<A, B>(f: A -> B, g: A -> B, r: Root<A>, i: nat, c: int)
    requires RootOk(r)
    ensures RootOk(MapRoot(f, g, r))
    ensures 1 <= i < MAX_CLOCKS ==> MapRoot(f, g, RegisterClockAt(r, i)) == RegisterClockAt(MapRoot(f, g, r), i)
    ensures MapRoot(f, g, UnregisterClock(r, c)) == UnregisterClock(MapRoot(f, g, r), c)
    ensures MapRoot(f, g, Reuse(r)) == Reuse(MapRoot(f, g, r))
  {
    hide MapBank, Activate;
    MapOk(f, g, r);
    if 1 <= i < MAX_CLOCKS {
      MapShape(f, g, r);
      MapActivate(f, r.obj, i);
      MapActivate(g, r.reg, i);
    }
  }

  // ---------------------------------------------------------------- what names what

  ghost predicate Injective<A(!new), B>(f: A -> B) {
    forall a, b :: f(a) == f(b) ==> a == b
  }

  lemma {:induction false} MapNaming<A(!new), B>(f: A -> B, s: seq<A>, x: A)
    requires Injective(f)
    ensures Naming(f(x))(MapSeq(f, s)) == Naming(x)(s)
  {
    if s != [] {
      var n := |s| - 1;
      var rest := s[..n];
      MapNaming(f, rest, x);
      assert s == rest + [s[n]];
      MapAppend(f, rest, [s[n]]);
      assert MapSeq(f, [s[n]]) == [f(s[n])];
      assert multiset(s) == multiset(rest) + multiset([s[n]]);
      assert multiset(MapSeq(f, s)) == multiset(MapSeq(f, rest)) + multiset([f(s[n])]);
    }
  }

  /** As many descriptors name `f(x)` after an injective renaming as named `x` before. */
  lemma MapHeld<A(!new), B>(f: A -> B, b: Bank<A>, x: A)
    requires Injective(f)
    ensures Held(MapBank(f, b), Naming(f(x))) == Held(b, Naming(x))
  {
    MapNaming(f, b.expired, x);
    forall c | 0 <= c < |b.rings|
      ensures OfRing(Naming(x))(b.rings[c]) == OfRing(Naming(f(x)))(MapRings(f, b.rings)[c])
    {
      MapRingNaming(f, b.rings[c], x);
    }
    SumPointwise(b.rings, OfRing(Naming(x)), MapRings(f, b.rings), OfRing(Naming(f(x))));
  }

  lemma MapRingNaming<A(!new), B>(f: A -> B, r: Ring<A>, x: A)
    requires Injective(f)
    ensures OfRing(Naming(f(x)))(MapRing(f, r)) == OfRing(Naming(x))(r)
  {
    forall i | 0 <= i < |r.slots|
      ensures Naming(x)(r.slots[i]) == Naming(f(x))(MapSlots(f, r.slots)[i])
    {
      MapNaming(f, r.slots[i], x);
    }
    SumPointwise(r.slots, Naming(x), MapSlots(f, r.slots), Naming(f(x)));
  }

  /** What `f` never names is named by none of the renamed descriptors. */
  lemma MapMisses<A(!new), B>(f: A -> B, b: Bank<A>, x: B)
    requires forall a :: f(a) != x
    ensures Held(MapBank(f, b), Naming(x)) == 0
  {
    forall s: seq<A> ensures Naming(x)(MapSeq(f, s)) == 0 { NotNamed(f, s, x); }
    if Unexpired(MapBank(f, b), Naming(x)) > 0 {
      var c := SumWitness(MapRings(f, b.rings), OfRing(Naming(x)));
      var i := SumWitness(MapSlots(f, b.rings[c].slots), Naming(x));
    }
  }

  lemma NotNamed<A(!new), B>(f: A -> B, s: seq<A>, x: B)
    requires forall a :: f(a) != x
    ensures Naming(x)(MapSeq(f, s)) == 0
  {
    assert x !in MapSeq(f, s);
  }
}
