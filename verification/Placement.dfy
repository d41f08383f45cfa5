/** Which list owns which page. `chains` gives the pages of every list in order and `place` says for
    every allocated page in which list and at which position it stands. Tying the two together says
    at once that no page is in two lists or twice in one, and that no allocated page is lost. */
module Placement {

  datatype Place<Id> = Place(id: Id, pos: nat)

  type Chains<Id, Ref> = map<Id, seq<Ref>>

  /** Page `r` stands at place `p`. */
  ghost predicate Stands<Id, Ref>(chains: Chains<Id, Ref>, r: Ref, p: Place<Id>) {
    p.id in chains && p.pos < |chains[p.id]| && chains[p.id][p.pos] == r
  }

  ghost predicate AllStand<Id, Ref>(chains: Chains<Id, Ref>, place: map<Ref, Place<Id>>) {
    forall r :: r in place ==> Stands(chains, r, place[r])
  }

  /** The pages of one list know their places. */
  ghost predicate Knows<Id, Ref>(chain: seq<Ref>, id: Id, place: map<Ref, Place<Id>>) {
    forall i :: 0 <= i < |chain| ==> chain[i] in place && place[chain[i]] == Place(id, i)
  }

  ghost predicate Consistent<Id, Ref>(chains: Chains<Id, Ref>, place: map<Ref, Place<Id>>) {
    AllStand(chains, place) && forall id :: id in chains ==> Knows(chains[id], id, place)
  }

  /** The partition a consistent placement stands for, without the witness map. */
  lemma EachPageOnce<Id, Ref>(chains: Chains<Id, Ref>, place: map<Ref, Place<Id>>)
    requires Consistent(chains, place)
    ensures forall a, i, b, j :: a in chains && b in chains && 0 <= i < |chains[a]| && 0 <= j < |chains[b]| ==>
              chains[a][i] == chains[b][j] ==> a == b && i == j
    ensures forall r :: r in place <==> exists a :: a in chains && r in chains[a]
  {
    forall a, i, b, j | a in chains && b in chains && 0 <= i < |chains[a]| && 0 <= j < |chains[b]|
      ensures chains[a][i] == chains[b][j] ==> a == b && i == j
    {
      assert Knows(chains[a], a, place) && Knows(chains[b], b, place);
    }
    forall r | r in place
      ensures exists a :: a in chains && r in chains[a]
    {
      assert Stands(chains, r, place[r]);
      assert r in chains[place[r].id];
    }
    forall r, a | a in chains && r in chains[a]
      ensures r in place
    {
      assert Knows(chains[a], a, place);
    }
  }

  /** Moves the pages of list `a` from position `k` on to the end of list `b`. */
  ghost function MoveFrom<Id, Ref>(place: map<Ref, Place<Id>>, a: Id, k: nat, b: Id, end: nat): map<Ref, Place<Id>> {
    map r | r in place ::
      if place[r].id == a && k <= place[r].pos then Place(b, end + place[r].pos - k) else place[r]
  }

  lemma MoveFromKeeps<Id, Ref>(chains: Chains<Id, Ref>, place: map<Ref, Place<Id>>, a: Id, k: nat, b: Id)
    requires Consistent(chains, place) && a in chains && b in chains && a != b && k <= |chains[a]|
    ensures Consistent(chains[a := chains[a][..k]][b := chains[b] + chains[a][k..]],
                       MoveFrom(place, a, k, b, |chains[b]|))
  {
    var chains' := chains[a := chains[a][..k]][b := chains[b] + chains[a][k..]];
    var place' := MoveFrom(place, a, k, b, |chains[b]|);
    forall r | r in place'
      ensures Stands(chains', r, place'[r])
    {
      assert Stands(chains, r, place[r]);
    }
    forall id | id in chains'
      ensures Knows(chains'[id], id, place')
    {
      assert Knows(chains[id], id, place);
      if id == b { KnowsAfter(chains[b], chains[a][k..], b, place', place, a, k); }
    }
  }

  lemma KnowsAfter<Id, Ref>(front: seq<Ref>, back: seq<Ref>, id: Id, place': map<Ref, Place<Id>>,
                            place: map<Ref, Place<Id>>, a: Id, k: nat)
    requires Knows(front, id, place) && a != id
    requires forall i :: 0 <= i < |back| ==> back[i] in place && place[back[i]] == Place(a, k + i)
    requires place' == MoveFrom(place, a, k, id, |front|)
    ensures Knows(front + back, id, place')
  {
    forall i | 0 <= i < |front + back|
      ensures (front + back)[i] in place' && place'[(front + back)[i]] == Place(id, i)
    {
      if i < |front| { assert (front + back)[i] == front[i]; } else { assert (front + back)[i] == back[i - |front|]; }
    }
  }

  /** All pages of list `a` go to the end of list `b`. */
  lemma MoveAllKeeps<Id, Ref>(chains: Chains<Id, Ref>, place: map<Ref, Place<Id>>, a: Id, b: Id)
    requires Consistent(chains, place) && a in chains && b in chains && a != b
    ensures Consistent(chains[a := []][b := chains[b] + chains[a]], MoveFrom(place, a, 0, b, |chains[b]|))
  {
    MoveFromKeeps(chains, place, a, 0, b);
    assert chains[a][..0] == [] && chains[a][0..] == chains[a];
  }

  /** The first page of list `a` is taken out. */
  ghost function DropHead<Id, Ref>(place: map<Ref, Place<Id>>, a: Id): map<Ref, Place<Id>> {
    map r | r in place && place[r] != Place(a, 0) ::
      if place[r].id == a && place[r].pos > 0 then Place(a, place[r].pos - 1) else place[r]
  }

  lemma DropHeadKeeps<Id, Ref>(chains: Chains<Id, Ref>, place: map<Ref, Place<Id>>, a: Id)
    requires Consistent(chains, place) && a in chains && |chains[a]| > 0
    ensures Consistent(chains[a := chains[a][1..]], DropHead(place, a))
    ensures DropHead(place, a).Keys == place.Keys - {chains[a][0]}
  {
    var chains', place' := chains[a := chains[a][1..]], DropHead(place, a);
    DropHeadKeys(chains, place, a);
    forall r | r in place'
      ensures Stands(chains', r, place'[r])
    {
      assert Stands(chains, r, place[r]);
    }
    forall id | id in chains'
      ensures Knows(chains'[id], id, place')
    {
      assert Knows(chains[id], id, place);
      if id == a { DropHeadKnows(chains[a], a, place); } else { DropHeadElsewhere(chains[id], id, a, place); }
    }
  }

  lemma DropHeadKeys<Id, Ref>(chains: Chains<Id, Ref>, place: map<Ref, Place<Id>>, a: Id)
    requires Consistent(chains, place) && a in chains && |chains[a]| > 0
    ensures DropHead(place, a).Keys == place.Keys - {chains[a][0]}
  {
    assert Knows(chains[a], a, place);
    forall r | r in place
      ensures r in DropHead(place, a) <==> r != chains[a][0]
    {
      assert Stands(chains, r, place[r]);
    }
  }

  lemma DropHeadKnows<Id, Ref>(chain: seq<Ref>, a: Id, place: map<Ref, Place<Id>>)
    requires Knows(chain, a, place) && chain != []
    ensures Knows(chain[1..], a, DropHead(place, a))
  {
    var place' := DropHead(place, a);
    forall i | 0 <= i < |chain[1..]|
      ensures chain[1..][i] in place' && place'[chain[1..][i]] == Place(a, i)
    {
      assert chain[1..][i] == chain[i + 1];
    }
  }

  lemma DropHeadElsewhere<Id, Ref>(chain: seq<Ref>, id: Id, a: Id, place: map<Ref, Place<Id>>)
    requires Knows(chain, id, place) && id != a
    ensures Knows(chain, id, DropHead(place, a))
  {
  }

  /** A page that is in no list enters at the end of list `b`. */
  lemma AddKeeps<Id, Ref>(chains: Chains<Id, Ref>, place: map<Ref, Place<Id>>, b: Id, r: Ref)
    requires Consistent(chains, place) && b in chains && r !in place
    ensures Consistent(chains[b := chains[b] + [r]], place[r := Place(b, |chains[b]|)])
  {
    var chains', place' := chains[b := chains[b] + [r]], place[r := Place(b, |chains[b]|)];
    forall q | q in place'
      ensures Stands(chains', q, place'[q])
    {
      if q != r { assert Stands(chains, q, place[q]); }
    }
    forall id | id in chains'
      ensures Knows(chains'[id], id, place')
    {
      assert Knows(chains[id], id, place);
    }
  }

  /** Puts all pages of list `a` before those of list `b`. */
  ghost function Prepend<Id, Ref>(place: map<Ref, Place<Id>>, a: Id, b: Id, length: nat): map<Ref, Place<Id>> {
    map r | r in place ::
      if place[r].id == a then Place(b, place[r].pos)
      else if place[r].id == b then Place(b, length + place[r].pos)
      else place[r]
  }

  lemma PrependKeeps<Id, Ref>(chains: Chains<Id, Ref>, place: map<Ref, Place<Id>>, a: Id, b: Id)
    requires Consistent(chains, place) && a in chains && b in chains && a != b
    ensures Consistent(chains[a := []][b := chains[a] + chains[b]], Prepend(place, a, b, |chains[a]|))
  {
    var chains', place' := chains[a := []][b := chains[a] + chains[b]], Prepend(place, a, b, |chains[a]|);
    assert Knows(chains[a], a, place) && Knows(chains[b], b, place);
    forall r | r in place'
      ensures Stands(chains', r, place'[r])
    {
      assert Stands(chains, r, place[r]);
    }
    forall i | 0 <= i < |chains'[b]|
      ensures chains'[b][i] in place' && place'[chains'[b][i]] == Place(b, i)
    {
      if i < |chains[a]| { assert chains'[b][i] == chains[a][i]; }
      else { assert chains'[b][i] == chains[b][i - |chains[a]|]; }
    }
    forall id | id in chains' && id != a && id != b
      ensures Knows(chains'[id], id, place')
    {
      assert Knows(chains[id], id, place);
    }
  }
}
