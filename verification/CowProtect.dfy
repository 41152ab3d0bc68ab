/** Changing permissions does not look at who else holds a frame: when isolation survives it, and when not. */
module CowProtect {
  import opened Common
  import opened PageTable
  import opened AddressSpace
  import opened AreaSplit
  import opened AreaProtect
  import opened CowIsolation
  import opened CowRuns

  /** The effect of a successful permission change on one space of the world. */
  ghost predicate IsProtect(w: World, id: nat, s: nat, e: nat, perm: Perm, sp': Space) {
    && id in w.spaces
    && GoodAreas(sp'.areas) && Agree(sp'.areas, sp'.pt)
    && (forall v: nat :: IsChanged(PageOf(0, w.spaces[id].areas, v), PageOf(0, sp'.areas, v), v, s, e, Protect(perm)))
    && sp'.pt == Reflagged(w.spaces[id].pt, 0, w.spaces[id].areas, s, e, perm)
  }

  /** The change makes this page privately writable. */
  ghost predicate BecomesWritable(sp: Space, s: nat, e: nat, perm: Perm, v: nat) {
    s <= v < e && v in sp.pt && perm.w && Private(sp, v) && !PageCow(0, sp.areas, v)
  }

  /** No page that becomes privately writable shows a frame that something else holds. */
  ghost predicate SoleOwners(w: World, id: nat, s: nat, e: nat, perm: Perm)
    requires id in w.spaces
  {
    forall v: nat, p :: BecomesWritable(w.spaces[id], s, e, perm, v) && p != AtPage(id, v) ==>
      FrameOf(w, p) != FrameOf(w, AtPage(id, v))
  }

  lemma ProtectedFrames(w: World, id: nat, s: nat, e: nat, perm: Perm, sp': Space, o: Owner)
    requires IsProtect(w, id, s, e, perm, sp')
    ensures FrameOf(WithSpace(w, id, sp'), o) == FrameOf(w, o)
  {
  }

  lemma ProtectedWritable(w: World, id: nat, s: nat, e: nat, perm: Perm, sp': Space, v: nat)
    requires IsProtect(w, id, s, e, perm, sp')
    ensures PrivateWritable(WithSpace(w, id, sp'), AtPage(id, v))
       <==> if s <= v < e then BecomesWritable(w.spaces[id], s, e, perm, v) else PrivateWritable(w, AtPage(id, v))
  {
    hide PageOf, GoodAreas, Agree;
    assert IsChanged(PageOf(0, w.spaces[id].areas, v), PageOf(0, sp'.areas, v), v, s, e, Protect(perm));
  }

  /** A permission change keeps isolation exactly when it hands write access only to sole owners. */
  lemma ProtectIsolated(w: World, id: nat, s: nat, e: nat, perm: Perm, sp': Space)
    requires Isolated(w) && id in w.spaces && IsProtect(w, id, s, e, perm, sp')
    ensures Isolated(WithSpace(w, id, sp')) <==> SoleOwners(w, id, s, e, perm)
  {
    hide IsProtect, BecomesWritable;
    var w' := WithSpace(w, id, sp');
    forall o ensures FrameOf(w', o) == FrameOf(w, o) {
      ProtectedFrames(w, id, s, e, perm, sp', o);
    }
    if SoleOwners(w, id, s, e, perm) {
      forall o, p | PrivateWritable(w', o) && p != o ensures FrameOf(w', p) != FrameOf(w', o) {
        if o.id == id {
          ProtectedWritable(w, id, s, e, perm, sp', o.v);
        } else {
          assert PrivateWritable(w, o);
        }
      }
    }
    if Isolated(w') {
      forall v: nat, p | BecomesWritable(w.spaces[id], s, e, perm, v) && p != AtPage(id, v)
        ensures FrameOf(w, p) != FrameOf(w, AtPage(id, v))
      {
        InRange(w.spaces[id], s, e, perm, v);
        ProtectedWritable(w, id, s, e, perm, sp', v);
      }
    }
  }

  lemma InRange(sp: Space, s: nat, e: nat, perm: Perm, v: nat)
    requires BecomesWritable(sp, s, e, perm, v)
    ensures s <= v < e
  {
  }

  /** After a fork, giving write access back to a page that turned copy-on-write always breaks isolation. */
  lemma ForkThenProtect(w: World, id: nat, child: nat, s: nat, e: nat, perm: Perm, v: nat, sp': Space)
    requires Inv(w) && id in w.spaces && child !in w.spaces && v in w.spaces[id].pt && Tightens(w.spaces[id], v)
    requires !PageCow(0, w.spaces[id].areas, v) && s <= v < e && perm.w
    requires IsProtect(Forked(w, id, child), id, s, e, perm, sp')
    ensures !Isolated(WithSpace(Forked(w, id, child), id, sp'))
  {
    hide PageOf, GoodAreas, Agree, IsProtect, ForkEntry;
    var w1 := Forked(w, id, child);
    ForkKeeps(w, id, child);
    ForkedSpaces(w.spaces[id]);
    ProtectIsolated(w1, id, s, e, perm, sp');
    assert BecomesWritable(w1.spaces[id], s, e, perm, v);
    assert FrameOf(w1, AtPage(child, v)) == FrameOf(w1, AtPage(id, v));
    assert AtPage(child, v) != AtPage(id, v);
  }

  // ---- one such world ----

  function ReadWrite(): Perm {
    Perm(true, true, false, true)
  }

  function OneArea(): Area {
    Area(1, 2, Framed, ReadWrite(), false, false, None, false, None, None, 0, 1, map[1 := 7])
  }

  function OnePage(): Space {
    Space(map[1 := OneArea()], map[1 := Pte(7, PteFlags(ReadWrite(), false))])
  }

  lemma OnePageIs(v: nat)
    ensures GoodAreas(OnePage().areas)
    ensures PageOf(0, OnePage().areas, v) == if v == 1 then Some(Describe(0, OneArea(), 1)) else None
  {
    if v == 1 {
      PageAt(0, OnePage().areas, 1, 1);
    }
  }

  function OneWorld(): World {
    World(map[0 := OnePage()], map[7 := Zeroes()], map[], map[])
  }

  lemma OneWorldGood()
    ensures Inv(OneWorld())
  {
    var w := OneWorld();
    forall o ensures FrameOf(w, o) == if o == AtPage(0, 1) then Some(7) else None {
    }
    assert GoodSpace(OnePage()) by {
      forall v: nat ensures RegistryShared(OnePage(), v) {
        OnePageIs(v);
      }
      OnePageIs(1);
      assert Owns(OnePage().areas, 1, 1);
    }
  }

  lemma OneForked()
    ensures Parent(OnePage()).areas == OnePage().areas
    ensures Reflagged(Parent(OnePage()).pt, 0, OnePage().areas, 1, 2, ReadWrite()) == OnePage().pt
    ensures Tightens(OnePage(), 1) && !PageCow(0, OnePage().areas, 1)
  {
    OnePageIs(1);
  }

  lemma OneProtect(w: World)
    requires w.spaces == map[0 := Parent(OnePage()), 1 := Child(OnePage())]
    ensures IsProtect(w, 0, 1, 2, ReadWrite(), OnePage())
  {
    OneWorldGood();
    OneForked();
    assert GoodSpace(OneWorld().spaces[0]);
    forall v: nat
      ensures IsChanged(PageOf(0, OnePage().areas, v), PageOf(0, OnePage().areas, v), v, 1, 2, Protect(ReadWrite()))
    {
      OnePageIs(v);
    }
  }

  /** Fork, then make the parent's page writable again: parent and child share a frame the parent can store to. */
  lemma ProtectBreaksIsolation() returns (w: World, sp': Space)
    ensures Inv(w) && 0 in w.spaces && 1 !in w.spaces
    ensures IsProtect(Forked(w, 0, 1), 0, 1, 2, ReadWrite(), sp')
    ensures !Isolated(WithSpace(Forked(w, 0, 1), 0, sp'))
  {
    hide Inv, IsProtect, Parent, Child, PageCow, Tightens, Isolated;
    w, sp' := OneWorld(), OnePage();
    OneWorldGood();
    OneForked();
    OneProtect(Forked(w, 0, 1));
    ForkThenProtect(w, 0, 1, 1, 2, ReadWrite(), 1, sp');
  }
}
