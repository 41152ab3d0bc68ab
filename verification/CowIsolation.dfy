/** Copy-on-write isolation: what every operation on address spaces keeps about who can reach which frame. */
module CowIsolation {
  import opened Common
  import opened PageTable
  import opened AddressSpace
  import opened AreaSplit
  import opened AreaProtect

  type Bytes = seq<bv8>

  datatype Space = Space(areas: Areas, pt: Entries)

  /** All address spaces, the page contents, the page cache and the frames of shared anonymous mappings. */
  datatype World = World(
    spaces: map<nat, Space>,
    mem: map<nat, Bytes>,
    cache: map<(nat, nat), nat>,
    registries: map<(nat, nat), nat>)

  /** Everything that can hold on to a frame. */
  datatype Owner = AtPage(id: nat, v: nat) | AtCache(ino: nat, page: nat) | AtRegistry(r: nat, v: nat)

  function FrameOf(w: World, o: Owner): Option<nat> {
    match o
    case AtPage(id, v) => if id in w.spaces && v in w.spaces[id].pt then Some(w.spaces[id].pt[v].ppn) else None
    case AtCache(ino, page) => if (ino, page) in w.cache then Some(w.cache[(ino, page)]) else None
    case AtRegistry(r, v) => if (r, v) in w.registries then Some(w.registries[(r, v)]) else None
  }

  /** What an owner sees. */
  function View(w: World, o: Owner): Option<Bytes> {
    var f := FrameOf(w, o);
    if f.Some? && f.value in w.mem then Some(w.mem[f.value]) else None
  }

  ghost predicate Unused(w: World, f: nat) {
    forall o :: FrameOf(w, o) != Some(f)
  }

  ghost predicate Private(sp: Space, v: nat) {
    var p := PageOf(0, sp.areas, v);
    p.Some? && !p.value.shared
  }

  /** A page of a private mapping that user code can store to without a fault. */
  ghost predicate PrivateWritable(w: World, o: Owner) {
    && o.AtPage? && o.id in w.spaces
    && o.v in w.spaces[o.id].pt && w.spaces[o.id].pt[o.v].flags.w
    && Private(w.spaces[o.id], o.v)
  }

  /** Nobody else can reach the frame behind a private writable page. */
  ghost predicate Isolated(w: World) {
    forall o, p :: PrivateWritable(w, o) && p != o ==> FrameOf(w, p) != FrameOf(w, o)
  }

  /** Areas and entries agree, entries allow no write the area does not, and only shared areas use a registry. */
  ghost predicate GoodSpace(sp: Space) {
    && GoodAreas(sp.areas) && Agree(sp.areas, sp.pt)
    && (forall v :: v in sp.pt && sp.pt[v].flags.w ==> MayWrite(sp, v))
    && (forall v: nat :: RegistryShared(sp, v))
  }

  ghost predicate RegistryShared(sp: Space, v: nat) {
    var p := PageOf(0, sp.areas, v);
    p.Some? && p.value.registry.Some? ==> p.value.shared
  }

  ghost predicate MayWrite(sp: Space, v: nat) {
    var p := PageOf(0, sp.areas, v);
    p.Some? && p.value.perm.w
  }

  ghost predicate Inv(w: World) {
    GoodSpaces(w) && Isolated(w) && Loaded(w)
  }

  ghost predicate GoodSpaces(w: World) {
    forall id :: id in w.spaces ==> GoodSpace(w.spaces[id])
  }

  ghost predicate Loaded(w: World) {
    forall o :: FrameOf(w, o).Some? ==> FrameOf(w, o).value in w.mem
  }

  // ---- one argument for every step ----

  ghost predicate NewFrame(w: World, w': World, o: Owner) {
    forall p :: FrameOf(w, p) != FrameOf(w', o)
  }

  /** The frame of `o` is new, or some owner had it before: `o` itself, or a page nobody can now write privately. */
  ghost predicate Inherited(w: World, w': World, o: Owner) {
    NewFrame(w, w', o) || exists p :: FrameOf(w, p) == FrameOf(w', o) && (p == o || !PrivateWritable(w', p))
  }

  /** A private writable page was one before with the same frame, or its frame is new and only its own. */
  ghost predicate Earned(w: World, w': World, o: Owner) {
    || (PrivateWritable(w, o) && FrameOf(w', o) == FrameOf(w, o))
    || (NewFrame(w, w', o) && forall p :: p != o ==> FrameOf(w', p) != FrameOf(w', o))
  }

  lemma IsolatedStep(w: World, w': World)
    requires Isolated(w)
    requires forall o :: FrameOf(w', o).Some? ==> Inherited(w, w', o)
    requires forall o :: PrivateWritable(w', o) ==> Earned(w, w', o)
    ensures Isolated(w')
  {
    forall o, p | PrivateWritable(w', o) && p != o ensures FrameOf(w', p) != FrameOf(w', o) {
      assert Earned(w, w', o);
      if PrivateWritable(w, o) && FrameOf(w', o) == FrameOf(w, o) {
        assert forall q :: q != o ==> FrameOf(w, q) != FrameOf(w', o);
        assert FrameOf(w', p).Some? ==> Inherited(w, w', p);
      }
    }
  }

  // ---- stores ----

  predicate CanStore(w: World, id: nat, v: nat) {
    id in w.spaces && v in w.spaces[id].pt && w.spaces[id].pt[v].flags.w && w.spaces[id].pt[v].flags.u
  }

  function Store(w: World, id: nat, v: nat, data: Bytes): World {
    if CanStore(w, id, v) then w.(mem := w.mem[w.spaces[id].pt[v].ppn := data]) else w
  }

  lemma StoreKeeps(w: World, id: nat, v: nat, data: Bytes)
    requires Inv(w)
    ensures Inv(Store(w, id, v, data))
  {
    hide Private, GoodSpace;
    var w' := Store(w, id, v, data);
    forall o ensures FrameOf(w', o) == FrameOf(w, o) && (PrivateWritable(w', o) <==> PrivateWritable(w, o)) {
    }
    assert Isolated(w');
    assert Loaded(w');
  }

  /** A store through a private mapping is seen by that page alone. */
  lemma StoreIsPrivate(w: World, id: nat, v: nat, data: Bytes, o: Owner)
    requires Inv(w) && CanStore(w, id, v) && Private(w.spaces[id], v)
    ensures View(Store(w, id, v, data), o) == if o == AtPage(id, v) then Some(data) else View(w, o)
  {
    hide Private, GoodSpaces, Loaded;
    var here := AtPage(id, v);
    assert PrivateWritable(w, here);
    if o != here {
      assert FrameOf(w, o) != FrameOf(w, here);
    }
  }

  // ---- steps that only give pages up or reserve addresses ----

  function WithSpace(w: World, id: nat, sp: Space): World {
    w.(spaces := w.spaces[id := sp])
  }

  /** Every entry of `sp'` is an entry of `sp` for a page with the same attributes. */
  ghost predicate Restricts(sp: Space, sp': Space) {
    && (forall v :: v in sp'.pt ==> v in sp.pt && sp'.pt[v] == sp.pt[v])
    && (forall v :: v in sp'.pt ==> PageOf(0, sp'.areas, v) == PageOf(0, sp.areas, v))
  }

  lemma RestrictKeeps(w: World, id: nat, sp': Space)
    requires Inv(w) && id in w.spaces && GoodSpace(sp') && Restricts(w.spaces[id], sp')
    ensures Inv(WithSpace(w, id, sp'))
    ensures forall o :: View(WithSpace(w, id, sp'), o).Some? ==> View(WithSpace(w, id, sp'), o) == View(w, o)
  {
    hide PageOf, GoodSpace;
    var w' := WithSpace(w, id, sp');
    forall o ensures FrameOf(w', o).Some? ==> FrameOf(w', o) == FrameOf(w, o) {
    }
    forall o | PrivateWritable(w', o) ensures PrivateWritable(w, o) {
    }
    IsolatedStep(w, w');
  }

  // ---- steps that give a page a frame ----

  function Installed(sp: Space, k: nat, v: nat, f: nat, flags: Flags): Space
    requires k in sp.areas
  {
    Space(sp.areas[k := sp.areas[k].(frames := sp.areas[k].frames[v := f])], sp.pt[v := Pte(f, flags)])
  }

  lemma InstalledAreas(areas: Areas, k: nat, v: nat, f: nat)
    requires GoodAreas(areas) && Covers(areas, k, v) && areas[k].kind != Guard
    ensures GoodAreas(areas[k := areas[k].(frames := areas[k].frames[v := f])])
  {
  }

  lemma DescribeInstalled(mm: nat, a: Area, v: nat, f: nat, u: nat)
    requires In(a, u)
    ensures Describe(mm, a.(frames := a.frames[v := f]), u)
         == if u == v then Describe(mm, a, u).(frame := Some(f)) else Describe(mm, a, u)
  {
  }

  lemma InstalledPages(mm: nat, sp: Space, k: nat, v: nat, f: nat, flags: Flags, u: nat)
    requires GoodAreas(sp.areas) && Covers(sp.areas, k, v) && sp.areas[k].kind != Guard
    ensures GoodAreas(Installed(sp, k, v, f, flags).areas)
    ensures var p := PageOf(mm, sp.areas, u);
      PageOf(mm, Installed(sp, k, v, f, flags).areas, u)
        == if u == v && p.Some? then Some(p.value.(frame := Some(f))) else p
    ensures PageOf(mm, sp.areas, v) == Some(Describe(mm, sp.areas[k], v))
  {
    hide GoodArea, Describe;
    var areas' := Installed(sp, k, v, f, flags).areas;
    InstalledAreas(sp.areas, k, v, f);
    PageAt(mm, sp.areas, k, v);
    if j :| Covers(sp.areas, j, u) {
      PageAt(mm, sp.areas, j, u);
      PageAt(mm, areas', j, u);
      if j == k {
        DescribeInstalled(mm, sp.areas[k], v, f, u);
      } else if u == v {
        CoverUnique(sp.areas, j, k, u);
      }
    } else {
      forall j: nat ensures !Covers(areas', j, u) {
        assert !Covers(sp.areas, j, u);
      }
    }
  }

  lemma InstalledGood(sp: Space, k: nat, v: nat, f: nat, flags: Flags)
    requires GoodSpace(sp) && Covers(sp.areas, k, v) && sp.areas[k].kind != Guard
    requires flags.v && (flags.w ==> sp.areas[k].perm.w)
    ensures GoodSpace(Installed(sp, k, v, f, flags))
  {
    hide PageOf, Agree, GoodAreas;
    var sp' := Installed(sp, k, v, f, flags);
    InstalledPages(0, sp, k, v, f, flags, v);
    AgreePages(0, sp.areas, sp.pt);
    AgreePages(0, sp'.areas, sp'.pt);
    forall u: nat ensures (u in sp'.pt <==> Resident(0, sp'.areas, u)) &&
      (u in sp'.pt ==> sp'.pt[u].flags.v && PageOf(0, sp'.areas, u).value.frame == Some(sp'.pt[u].ppn))
    {
      InstalledPages(0, sp, k, v, f, flags, u);
      assert u in sp.pt <==> Resident(0, sp.areas, u);
    }
    forall u | u in sp'.pt && sp'.pt[u].flags.w ensures MayWrite(sp', u) {
      InstalledPages(0, sp, k, v, f, flags, u);
      assert u != v ==> MayWrite(sp, u);
    }
    forall u: nat ensures RegistryShared(sp', u) {
      InstalledPages(0, sp, k, v, f, flags, u);
      assert RegistryShared(sp, u);
    }
  }

  lemma InstalledPage(sp: Space, k: nat, v: nat, f: nat, flags: Flags, u: nat)
    requires GoodSpace(sp) && Covers(sp.areas, k, v) && sp.areas[k].kind != Guard
    ensures Private(Installed(sp, k, v, f, flags), u) <==> Private(sp, u)
    ensures Private(sp, v) <==> !sp.areas[k].shared
  {
    hide PageOf;
    InstalledPages(0, sp, k, v, f, flags, u);
  }

  /** A page gets a frame of its own: first touch of private memory, and the copy of a copy-on-write fault. */
  lemma OwnFrameKeeps(w: World, id: nat, k: nat, v: nat, f: nat, flags: Flags, data: Bytes)
    requires Inv(w) && id in w.spaces && Covers(w.spaces[id].areas, k, v) && w.spaces[id].areas[k].kind != Guard
    requires flags.v && (flags.w ==> w.spaces[id].areas[k].perm.w) && Unused(w, f)
    ensures var w' := WithSpace(w, id, Installed(w.spaces[id], k, v, f, flags)).(mem := w.mem[f := data]);
      Inv(w') && forall o :: View(w', o) == if o == AtPage(id, v) then Some(data) else View(w, o)
  {
    hide Private, GoodSpace;
    var sp, sp' := w.spaces[id], Installed(w.spaces[id], k, v, f, flags);
    var w' := WithSpace(w, id, sp').(mem := w.mem[f := data]);
    InstalledGood(sp, k, v, f, flags);
    forall o ensures FrameOf(w', o) == if o == AtPage(id, v) then Some(f) else FrameOf(w, o) {
    }
    forall o | PrivateWritable(w', o) ensures Earned(w, w', o) {
      if o != AtPage(id, v) && o.id == id {
        InstalledPage(sp, k, v, f, flags, o.v);
      }
    }
    IsolatedStep(w, w');
  }

  /** A page shows a frame the page cache or a registry holds: only for shared mappings, or read-only. */
  lemma BorrowKeeps(w: World, id: nat, k: nat, v: nat, lender: Owner, flags: Flags)
    requires Inv(w) && id in w.spaces && Covers(w.spaces[id].areas, k, v) && w.spaces[id].areas[k].kind != Guard
    requires v !in w.spaces[id].pt && !lender.AtPage? && FrameOf(w, lender).Some?
    requires flags.v && (flags.w ==> w.spaces[id].areas[k].perm.w && w.spaces[id].areas[k].shared)
    ensures var w' := WithSpace(w, id, Installed(w.spaces[id], k, v, FrameOf(w, lender).value, flags));
      Inv(w') && forall o :: View(w', o) == if o == AtPage(id, v) then View(w, lender) else View(w, o)
  {
    hide Private, GoodSpace;
    var f := FrameOf(w, lender).value;
    var sp, sp' := w.spaces[id], Installed(w.spaces[id], k, v, f, flags);
    var w' := WithSpace(w, id, sp');
    InstalledGood(sp, k, v, f, flags);
    InstalledPage(sp, k, v, f, flags, v);
    forall o ensures FrameOf(w', o) == if o == AtPage(id, v) then Some(f) else FrameOf(w, o) {
    }
    forall o | PrivateWritable(w', o) ensures Earned(w, w', o) {
      if o.id == id {
        InstalledPage(sp, k, v, f, flags, o.v);
      }
    }
    assert Inherited(w, w', AtPage(id, v));
    IsolatedStep(w, w');
  }

  /** The page cache or a registry takes in a new frame. */
  lemma LenderKeeps(w: World, w': World, lender: Owner, f: nat, data: Bytes)
    requires Inv(w) && Unused(w, f) && FrameOf(w, lender).None? && !lender.AtPage?
    requires w' == WithLender(w, lender, f).(mem := w.mem[f := data])
    ensures Inv(w') && forall o :: View(w', o) == if o == lender then Some(data) else View(w, o)
  {
    hide Private, GoodSpace;
    forall o ensures FrameOf(w', o) == if o == lender then Some(f) else FrameOf(w, o) {
    }
    IsolatedStep(w, w');
  }

  function WithLender(w: World, lender: Owner, f: nat): World
    requires !lender.AtPage?
  {
    match lender
    case AtCache(ino, page) => w.(cache := w.cache[(ino, page) := f])
    case AtRegistry(r, v) => w.(registries := w.registries[(r, v) := f])
  }

  // ---- fork ----

  /** A page that both sides may write privately, and so neither may write after the fork. */
  predicate TurnsCow(p: Page) {
    p.perm.w && !p.shared
  }

  ghost function ForkEntry(sp: Space, v: nat): Pte
    requires v in sp.pt
  {
    var p := PageOf(0, sp.areas, v);
    if p.Some? then Pte(sp.pt[v].ppn, PteFlags(p.value.perm, TurnsCow(p.value))) else sp.pt[v]
  }

  /** The child has the same areas and frames, with read-only entries where a private page could be written. */
  ghost function Child(sp: Space): Space {
    Space(sp.areas, map v | v in sp.pt :: ForkEntry(sp, v))
  }

  ghost predicate Tightens(sp: Space, v: nat) {
    var p := PageOf(0, sp.areas, v);
    p.Some? && TurnsCow(p.value)
  }

  /** The parent loses write access to the same pages. */
  ghost function Parent(sp: Space): Space {
    Space(sp.areas, map v | v in sp.pt :: if Tightens(sp, v) then ForkEntry(sp, v) else sp.pt[v])
  }

  ghost function Forked(w: World, id: nat, child: nat): World
    requires id in w.spaces
  {
    w.(spaces := w.spaces[id := Parent(w.spaces[id])][child := Child(w.spaces[id])])
  }

  /** New flags for the same frames, within what the areas allow, keep a space good. */
  lemma ReentryGood(sp: Space, sp': Space)
    requires GoodSpace(sp) && sp'.areas == sp.areas && sp'.pt.Keys == sp.pt.Keys
    requires forall v :: v in sp.pt ==> sp'.pt[v].ppn == sp.pt[v].ppn && sp'.pt[v].flags.v
    requires forall v :: v in sp.pt && sp'.pt[v].flags.w ==> MayWrite(sp, v)
    ensures GoodSpace(sp')
  {
    hide PageOf, GoodAreas;
    forall v | v in sp'.pt ensures exists k :: Owns(sp'.areas, k, v) {
      assert v in sp.pt;
    }
    forall k, v | Owns(sp'.areas, k, v)
      ensures v in sp'.pt && sp'.pt[v].ppn == sp'.areas[k].frames[v] && sp'.pt[v].flags.v
    {
      assert v in sp.pt;
    }
    forall v | v in sp'.pt && sp'.pt[v].flags.w ensures MayWrite(sp', v) {
      assert MayWrite(sp, v);
    }
    forall v: nat ensures RegistryShared(sp', v) {
      assert RegistryShared(sp, v);
    }
  }

  /** Every page has an area; entries with write access need its permission. */
  lemma EntryPage(sp: Space, v: nat)
    requires GoodSpace(sp) && v in sp.pt
    ensures PageOf(0, sp.areas, v).Some?
    ensures sp.pt[v].flags.v && (sp.pt[v].flags.w ==> MayWrite(sp, v))
  {
    var k: nat :| Owns(sp.areas, k, v);
    PageAt(0, sp.areas, k, v);
  }

  lemma ForkedSpaces(sp: Space)
    requires GoodSpace(sp)
    ensures GoodSpace(Parent(sp)) && GoodSpace(Child(sp))
    ensures forall v :: v in sp.pt ==> Parent(sp).pt[v].ppn == sp.pt[v].ppn && Child(sp).pt[v].ppn == sp.pt[v].ppn
    ensures forall v :: v in sp.pt && Parent(sp).pt[v].flags.w ==> !Private(Parent(sp), v)
    ensures forall v :: v in sp.pt && Child(sp).pt[v].flags.w ==> !Private(Child(sp), v)
  {
    hide PageOf, GoodSpace;
    forall v | v in sp.pt ensures
      && Child(sp).pt[v].flags.v && (Child(sp).pt[v].flags.w ==> MayWrite(sp, v) && !Private(sp, v))
      && Parent(sp).pt[v].flags.v && (Parent(sp).pt[v].flags.w ==> MayWrite(sp, v) && !Private(sp, v))
    {
      EntryPage(sp, v);
    }
    ReentryGood(sp, Parent(sp));
    ReentryGood(sp, Child(sp));
  }

  /** After a fork both sides see what the parent saw, and no private page of either can be written without a fault. */
  lemma ForkKeeps(w: World, id: nat, child: nat)
    requires Inv(w) && id in w.spaces && child !in w.spaces
    ensures Inv(Forked(w, id, child))
    ensures forall o ::
      View(Forked(w, id, child), o) == if o.AtPage? && o.id == child then View(w, AtPage(id, o.v)) else View(w, o)
  {
    hide Private, GoodSpace, ForkEntry, Tightens;
    var sp, w' := w.spaces[id], Forked(w, id, child);
    ForkedSpaces(sp);
    forall o
      ensures FrameOf(w', o) == if o.AtPage? && o.id == child then FrameOf(w, AtPage(id, o.v)) else FrameOf(w, o)
    {
    }
    forall o | PrivateWritable(w', o) ensures Earned(w, w', o) {
      assert o.id != id && o.id != child;
    }
    forall o | FrameOf(w', o).Some? ensures Inherited(w, w', o) {
      if o.AtPage? && o.id == child {
        assert !PrivateWritable(w', AtPage(id, o.v));
      }
    }
    IsolatedStep(w, w');
  }
}
