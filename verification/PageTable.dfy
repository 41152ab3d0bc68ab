/** The three-level Sv39 page table as a map from virtual page numbers to leaf entries. */
module PageTable {
  import opened Common

  const ENTRIES: nat := 512
  /** Virtual page numbers have 27 bits. */
  const VPN_LIMIT: nat := 0x800_0000
  /** First root entry of the half that is shared with the kernel. */
  const KERNEL_ROOT_START: nat := 256

  datatype Flags = Flags(v: bool, r: bool, w: bool, x: bool, u: bool, a: bool, d: bool)

  datatype Pte = Pte(ppn: nat, flags: Flags)

  const NO_FLAGS: Flags := Flags(false, false, false, false, false, false, false)
  const EMPTY: Pte := Pte(0, NO_FLAGS)
  /** An entry that leads to the next table has only the valid bit. */
  const TABLE_FLAGS: Flags := NO_FLAGS.(v := true)

  /** A leaf entry and the level it was found at: 0 is a 1G page, 1 a 2M page, 2 a 4K page. */
  datatype Found = Found(pte: Pte, level: nat)

  type Mem = map<nat, seq<Pte>>

  predicate Rwx(e: Pte) {
    e.flags.r || e.flags.w || e.flags.x
  }

  predicate IsLeaf(e: Pte, level: nat) {
    if level == 2 then e.flags.v else Rwx(e)
  }

  predicate IsPointer(e: Pte) {
    e.flags.v && !Rwx(e)
  }

  function Index(vpn: nat, level: nat): (i: nat)
    requires level <= 2
    ensures i < ENTRIES
  {
    match level
    case 0 => (vpn / 0x4_0000) % ENTRIES
    case 1 => (vpn / 0x200) % ENTRIES
    case 2 => vpn % ENTRIES
  }

  /** The leading index digits of `vpn`, read as one number. */
  function Prefix(vpn: nat, digits: nat): nat
    requires digits <= 3
  {
    match digits
    case 0 => 0
    case 1 => vpn / 0x4_0000
    case 2 => vpn / 0x200
    case 3 => vpn
  }

  lemma PrefixStep(vpn: nat, level: nat)
    requires vpn < VPN_LIMIT && level <= 2
    ensures Prefix(vpn, level + 1) == Prefix(vpn, level) * ENTRIES + Index(vpn, level)
  {
  }

  /** The three indexes determine a 27-bit page number. */
  lemma IndexesDetermine(a: nat, b: nat)
    requires a < VPN_LIMIT && b < VPN_LIMIT
    ensures a == b <==> forall level :: 0 <= level <= 2 ==> Index(a, level) == Index(b, level)
  {
    if forall level :: 0 <= level <= 2 ==> Index(a, level) == Index(b, level) {
      assert Index(a, 0) == Index(b, 0) && Index(a, 1) == Index(b, 1) && Index(a, 2) == Index(b, 2);
      PrefixStep(a, 0);
      PrefixStep(b, 0);
      PrefixStep(a, 1);
      PrefixStep(b, 1);
      PrefixStep(a, 2);
      PrefixStep(b, 2);
    }
  }

  /** Lookup from `table` at `level`: the first leaf on the path, if any. */
  ghost function Find(mem: Mem, table: nat, vpn: nat, level: nat): Option<Found>
    requires level <= 2
    decreases 2 - level
  {
    if table !in mem || |mem[table]| != ENTRIES then None
    else
      var e := mem[table][Index(vpn, level)];
      if IsLeaf(e, level) then Some(Found(e, level))
      else if !e.flags.v || level == 2 then None
      else Find(mem, e.ppn, vpn, level + 1)
  }

  ghost function Translate(mem: Mem, root: nat, vpn: nat): Option<Found> {
    Find(mem, root, vpn, 0)
  }

  /** Where a table page sits: its level and the digits that lead to it. */
  datatype Place = Place(level: nat, prefix: nat)

  ghost predicate Slot(mem: Mem, q: nat) {
    q in mem && |mem[q]| == ENTRIES
  }

  /** Page `t` sits one level above page `q` and its matching entry points to `q`. */
  ghost predicate IsParent(mem: Mem, place: map<nat, Place>, t: nat, q: nat)
    requires q in place
  {
    var p := place[q];
    && t in place && Slot(mem, t) && p.level > 0 && place[t] == Place(p.level - 1, p.prefix / ENTRIES)
    && IsPointer(mem[t][p.prefix % ENTRIES]) && mem[t][p.prefix % ENTRIES].ppn == q
  }

  ghost predicate Slots(mem: Mem, place: map<nat, Place>) {
    forall q :: q in place ==> Slot(mem, q) && place[q].level <= 2 && Honest(mem[q])
  }

  /** Entries with an access right are valid: the code never writes any other kind. */
  ghost predicate Honest(page: seq<Pte>) {
    forall i :: 0 <= i < |page| ==> Rwx(page[i]) ==> page[i].flags.v
  }

  ghost predicate NoSharing(place: map<nat, Place>) {
    forall q, r :: q in place && r in place && place[q] == place[r] ==> q == r
  }

  ghost predicate Parents(mem: Mem, place: map<nat, Place>, root: nat) {
    forall q :: q in place && q != root ==> exists t :: IsParent(mem, place, t, q)
  }

  ghost predicate Pointers(mem: Mem, place: map<nat, Place>, root: nat, limit: nat)
    requires Slots(mem, place)
  {
    forall q, i: nat :: q in place && Guides(mem, place, root, limit, q, i) ==> Leads(place, q, i, mem[q][i].ppn)
  }

  /** The pages in `place` form a tree under `root`: every pointer below the first `limit` root entries leads to
      the page placed there, no two pages share a place, and every page but the root is pointed to. */
  ghost predicate Tree(mem: Mem, place: map<nat, Place>, root: nat, limit: nat) {
    && root in place && place[root] == Place(0, 0)
    && Slots(mem, place) && NoSharing(place) && Parents(mem, place, root) && Pointers(mem, place, root, limit)
    && Low(place, limit)
  }

  /** Tables of the second level hang below the tree's own root entries. */
  ghost predicate Low(place: map<nat, Place>, limit: nat) {
    forall q :: q in place && place[q].level == 1 ==> place[q].prefix < limit
  }

  /** The two memories agree on the tree's own entries. */
  ghost predicate AgreeOwn(mem: Mem, mem': Mem, place: map<nat, Place>, root: nat, limit: nat)
    requires Slots(mem, place)
  {
    forall t :: t in place ==> Slot(mem', t) && Honest(mem'[t]) && SameOwn(mem[t], mem'[t], if t == root then limit
      else ENTRIES)
  }

  ghost predicate SameOwn(a: seq<Pte>, b: seq<Pte>, limit: nat) {
    |a| == |b| && forall i :: 0 <= i < |a| && i < limit ==> a[i] == b[i]
  }

  /** Entry `i` of page `q` is a pointer of the tree's own part. */
  ghost predicate Guides(mem: Mem, place: map<nat, Place>, root: nat, limit: nat, q: nat, i: nat)
    requires q in place && Slot(mem, q)
  {
    place[q].level < 2 && i < ENTRIES && (q == root ==> i < limit) && IsPointer(mem[q][i])
  }

  ghost predicate Leads(place: map<nat, Place>, q: nat, i: nat, child: nat)
    requires q in place
  {
    child in place && place[child] == Place(place[q].level + 1, place[q].prefix * ENTRIES + i)
  }

  /** On its own half a lookup meets, at each level, the table placed at the digits read so far. */
  ghost predicate OnPath(place: map<nat, Place>, table: nat, vpn: nat, level: nat)
    requires level <= 2
  {
    table in place && place[table] == Place(level, Prefix(vpn, level))
  }

  ghost predicate Own(vpn: nat, limit: nat) {
    vpn < VPN_LIMIT && Index(vpn, 0) < limit
  }

  lemma StepOnPath(mem: Mem, place: map<nat, Place>, root: nat, limit: nat, table: nat, vpn: nat, level: nat)
    requires Tree(mem, place, root, limit) && Own(vpn, limit) && level < 2 && OnPath(place, table, vpn, level)
    requires IsPointer(mem[table][Index(vpn, level)])
    ensures OnPath(place, mem[table][Index(vpn, level)].ppn, vpn, level + 1)
  {
    PrefixStep(vpn, level);
    if level > 0 {
      assert table != root;
    }
    assert Guides(mem, place, root, limit, table, Index(vpn, level));
  }

  /** Rewriting one slot changes no lookup whose digits do not lead through that slot. */
  lemma {:induction false} FindFrame(mem: Mem, place: map<nat, Place>, root: nat, limit: nat,
                                     q: nat, i: nat, e: Pte, table: nat, vpn: nat, level: nat)
    requires Tree(mem, place, root, limit) && q in place && i < ENTRIES && level <= 2
    requires Own(vpn, limit) && OnPath(place, table, vpn, level)
    requires Prefix(vpn, place[q].level + 1) != place[q].prefix * ENTRIES + i
    ensures Find(mem[q := mem[q][i := e]], table, vpn, level) == Find(mem, table, vpn, level)
    decreases 2 - level
  {
    PrefixStep(vpn, level);
    var mem' := mem[q := mem[q][i := e]];
    assert mem'[table][Index(vpn, level)] == mem[table][Index(vpn, level)];
    var here := mem[table][Index(vpn, level)];
    if !IsLeaf(here, level) && here.flags.v && level < 2 {
      StepOnPath(mem, place, root, limit, table, vpn, level);
      FindFrame(mem, place, root, limit, q, i, e, here.ppn, vpn, level + 1);
    }
  }

  /** Page numbers with the same leading digits have the same leading indexes. */
  lemma SameIndexes(a: nat, b: nat, level: nat)
    requires a < VPN_LIMIT && b < VPN_LIMIT && level <= 2 && Prefix(a, level + 1) == Prefix(b, level + 1)
    ensures forall l :: 0 <= l <= level ==> Index(a, l) == Index(b, l) && Prefix(a, l) == Prefix(b, l)
  {
    assert a / 0x4_0000 == (a / 0x200) / 0x200 && b / 0x4_0000 == (b / 0x200) / 0x200;
  }

  /** The walk from `table` follows pointers and arrives at page `q` at level `target`. */
  ghost predicate Reaches(mem: Mem, table: nat, vpn: nat, level: nat, q: nat, target: nat)
    requires level <= target <= 2
    decreases target - level
  {
    if level == target then table == q
    else
      && Slot(mem, table)
      && var e := mem[table][Index(vpn, level)];
         IsPointer(e) && Reaches(mem, e.ppn, vpn, level + 1, q, target)
  }

  lemma {:induction false} ReachesFind(mem: Mem, table: nat, vpn: nat, level: nat, q: nat, target: nat)
    requires level <= target <= 2 && Reaches(mem, table, vpn, level, q, target)
    ensures Find(mem, table, vpn, level) == Find(mem, q, vpn, target)
    decreases target - level
  {
    if level < target {
      ReachesFind(mem, mem[table][Index(vpn, level)].ppn, vpn, level + 1, q, target);
    }
  }

  lemma {:induction false} ReachesExtend(mem: Mem, table: nat, vpn: nat, level: nat, q: nat, target: nat)
    requires level <= target < 2 && Reaches(mem, table, vpn, level, q, target)
    requires Slot(mem, q) && IsPointer(mem[q][Index(vpn, target)])
    ensures Reaches(mem, table, vpn, level, mem[q][Index(vpn, target)].ppn, target + 1)
    decreases target - level
  {
    if level < target {
      ReachesExtend(mem, mem[table][Index(vpn, level)].ppn, vpn, level + 1, q, target);
    }
  }

  /** A page number with the same leading digits arrives at the same page, also after that page was rewritten. */
  lemma {:induction false} ReachesAfter(mem: Mem, mem': Mem, place: map<nat, Place>, root: nat, limit: nat,
                                        table: nat, vpn: nat, other: nat, level: nat, q: nat, target: nat)
    requires Tree(mem, place, root, limit) && Own(vpn, limit) && other < VPN_LIMIT && level <= target <= 2
    requires Prefix(vpn, target + 1) == Prefix(other, target + 1)
    requires OnPath(place, table, vpn, level) && Reaches(mem, table, vpn, level, q, target)
    requires q in place && place[q].level == target
    requires forall t :: t in place && t != q ==> t in mem' && mem'[t] == mem[t]
    ensures Reaches(mem', table, other, level, q, target)
    decreases target - level
  {
    if level < target {
      SameIndexes(vpn, other, target);
      StepOnPath(mem, place, root, limit, table, vpn, level);
      ReachesAfter(mem, mem', place, root, limit, mem[table][Index(vpn, level)].ppn, vpn, other, level + 1, q, target);
    }
  }

  /** Only the tree's own entries matter for its own lookups. */
  lemma {:induction false} FindAgree(mem: Mem, mem': Mem, place: map<nat, Place>, root: nat, limit: nat,
                                     table: nat, vpn: nat, level: nat)
    requires Tree(mem, place, root, limit) && Own(vpn, limit) && level <= 2 && OnPath(place, table, vpn, level)
    requires AgreeOwn(mem, mem', place, root, limit)
    ensures Find(mem', table, vpn, level) == Find(mem, table, vpn, level)
    decreases 2 - level
  {
    var here := mem[table][Index(vpn, level)];
    assert mem'[table][Index(vpn, level)] == here;
    if !IsLeaf(here, level) && here.flags.v && level < 2 {
      StepOnPath(mem, place, root, limit, table, vpn, level);
      FindAgree(mem, mem', place, root, limit, here.ppn, vpn, level + 1);
    }
  }

  lemma ParentsKept(mem: Mem, mem': Mem, place: map<nat, Place>, root: nat, limit: nat)
    requires Slots(mem, place) && Slots(mem', place) && Parents(mem, place, root) && Low(place, limit)
    requires root in place && place[root] == Place(0, 0) && NoSharing(place) && limit <= ENTRIES
    requires forall t, i: nat :: t in place && Guides(mem, place, root, limit, t, i) ==> mem'[t][i] == mem[t][i]
    ensures Parents(mem', place, root)
  {
    forall q | q in place && q != root ensures exists t :: IsParent(mem', place, t, q) {
      var t :| IsParent(mem, place, t, q);
      var i := place[q].prefix % ENTRIES;
      assert Guides(mem, place, root, limit, t, i);
      assert IsParent(mem', place, t, q);
    }
  }

  lemma TreeAgree(mem: Mem, mem': Mem, place: map<nat, Place>, root: nat, limit: nat)
    requires Tree(mem, place, root, limit) && limit <= ENTRIES && AgreeOwn(mem, mem', place, root, limit)
    ensures Tree(mem', place, root, limit)
  {
    ParentsKept(mem, mem', place, root, limit);
    forall q, i: nat | q in place && Guides(mem', place, root, limit, q, i) ensures Leads(place, q, i, mem'[q][i].ppn) {
      assert Guides(mem, place, root, limit, q, i);
    }
  }

  lemma HonestWrite(page: seq<Pte>, i: nat, e: Pte)
    requires i < |page| && Honest(page) && (Rwx(e) ==> e.flags.v)
    ensures Honest(page[i := e])
  {
  }

  /** Rewriting an entry that is not and does not become a pointer keeps the tree. */
  lemma WriteTree(mem: Mem, place: map<nat, Place>, root: nat, limit: nat, q: nat, i: nat, e: Pte)
    requires Tree(mem, place, root, limit) && q in place && i < ENTRIES
    requires place[q].level == 2 || (!IsPointer(mem[q][i]) && !IsPointer(e))
    requires (Rwx(e) ==> e.flags.v) && limit <= ENTRIES
    ensures Tree(mem[q := mem[q][i := e]], place, root, limit)
  {
    var mem' := mem[q := mem[q][i := e]];
    HonestWrite(mem[q], i, e);
    assert Slots(mem', place);
    ParentsKept(mem, mem', place, root, limit);
    forall t, j: nat | t in place && Guides(mem', place, root, limit, t, j) ensures Leads(place, t, j, mem'[t][j].ppn) {
      assert Guides(mem, place, root, limit, t, j);
    }
  }

  /** What a lookup of any own page number finds after entry `e` was written where the walk of `vpn` ends. */
  lemma WriteTranslate(mem: Mem, place: map<nat, Place>, root: nat, limit: nat, q: nat, level: nat, vpn: nat, e: Pte,
                       other: nat)
    requires Tree(mem, place, root, limit) && Own(vpn, limit) && Own(other, limit) && level <= 2
    requires OnPath(place, q, vpn, level) && Reaches(mem, root, vpn, 0, q, level)
    requires IsLeaf(e, level) || !e.flags.v
    ensures var mem' := mem[q := mem[q][Index(vpn, level) := e]];
      Translate(mem', root, other) ==
        if Prefix(other, level + 1) != Prefix(vpn, level + 1) then Translate(mem, root, other)
        else if IsLeaf(e, level) then Some(Found(e, level)) else None
  {
    var i := Index(vpn, level);
    var mem' := mem[q := mem[q][i := e]];
    PrefixStep(vpn, level);
    if Prefix(other, level + 1) != Prefix(vpn, level + 1) {
      FindFrame(mem, place, root, limit, q, i, e, root, other, 0);
    } else {
      WriteThere(mem, place, root, limit, q, level, vpn, e, other);
    }
  }

  lemma WriteThere(mem: Mem, place: map<nat, Place>, root: nat, limit: nat, q: nat, level: nat, vpn: nat, e: Pte,
                   other: nat)
    requires Tree(mem, place, root, limit) && Own(vpn, limit) && Own(other, limit) && level <= 2
    requires OnPath(place, q, vpn, level) && Reaches(mem, root, vpn, 0, q, level)
    requires IsLeaf(e, level) || !e.flags.v
    requires Prefix(other, level + 1) == Prefix(vpn, level + 1)
    ensures Translate(mem[q := mem[q][Index(vpn, level) := e]], root, other)
         == if IsLeaf(e, level) then Some(Found(e, level)) else None
  {
    RootPath(mem, place, root, limit, vpn);
    WalkSlot(mem, place, root, limit, q, vpn, level);
    hide Reaches, Prefix, Tree, Index;
    var mem' := mem[q := mem[q][Index(vpn, level) := e]];
    SameIndexes(vpn, other, level);
    ReachesAfter(mem, mem', place, root, limit, root, vpn, other, 0, q, level);
    ReachesFind(mem', root, other, 0, q, level);
  }

  /** A freshly allocated table page: frames are cleared when they are handed out. */
  function Blank(): (t: seq<Pte>)
    ensures |t| == ENTRIES && forall i :: 0 <= i < ENTRIES ==> t[i] == EMPTY
  {
    seq(ENTRIES, i => EMPTY)
  }

  ghost function Grown(mem: Mem, q: nat, i: nat, f: nat): Mem
    requires Slot(mem, q) && i < ENTRIES
  {
    mem[f := Blank()][q := mem[q][i := Pte(f, TABLE_FLAGS)]]
  }

  ghost function Placed(place: map<nat, Place>, q: nat, i: nat, f: nat): map<nat, Place>
    requires q in place
  {
    place[f := Place(place[q].level + 1, place[q].prefix * ENTRIES + i)]
  }

  lemma FreePlace(mem: Mem, place: map<nat, Place>, root: nat, limit: nat, q: nat, i: nat, r: nat)
    requires Tree(mem, place, root, limit) && q in place && i < ENTRIES && !IsPointer(mem[q][i]) && r in place
    ensures place[r] != Place(place[q].level + 1, place[q].prefix * ENTRIES + i)
  {
    if r != root {
      var t :| IsParent(mem, place, t, r);
      assert t == q ==> place[r].prefix % ENTRIES != i;
    }
  }

  lemma Digit(prefix: nat, i: nat)
    requires i < ENTRIES
    ensures (prefix * ENTRIES + i) / ENTRIES == prefix && (prefix * ENTRIES + i) % ENTRIES == i
  {
  }

  lemma NewParent(mem: Mem, place: map<nat, Place>, q: nat, i: nat, f: nat)
    requires Slots(mem, place) && q in place && i < ENTRIES && f !in place
    ensures IsParent(Grown(mem, q, i, f), Placed(place, q, i, f), q, f)
  {
    Digit(place[q].prefix, i);
  }

  lemma OldParent(mem: Mem, place: map<nat, Place>, q: nat, i: nat, f: nat, t: nat, r: nat)
    requires Slots(mem, place) && q in place && i < ENTRIES && f !in place && !IsPointer(mem[q][i])
    requires r in place && IsParent(mem, place, t, r)
    ensures IsParent(Grown(mem, q, i, f), Placed(place, q, i, f), t, r)
  {
  }

  lemma GrowParents(mem: Mem, place: map<nat, Place>, root: nat, q: nat, i: nat, f: nat)
    requires Slots(mem, place) && Parents(mem, place, root)
    requires q in place && place[q].level < 2 && i < ENTRIES && f !in place && !IsPointer(mem[q][i])
    ensures Parents(Grown(mem, q, i, f), Placed(place, q, i, f), root)
  {
    var mem', place' := Grown(mem, q, i, f), Placed(place, q, i, f);
    forall r | r in place' && r != root ensures exists t :: IsParent(mem', place', t, r) {
      if r == f {
        NewParent(mem, place, q, i, f);
      } else {
        var t :| IsParent(mem, place, t, r);
        OldParent(mem, place, q, i, f, t, r);
      }
    }
  }

  lemma GrowPointers(mem: Mem, place: map<nat, Place>, root: nat, limit: nat, q: nat, i: nat, f: nat)
    requires Slots(mem, place) && Pointers(mem, place, root, limit) && root in place
    requires q in place && place[q].level < 2 && i < ENTRIES && f !in place
    ensures Slots(Grown(mem, q, i, f), Placed(place, q, i, f))
    ensures Pointers(Grown(mem, q, i, f), Placed(place, q, i, f), root, limit)
  {
    var mem', place' := Grown(mem, q, i, f), Placed(place, q, i, f);
    HonestWrite(mem[q], i, Pte(f, TABLE_FLAGS));
    forall t, j: nat | t in place' && Guides(mem', place', root, limit, t, j)
      ensures Leads(place', t, j, mem'[t][j].ppn)
    {
      if t != f && !(t == q && j == i) {
        assert Guides(mem, place, root, limit, t, j);
      }
    }
  }

  lemma GrowTree(mem: Mem, place: map<nat, Place>, root: nat, limit: nat, q: nat, i: nat, f: nat)
    requires Tree(mem, place, root, limit) && q in place && place[q].level < 2 && i < ENTRIES && f !in place
    requires !IsPointer(mem[q][i]) && (q == root ==> i < limit)
    ensures Tree(Grown(mem, q, i, f), Placed(place, q, i, f), root, limit)
  {
    forall r | r in place ensures place[r] != Placed(place, q, i, f)[f] {
      FreePlace(mem, place, root, limit, q, i, r);
    }
    assert NoSharing(Placed(place, q, i, f));
    GrowParents(mem, place, root, q, i, f);
    GrowPointers(mem, place, root, limit, q, i, f);
  }

  /** Page numbers that do not lead through the new table translate as before. */
  lemma GrowElsewhere(mem: Mem, place: map<nat, Place>, root: nat, limit: nat, q: nat, i: nat, f: nat, other: nat)
    requires Tree(mem, place, root, limit) && Own(other, limit) && f !in place && limit <= ENTRIES
    requires q in place && i < ENTRIES && Prefix(other, place[q].level + 1) != place[q].prefix * ENTRIES + i
    ensures Translate(Grown(mem, q, i, f), root, other) == Translate(mem, root, other)
  {
    var mem1 := mem[f := Blank()];
    FindAgree(mem, mem1, place, root, limit, root, other, 0);
    TreeAgree(mem, mem1, place, root, limit);
    FindFrame(mem1, place, root, limit, q, i, Pte(f, TABLE_FLAGS), root, other, 0);
  }

  lemma GrownAgrees(mem: Mem, place: map<nat, Place>, q: nat, i: nat, f: nat)
    requires Slots(mem, place) && q in place && i < ENTRIES && f !in place
    ensures forall t :: t in place && t != q ==> t in Grown(mem, q, i, f) && Grown(mem, q, i, f)[t] == mem[t]
    ensures f in Grown(mem, q, i, f) && Grown(mem, q, i, f)[f] == Blank()
    ensures Slot(Grown(mem, q, i, f), q) && Grown(mem, q, i, f)[q][i] == Pte(f, TABLE_FLAGS)
  {
  }

  /** Page numbers that do lead through it find nothing, as before. */
  lemma GrowThere(mem: Mem, place: map<nat, Place>, root: nat, limit: nat, q: nat, level: nat, vpn: nat, f: nat,
                  other: nat)
    requires Tree(mem, place, root, limit) && Own(vpn, limit) && Own(other, limit) && level < 2 && f !in place
    requires OnPath(place, q, vpn, level) && Reaches(mem, root, vpn, 0, q, level)
    requires var e := mem[q][Index(vpn, level)]; !e.flags.v && !IsLeaf(e, level)
    requires Prefix(other, level + 1) == Prefix(vpn, level + 1)
    ensures Translate(Grown(mem, q, Index(vpn, level), f), root, other) == None == Translate(mem, root, other)
  {
    var i := Index(vpn, level);
    var mem' := Grown(mem, q, i, f);
    GrownAgrees(mem, place, q, i, f);
    SameIndexes(vpn, other, level);
    ReachesAfter(mem, mem', place, root, limit, root, vpn, other, 0, q, level);
    ReachesFind(mem', root, other, 0, q, level);
    ReachesAfter(mem, mem, place, root, limit, root, vpn, other, 0, q, level);
    ReachesFind(mem, root, other, 0, q, level);
    assert Find(mem', f, other, level + 1) == None;
  }

  /** Adding an empty table below an empty entry changes no translation. */
  lemma GrowTranslate(mem: Mem, place: map<nat, Place>, root: nat, limit: nat, q: nat, level: nat, vpn: nat, f: nat,
                      other: nat)
    requires Tree(mem, place, root, limit) && Own(vpn, limit) && Own(other, limit) && level < 2 && f !in place
    requires limit <= ENTRIES
    requires OnPath(place, q, vpn, level) && Reaches(mem, root, vpn, 0, q, level)
    requires var e := mem[q][Index(vpn, level)]; !e.flags.v && !IsLeaf(e, level)
    ensures Translate(Grown(mem, q, Index(vpn, level), f), root, other) == Translate(mem, root, other)
  {
    PrefixStep(vpn, level);
    if Prefix(other, level + 1) != Prefix(vpn, level + 1) {
      GrowElsewhere(mem, place, root, limit, q, Index(vpn, level), f, other);
    } else {
      GrowThere(mem, place, root, limit, q, level, vpn, f, other);
    }
  }

  /** The translation of `o` when the block that `vpn` shares at `level` was replaced. */
  ghost function Replaced(o: nat, vpn: nat, level: nat, entry: Option<Found>, before: Option<Found>): Option<Found>
    requires level <= 2
  {
    if Prefix(o, level + 1) == Prefix(vpn, level + 1) then entry else before
  }

  function Leaf(ppn: nat, flags: Flags, level: nat): Option<Found> {
    Some(Found(Pte(ppn, FinalFlags(flags)), level))
  }

  /** Two table pages agree from entry `start` on. */
  ghost predicate SameTail(a: seq<Pte>, b: seq<Pte>, start: nat) {
    |a| == |b| && forall i :: start <= i < |a| ==> a[i] == b[i]
  }

  /** Root tables that agree on their upper entries translate the upper half alike, whatever lies below. */
  lemma SharedHalfAgrees(mem: Mem, user: nat, kernel: nat, vpn: nat)
    requires Slot(mem, user) && Slot(mem, kernel) && SameTail(mem[user], mem[kernel], KERNEL_ROOT_START)
    requires Index(vpn, 0) >= KERNEL_ROOT_START
    ensures Translate(mem, user, vpn) == Translate(mem, kernel, vpn)
  {
    assert mem[user][Index(vpn, 0)] == mem[kernel][Index(vpn, 0)];
  }

  /** From one state to a later one, pages outside `place` are left alone, `place` only grows by new pages, and the
      shared upper entries of the root stay. */
  ghost predicate Confined(mem: Mem, place: map<nat, Place>, mem': Mem, place': map<nat, Place>, root: nat,
                           limit: nat) {
    && (forall q :: q in mem && q !in place ==> q in mem' && mem'[q] == mem[q])
    && (forall q :: q in place' && q !in place ==> q !in mem)
    && (forall q :: q in place ==> q in place' && place'[q] == place[q])
    && (forall q :: q in mem ==> q in mem')
    && root in mem && root in mem' && SameTail(mem[root], mem'[root], limit)
  }

  /** A write to an entry on an own path may go ahead: it keeps the tree and stays confined to it. */
  lemma WriteReady(mem: Mem, place: map<nat, Place>, root: nat, limit: nat, q: nat, level: nat, vpn: nat, e: Pte)
    requires Tree(mem, place, root, limit) && Own(vpn, limit) && level <= 2 && limit <= ENTRIES
    requires OnPath(place, q, vpn, level)
    requires level == 2 || !IsPointer(mem[q][Index(vpn, level)])
    requires (IsLeaf(e, level) && e.flags.v) || e == EMPTY
    ensures Slot(mem, q)
    ensures var mem' := mem[q := mem[q][Index(vpn, level) := e]];
      Tree(mem', place, root, limit) && Confined(mem, place, mem', place, root, limit)
  {
    WriteTree(mem, place, root, limit, q, Index(vpn, level), e);
  }

  /** Every own page number translates as before. */
  ghost predicate SameView(mem: Mem, mem': Mem, root: nat, limit: nat) {
    forall o :: Own(o, limit) ==> Translate(mem', root, o) == Translate(mem, root, o)
  }

  lemma ConfinedSelf(mem: Mem, place: map<nat, Place>, root: nat, limit: nat)
    requires Tree(mem, place, root, limit)
    ensures Confined(mem, place, mem, place, root, limit)
  {
  }

  /** At the last level the walk finds something exactly when the entry it ends at is valid. */
  lemma LeafSlot(mem: Mem, place: map<nat, Place>, root: nat, limit: nat, q: nat, vpn: nat)
    requires Tree(mem, place, root, limit) && OnPath(place, q, vpn, 2) && Reaches(mem, root, vpn, 0, q, 2)
    ensures Slot(mem, q) && (mem[q][Index(vpn, 2)].flags.v <==> Translate(mem, root, vpn).Some?)
  {
    ReachesFind(mem, root, vpn, 0, q, 2);
  }

  lemma ConfinedTrans(m: Mem, p: map<nat, Place>, m1: Mem, p1: map<nat, Place>, m2: Mem, p2: map<nat, Place>,
                      root: nat, limit: nat)
    requires Confined(m, p, m1, p1, root, limit) && Confined(m1, p1, m2, p2, root, limit)
    ensures Confined(m, p, m2, p2, root, limit)
  {
  }

  /** Tables were added down to `level`, and nothing else happened. */
  ghost predicate Extended(mem: Mem, place: map<nat, Place>, mem': Mem, place': map<nat, Place>, root: nat, limit: nat,
                           level: nat) {
    && Confined(mem, place, mem', place', root, limit) && SameView(mem, mem', root, limit)
    && forall t :: t in place' && t !in place ==> place'[t].level <= level
  }

  lemma ExtendedTrans(m: Mem, p: map<nat, Place>, m1: Mem, p1: map<nat, Place>, m2: Mem, p2: map<nat, Place>,
                      root: nat, limit: nat, level: nat)
    requires Extended(m, p, m1, p1, root, limit, level) && Extended(m1, p1, m2, p2, root, limit, level + 1)
    ensures Extended(m, p, m2, p2, root, limit, level + 1)
  {
    ConfinedTrans(m, p, m1, p1, m2, p2, root, limit);
  }

  lemma WalkStart(mem: Mem, place: map<nat, Place>, root: nat, limit: nat, vpn: nat)
    requires Tree(mem, place, root, limit)
    ensures OnPath(place, root, vpn, 0) && Reaches(mem, root, vpn, 0, root, 0)
    ensures Extended(mem, place, mem, place, root, limit, 0)
  {
  }

  lemma ViewKept(mem: Mem, place: map<nat, Place>, mem': Mem, place': map<nat, Place>, root: nat, limit: nat,
                 level: nat, vpn: nat)
    requires Extended(mem, place, mem', place', root, limit, level) && Own(vpn, limit)
    ensures Translate(mem', root, vpn) == Translate(mem, root, vpn)
  {
  }

  lemma GrownConfined(mem: Mem, place: map<nat, Place>, root: nat, limit: nat, q: nat, i: nat, f: nat)
    requires Slots(mem, place) && root in place && q in place && i < ENTRIES && (q == root ==> i < limit) && f !in mem
    ensures Confined(mem, place, Grown(mem, q, i, f), Placed(place, q, i, f), root, limit)
  {
  }

  lemma GrowConfined(mem: Mem, place: map<nat, Place>, root: nat, limit: nat, q: nat, level: nat, vpn: nat, f: nat)
    requires Tree(mem, place, root, limit) && Own(vpn, limit) && level < 2 && f !in mem && limit <= ENTRIES
    requires OnPath(place, q, vpn, level) && Reaches(mem, root, vpn, 0, q, level)
    requires var e := mem[q][Index(vpn, level)]; !e.flags.v && !IsLeaf(e, level)
    ensures var i := Index(vpn, level);
      var mem' := Grown(mem, q, i, f);
      && Tree(mem', Placed(place, q, i, f), root, limit) && SameView(mem, mem', root, limit)
      && Confined(mem, place, mem', Placed(place, q, i, f), root, limit)
      && Reaches(mem', root, vpn, 0, q, level)
  {
    var i := Index(vpn, level);
    assert f !in place && (q == root ==> i < limit);
    GrownAgrees(mem, place, q, i, f);
    GrowTree(mem, place, root, limit, q, i, f);
    GrownConfined(mem, place, root, limit, q, i, f);
    ReachesAfter(mem, Grown(mem, q, i, f), place, root, limit, root, vpn, vpn, 0, q, level);
    GrowView(mem, place, root, limit, q, level, vpn, f);
  }

  lemma GrowView(mem: Mem, place: map<nat, Place>, root: nat, limit: nat, q: nat, level: nat, vpn: nat, f: nat)
    requires Tree(mem, place, root, limit) && Own(vpn, limit) && level < 2 && f !in place && limit <= ENTRIES
    requires OnPath(place, q, vpn, level) && Reaches(mem, root, vpn, 0, q, level)
    requires var e := mem[q][Index(vpn, level)]; !e.flags.v && !IsLeaf(e, level)
    ensures SameView(mem, Grown(mem, q, Index(vpn, level), f), root, limit)
  {
    forall o | Own(o, limit)
      ensures Translate(Grown(mem, q, Index(vpn, level), f), root, o) == Translate(mem, root, o)
    {
      GrowTranslate(mem, place, root, limit, q, level, vpn, f, o);
    }
  }

  // ---- the walk that adds tables, on any memory ----

  datatype Walk = Walk(mem: Mem, pool: seq<nat>, q: nat)

  /** The walk of `vpn` down to `target`: a valid entry is followed whatever it is, an invalid one gets a new table. It
      fails when the frames run out and when it leaves memory. */
  ghost function Walked(mem: Mem, pool: seq<nat>, table: nat, vpn: nat, level: nat, target: nat): (w: Option<Walk>)
    requires level <= target <= 2
    ensures w.Some? ==> Slot(w.value.mem, w.value.q)
    decreases target - level
  {
    if !Slot(mem, table) then None
    else if level == target then Some(Walk(mem, pool, table))
    else
      var i := Index(vpn, level);
      var e := mem[table][i];
      if e.flags.v then Walked(mem, pool, e.ppn, vpn, level + 1, target)
      else if pool == [] then None
      else Walked(Grown(mem, table, i, pool[0]), pool[1..], pool[0], vpn, level + 1, target)
  }

  /** A walk that succeeds arrives at an invalid entry. */
  ghost predicate Empties(w: Option<Walk>, vpn: nat, target: nat)
    requires target <= 2 && (w.Some? ==> Slot(w.value.mem, w.value.q))
  {
    w.Some? ==> !w.value.mem[w.value.q][Index(vpn, target)].flags.v
  }

  /** How the walk ended, in terms of the memory and the frames it left. */
  ghost predicate Ended(w: Option<Walk>, r: Option<nat>, mem: Mem, pool: seq<nat>) {
    && (r.Some? <==> w.Some?)
    && (w.Some? ==> w.value == Walk(mem, pool, r.value) && Slot(mem, r.value))
  }

  /** The walk arrives at an invalid entry. */
  ghost predicate EndsEmpty(mem: Mem, pool: seq<nat>, root: nat, vpn: nat, level: nat)
    requires level <= 2
  {
    var w := Walked(mem, pool, root, vpn, 0, level);
    w.Some? && Empties(w, vpn, level)
  }

  /** How many tables the walk adds when it follows pointers only. */
  ghost function Missing(mem: Mem, table: nat, vpn: nat, level: nat, target: nat): nat
    requires level <= target <= 2
    decreases target - level
  {
    if level == target || !Slot(mem, table) then 0
    else
      var e := mem[table][Index(vpn, level)];
      if e.flags.v then Missing(mem, e.ppn, vpn, level + 1, target) else target - level
  }

  /** A larger leaf maps `vpn` already: the walk to `target` goes through its frame as if it were a table. */
  ghost predicate Blocked(mem: Mem, root: nat, vpn: nat, target: nat) {
    var r := Translate(mem, root, vpn);
    r.Some? && r.value.level < target
  }

  ghost predicate Unplaced(mem: Mem, pool: seq<nat>) {
    NoRepeats(pool) && forall f :: f in pool ==> f !in mem
  }

  lemma UnplacedGrown(mem: Mem, pool: seq<nat>, q: nat, i: nat)
    requires Unplaced(mem, pool) && pool != [] && Slot(mem, q) && i < ENTRIES
    ensures Unplaced(Grown(mem, q, i, pool[0]), pool[1..])
    ensures pool[0] !in mem && Grown(mem, q, i, pool[0])[pool[0]] == Blank()
  {
    assert pool[0] in pool;
    assert forall f :: f in pool[1..] ==> f in pool && f != pool[0];
  }

  /** Valid entries are never overwritten. */
  ghost predicate Kept(mem: Mem, mem': Mem) {
    forall q, i: nat :: q in mem && i < |mem[q]| && mem[q][i].flags.v ==>
      q in mem' && |mem'[q]| == |mem[q]| && mem'[q][i] == mem[q][i]
  }

  lemma {:induction false} WalkKeeps(mem: Mem, pool: seq<nat>, table: nat, vpn: nat, level: nat, target: nat)
    requires level <= target <= 2 && Unplaced(mem, pool)
    requires Walked(mem, pool, table, vpn, level, target).Some?
    ensures Kept(mem, Walked(mem, pool, table, vpn, level, target).value.mem)
    decreases target - level
  {
    if level < target {
      var i := Index(vpn, level);
      var e := mem[table][i];
      if e.flags.v {
        WalkKeeps(mem, pool, e.ppn, vpn, level + 1, target);
      } else {
        UnplacedGrown(mem, pool, table, i);
        assert Kept(mem, Grown(mem, table, i, pool[0]));
        WalkKeeps(Grown(mem, table, i, pool[0]), pool[1..], pool[0], vpn, level + 1, target);
      }
    }
  }

  lemma {:induction false} KeptFind(mem: Mem, mem': Mem, place: map<nat, Place>, root: nat, limit: nat,
                                    table: nat, vpn: nat, level: nat)
    requires Tree(mem, place, root, limit) && Own(vpn, limit) && level <= 2 && OnPath(place, table, vpn, level)
    requires Kept(mem, mem') && Find(mem, table, vpn, level).Some?
    ensures Find(mem', table, vpn, level) == Find(mem, table, vpn, level)
    decreases 2 - level
  {
    var i := Index(vpn, level);
    var here := mem[table][i];
    assert here.flags.v && mem'[table][i] == here;
    if !IsLeaf(here, level) {
      StepOnPath(mem, place, root, limit, table, vpn, level);
      KeptFind(mem, mem', place, root, limit, here.ppn, vpn, level + 1);
    }
  }

  lemma {:induction false} KeptReaches(mem: Mem, mem': Mem, table: nat, vpn: nat, level: nat, q: nat, target: nat)
    requires level <= target <= 2 && Kept(mem, mem') && Reaches(mem, table, vpn, level, q, target)
    ensures Reaches(mem', table, vpn, level, q, target)
    decreases target - level
  {
    if level < target {
      var i := Index(vpn, level);
      assert mem'[table][i] == mem[table][i];
      KeptReaches(mem, mem', mem[table][i].ppn, vpn, level + 1, q, target);
    }
  }

  /** Below an empty table every level is missing. */
  lemma {:induction false} BlankNeeds(mem: Mem, pool: seq<nat>, f: nat, vpn: nat, level: nat, target: nat)
    requires level <= target <= 2 && Unplaced(mem, pool) && f in mem && mem[f] == Blank()
    ensures Walked(mem, pool, f, vpn, level, target).Some? <==> |pool| >= target - level
    ensures Empties(Walked(mem, pool, f, vpn, level, target), vpn, target)
    decreases target - level
  {
    if level < target && pool != [] {
      UnplacedGrown(mem, pool, f, Index(vpn, level));
      BlankNeeds(Grown(mem, f, Index(vpn, level), pool[0]), pool[1..], pool[0], vpn, level + 1, target);
    }
  }

  /** On the way through pointers the walk succeeds exactly when there are enough frames. */
  lemma {:induction false} WalkNeeds(mem: Mem, pool: seq<nat>, place: map<nat, Place>, root: nat, limit: nat,
                                     table: nat, vpn: nat, level: nat, target: nat)
    requires Tree(mem, place, root, limit) && Own(vpn, limit) && level <= target <= 2 && Unplaced(mem, pool)
    requires OnPath(place, table, vpn, level)
    requires var r := Find(mem, table, vpn, level); r.Some? ==> r.value.level >= target
    ensures Walked(mem, pool, table, vpn, level, target).Some? <==> |pool| >= Missing(mem, table, vpn, level, target)
    ensures Missing(mem, table, vpn, level, target) <= target - level
    decreases target - level
  {
    if level < target {
      var i := Index(vpn, level);
      var e := mem[table][i];
      if e.flags.v {
        StepOnPath(mem, place, root, limit, table, vpn, level);
        WalkNeeds(mem, pool, place, root, limit, e.ppn, vpn, level + 1, target);
      } else if pool != [] {
        UnplacedGrown(mem, pool, table, i);
        BlankNeeds(Grown(mem, table, i, pool[0]), pool[1..], pool[0], vpn, level + 1, target);
      }
    }
  }

  /** A lookup from a level down finds leaves of that level and below. */
  lemma {:induction false} FindBelow(mem: Mem, table: nat, vpn: nat, level: nat)
    requires level <= 2
    ensures Find(mem, table, vpn, level).Some? ==> Find(mem, table, vpn, level).value.level >= level
    decreases 2 - level
  {
    if level < 2 && Slot(mem, table) {
      FindBelow(mem, mem[table][Index(vpn, level)].ppn, vpn, level + 1);
    }
  }

  /** A large page without any access right is taken for a pointer. */
  lemma NoRightsNoLeaf(mem: Mem, root: nat, vpn: nat, q: nat, level: nat, e: Pte)
    requires level < 2 && Reaches(mem, root, vpn, 0, q, level) && Slot(mem, q) && mem[q][Index(vpn, level)] == e
    requires e.flags.v && !Rwx(e)
    ensures Translate(mem, root, vpn) != Some(Found(e, level))
  {
    ReachesFind(mem, root, vpn, 0, q, level);
    FindBelow(mem, e.ppn, vpn, level + 1);
  }

  /** No table is placed below the entry of `vpn` at `level`. */
  ghost predicate NoneBelow(place: map<nat, Place>, vpn: nat, level: nat)
    requires level <= 2
  {
    forall t :: t in place ==> place[t] != Place(level + 1, Prefix(vpn, level + 1))
  }

  lemma EntryEmpty(mem: Mem, place: map<nat, Place>, root: nat, limit: nat, q: nat, level: nat, vpn: nat)
    requires Tree(mem, place, root, limit) && Own(vpn, limit) && level <= 2 && OnPath(place, q, vpn, level)
    ensures !mem[q][Index(vpn, level)].flags.v <==> Find(mem, q, vpn, level) == None && NoneBelow(place, vpn, level)
  {
    PrefixStep(vpn, level);
    var e := mem[q][Index(vpn, level)];
    if level < 2 {
      if IsPointer(e) {
        StepOnPath(mem, place, root, limit, q, vpn, level);
      } else {
        forall t | t in place ensures place[t] != Place(level + 1, Prefix(vpn, level + 1)) {
          FreePlace(mem, place, root, limit, q, Index(vpn, level), t);
        }
      }
    }
  }

  lemma NoneBelowKept(mem: Mem, place: map<nat, Place>, mem': Mem, place': map<nat, Place>, root: nat, limit: nat,
                      level: nat, vpn: nat)
    requires Extended(mem, place, mem', place', root, limit, level) && Own(vpn, limit) && level <= 2
    ensures NoneBelow(place', vpn, level) <==> NoneBelow(place, vpn, level)
    ensures Translate(mem', root, vpn) == Translate(mem, root, vpn)
  {
    hide Translate, Find;
  }

  /** The entry at the end of an open walk is invalid exactly when nothing was mapped and no table hung there. */
  lemma EntryFree(mem: Mem, place: map<nat, Place>, mem': Mem, place': map<nat, Place>, root: nat, limit: nat, q: nat,
                  level: nat, vpn: nat)
    requires Tree(mem', place', root, limit) && Own(vpn, limit) && level <= 2 && OnPath(place', q, vpn, level)
    requires Reaches(mem', root, vpn, 0, q, level) && Extended(mem, place, mem', place', root, limit, level)
    ensures Slot(mem', q)
    ensures !mem'[q][Index(vpn, level)].flags.v <==> Translate(mem, root, vpn) == None && NoneBelow(place, vpn, level)
  {
    ReachesFind(mem', root, vpn, 0, q, level);
    EntryEmpty(mem', place', root, limit, q, level, vpn);
    hide Find, Reaches, Extended, NoneBelow;
    NoneBelowKept(mem, place, mem', place', root, limit, level, vpn);
  }

  /** A page of this size can be told from a table. */
  predicate Accessible(flags: Flags, level: nat) {
    level == 2 || flags.r || flags.w || flags.x
  }

  /** Exactly the page numbers of the block of `vpn` at `level` translate to `now`, and all others as before. */
  ghost predicate Becomes(mem: Mem, mem': Mem, root: nat, limit: nat, vpn: nat, level: nat, now: Option<Found>)
    requires level <= 2
  {
    forall o :: Own(o, limit) ==> Translate(mem', root, o) == Replaced(o, vpn, level, now, Translate(mem, root, o))
  }

  /** What writing entry `e` at the end of the walk of `vpn` does to the whole table. */
  lemma WriteLaw(mem: Mem, place: map<nat, Place>, root: nat, limit: nat, q: nat, level: nat, vpn: nat, e: Pte)
    requires Tree(mem, place, root, limit) && Own(vpn, limit) && level <= 2 && limit <= ENTRIES
    requires OnPath(place, q, vpn, level) && Reaches(mem, root, vpn, 0, q, level)
    requires level == 2 || !IsPointer(mem[q][Index(vpn, level)])
    requires (IsLeaf(e, level) && e.flags.v) || e == EMPTY
    ensures Slot(mem, q)
    ensures var mem' := mem[q := mem[q][Index(vpn, level) := e]];
      var now := if e == EMPTY then None else Some(Found(e, level));
      && Tree(mem', place, root, limit) && Confined(mem, place, mem', place, root, limit)
      && Becomes(mem, mem', root, limit, vpn, level, now)
  {
    hide Tree, Confined, Translate, Reaches, Prefix, SameTail;
    WriteReady(mem, place, root, limit, q, level, vpn, e);
    var mem' := mem[q := mem[q][Index(vpn, level) := e]];
    var now := if e == EMPTY then None else Some(Found(e, level));
    forall o | Own(o, limit)
      ensures Translate(mem', root, o) == Replaced(o, vpn, level, now, Translate(mem, root, o))
    {
      WriteTranslate(mem, place, root, limit, q, level, vpn, e, o);
    }
  }

  /** Adding tables and then writing the leaf, seen from the state before both. */
  lemma MapWorks(mem: Mem, place: map<nat, Place>, grown: Mem, place': map<nat, Place>, root: nat, limit: nat, q: nat,
                 level: nat, vpn: nat, e: Pte)
    requires Tree(grown, place', root, limit) && Own(vpn, limit) && level <= 2 && limit <= ENTRIES
    requires Extended(mem, place, grown, place', root, limit, level)
    requires OnPath(place', q, vpn, level) && Reaches(grown, root, vpn, 0, q, level)
    requires level == 2 || !IsPointer(grown[q][Index(vpn, level)])
    requires IsLeaf(e, level) && e.flags.v
    ensures Slot(grown, q)
    ensures var mem' := grown[q := grown[q][Index(vpn, level) := e]];
      && Tree(mem', place', root, limit) && Confined(mem, place, mem', place', root, limit)
      && Translate(mem', root, vpn) == Some(Found(e, level))
      && Becomes(mem, mem', root, limit, vpn, level, Some(Found(e, level)))
  {
    WriteLaw(grown, place', root, limit, q, level, vpn, e);
    hide Tree, Confined, Find, Reaches;
    var mem' := grown[q := grown[q][Index(vpn, level) := e]];
    ConfinedTrans(mem, place, grown, place', mem', place', root, limit);
  }

  /** The two ways to overwrite an invalid entry at the end of a walk that went wrong: through a larger leaf, or with an
      entry that cannot be told from a pointer. The page number does not get the new leaf. */
  lemma MapFails(mem: Mem, place: map<nat, Place>, root: nat, limit: nat, vpn: nat, mem': Mem, q: nat, level: nat,
                 e: Pte)
    requires Tree(mem, place, root, limit) && Own(vpn, limit) && level <= 2 && Kept(mem, mem')
    requires Slot(mem', q) && !mem'[q][Index(vpn, level)].flags.v && e.flags.v
    requires Blocked(mem, root, vpn, level) || (level < 2 && !Rwx(e) && Reaches(mem', root, vpn, 0, q, level))
    ensures var mem'' := mem'[q := mem'[q][Index(vpn, level) := e]];
      && Translate(mem'', root, vpn) != Some(Found(e, level))
      && (Blocked(mem, root, vpn, level) ==> Translate(mem'', root, vpn) == Translate(mem, root, vpn))
  {
    var mem'' := mem'[q := mem'[q][Index(vpn, level) := e]];
    assert Kept(mem', mem'') && Kept(mem, mem'');
    if Blocked(mem, root, vpn, level) {
      KeptFind(mem, mem'', place, root, limit, root, vpn, 0);
    } else {
      KeptReaches(mem', mem'', root, vpn, 0, q, level);
      NoRightsNoLeaf(mem'', root, vpn, q, level, e);
    }
  }

  /** The kernel got through, or stopped: on an assertion, without frames, or outside memory. */
  datatype Outcome = Done | Stopped

  /** Page-table memory shared by all address spaces, and the free frames in allocation order. */
  class Physical {
    var mem: Mem
    var pool: seq<nat>

    constructor (pool: seq<nat>)
      requires NoRepeats(pool)
      ensures mem == map[] && this.pool == pool
    {
      mem, this.pool := map[], pool;
    }

    ghost predicate Valid()
      reads this
    {
      Unplaced(mem, pool)
    }

    method AllocTable() returns (f: nat)
      requires Valid() && pool != []
      modifies this
      ensures Valid() && f == old(pool)[0] && pool == old(pool)[1..] && f !in old(mem)
      ensures mem == old(mem)[f := Blank()]
    {
      f := pool[0];
      assert f in pool;
      pool := pool[1..];
      mem := mem[f := Blank()];
    }

    method Write(q: nat, i: nat, e: Pte)
      requires Valid() && Slot(mem, q) && i < ENTRIES
      modifies this`mem
      ensures Valid() && mem == old(mem)[q := old(mem)[q][i := e]]
    {
      mem := mem[q := mem[q][i := e]];
    }
  }

  /** The flags that end up in an entry: valid and accessed, and dirty at once for writable kernel pages. */
  function FinalFlags(flags: Flags): Flags {
    flags.(v := true, a := true, d := flags.d || (flags.w && !flags.u))
  }

  class Table {
    const phys: Physical
    /** How many root entries this table manages itself; the others are shared with the kernel. */
    const limit: nat
    var root: nat
    var frames: seq<nat>
    ghost var place: map<nat, Place>

    ghost predicate Valid()
      reads this, phys
    {
      && phys.Valid() && limit <= ENTRIES && Tree(phys.mem, place, root, limit)
      && (forall q :: q in place <==> q in frames)
    }

    ghost function Look(vpn: nat): Option<Found>
      reads this, phys
    {
      Translate(phys.mem, root, vpn)
    }

    constructor (phys: Physical, limit: nat)
      requires phys.Valid() && phys.pool != [] && limit <= ENTRIES
      modifies phys
      ensures Valid() && this.phys == phys && this.limit == limit
      ensures root !in old(phys.mem) && phys.mem == old(phys.mem)[root := Blank()]
      ensures forall vpn :: Own(vpn, limit) ==> Look(vpn) == None
    {
      this.phys, this.limit := phys, limit;
      var f := phys.AllocTable();
      root, frames, place := f, [f], map[f := Place(0, 0)];
      new;
      assert Tree(phys.mem, place, root, limit);
    }

    /** The index of `vpn` at each level, by repeated shifting. */
    static method Indexes(vpn: nat) returns (idx: seq<nat>)
      ensures |idx| == 3 && forall level :: 0 <= level <= 2 ==> idx[level] == Index(vpn, level)
    {
      var rest := vpn;
      idx := [0, 0, 0];
      var i := 3;
      while i > 0
        invariant 0 <= i <= 3 && |idx| == 3
        invariant rest == if i == 3 then vpn else if i == 2 then vpn / 0x200 else if i == 1 then vpn / 0x4_0000
                          else vpn / 0x800_0000
        invariant forall level :: i <= level <= 2 ==> idx[level] == Index(vpn, level)
      {
        i := i - 1;
        idx := idx[i := rest % ENTRIES];
        rest := rest / ENTRIES;
      }
    }

    /** Walk to the leaf entry; `q` is the page that holds it. */
    method FindPte(vpn: nat) returns (r: Option<Found>, q: nat)
      requires Valid() && Own(vpn, limit)
      ensures r == Look(vpn)
      ensures r.Some? ==> OnPath(place, q, vpn, r.value.level) && Reaches(phys.mem, root, vpn, 0, q, r.value.level)
      ensures r.Some? ==> phys.mem[q][Index(vpn, r.value.level)] == r.value.pte && r.value.pte.flags.v
      ensures r.Some? ==> r.value.level <= 2 && IsLeaf(r.value.pte, r.value.level)
    {
      var idx := Indexes(vpn);
      q := root;
      var i := 0;
      while i < 3
        invariant 0 <= i <= 3
        invariant i < 3 ==> OnPath(place, q, vpn, i) && Reaches(phys.mem, root, vpn, 0, q, i)
        invariant i < 3 ==> Find(phys.mem, q, vpn, i) == Look(vpn)
        invariant i == 3 ==> Look(vpn) == None
      {
        var pte := phys.mem[q][idx[i]];
        if (i == 2 && pte.flags.v) || (i < 2 && Rwx(pte)) {
          return Some(Found(pte, i)), q;
        }
        if !pte.flags.v {
          return None, q;
        }
        if i < 2 {
          StepOnPath(phys.mem, place, root, limit, q, vpn, i);
          ReachesExtend(phys.mem, root, vpn, 0, q, i);
        }
        q := pte.ppn;
        i := i + 1;
      }
      return None, q;
    }

    /** Walk to the page that holds the entry for `vpn` at `level`, adding the tables that are missing. */
    method FindPteCreate(vpn: nat, level: nat) returns (r: Option<nat>)
      requires Valid() && Own(vpn, limit) && level <= 2
      modifies this`frames, this`place, phys
      ensures phys.Valid()
      ensures Ended(Walked(old(phys.mem), old(phys.pool), root, vpn, 0, level), r, phys.mem, phys.pool)
      ensures !Blocked(old(phys.mem), root, vpn, level) ==> Valid()
      ensures !Blocked(old(phys.mem), root, vpn, level) && r.Some? ==>
        && Extended(old(phys.mem), old(place), phys.mem, place, root, limit, level)
        && OnPath(place, r.value, vpn, level) && Reaches(phys.mem, root, vpn, 0, r.value, level)
    {
      hide Tree, Confined, SameView, Extended, Walked;
      WalkStart(phys.mem, place, root, limit, vpn);
      ghost var open := !Blocked(phys.mem, root, vpn, level);
      var idx := Indexes(vpn);
      var q := root;
      var i := 0;
      while i < level
        invariant 0 <= i <= level && phys.Valid()
        invariant Walked(phys.mem, phys.pool, q, vpn, i, level)
               == Walked(old(phys.mem), old(phys.pool), root, vpn, 0, level)
        invariant open ==> Valid() && Extended(old(phys.mem), old(place), phys.mem, place, root, limit, i)
        invariant open ==> OnPath(place, q, vpn, i) && Reaches(phys.mem, root, vpn, 0, q, i)
      {
        ghost var mem, was := phys.mem, place;
        if open {
          ViewKept(old(phys.mem), old(place), mem, was, root, limit, i, vpn);
        }
        var next := Descend(q, idx[i], i, vpn, level, open);
        if next.None? {
          return None;
        }
        if open {
          ExtendedTrans(old(phys.mem), old(place), mem, was, phys.mem, place, root, limit, i);
        }
        q := next.value;
        i := i + 1;
      }
      WalkEnds(phys.mem, phys.pool, q, vpn, level);
      if q !in phys.mem || |phys.mem[q]| != ENTRIES {
        return None;
      }
      return Some(q);
    }

    /** One level of the walk: enter the next table, which is added first when the entry is empty. */
    method Descend(q: nat, idx: nat, level: nat, vpn: nat, ghost target: nat, ghost open: bool)
      returns (next: Option<nat>)
      requires phys.Valid() && level < target <= 2 && idx == Index(vpn, level)
      requires open ==> Valid() && Own(vpn, limit) && !Blocked(phys.mem, root, vpn, target)
      requires open ==> OnPath(place, q, vpn, level) && Reaches(phys.mem, root, vpn, 0, q, level)
      modifies this`frames, this`place, phys
      ensures phys.Valid() && (open ==> Valid())
      ensures Walked(old(phys.mem), old(phys.pool), q, vpn, level, target)
           == if next.None? then None else Walked(phys.mem, phys.pool, next.value, vpn, level + 1, target)
      ensures open && next.Some? ==>
        && Extended(old(phys.mem), old(place), phys.mem, place, root, limit, level + 1)
        && OnPath(place, next.value, vpn, level + 1) && Reaches(phys.mem, root, vpn, 0, next.value, level + 1)
    {
      if q !in phys.mem || |phys.mem[q]| != ENTRIES {
        return None;
      }
      var pte := phys.mem[q][idx];
      if open {
        ReachesFind(phys.mem, root, vpn, 0, q, level);
        assert !IsLeaf(pte, level);
      }
      if !pte.flags.v {
        if phys.pool == [] {
          return None;
        }
        AddTable(q, level, vpn, open);
        pte := phys.mem[q][idx];
      }
      if open {
        StepOnPath(phys.mem, place, root, limit, q, vpn, level);
        ReachesExtend(phys.mem, root, vpn, 0, q, level);
      }
      next := Some(pte.ppn);
    }

    /** Allocate a table page below an empty entry on the path of `vpn`. */
    method AddTable(q: nat, level: nat, vpn: nat, ghost open: bool)
      requires phys.Valid() && level < 2 && phys.pool != [] && Slot(phys.mem, q)
      requires !phys.mem[q][Index(vpn, level)].flags.v
      requires open ==> Valid() && Own(vpn, limit) && !IsLeaf(phys.mem[q][Index(vpn, level)], level)
      requires open ==> OnPath(place, q, vpn, level) && Reaches(phys.mem, root, vpn, 0, q, level)
      modifies this`frames, this`place, phys
      ensures phys.Valid() && phys.pool == old(phys.pool)[1..]
      ensures phys.mem == Grown(old(phys.mem), q, Index(vpn, level), old(phys.pool)[0])
      ensures Slot(phys.mem, q) && phys.mem[q][Index(vpn, level)] == Pte(old(phys.pool)[0], TABLE_FLAGS)
      ensures open ==>
        && Valid() && Extended(old(phys.mem), old(place), phys.mem, place, root, limit, level + 1)
        && OnPath(place, q, vpn, level) && Reaches(phys.mem, root, vpn, 0, q, level)
    {
      ghost var mem := phys.mem;
      ghost var was := place;
      var i := Index(vpn, level);
      var f := phys.AllocTable();
      phys.Write(q, i, Pte(f, TABLE_FLAGS));
      frames := frames + [f];
      assert phys.mem == Grown(mem, q, i, f);
      if open {
        place := Placed(place, q, i, f);
        GrowConfined(mem, was, root, limit, q, level, vpn, f);
      }
    }

    /** Overwrite the entry that the walk of `vpn` ends at. */
    method WriteEntry(q: nat, level: nat, vpn: nat, e: Pte)
      requires Valid() && Own(vpn, limit) && level <= 2
      requires OnPath(place, q, vpn, level) && Reaches(phys.mem, root, vpn, 0, q, level)
      requires level == 2 || !IsPointer(phys.mem[q][Index(vpn, level)])
      requires (IsLeaf(e, level) && e.flags.v) || e == EMPTY
      modifies phys`mem
      ensures Valid() && Confined(old(phys.mem), old(place), phys.mem, place, root, limit) && place == old(place)
      ensures Becomes(old(phys.mem), phys.mem, root, limit, vpn, level,
                      if e == EMPTY then None else Some(Found(e, level)))
    {
      hide Tree, Confined, Translate, Reaches, Prefix, SameTail, Becomes;
      WriteLaw(phys.mem, place, root, limit, q, level, vpn, e);
      phys.Write(q, Index(vpn, level), e);
    }

    /** Map one page of the size given by `level`; the pages of the same block all see the new entry. Below a larger
        leaf, and for a large page without access rights, the kernel gets through and maps nothing. */
    method Map(vpn: nat, ppn: nat, flags: Flags, level: nat) returns (r: Outcome)
      requires Valid() && Own(vpn, limit) && level <= 2
      modifies this`frames, this`place, phys
      ensures r.Done? <==> EndsEmpty(old(phys.mem), old(phys.pool), root, vpn, level)
      ensures !Blocked(old(phys.mem), root, vpn, level) ==>
        (r.Done? <==>
          && old(Look(vpn)) == None && NoneBelow(old(place), vpn, level)
          && |old(phys.pool)| >= Missing(old(phys.mem), root, vpn, 0, level))
      ensures r.Done? ==>
        (Look(vpn) == Leaf(ppn, flags, level) <==>
          !Blocked(old(phys.mem), root, vpn, level) && Accessible(flags, level))
      ensures r.Done? && Blocked(old(phys.mem), root, vpn, level) ==> Look(vpn) == old(Look(vpn))
      ensures r.Done? && !Blocked(old(phys.mem), root, vpn, level) && Accessible(flags, level) ==>
        && Valid() && Confined(old(phys.mem), old(place), phys.mem, place, root, limit)
        && Becomes(old(phys.mem), phys.mem, root, limit, vpn, level, Leaf(ppn, flags, level))
    {
      hide Tree, Confined, Extended, Walked, Missing, Reaches, Find, Kept, OnPath, Becomes, NoneBelow;
      ghost var mem, was, open := phys.mem, place, !Blocked(phys.mem, root, vpn, level);
      RootPath(mem, place, root, limit, vpn);
      if open {
        WalkNeeds(mem, phys.pool, place, root, limit, root, vpn, 0, level);
      }
      var q := FindPteCreate(vpn, level);
      if q.None? {
        return Stopped;
      }
      if open {
        EntryFree(mem, was, phys.mem, place, root, limit, q.value, level, vpn);
      }
      if phys.mem[q.value][Index(vpn, level)].flags.v {
        return Stopped;
      }
      var e := Pte(ppn, FinalFlags(flags));
      WalkKeeps(mem, old(phys.pool), root, vpn, 0, level);
      if open && Accessible(flags, level) {
        MapWorks(mem, was, phys.mem, place, root, limit, q.value, level, vpn, e);
      } else {
        MapFails(mem, was, root, limit, vpn, phys.mem, q.value, level, e);
      }
      phys.Write(q.value, Index(vpn, level), e);
      return Done;
    }

    /** Remove the leaf that maps `vpn`, whatever its size. */
    method Unmap(vpn: nat) returns (r: Outcome)
      requires Valid() && Own(vpn, limit)
      modifies phys`mem
      ensures r.Done? <==> old(Look(vpn)).Some?
      ensures Valid() && Confined(old(phys.mem), old(place), phys.mem, place, root, limit) && place == old(place)
      ensures r.Stopped? ==> phys.mem == old(phys.mem)
      ensures r.Done? ==>
        var level := old(Look(vpn)).value.level;
        level <= 2 && Becomes(old(phys.mem), phys.mem, root, limit, vpn, level, None)
    {
      ConfinedSelf(phys.mem, place, root, limit);
      var e, q := FindPte(vpn);
      if e.None? {
        return Stopped;
      }
      WriteEntry(q, e.value.level, vpn, EMPTY);
      return Done;
    }

    /** Replace the leaf that maps `vpn`. A large one without access rights is a leaf no longer. */
    method SetEntry(vpn: nat, ppn: nat, flags: Flags) returns (r: Outcome)
      requires Valid() && Own(vpn, limit)
      modifies phys`mem
      ensures r.Done? <==> old(Look(vpn)).Some?
      ensures r.Stopped? ==> phys.mem == old(phys.mem)
      ensures r.Done? ==>
        var level := old(Look(vpn)).value.level;
        level <= 2 && (Look(vpn) == Leaf(ppn, flags, level) <==> Accessible(flags, level))
      ensures r.Done? && Accessible(flags, old(Look(vpn)).value.level) ==>
        var level := old(Look(vpn)).value.level;
        && Valid() && Confined(old(phys.mem), old(place), phys.mem, place, root, limit) && place == old(place)
        && Becomes(old(phys.mem), phys.mem, root, limit, vpn, level, Leaf(ppn, flags, level))
    {
      hide Tree, Confined, Find, Reaches, Replaced;
      RootPath(phys.mem, place, root, limit, vpn);
      var found, q := FindPte(vpn);
      if found.None? {
        return Stopped;
      }
      var level, e := found.value.level, Pte(ppn, FinalFlags(flags));
      ghost var mem := phys.mem;
      WalkSlot(mem, place, root, limit, q, vpn, level);
      if Accessible(flags, level) {
        WriteLaw(mem, place, root, limit, q, level, vpn, e);
      }
      phys.Write(q, Index(vpn, level), e);
      if Accessible(flags, level) {
        ReplacedSame(vpn, level, Leaf(ppn, flags, level), old(Look(vpn)));
      } else {
        ReachesAfter(mem, phys.mem, place, root, limit, root, vpn, vpn, 0, q, level);
        NoRightsNoLeaf(phys.mem, root, vpn, q, level, e);
      }
      return Done;
    }

    /** Move a 4K entry to another page number: nothing else changes, and on failure nothing at all. */
    method MoveEntry(src: nat, dst: nat) returns (ok: bool, r: Outcome)
      requires Valid() && Own(src, limit) && Own(dst, limit)
      modifies this`frames, this`place, phys
      ensures Valid()
      ensures ok ==> r.Done?
      ensures r.Stopped? <==>
        && src != dst && old(Look(src)).Some? && old(Look(src)).value.level == 2 && old(Look(dst)).None?
        && |old(phys.pool)| < Missing(old(phys.mem), root, dst, 0, 2)
      ensures r.Done? ==>
        && Confined(old(phys.mem), old(place), phys.mem, place, root, limit)
        && (ok <==> src == dst || (old(Look(src)).Some? && old(Look(src)).value.level == 2 && old(Look(dst)).None?))
      ensures r.Done? && (!ok || src == dst) ==> SameView(old(phys.mem), phys.mem, root, limit)
      ensures ok && src != dst ==>
        forall o :: Own(o, limit) ==>
          Look(o) == if o == src then None else if o == dst then old(Look(src)) else old(Look(o))
    {
      hide Tree, Confined, Reaches, Find, Walked, Missing;
      ConfinedSelf(phys.mem, place, root, limit);
      RootPath(phys.mem, place, root, limit, dst);
      if src == dst {
        return true, Done;
      }
      var from, p := FindPte(src);
      if from == None || !from.value.pte.flags.v || from.value.level != 2 {
        return false, Done;
      }
      var to, t := FindPte(dst);
      if to.Some? && to.value.pte.flags.v {
        return false, Done;
      }
      WalkNeeds(phys.mem, phys.pool, place, root, limit, root, dst, 0, 2);
      var q := FindPteCreate(dst, 2);
      if q.None? {
        return false, Stopped;
      }
      LeafSlot(phys.mem, place, root, limit, q.value, dst);
      if phys.mem[q.value][Index(dst, 2)].flags.v {
        return false, Done;
      }
      ghost var mem := phys.mem;
      WriteEntry(q.value, 2, dst, from.value.pte);
      ConfinedTrans(old(phys.mem), old(place), mem, place, phys.mem, place, root, limit);
      var again, s := FindPte(src);
      mem := phys.mem;
      WriteEntry(s, 2, src, EMPTY);
      ConfinedTrans(old(phys.mem), old(place), mem, place, phys.mem, place, root, limit);
      return true, Done;
    }

    /** Copy the kernel's upper root entries: from then on both roots translate the upper half alike. */
    method ShareKernelHalf(kernel: Table)
      requires Valid() && kernel.Valid() && kernel.phys == phys && limit == KERNEL_ROOT_START
      requires root !in kernel.place && root !in phys.pool
      modifies phys`mem
      ensures Valid() && kernel.Valid()
      ensures SameTail(phys.mem[root], phys.mem[kernel.root], KERNEL_ROOT_START)
      ensures SameView(old(phys.mem), phys.mem, root, limit)
      ensures SameView(old(phys.mem), phys.mem, kernel.root, kernel.limit)
      ensures forall o: nat :: Index(o, 0) >= KERNEL_ROOT_START ==> Look(o) == kernel.Look(o)
    {
      hide Tree, SameView, Find;
      RootSlot(phys.mem, place, root, limit);
      RootSlot(phys.mem, kernel.place, kernel.root, kernel.limit);
      var page := phys.mem[root][..KERNEL_ROOT_START] + phys.mem[kernel.root][KERNEL_ROOT_START..];
      SharedRoots(phys.mem, place, root, kernel.place, kernel.root, kernel.limit, page);
      phys.mem := phys.mem[root := page];
    }
  }

  lemma WalkEnds(mem: Mem, pool: seq<nat>, q: nat, vpn: nat, level: nat)
    requires level <= 2
    ensures Walked(mem, pool, q, vpn, level, level) == if Slot(mem, q) then Some(Walk(mem, pool, q)) else None
  {
  }

  /** A root with a 1G leaf whose frame is clear memory: mapping a 4K page below it gets through, and leaves the page
      number with the large leaf. */
  lemma LeafInTheWay() returns (mem: Mem, place: map<nat, Place>, root: nat)
    ensures Tree(mem, place, root, KERNEL_ROOT_START)
    ensures Blocked(mem, root, 0, 2) && EndsEmpty(mem, [2], root, 0, 2)
  {
    var leaf := Pte(7, TABLE_FLAGS.(r := true));
    mem, place, root := map[1 := Blank()[0 := leaf], 7 := Blank()], map[1 := Place(0, 0)], 1;
    assert Index(0, 0) == 0;
    BlankNeeds(mem, [2], 7, 0, 1, 2);
    assert Walked(mem, [2], root, 0, 0, 2) == Walked(mem, [2], 7, 0, 1, 2);
  }

  /** An empty root: mapping a 1G page without access rights gets through, and maps nothing. */
  lemma NoRights() returns (mem: Mem, place: map<nat, Place>, root: nat, flags: Flags)
    ensures Tree(mem, place, root, KERNEL_ROOT_START) && !Accessible(flags, 0)
    ensures !Blocked(mem, root, 0, 0) && EndsEmpty(mem, [], root, 0, 0)
  {
    mem, place, root, flags := map[1 := Blank()], map[1 := Place(0, 0)], 1, NO_FLAGS;
  }

  lemma RootPath(mem: Mem, place: map<nat, Place>, root: nat, limit: nat, vpn: nat)
    requires Tree(mem, place, root, limit)
    ensures OnPath(place, root, vpn, 0) && Translate(mem, root, vpn) == Find(mem, root, vpn, 0)
  {
  }

  lemma WalkSlot(mem: Mem, place: map<nat, Place>, root: nat, limit: nat, q: nat, vpn: nat, level: nat)
    requires Tree(mem, place, root, limit) && level <= 2 && OnPath(place, q, vpn, level)
    ensures Slot(mem, q) && forall t :: t in place ==> t in mem
  {
  }

  lemma ReplacedSame(vpn: nat, level: nat, now: Option<Found>, before: Option<Found>)
    requires level <= 2
    ensures Replaced(vpn, vpn, level, now, before) == now
  {
  }

  lemma RootSlot(mem: Mem, place: map<nat, Place>, root: nat, limit: nat)
    requires Tree(mem, place, root, limit)
    ensures Slot(mem, root)
  {
  }

  /** The memory after the copy: both trees and their own views stay, and the upper half is common. */
  lemma SharedRoots(mem: Mem, place: map<nat, Place>, root: nat, other: map<nat, Place>, otherRoot: nat, limit: nat,
                    page: seq<Pte>)
    requires Tree(mem, place, root, KERNEL_ROOT_START) && Tree(mem, other, otherRoot, limit)
    requires root !in other && limit <= ENTRIES
    requires page == mem[root][..KERNEL_ROOT_START] + mem[otherRoot][KERNEL_ROOT_START..]
    ensures var mem' := mem[root := page];
      && Tree(mem', place, root, KERNEL_ROOT_START) && SameView(mem, mem', root, KERNEL_ROOT_START)
      && Tree(mem', other, otherRoot, limit) && SameView(mem, mem', otherRoot, limit)
      && Slot(mem', root) && SameTail(page, mem'[otherRoot], KERNEL_ROOT_START)
      && forall o: nat :: Index(o, 0) >= KERNEL_ROOT_START ==> Translate(mem', root, o) == Translate(mem', otherRoot, o)
  {
    var mem' := mem[root := page];
    UpperHalfOnly(mem, place, root, other, otherRoot, limit, page);
    OthersAgree(mem, mem', place, root, KERNEL_ROOT_START);
    OthersAgree(mem, mem', other, otherRoot, limit);
    forall o: nat | Index(o, 0) >= KERNEL_ROOT_START ensures Translate(mem', root, o) == Translate(mem', otherRoot, o) {
      SharedHalfAgrees(mem', root, otherRoot, o);
    }
  }

  lemma Stitched(a: seq<Pte>, b: seq<Pte>, start: nat)
    requires start <= |a| == |b| && Honest(a) && Honest(b)
    ensures Honest(a[..start] + b[start..]) && SameOwn(a, a[..start] + b[start..], start)
    ensures SameTail(a[..start] + b[start..], b, start)
  {
  }

  /** Replacing the upper half of a root by another root's leaves the own entries of both trees alone. */
  lemma UpperHalfOnly(mem: Mem, place: map<nat, Place>, root: nat, other: map<nat, Place>, otherRoot: nat, limit: nat,
                      page: seq<Pte>)
    requires Slots(mem, place) && Slots(mem, other) && root in place && otherRoot in other && root !in other
    requires page == mem[root][..KERNEL_ROOT_START] + mem[otherRoot][KERNEL_ROOT_START..]
    ensures AgreeOwn(mem, mem[root := page], place, root, KERNEL_ROOT_START)
    ensures AgreeOwn(mem, mem[root := page], other, otherRoot, limit)
    ensures Slot(mem[root := page], root) && SameTail(page, mem[otherRoot], KERNEL_ROOT_START)
  {
    Stitched(mem[root], mem[otherRoot], KERNEL_ROOT_START);
  }

  /** A table whose own entries did not change keeps its tree and its translations. */
  lemma OthersAgree(mem: Mem, mem': Mem, place: map<nat, Place>, root: nat, limit: nat)
    requires Tree(mem, place, root, limit) && limit <= ENTRIES && AgreeOwn(mem, mem', place, root, limit)
    ensures Tree(mem', place, root, limit) && SameView(mem, mem', root, limit)
  {
    TreeAgree(mem, mem', place, root, limit);
    forall o | Own(o, limit) ensures Translate(mem', root, o) == Translate(mem, root, o) {
      FindAgree(mem, mem', place, root, limit, root, o, 0);
    }
  }
}
