/** Checking a range, and what new permissions do to pages and entries. */
module AreaProtect {
  import opened Common
  import opened PageTable
  import opened AddressSpace
  import opened AreaSplit

  datatype Errno = EINVAL | ENOMEM | EACCES

  ghost predicate IsAffected(areas: Areas, keys: seq<nat>, from: nat, s: nat, e: nat) {
    && (forall i, j :: 0 <= i < j < |keys| ==> keys[i] < keys[j])
    && (forall i :: 0 <= i < |keys| ==> keys[i] in areas && keys[i] >= from && Meets(areas[keys[i]], s, e))
    && (forall k :: k in areas && k >= from && Meets(areas[k], s, e) ==> k in keys)
  }

  /** Every page of the range is mapped. */
  ghost predicate Backed(areas: Areas, s: nat, e: nat) {
    forall v: nat :: s <= v < e ==> Mapped(areas, v)
  }

  predicate Changeable(a: Area, write: bool) {
    a.kind != Guard && !(write && a.shared && a.file.Some? && !a.file.value.writable)
  }

  /** When a range may be protected or locked. */
  ghost predicate Permitted(areas: Areas, s: nat, e: nat, write: bool) {
    && Backed(areas, s, e)
    && forall k :: k in areas && Meets(areas[k], s, e) ==> Changeable(areas[k], write)
  }

  /** The first `i` areas passed, and leave no hole before `covered`. */
  ghost predicate Checked(areas: Areas, keys: seq<nat>, i: nat, s: nat, covered: nat, write: bool)
    requires i <= |keys| && forall i :: 0 <= i < |keys| ==> keys[i] in areas
  {
    && (forall j :: 0 <= j < i ==> Changeable(areas[keys[j]], write))
    && Backed(areas, s, covered)
    && s <= covered
    && (forall j :: 0 <= j < i ==> areas[keys[j]].end <= covered)
    && (if i == 0 then covered == s else covered == areas[keys[i - 1]].end && keys[0] <= s)
  }

  lemma AffectedNone(areas: Areas, s: nat, e: nat)
    requires GoodAreas(areas)
    ensures IsAffected(areas, [], e, s, e)
  {
  }

  /** The scan at key `c`: below an area that ends by the range nothing more can meet it. */
  lemma AffectedStep(areas: Areas, keys: seq<nat>, c: nat, s: nat, e: nat)
    requires GoodAreas(areas) && c < e && IsAffected(areas, keys, c + 1, s, e)
    ensures c !in areas ==> IsAffected(areas, keys, c, s, e)
    ensures c in areas && areas[c].end <= s ==> IsAffected(areas, keys, 0, s, e)
    ensures c in areas && areas[c].end > s ==> IsAffected(areas, [c] + keys, c, s, e)
  {
  }

  lemma EdgeAreas(areas: Areas, keys: seq<nat>, s: nat, e: nat)
    requires GoodAreas(areas) && IsAffected(areas, keys, 0, s, e) && keys != []
    ensures var first, last := keys[0], keys[|keys| - 1];
      first in areas && last in areas && areas[first].end > s && last < e
  {
  }

  lemma CheckedNone(areas: Areas, keys: seq<nat>, s: nat, write: bool)
    requires forall i :: 0 <= i < |keys| ==> keys[i] in areas
    ensures Checked(areas, keys, 0, s, s, write)
  {
  }

  lemma NoneLeft(areas: Areas, keys: seq<nat>, s: nat, covered: nat, write: bool)
    requires (forall i :: 0 <= i < |keys| ==> keys[i] in areas) && Checked(areas, keys, |keys|, s, covered, write)
    ensures keys == [] ==> covered == s
  {
  }

  /** When every area passed and the last one reaches the end, the range may change. */
  lemma AllChecked(areas: Areas, keys: seq<nat>, s: nat, e: nat, covered: nat, write: bool)
    requires GoodAreas(areas) && s < e && IsAffected(areas, keys, 0, s, e)
    requires Checked(areas, keys, |keys|, s, covered, write)
    requires keys != [] && covered >= e
    ensures Permitted(areas, s, e, write) && keys[0] <= s && areas[keys[|keys| - 1]].end >= e
  {
    forall v: nat | s <= v < e ensures Mapped(areas, v) {
      assert s <= v < covered;
    }
  }

  /** The next area that cannot change, or the hole before it, is in the range. */
  lemma RefusedAt(areas: Areas, keys: seq<nat>, i: nat, s: nat, e: nat, covered: nat, write: bool)
    requires GoodAreas(areas) && s < e && IsAffected(areas, keys, 0, s, e) && i <= |keys|
    requires Checked(areas, keys, i, s, covered, write)
    requires if i < |keys| then !Changeable(areas[keys[i]], write) || keys[i] > covered else covered < e
    ensures !Permitted(areas, s, e, write)
  {
    if i == |keys| || keys[i] > covered {
      forall k: nat ensures !Covers(areas, k, covered) {
        HoleAt(areas, keys, i, s, e, covered, write, k);
      }
      assert !Mapped(areas, covered);
    }
  }

  lemma HoleAt(areas: Areas, keys: seq<nat>, i: nat, s: nat, e: nat, covered: nat, write: bool, k: nat)
    requires GoodAreas(areas) && s < e && IsAffected(areas, keys, 0, s, e) && i <= |keys|
    requires Checked(areas, keys, i, s, covered, write)
    requires if i < |keys| then keys[i] > covered else covered < e
    ensures !Covers(areas, k, covered)
  {
    if k in areas && Meets(areas[k], s, e) {
      var j :| 0 <= j < |keys| && keys[j] == k;
      assert j < i || keys[i] <= keys[j];
    }
  }

  lemma CheckedStep(areas: Areas, keys: seq<nat>, i: nat, s: nat, e: nat, covered: nat, write: bool)
    requires GoodAreas(areas) && s < e && IsAffected(areas, keys, 0, s, e) && i < |keys|
    requires Checked(areas, keys, i, s, covered, write)
    requires Changeable(areas[keys[i]], write) && keys[i] <= covered
    ensures covered <= areas[keys[i]].end && Checked(areas, keys, i + 1, s, areas[keys[i]].end, write)
  {
    var end := areas[keys[i]].end;
    if i > 0 {
      assert areas[keys[i - 1]].end <= keys[i];
    }
    forall v: nat | s <= v < end ensures Mapped(areas, v) {
      if v >= covered {
        assert Covers(areas, keys[i], v);
      }
    }
  }

  // ---- what protection does to entries ----

  /** The entry flags for a permission; pages still shared with the page cache stay read-only. */
  function PteFlags(perm: Perm, cow: bool): Flags {
    FinalFlags(Flags(false, perm.r, perm.w && !cow, perm.x, perm.u, false, false))
  }

  /** Entries after the pages of area `a` below `to` got their flags. */
  function Reflag(pt: Entries, a: Area, perm: Perm, to: nat): Entries {
    map v | v in pt :: if a.start <= v < to && pt[v].flags.v then Pte(pt[v].ppn, PteFlags(perm, a.cacheCow)) else pt[v]
  }

  /** Exactly the pages of the range change, and nothing else about them. */
  ghost predicate IsChanged(p: Option<Page>, p': Option<Page>, v: nat, s: nat, e: nat, c: Change) {
    p' == if s <= v < e && p.Some? then Some(ChangePage(p.value, c)) else p
  }

  ghost predicate PageCow(mm: nat, areas: Areas, v: nat) {
    var p := PageOf(mm, areas, v);
    p.Some? && p.value.cacheCow
  }

  /** Exactly the entries of the range get the new flags; every frame stays. */
  ghost function Reflagged(pt: Entries, mm: nat, areas: Areas, s: nat, e: nat, perm: Perm): Entries {
    map v | v in pt :: if s <= v < e then Pte(pt[v].ppn, PteFlags(perm, PageCow(mm, areas, v))) else pt[v]
  }

  // ---- the loop over the areas of the range ----

  ghost function ChangedBelow(areas: Areas, k: nat, s: nat, e: nat, c: Change): Areas {
    map j | j in areas :: if j < k && Within(j, areas[j], s, e) then ChangeArea(areas[j], c) else areas[j]
  }

  ghost predicate Touched(areas: Areas, k: nat, s: nat, e: nat, v: nat) {
    exists j: nat :: Covers(areas, j, v) && j < k && Within(j, areas[j], s, e)
  }

  ghost function ReflaggedBelow(pt: Entries, mm: nat, areas: Areas, k: nat, s: nat, e: nat, perm: Perm): Entries {
    map v | v in pt :: if Touched(areas, k, s, e, v) then Pte(pt[v].ppn, PteFlags(perm, PageCow(mm, areas, v)))
      else pt[v]
  }

  lemma ProtectStart(mm: nat, areas: Areas, pt: Entries, s: nat, e: nat, perm: Perm)
    ensures ReflaggedBelow(pt, mm, areas, s, s, e, perm) == pt
  {
  }

  lemma ChangedStep(areas: Areas, k: nat, s: nat, e: nat, c: Change)
    requires s <= k < e
    ensures var now, next := ChangedBelow(areas, k, s, e, c), ChangedBelow(areas, k + 1, s, e, c);
      && (k in now <==> k in areas)
      && (k in now ==> now[k] == areas[k])
      && next == if k in areas && areas[k].end <= e then now[k := ChangeArea(areas[k], c)] else now
  {
  }

  lemma ProtectStep(mm: nat, areas: Areas, pt: Entries, k: nat, s: nat, e: nat, perm: Perm)
    requires GoodAreas(areas) && Agree(areas, pt) && s <= k < e
    ensures k in areas ==> areas[k].start <= areas[k].end
    ensures var now, next := ReflaggedBelow(pt, mm, areas, k, s, e, perm),
                             ReflaggedBelow(pt, mm, areas, k + 1, s, e, perm);
      next == if k in areas && areas[k].end <= e then Reflag(now, areas[k], perm, areas[k].end) else now
  {
    hide ReflaggedBelow, Reflag;
    var now, next := ReflaggedBelow(pt, mm, areas, k, s, e, perm), ReflaggedBelow(pt, mm, areas, k + 1, s, e, perm);
    forall v: nat ensures
      && (v in now <==> v in pt) && (v in next <==> v in pt)
      && (v in pt ==> next[v] == if k in areas && areas[k].end <= e then ReflagOne(now[v], areas[k], perm, v)
        else now[v])
    {
      ReflagStep(mm, areas, pt, k, s, e, perm, v);
    }
    ReflagByPage(now, next, if k in areas && areas[k].end <= e then Some(areas[k]) else None, perm);
  }

  function ReflagOne(entry: Pte, a: Area, perm: Perm, v: nat): Pte {
    if a.start <= v < a.end && entry.flags.v then Pte(entry.ppn, PteFlags(perm, a.cacheCow)) else entry
  }

  lemma ReflagByPage(now: Entries, next: Entries, a: Option<Area>, perm: Perm)
    requires forall v: nat ::
      && (v in now <==> v in next)
      && (v in now ==> next[v] == if a.Some? then ReflagOne(now[v], a.value, perm, v) else now[v])
    ensures next == if a.Some? then Reflag(now, a.value, perm, a.value.end) else now
  {
    if a.Some? {
      assert next == Reflag(now, a.value, perm, a.value.end);
    } else {
      assert next == now;
    }
  }

  lemma ReflagStep(mm: nat, areas: Areas, pt: Entries, k: nat, s: nat, e: nat, perm: Perm, v: nat)
    requires GoodAreas(areas) && Agree(areas, pt) && s <= k < e
    ensures var now, next := ReflaggedBelow(pt, mm, areas, k, s, e, perm),
                             ReflaggedBelow(pt, mm, areas, k + 1, s, e, perm);
      && (v in now <==> v in pt) && (v in next <==> v in pt)
      && (v in pt ==> next[v] == if k in areas && areas[k].end <= e then ReflagOne(now[v], areas[k], perm, v)
        else now[v])
  {
    if v in pt {
      var j: nat :| Owns(areas, j, v);
      PageAt(mm, areas, j, v);
      TouchedStep(areas, j, k, s, e, v);
    }
  }

  /** A page is touched exactly when its own area is done. */
  lemma TouchedStep(areas: Areas, j: nat, k: nat, s: nat, e: nat, v: nat)
    requires GoodAreas(areas) && Covers(areas, j, v)
    ensures Touched(areas, k, s, e, v) <==> j < k && Within(j, areas[j], s, e)
    ensures Touched(areas, k + 1, s, e, v) <==> j < k + 1 && Within(j, areas[j], s, e)
    ensures Covers(areas, k, v) <==> j == k
  {
    forall i: nat | Covers(areas, i, v) ensures i == j {
      CoverUnique(areas, i, j, v);
    }
  }

  lemma ProtectEnd(mm: nat, areas: Areas, pt: Entries, s: nat, e: nat, perm: Perm)
    requires GoodAreas(areas) && Agree(areas, pt) && CutAt(areas, s) && CutAt(areas, e) && s <= e
    ensures ReflaggedBelow(pt, mm, areas, e, s, e, perm) == Reflagged(pt, mm, areas, s, e, perm)
  {
    hide Touched, PageCow;
    forall v: nat | v in pt ensures Touched(areas, e, s, e, v) <==> s <= v < e {
      var j: nat :| Owns(areas, j, v);
      TouchedStep(areas, j, e, s, e, v);
      InsideOrOutside(areas, j, s, e, v);
    }
  }

  lemma ChangedAll(areas: Areas, s: nat, e: nat, c: Change)
    ensures ChangedBelow(areas, s, s, e, c) == areas
    ensures ChangedBelow(areas, e, s, e, c) == Changed(areas, s, e, c)
  {
  }

  /** New permissions for the range leave frames and entries in agreement. */
  lemma ReflaggedAgree(mm: nat, areas: Areas, pt: Entries, s: nat, e: nat, perm: Perm)
    requires GoodAreas(areas) && Agree(areas, pt) && CutAt(areas, s) && CutAt(areas, e) && s <= e
    ensures GoodAreas(Changed(areas, s, e, Protect(perm)))
    ensures Agree(Changed(areas, s, e, Protect(perm)), Reflagged(pt, mm, areas, s, e, perm))
  {
    hide Agree, PageOf, GoodAreas, Changed, CutAt;
    var areas', pt' := Changed(areas, s, e, Protect(perm)), Reflagged(pt, mm, areas, s, e, perm);
    ChangedPage(mm, areas, s, e, Protect(perm), 0);
    AgreePages(mm, areas, pt);
    AgreePages(mm, areas', pt');
    forall v: nat ensures (v in pt' <==> Resident(mm, areas', v)) &&
      (v in pt' ==> pt'[v].flags.v && PageOf(mm, areas', v).value.frame == Some(pt'[v].ppn))
    {
      ChangedPage(mm, areas, s, e, Protect(perm), v);
      assert v in pt <==> Resident(mm, areas, v);
    }
  }

  /** The flags depend only on the pages. */
  lemma ReflaggedSame(pt: Entries, mm: nat, areas: Areas, areas': Areas, s: nat, e: nat, perm: Perm)
    requires forall v: nat :: PageOf(mm, areas', v) == PageOf(mm, areas, v)
    ensures Reflagged(pt, mm, areas', s, e, perm) == Reflagged(pt, mm, areas, s, e, perm)
  {
    forall v: nat ensures PageCow(mm, areas', v) == PageCow(mm, areas, v) {
      assert PageOf(mm, areas', v) == PageOf(mm, areas, v);
    }
  }

  lemma SamePagesAgree(mm: nat, areas: Areas, areas': Areas, pt: Entries)
    requires GoodAreas(areas) && GoodAreas(areas') && Agree(areas, pt)
    requires forall v: nat :: PageOf(mm, areas', v) == PageOf(mm, areas, v)
    ensures Agree(areas', pt)
  {
    hide Agree, PageOf, GoodAreas;
    AgreePages(mm, areas, pt);
    AgreePages(mm, areas', pt);
    forall v: nat ensures Resident(mm, areas', v) == Resident(mm, areas, v) {
      assert PageOf(mm, areas', v) == PageOf(mm, areas, v);
    }
  }

  lemma LockedAgree(mm: nat, areas: Areas, pt: Entries, s: nat, e: nat)
    requires GoodAreas(areas) && Agree(areas, pt) && CutAt(areas, s) && CutAt(areas, e) && s <= e
    ensures GoodAreas(Changed(areas, s, e, Lock)) && Agree(Changed(areas, s, e, Lock), pt)
  {
    hide Agree, PageOf, GoodAreas, Changed, CutAt;
    var areas' := Changed(areas, s, e, Lock);
    ChangedPage(mm, areas, s, e, Lock, 0);
    AgreePages(mm, areas, pt);
    AgreePages(mm, areas', pt);
    forall v: nat ensures (v in pt <==> Resident(mm, areas', v)) &&
      (v in pt ==> pt[v].flags.v && PageOf(mm, areas', v).value.frame == Some(pt[v].ppn))
    {
      ChangedPage(mm, areas, s, e, Lock, v);
      assert v in pt <==> Resident(mm, areas, v);
    }
  }
}
