/** Splitting an area at a page, and giving every area inside a range new attributes. */
module AreaSplit {
  import opened Common
  import opened AddressSpace

  /** The area keyed `k` becomes two areas when `at` lies strictly inside it. */
  function Split(areas: Areas, k: nat, at: nat): Areas {
    if k in areas && areas[k].start < at < areas[k].end
    then areas[k := Narrow(areas[k], areas[k].start, at)][at := RightPart(areas[k], at)]
    else areas
  }

  lemma SplitGood(areas: Areas, k: nat, at: nat)
    requires GoodAreas(areas)
    ensures GoodAreas(Split(areas, k, at))
  {
    if k in areas && k < at < areas[k].end {
      NarrowGood(areas[k], k, at);
      NarrowGood(areas[k], at, areas[k].end);
    }
  }

  /** The half that holds page `v` describes it as the whole area did. */
  lemma SplitCovers(mm: nat, areas: Areas, k: nat, at: nat, j: nat, v: nat) returns (i: nat)
    requires GoodAreas(areas) && Covers(areas, j, v)
    ensures Covers(Split(areas, k, at), i, v) && Describe(mm, Split(areas, k, at)[i], v) == Describe(mm, areas[j], v)
  {
    i := j;
    if j == k && k < at < areas[k].end {
      if v < at {
        NarrowPage(mm, areas[k], k, at, v);
      } else {
        i := at;
        NarrowPage(mm, areas[k], at, areas[k].end, v);
      }
    }
  }

  lemma SplitCovered(areas: Areas, k: nat, at: nat, i: nat, v: nat) returns (j: nat)
    requires GoodAreas(areas) && Covers(Split(areas, k, at), i, v)
    ensures Covers(areas, j, v)
  {
    j := if k in areas && k < at < areas[k].end && i == at then k else i;
  }

  /** Splitting changes no page. */
  lemma SplitSame(mm: nat, areas: Areas, k: nat, at: nat, v: nat)
    requires GoodAreas(areas)
    ensures PageOf(mm, Split(areas, k, at), v) == PageOf(mm, areas, v)
  {
    var areas' := Split(areas, k, at);
    SplitGood(areas, k, at);
    if i :| Covers(areas', i, v) {
      var j := SplitCovered(areas, k, at, i, v);
    }
    if j :| Covers(areas, j, v) {
      var i := SplitCovers(mm, areas, k, at, j, v);
      PageAt(mm, areas, j, v);
      PageAt(mm, areas', i, v);
    }
  }

  // ---- pages and owned frames ----

  ghost predicate Resident(mm: nat, areas: Areas, v: nat) {
    var p := PageOf(mm, areas, v);
    p.Some? && p.value.frame.Some?
  }

  lemma OwnsIsPage(mm: nat, areas: Areas, k: nat, v: nat)
    requires GoodAreas(areas) && Owns(areas, k, v)
    ensures Resident(mm, areas, v) && PageOf(mm, areas, v).value.frame == Some(areas[k].frames[v])
  {
    PageAt(mm, areas, k, v);
  }

  lemma PageIsOwned(mm: nat, areas: Areas, v: nat) returns (k: nat)
    requires GoodAreas(areas) && Resident(mm, areas, v)
    ensures Owns(areas, k, v)
  {
    k :| Covers(areas, k, v);
    PageAt(mm, areas, k, v);
  }

  /** Entries agree with the areas exactly when they agree page by page. */
  ghost predicate AgreeByPage(mm: nat, areas: Areas, pt: Entries) {
    forall v: nat :: (v in pt <==> Resident(mm, areas, v)) &&
      (v in pt ==> pt[v].flags.v && PageOf(mm, areas, v).value.frame == Some(pt[v].ppn))
  }

  lemma AgreePages(mm: nat, areas: Areas, pt: Entries)
    requires GoodAreas(areas)
    ensures Agree(areas, pt) <==> AgreeByPage(mm, areas, pt)
  {
    if Agree(areas, pt) {
      forall v: nat ensures (v in pt <==> Resident(mm, areas, v)) &&
        (v in pt ==> pt[v].flags.v && PageOf(mm, areas, v).value.frame == Some(pt[v].ppn))
      {
        if v in pt {
          var k: nat :| Owns(areas, k, v);
          OwnsIsPage(mm, areas, k, v);
        }
        if Resident(mm, areas, v) {
          var k := PageIsOwned(mm, areas, v);
        }
      }
    }
    if AgreeByPage(mm, areas, pt) {
      forall v | v in pt ensures exists k :: Owns(areas, k, v) {
        var k := PageIsOwned(mm, areas, v);
      }
      forall k, v | Owns(areas, k, v) ensures v in pt && pt[v].ppn == areas[k].frames[v] && pt[v].flags.v {
        OwnsIsPage(mm, areas, k, v);
      }
    }
  }

  // ---- new attributes for a range ----

  datatype Change = Protect(perm: Perm) | Lock

  function ChangeArea(a: Area, c: Change): Area {
    match c
    case Protect(perm) => a.(perm := perm)
    case Lock => a.(locked := true)
  }

  function ChangePage(p: Page, c: Change): Page {
    match c
    case Protect(perm) => p.(perm := perm)
    case Lock => p.(locked := true)
  }

  predicate Within(k: nat, a: Area, s: nat, e: nat) {
    s <= k < e && a.end <= e
  }

  function Changed(areas: Areas, s: nat, e: nat, c: Change): Areas {
    map k | k in areas :: if Within(k, areas[k], s, e) then ChangeArea(areas[k], c) else areas[k]
  }

  /** No area crosses page `at`. */
  ghost predicate CutAt(areas: Areas, at: nat) {
    forall k :: k in areas ==> !(areas[k].start < at < areas[k].end)
  }

  lemma SplitCutAt(areas: Areas, k: nat, at: nat)
    requires GoodAreas(areas) && k in areas && k <= at <= areas[k].end
    ensures CutAt(Split(areas, k, at), at)
  {
    forall j | j in Split(areas, k, at) ensures !(Split(areas, k, at)[j].start < at < Split(areas, k, at)[j].end) {
      if j in areas {
        assert j < k ==> areas[j].end <= k;
        assert k < j ==> areas[k].end <= j;
      }
    }
  }

  lemma SplitKeepsCut(areas: Areas, k: nat, at: nat, p: nat)
    requires GoodAreas(areas) && CutAt(areas, p)
    ensures CutAt(Split(areas, k, at), p)
  {
  }

  lemma FirstStays(areas: Areas, first: nat, last: nat, s: nat, e: nat)
    requires GoodAreas(areas) && s < e && first in areas && last in areas
    requires first <= s < areas[first].end && last < e <= areas[last].end
    ensures first in Split(areas, last, e) && first <= s < Split(areas, last, e)[first].end
  {
  }

  lemma DescribeChanged(mm: nat, a: Area, c: Change, v: nat)
    requires In(a, v)
    ensures Describe(mm, ChangeArea(a, c), v) == ChangePage(Describe(mm, a, v), c)
  {
  }

  lemma InsideOrOutside(areas: Areas, k: nat, s: nat, e: nat, v: nat)
    requires GoodAreas(areas) && CutAt(areas, s) && CutAt(areas, e) && s <= e && Covers(areas, k, v)
    ensures Within(k, areas[k], s, e) <==> s <= v < e
  {
  }

  lemma ChangedGood(areas: Areas, s: nat, e: nat, c: Change)
    requires GoodAreas(areas)
    ensures GoodAreas(Changed(areas, s, e, c))
  {
  }

  /** Once both edges are cut, exactly the pages of the range get the new attribute. */
  lemma ChangedPage(mm: nat, areas: Areas, s: nat, e: nat, c: Change, v: nat)
    requires GoodAreas(areas) && CutAt(areas, s) && CutAt(areas, e) && s <= e
    ensures GoodAreas(Changed(areas, s, e, c))
    ensures var p := PageOf(mm, areas, v);
      PageOf(mm, Changed(areas, s, e, c), v) == if s <= v < e && p.Some? then Some(ChangePage(p.value, c)) else p
  {
    var areas' := Changed(areas, s, e, c);
    ChangedGood(areas, s, e, c);
    if k :| Covers(areas, k, v) {
      PageAt(mm, areas, k, v);
      PageAt(mm, areas', k, v);
      DescribeChanged(mm, areas[k], c, v);
      InsideOrOutside(areas, k, s, e, v);
    } else {
      forall k: nat ensures !Covers(areas', k, v) {
        assert !Covers(areas, k, v);
      }
    }
  }

  /** Splitting the last area at `e` and then the first at `s` cuts both edges. */
  lemma SplitCuts(areas: Areas, first: nat, last: nat, s: nat, e: nat)
    requires GoodAreas(areas) && s < e && first in areas && last in areas
    requires first <= s < areas[first].end && last < e <= areas[last].end
    ensures var areas' := Split(Split(areas, last, e), first, s); CutAt(areas', s) && CutAt(areas', e)
  {
    hide Split, CutAt;
    var once := Split(areas, last, e);
    SplitGood(areas, last, e);
    SplitCutAt(areas, last, e);
    FirstStays(areas, first, last, s, e);
    SplitCutAt(once, first, s);
    SplitKeepsCut(once, first, s, e);
  }
}
