/**
 * The sticky navigation header: the scroll-spy that chooses which nav
 * item is current from IntersectionObserver entries, the closest-to-top
 * fallback, `aria-current`, and the offset used by smooth scrolling.
 * Ratios and positions are taken as real numbers given by the browser.
 */
module Navigation {
  import opened Wrappers
  import opened Sequences

  datatype NavItem = NavItem(id: string, labelText: string)

  function Ids(items: seq<NavItem>): (ids: seq<string>)
    ensures |ids| == |items| && forall k :: 0 <= k < |items| ==> ids[k] == items[k].id
  {
    seq(|items|, k requires 0 <= k < |items| => items[k].id)
  }

  /**
   * `sectionEls`: the ids of the items whose element `getElementById`
   * finds (`present` holds the ids of the document's elements), in item order.
   */
  function SectionIds(items: seq<NavItem>, present: set<string>): (r: seq<string>)
    ensures |r| <= |items|
    ensures forall id :: id in r <==> id in present && id in Ids(items)
    decreases |items|
  {
    if items == [] then []
    else (if items[0].id in present then [items[0].id] else []) + SectionIds(items[1..], present)
  }

  /** The observed ids keep the items' order. */
  lemma {:induction false} SectionIdsInOrder(items: seq<NavItem>, present: set<string>)
    ensures IsSubsequence(SectionIds(items, present), Ids(items))
    decreases |items|
  {
    if items != [] {
      SectionIdsInOrder(items[1..], present);
      var rest := SectionIds(items[1..], present);
      assert Ids(items)[1..] == Ids(items[1..]);
      if items[0].id in present {
        assert SectionIds(items, present) == [items[0].id] + rest;
        assert SectionIds(items, present)[1..] == rest;
      } else {
        assert SectionIds(items, present) == rest;
        SubsequenceSkip(rest, Ids(items));
      }
    }
  }

  /** Each present id is observed once per item that carries it, and no other id is. */
  lemma {:induction false} SectionIdsCounts(items: seq<NavItem>, present: set<string>)
    ensures forall id :: multiset(SectionIds(items, present))[id] ==
                         if id in present then multiset(Ids(items))[id] else 0
    decreases |items|
  {
    if items != [] {
      SectionIdsCounts(items[1..], present);
      var ids := Ids(items);
      var head := if items[0].id in present then [items[0].id] else [];
      assert ids == [items[0].id] + Ids(items[1..]);
      assert multiset(ids) == multiset([items[0].id]) + multiset(Ids(items[1..]));
      assert multiset(SectionIds(items, present)) == multiset(head) + multiset(SectionIds(items[1..], present));
    }
  }

  /** One IntersectionObserver entry, reduced to what the callback reads. */
  datatype Entry = Entry(targetId: string, isIntersecting: bool, ratio: real)

  /** `entries.filter((e) => e.isIntersecting)`. */
  function Intersecting(entries: seq<Entry>): (r: seq<Entry>)
    ensures |r| <= |entries|
    ensures forall e :: e in r <==> e in entries && e.isIntersecting
    decreases |entries|
  {
    if entries == [] then []
    else (if entries[0].isIntersecting then [entries[0]] else []) + Intersecting(entries[1..])
  }

  /** The intersecting entries keep the order of `entries`. */
  lemma {:induction false} IntersectingInOrder(entries: seq<Entry>)
    ensures IsSubsequence(Intersecting(entries), entries)
    decreases |entries|
  {
    if entries != [] {
      IntersectingInOrder(entries[1..]);
      var rest := Intersecting(entries[1..]);
      if entries[0].isIntersecting {
        assert Intersecting(entries) == [entries[0]] + rest;
        assert Intersecting(entries)[1..] == rest;
      } else {
        assert Intersecting(entries) == rest;
        SubsequenceSkip(rest, entries);
      }
    }
  }

  /** Each intersecting entry is kept as often as it is reported, and no other entry is. */
  lemma {:induction false} IntersectingCounts(entries: seq<Entry>)
    ensures forall e :: multiset(Intersecting(entries))[e] ==
                        if e.isIntersecting then multiset(entries)[e] else 0
    decreases |entries|
  {
    if entries != [] {
      IntersectingCounts(entries[1..]);
      var head := if entries[0].isIntersecting then [entries[0]] else [];
      assert entries == [entries[0]] + entries[1..];
      assert multiset(entries) == multiset([entries[0]]) + multiset(entries[1..]);
      assert multiset(Intersecting(entries)) == multiset(head) + multiset(Intersecting(entries[1..]));
    }
  }

  /** Places `e` in front of the first entry whose ratio does not exceed its own. */
  function Insert(e: Entry, sorted: seq<Entry>): (r: seq<Entry>)
    ensures |r| == |sorted| + 1
    ensures multiset(r) == multiset(sorted) + multiset{e}
    decreases |sorted|
  {
    if sorted == [] || sorted[0].ratio <= e.ratio then [e] + sorted
    else
      assert sorted == [sorted[0]] + sorted[1..];
      [sorted[0]] + Insert(e, sorted[1..])
  }

  /**
   * `.sort((a, b) => b.intersectionRatio - a.intersectionRatio)`: a stable
   * sort by decreasing ratio (an earlier entry stays in front of a later
   * one of equal ratio).
   */
  function SortByRatio(s: seq<Entry>): (r: seq<Entry>)
    ensures |r| == |s| && multiset(r) == multiset(s)
    decreases |s|
  {
    if s == [] then []
    else
      assert s == [s[0]] + s[1..];
      Insert(s[0], SortByRatio(s[1..]))
  }

  predicate DescendingRatio(s: seq<Entry>) {
    forall i, j :: 0 <= i < j < |s| ==> s[i].ratio >= s[j].ratio
  }

  lemma {:induction false} InsertDescending(e: Entry, sorted: seq<Entry>)
    requires DescendingRatio(sorted)
    ensures DescendingRatio(Insert(e, sorted))
    decreases |sorted|
  {
    if sorted != [] && sorted[0].ratio > e.ratio {
      InsertDescending(e, sorted[1..]);
      InsertBounded(e, sorted[1..], sorted[0].ratio);
      assert Insert(e, sorted) == [sorted[0]] + Insert(e, sorted[1..]);
    }
  }

  /** Inserting keeps every ratio under a common bound. */
  lemma {:induction false} InsertBounded(e: Entry, s: seq<Entry>, bound: real)
    requires e.ratio <= bound && forall k :: 0 <= k < |s| ==> s[k].ratio <= bound
    ensures forall k :: 0 <= k < |Insert(e, s)| ==> Insert(e, s)[k].ratio <= bound
    decreases |s|
  {
    if s != [] && s[0].ratio > e.ratio {
      InsertBounded(e, s[1..], bound);
      assert Insert(e, s) == [s[0]] + Insert(e, s[1..]);
    }
  }

  /** The sorted list runs from the greatest ratio down. */
  lemma {:induction false} SortDescending(s: seq<Entry>)
    ensures DescendingRatio(SortByRatio(s))
    decreases |s|
  {
    if s != [] {
      SortDescending(s[1..]);
      InsertDescending(s[0], SortByRatio(s[1..]));
    }
  }

  /** `s[k]` has the greatest ratio in `s`, and every entry before it a strictly smaller one. */
  ghost predicate IsEarliestMax(s: seq<Entry>, k: int) {
    0 <= k < |s| &&
    (forall j :: 0 <= j < |s| ==> s[j].ratio <= s[k].ratio) &&
    (forall j :: 0 <= j < k ==> s[j].ratio < s[k].ratio)
  }

  /** Only one position can be the earliest maximum. */
  lemma EarliestMaxUnique(s: seq<Entry>, k: int, m: int)
    requires IsEarliestMax(s, k) && IsEarliestMax(s, m)
    ensures k == m
  {
    assert s[k].ratio == s[m].ratio;
  }

  /** The head of the stably sorted list is the earliest entry of greatest ratio. */
  lemma SortHead(s: seq<Entry>)
    requires s != []
    ensures exists k :: IsEarliestMax(s, k) && SortByRatio(s)[0] == s[k]
  {
    var k := SortHeadAt(s);
  }

  /** `SortHead` with the position of the head in `s` made explicit. */
  lemma {:induction false} SortHeadAt(s: seq<Entry>) returns (k: int)
    requires s != []
    ensures IsEarliestMax(s, k) && SortByRatio(s)[0] == s[k]
    decreases |s|
  {
    var rest := s[1..];
    assert s == [s[0]] + rest;
    if rest == [] {
      k := 0;
    } else {
      var k' := SortHeadAt(rest);
      InsertHead(s[0], SortByRatio(rest));
      if rest[k'].ratio <= s[0].ratio {
        HeadWins(s[0], rest, k');
        k := 0;
      } else {
        HeadLoses(s[0], rest, k');
        k := k' + 1;
      }
    }
  }

  /** The entry `Insert` puts in front. */
  lemma InsertHead(e: Entry, sorted: seq<Entry>)
    requires sorted != []
    ensures Insert(e, sorted)[0] == if sorted[0].ratio <= e.ratio then e else sorted[0]
  {
  }

  lemma HeadWins(x: Entry, rest: seq<Entry>, k: int)
    requires IsEarliestMax(rest, k) && rest[k].ratio <= x.ratio
    ensures IsEarliestMax([x] + rest, 0)
  {
  }

  lemma HeadLoses(x: Entry, rest: seq<Entry>, k: int)
    requires IsEarliestMax(rest, k) && x.ratio < rest[k].ratio
    ensures IsEarliestMax([x] + rest, k + 1)
  {
  }

  /** `visible`: the intersecting entries, greatest ratio first. */
  function Visible(entries: seq<Entry>): (v: seq<Entry>)
    ensures |v| == |Intersecting(entries)|
    ensures forall e :: e in v <==> e in entries && e.isIntersecting
  {
    var s := Intersecting(entries);
    var v := SortByRatio(s);
    assert forall e :: e in v <==> e in multiset(v);
    assert forall e :: e in s <==> e in multiset(s);
    v
  }

  /** The primary rule: the id of `visible[0]` when there is one and it is non-empty (truthy). */
  function PrimaryChoice(entries: seq<Entry>): (r: Option<string>)
    ensures r.Some? ==> r.value != "" && exists e :: e in entries && e.isIntersecting && e.targetId == r.value
  {
    var v := Visible(entries);
    if |v| > 0 && v[0].targetId != "" then Some(v[0].targetId) else None
  }

  /**
   * `entries[k]` intersects, no intersecting entry has a greater ratio, and
   * every intersecting entry reported before it has a strictly smaller one.
   */
  ghost predicate IsEarliestIntersectingMax(entries: seq<Entry>, k: int) {
    0 <= k < |entries| && entries[k].isIntersecting &&
    (forall j :: 0 <= j < |entries| && entries[j].isIntersecting ==> entries[j].ratio <= entries[k].ratio) &&
    (forall j :: 0 <= j < k && entries[j].isIntersecting ==> entries[j].ratio < entries[k].ratio)
  }

  /** The earliest maximum of the filtered list is the earliest intersecting maximum of `entries`. */
  lemma {:induction false} EarliestInEntries(entries: seq<Entry>, i: int) returns (k: int)
    requires IsEarliestMax(Intersecting(entries), i)
    ensures IsEarliestIntersectingMax(entries, k) && entries[k] == Intersecting(entries)[i]
    decreases |entries|
  {
    var rest := Intersecting(entries[1..]);
    if !entries[0].isIntersecting {
      assert Intersecting(entries) == rest;
      var k1 := EarliestInEntries(entries[1..], i);
      ShiftEarliest(entries, k1);
      k := k1 + 1;
    } else {
      assert Intersecting(entries) == [entries[0]] + rest;
      if i == 0 {
        HeadEarliest(entries);
        k := 0;
      } else {
        DropHeadEarliest(entries[0], rest, i);
        var k1 := EarliestInEntries(entries[1..], i - 1);
        ShiftEarliest(entries, k1);
        k := k1 + 1;
      }
    }
  }

  lemma ShiftEarliest(entries: seq<Entry>, k1: int)
    requires entries != [] && IsEarliestIntersectingMax(entries[1..], k1)
    requires entries[0].isIntersecting ==> entries[0].ratio < entries[k1 + 1].ratio
    ensures IsEarliestIntersectingMax(entries, k1 + 1)
  {
    assert forall j :: 1 <= j < |entries| ==> entries[j] == entries[1..][j - 1];
  }

  lemma HeadEarliest(entries: seq<Entry>)
    requires entries != [] && entries[0].isIntersecting
    requires IsEarliestMax(Intersecting(entries), 0)
    ensures IsEarliestIntersectingMax(entries, 0)
  {
    var s := Intersecting(entries);
    forall j | 0 <= j < |entries| && entries[j].isIntersecting
      ensures entries[j].ratio <= entries[0].ratio
    {
      assert entries[j] in s;
    }
  }

  lemma DropHeadEarliest(x: Entry, rest: seq<Entry>, i: int)
    requires IsEarliestMax([x] + rest, i) && i > 0
    ensures IsEarliestMax(rest, i - 1) && x.ratio < rest[i - 1].ratio
  {
    var s := [x] + rest;
    assert s[0] == x && s[i] == rest[i - 1];
    forall j | 0 <= j < |rest| ensures rest[j].ratio <= rest[i - 1].ratio {
      assert s[j + 1] == rest[j];
    }
    forall j | 0 <= j < i - 1 ensures rest[j].ratio < rest[i - 1].ratio {
      assert s[j + 1] == rest[j];
    }
  }

  /**
   * The primary rule looks only at intersecting entries: with none it does
   * not apply, otherwise it takes the one of greatest ratio, the earliest
   * reported among equals, and applies exactly when that entry's id is
   * non-empty.
   */
  lemma PrimaryChoiceSpec(entries: seq<Entry>)
    ensures Intersecting(entries) == [] ==> PrimaryChoice(entries).None?
    ensures Intersecting(entries) != [] ==>
              exists k :: IsEarliestIntersectingMax(entries, k) &&
                          PrimaryChoice(entries) ==
                            if entries[k].targetId != "" then Some(entries[k].targetId) else None
  {
    var s := Intersecting(entries);
    if s != [] {
      var i := SortHeadAt(s);
      assert Visible(entries)[0] == s[i];
      var k := EarliestInEntries(entries, i);
    }
  }

  /** A winner of the primary rule is an intersecting entry no intersecting entry beats. */
  lemma PrimaryWinnerIntersects(entries: seq<Entry>)
    requires PrimaryChoice(entries).Some?
    ensures exists e :: e in entries && e.isIntersecting && e.targetId == PrimaryChoice(entries).value &&
                        forall f :: f in entries && f.isIntersecting ==> f.ratio <= e.ratio
  {
    PrimaryChoiceSpec(entries);
    var k :| IsEarliestIntersectingMax(entries, k) &&
             PrimaryChoice(entries) == if entries[k].targetId != "" then Some(entries[k].targetId) else None;
    var e := entries[k];
    forall f | f in entries && f.isIntersecting ensures f.ratio <= e.ratio {
      var j :| 0 <= j < |entries| && entries[j] == f;
    }
  }

  function Abs(x: real): real {
    if x < 0.0 then -x else x
  }

  /** A section element's id and the `top` of its bounding rectangle at callback time. */
  datatype SectionRect = SectionRect(id: string, top: real)

  /** The fallback's `closest` record. */
  datatype Closest = Closest(id: string, top: real)

  /** `sections[k]` has the smallest `|top|`, and every section before it a strictly larger one. */
  ghost predicate IsClosest(sections: seq<SectionRect>, k: int) {
    0 <= k < |sections| &&
    (forall j :: 0 <= j < |sections| ==> Abs(sections[k].top) <= Abs(sections[j].top)) &&
    (forall j :: 0 <= j < k ==> Abs(sections[k].top) < Abs(sections[j].top))
  }

  lemma ClosestUnique(sections: seq<SectionRect>, k: int, m: int)
    requires IsClosest(sections, k) && IsClosest(sections, m)
    ensures k == m
  {
    assert Abs(sections[k].top) == Abs(sections[m].top);
  }

  /**
   * The fallback loop: the section closest to the top of the viewport;
   * on a tie the strict `<` keeps the earlier section.
   */
  method ClosestToTop(sections: seq<SectionRect>) returns (closest: Option<Closest>)
    ensures closest.None? <==> sections == []
    ensures closest.Some? ==>
              (exists k :: IsClosest(sections, k) &&
                           closest.value == Closest(sections[k].id, Abs(sections[k].top)))
  {
    closest := None;
    ghost var best := 0;
    var i := 0;
    while i < |sections|
      invariant 0 <= i <= |sections|
      invariant closest.None? <==> i == 0
      invariant closest.Some? ==>
                  best < i && closest.value == Closest(sections[best].id, Abs(sections[best].top))
      invariant closest.Some? ==> forall j :: 0 <= j < i ==> Abs(sections[best].top) <= Abs(sections[j].top)
      invariant closest.Some? ==> forall j :: 0 <= j < best ==> Abs(sections[best].top) < Abs(sections[j].top)
    {
      var top := Abs(sections[i].top);
      if closest.None? || top < closest.value.top {
        closest := Some(Closest(sections[i].id, top));
        best := i;
      }
      i := i + 1;
    }
    if closest.Some? {
      assert IsClosest(sections, best);
    }
  }

  /** Pairs each observed section id with its measured top. */
  function Rects(ids: seq<string>, tops: seq<real>): (r: seq<SectionRect>)
    requires |ids| == |tops|
    ensures |r| == |ids| && forall k :: 0 <= k < |r| ==> r[k] == SectionRect(ids[k], tops[k])
  {
    seq(|ids|, k requires 0 <= k < |ids| => SectionRect(ids[k], tops[k]))
  }

  /** `Math.round`: the nearest integer, halves rounding up. */
  function Round(x: real): (r: int)
    ensures x - 0.5 < r as real <= x + 0.5
  {
    (x + 0.5).Floor
  }

  /** `Math.max(8, Math.round(headerH))`, with `headerH` 0 when the header is not mounted. */
  function HeaderOffset(headerH: Option<real>): (off: int)
    ensures off >= 8
    ensures off >= Round(headerH.GetOr(0.0))
    ensures off == 8 || off == Round(headerH.GetOr(0.0))
  {
    var h := Round(headerH.GetOr(0.0));
    if h > 8 then h else 8
  }

  /**
   * `handleSmoothScroll`: the page offset to scroll to, or `None` (no
   * scroll) when the target section is missing. After the scroll the
   * section's top sits `HeaderOffset` below the viewport top: at least 8
   * and never more than half a pixel inside the header.
   */
  function SmoothScrollTarget(elTop: Option<real>, scrollY: real, headerH: Option<real>): (t: Option<real>)
    ensures t.None? <==> elTop.None?
    ensures t.Some? ==> scrollY + elTop.value - t.value >= 8.0
    ensures t.Some? ==> scrollY + elTop.value - t.value > headerH.GetOr(0.0) - 0.5
    ensures t.Some? ==> scrollY + elTop.value - t.value == HeaderOffset(headerH) as real
  {
    match elTop
    case None => None
    case Some(top) => Some(scrollY + top - HeaderOffset(headerH) as real)
  }

  /** `aria-current="page"` on each nav item, in item order. */
  function AriaCurrent(items: seq<NavItem>, activeId: Option<string>): (cur: seq<bool>)
    ensures |cur| == |items|
  {
    seq(|items|, k requires 0 <= k < |items| => activeId == Some(items[k].id))
  }

  predicate DistinctIds(items: seq<NavItem>) {
    forall i, j :: 0 <= i < j < |items| ==> items[i].id != items[j].id
  }

  /** With distinct ids at most one item is current, and it is the one whose id is active. */
  lemma AtMostOneCurrent(items: seq<NavItem>, activeId: Option<string>)
    requires DistinctIds(items)
    ensures var cur := AriaCurrent(items, activeId);
            forall i, j :: 0 <= i < |cur| && 0 <= j < |cur| && cur[i] && cur[j] ==> i == j
    ensures var cur := AriaCurrent(items, activeId);
            forall i :: 0 <= i < |cur| ==> (cur[i] <==> activeId == Some(items[i].id))
  {
  }

  /** The header's state: the current section and the sections its observer watches. */
  class NavigationHeader {
    const items: seq<NavItem>
    var activeId: Option<string>
    var observed: seq<string>

    constructor (items: seq<NavItem>)
      ensures this.items == items && activeId == None && observed == []
    {
      this.items := items;
      activeId := None;
      observed := [];
    }

    /**
     * The effect: look up each item's section and observe those found; with
     * none found no observer is created, so `activeId` stays as it is.
     */
    method Mount(present: set<string>)
      modifies this
      ensures observed == SectionIds(items, present)
      ensures activeId == old(activeId)
    {
      observed := SectionIds(items, present);
    }

    /**
     * The observer callback, given the reported entries and the current
     * `top` of every observed section: the primary rule when it applies,
     * otherwise the section closest to the top.
     */
    method OnIntersect(entries: seq<Entry>, tops: seq<real>)
      requires observed != [] && |tops| == |observed|
      modifies this
      ensures observed == old(observed)
      ensures PrimaryChoice(entries).Some? ==> activeId == PrimaryChoice(entries)
      ensures PrimaryChoice(entries).None? ==>
                exists k :: IsClosest(Rects(observed, tops), k) && activeId == Some(observed[k])
    {
      var visible := SortByRatio(Intersecting(entries));
      if |visible| > 0 && visible[0].targetId != "" {
        activeId := Some(visible[0].targetId);
      } else {
        var closest := ClosestToTop(Rects(observed, tops));
        if closest.Some? {
          activeId := Some(closest.value.id);
        }
      }
    }
  }
}
