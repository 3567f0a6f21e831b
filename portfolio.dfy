/**
 * The portfolio gallery: a category filter over the project list, the
 * live-region announcement of how many projects are shown, the
 * empty-state block and the toolbar of category buttons.
 */
module Portfolio {
  import opened Wrappers
  import opened Sequences
  import JsText

  datatype Category = All | Branding | WebDesign | Development

  /** An item's own category is never "All". */
  type ItemCategory = c: Category | c != All witness Branding

  datatype PortfolioItem = PortfolioItem(
    id: string,
    title: string,
    client: string,
    category: ItemCategory,
    imageUrl: string,
    slug: Option<string>)

  /** The toolbar's buttons, in order. */
  const Categories: seq<Category> := [All, Branding, WebDesign, Development]

  /** `items.filter((it) => it.category === c)`. */
  function OfCategory(items: seq<PortfolioItem>, c: Category): (r: seq<PortfolioItem>)
    ensures |r| <= |items|
    ensures forall x :: x in r <==> x in items && x.category == c
    decreases |items|
  {
    if items == [] then []
    else (if items[0].category == c then [items[0]] else []) + OfCategory(items[1..], c)
  }

  /** The `filtered` memo: everything under "All", otherwise the items of the active category. */
  function Filtered(items: seq<PortfolioItem>, active: Category): (r: seq<PortfolioItem>)
    ensures |r| <= |items|
    ensures forall x :: x in r <==> x in items && (active == All || x.category == active)
  {
    if active == All then items else OfCategory(items, active)
  }

  /** Under "All" the list is shown as given. */
  lemma FilteredAll(items: seq<PortfolioItem>)
    ensures Filtered(items, All) == items
  {
  }

  /**
   * Under any other category the list holds exactly the items of that
   * category, each as often as in `items`, in their original order.
   */
  lemma FilteredCategory(items: seq<PortfolioItem>, c: Category)
    requires c != All
    ensures IsSubsequence(Filtered(items, c), items)
    ensures forall x :: multiset(Filtered(items, c))[x] ==
                        if x.category == c then multiset(items)[x] else 0
  {
    OfCategoryInOrder(items, c);
    OfCategoryCounts(items, c);
  }

  lemma {:induction false} OfCategoryInOrder(items: seq<PortfolioItem>, c: Category)
    ensures IsSubsequence(OfCategory(items, c), items)
    decreases |items|
  {
    if items != [] {
      OfCategoryInOrder(items[1..], c);
      var rest := OfCategory(items[1..], c);
      if items[0].category == c {
        assert OfCategory(items, c) == [items[0]] + rest;
        assert OfCategory(items, c)[1..] == rest;
      } else {
        assert OfCategory(items, c) == rest;
        SubsequenceSkip(rest, items);
      }
    }
  }

  lemma {:induction false} OfCategoryCounts(items: seq<PortfolioItem>, c: Category)
    ensures forall x :: multiset(OfCategory(items, c))[x] ==
                        if x.category == c then multiset(items)[x] else 0
    decreases |items|
  {
    if items != [] {
      OfCategoryCounts(items[1..], c);
      var head := if items[0].category == c then [items[0]] else [];
      assert items == [items[0]] + items[1..];
      assert multiset(items) == multiset([items[0]]) + multiset(items[1..]);
      assert multiset(OfCategory(items, c)) == multiset(head) + multiset(OfCategory(items[1..], c));
    }
  }

  /** No item is "All", so the three concrete categories split the whole list between them. */
  lemma {:induction false} CategoriesPartition(items: seq<PortfolioItem>)
    ensures |Filtered(items, Branding)| + |Filtered(items, WebDesign)| + |Filtered(items, Development)|
            == |Filtered(items, All)|
    decreases |items|
  {
    if items != [] {
      CategoriesPartition(items[1..]);
    }
  }

  /** The live-region text set by the effect: "N project shown" or "N projects shown". */
  function Announcement(n: nat): string {
    JsText.DecimalString(n) + (if n == 1 then " project shown" else " projects shown")
  }

  /**
   * The announcement reads back: the leading number is the count shown,
   * and the noun is singular exactly when that count is 1.
   */
  lemma AnnouncementReadsBack(n: nat)
    ensures var r := Announcement(n);
            var d := JsText.LeadingDigits(r);
            JsText.ParseDecimal(d) == n &&
            (r[|d|..] == " project shown" <==> n == 1) &&
            (r[|d|..] == " projects shown" <==> n != 1)
  {
    JsText.ReadBackCount(n, if n == 1 then " project shown" else " projects shown");
  }

  /** The "No projects found" block is rendered when nothing passes the filter. */
  predicate ShowsEmptyState(items: seq<PortfolioItem>, active: Category) {
    |Filtered(items, active)| == 0
  }

  /** The empty state shows exactly when no item carries the active category. */
  lemma EmptyStateIff(items: seq<PortfolioItem>, active: Category)
    ensures ShowsEmptyState(items, active) <==>
            forall x :: x in items ==> active != All && x.category != active
  {
    if items != [] {
      assert items[0] in items;
      if active != All && !ShowsEmptyState(items, active) {
        assert Filtered(items, active)[0] in Filtered(items, active);
      }
    }
  }

  /** Position of a category in the toolbar. */
  function CategoryIndex(c: Category): (k: nat)
    ensures k < |Categories| && Categories[k] == c
  {
    match c
    case All => 0
    case Branding => 1
    case WebDesign => 2
    case Development => 3
  }

  /** `aria-pressed` of each toolbar button, in toolbar order. */
  function PressedButtons(active: Category): (p: seq<bool>)
    ensures |p| == |Categories|
  {
    seq(|Categories|, k requires 0 <= k < |Categories| => Categories[k] == active)
  }

  /** Exactly one button is pressed: the active category's. */
  lemma ExactlyOnePressed(active: Category)
    ensures var p := PressedButtons(active);
            (set k | 0 <= k < |p| && p[k]) == {CategoryIndex(active)}
  {
  }

  /** The gallery's state: the active filter and the announcement the effect keeps in step with it. */
  class PortfolioSection {
    const items: seq<PortfolioItem>
    var active: Category
    var announce: string

    ghost predicate Valid()
      reads this
    {
      announce == Announcement(|Filtered(items, active)|)
    }

    /** First render and its effect: the filter starts at `initialFilter`, "All" when not given. */
    constructor (items: seq<PortfolioItem>, initialFilter: Option<Category>)
      ensures Valid() && this.items == items
      ensures active == initialFilter.GetOr(All)
    {
      this.items := items;
      active := initialFilter.GetOr(All);
      announce := Announcement(|Filtered(items, initialFilter.GetOr(All))|);
    }

    /**
     * A toolbar button click, followed by the effect, which rewrites the
     * announcement only when the number of shown items changed.
     */
    method SetActive(c: Category)
      requires Valid()
      modifies this
      ensures Valid() && active == c
    {
      var before := |Filtered(items, active)|;
      active := c;
      var after := |Filtered(items, active)|;
      if after != before {
        announce := Announcement(after);
      }
    }
  }
}
