/**
 * The page shell: the case-study dialog opened from the portfolio
 * (`selectedWork`), its close controls, and the "get started" scroll to
 * the contact section 72 px below the viewport top.
 */
module Page {
  import opened Wrappers
  import opened Portfolio

  /** What the user can do that touches `selectedWork`. */
  datatype DialogEvent =
    | ViewCaseStudy(item: PortfolioItem)   // a card's "View Case Study" button
    | BackdropClick
    | CloseIcon                            // the ✕ button in the dialog header
    | CloseButton                          // the "Close" button in the dialog footer
    | GetInTouch                           // `jumpToContact`

  /** The `selectedWork` after an event. */
  function NextSelected(selected: Option<PortfolioItem>, e: DialogEvent): (r: Option<PortfolioItem>)
    ensures e.ViewCaseStudy? ==> r == Some(e.item)
    ensures !e.ViewCaseStudy? ==> r == None
  {
    match e
    case ViewCaseStudy(item) => Some(item)
    case _ => None
  }

  /** The dialog is rendered exactly when an item is selected. */
  predicate DialogOpen(selected: Option<PortfolioItem>) {
    selected.Some?
  }

  /** The backdrop, the ✕ and the Close button are one transition, and closing twice is closing once. */
  lemma CloseControlsAgree(selected: Option<PortfolioItem>)
    ensures NextSelected(selected, BackdropClick) == NextSelected(selected, CloseIcon)
                                                  == NextSelected(selected, CloseButton)
    ensures NextSelected(NextSelected(selected, CloseButton), CloseButton) == NextSelected(selected, CloseButton)
    ensures !DialogOpen(NextSelected(selected, CloseButton))
  {
  }

  /** `selectedWork` after a series of events. */
  function Replay(selected: Option<PortfolioItem>, events: seq<DialogEvent>): Option<PortfolioItem>
    decreases |events|
  {
    if events == [] then selected else Replay(NextSelected(selected, events[0]), events[1..])
  }

  /** Every transition overwrites the state, so after a series of events only the last one matters. */
  lemma {:induction false} ReplayLast(selected: Option<PortfolioItem>, events: seq<DialogEvent>)
    requires events != []
    ensures Replay(selected, events) == NextSelected(selected, events[|events| - 1])
    decreases |events|
  {
    if |events| > 1 {
      ReplayLast(NextSelected(selected, events[0]), events[1..]);
      assert events[1..][|events[1..]| - 1] == events[|events| - 1];
    }
  }

  /** `handleGetStarted`: scroll so the contact section sits 72 px down; nothing when it is missing. */
  function GetStartedTarget(contactTop: Option<real>, scrollY: real): (t: Option<real>)
    ensures t.None? <==> contactTop.None?
    ensures t.Some? ==> scrollY + contactTop.value - t.value == 72.0
  {
    match contactTop
    case None => None
    case Some(top) => Some(scrollY + top - 72.0)
  }

  /** The page's state. */
  class PageState {
    var selectedWork: Option<PortfolioItem>

    constructor ()
      ensures selectedWork == None
    {
      selectedWork := None;
    }

    method HandleViewCaseStudy(item: PortfolioItem)
      modifies this
      ensures selectedWork == NextSelected(old(selectedWork), ViewCaseStudy(item))
      ensures selectedWork == Some(item)
    {
      selectedWork := Some(item);
    }

    /** The close transition behind the backdrop, the ✕ and the Close button. */
    method CloseWorkDialog()
      modifies this
      ensures selectedWork == NextSelected(old(selectedWork), CloseButton)
      ensures selectedWork == None
    {
      selectedWork := None;
    }

    /** "Get in touch": close the dialog, then scroll to the contact section (the returned target). */
    method JumpToContact(contactTop: Option<real>, scrollY: real) returns (scrollTo: Option<real>)
      modifies this
      ensures selectedWork == NextSelected(old(selectedWork), GetInTouch)
      ensures selectedWork == None
      ensures scrollTo == GetStartedTarget(contactTop, scrollY)
    {
      CloseWorkDialog();
      scrollTo := GetStartedTarget(contactTop, scrollY);
    }
  }
}
