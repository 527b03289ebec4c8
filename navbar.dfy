/**
 * The scroll tracker of the floating navigation bar.
 *
 * On every scroll event it records whether the page has scrolled past 50px
 * and looks for the active section: the first of the declared sections whose
 * element is on the page and whose bounding box contains the anchor line 100px
 * below the viewport top. The active section is replaced only when one is
 * found; otherwise the previous one is kept.
 */
module Navbar {
  import opened Wrappers

  /** The part of an element's bounding rectangle the tracker reads: viewport offsets. */
  datatype Rect = Rect(top: real, bottom: real)

  /** The page as the tracker sees it: the bounding rectangle of each element present, by id. */
  type Dom = map<string, Rect>

  /** The section ids, in declared (and tie-breaking) order. */
  const Sections: seq<string> := ["home", "about", "projects", "contact"]

  /** Scroll offset, in pixels, beyond which the bar counts as scrolled. */
  const ScrollThreshold: real := 50.0

  /** Distance, in pixels, of the anchor line from the viewport top. */
  const AnchorLine: real := 100.0

  /** A snapshot of the two state cells. */
  datatype NavState = NavState(scrolled: bool, activeSection: string)

  /** The cells' initial values: not scrolled, home active. */
  const Initial: NavState := NavState(false, "home")

  /** `document.getElementById(id)`, reduced to the element's rectangle; None when absent. */
  function GetElementById(dom: Dom, id: string): Option<Rect> {
    if id in dom then Some(dom[id]) else None
  }

  /** The anchor line lies within the rectangle, both edges included. */
  predicate ContainsAnchor(rect: Rect) {
    rect.top <= AnchorLine && rect.bottom >= AnchorLine
  }

  /** The search callback: the section's element exists and contains the anchor line. */
  predicate IsActive(dom: Dom, id: string) {
    match GetElementById(dom, id)
    case Some(rect) => ContainsAnchor(rect)
    case None => false
  }

  /**
   * `ids.find(IsActive)`: the first id, in order, whose section contains the
   * anchor line; None when none does.
   */
  function Find(ids: seq<string>, dom: Dom): (r: Option<string>)
    ensures r.None? <==> forall k :: 0 <= k < |ids| ==> !IsActive(dom, ids[k])
    ensures r.Some? ==> r.value in dom
    ensures r.Some? ==>
              exists k :: 0 <= k < |ids| && ids[k] == r.value && IsActive(dom, ids[k])
                          && forall j :: 0 <= j < k ==> !IsActive(dom, ids[j])
  {
    if ids == [] then None
    else if IsActive(dom, ids[0]) then Some(ids[0])
    else
      var r := Find(ids[1..], dom);
      assert forall k :: 1 <= k < |ids| ==> ids[k] == ids[1..][k - 1];
      r
  }

  /**
   * One scroll event: `scrolled` follows the latest offset alone; the active
   * section becomes the one found, or stays as it was when none is found.
   */
  function OnScroll(s: NavState, scrollY: real, dom: Dom): (r: NavState)
    ensures r.scrolled <==> scrollY > ScrollThreshold
    ensures Find(Sections, dom).None? ==> r.activeSection == s.activeSection
    ensures Find(Sections, dom).Some? ==> IsActive(dom, r.activeSection) && r.activeSection in Sections
    ensures Find(Sections, dom).Some? ==> r.activeSection == Find(Sections, dom).value
    ensures s.activeSection in Sections ==> r.activeSection in Sections
  {
    var current := Find(Sections, dom);
    NavState(scrollY > ScrollThreshold, if current.Some? then current.value else s.activeSection)
  }

  /** The first id in order whose section contains the anchor line is the one found. */
  lemma FirstMatchWins(ids: seq<string>, dom: Dom, k: nat)
    requires k < |ids| && IsActive(dom, ids[k])
    requires forall j :: 0 <= j < k ==> !IsActive(dom, ids[j])
    ensures Find(ids, dom) == Some(ids[k])
  {
  }

  /** When two declared sections both contain the anchor line, the earlier-declared one becomes active. */
  lemma EarlierSectionWins(s: NavState, scrollY: real, dom: Dom, j: nat, k: nat)
    requires j < k < |Sections|
    requires IsActive(dom, Sections[j]) && IsActive(dom, Sections[k])
    ensures OnScroll(s, scrollY, dom).activeSection != Sections[k]
  {
  }

  /** A section whose element is absent is skipped: removing its id leaves the result unchanged. */
  lemma {:induction false} AbsentSkipped(ids: seq<string>, dom: Dom, k: nat)
    requires k < |ids| && ids[k] !in dom
    ensures Find(ids[..k] + ids[k + 1..], dom) == Find(ids, dom)
    decreases k
  {
    if k == 0 {
      assert ids[..0] + ids[1..] == ids[1..];
    } else {
      var rest := ids[1..][..k - 1] + ids[1..][k..];
      assert ids[..k] + ids[k + 1..] == [ids[0]] + rest;
      assert ([ids[0]] + rest)[1..] == rest;
      AbsentSkipped(ids[1..], dom, k - 1);
    }
  }

  /** The anchor-line test includes both edges: a section starting or ending exactly on it is active. */
  lemma EdgesInclusive(dom: Dom, id: string)
    requires id in dom
    requires dom[id].top == AnchorLine || dom[id].bottom == AnchorLine
    requires dom[id].top <= dom[id].bottom
    ensures IsActive(dom, id)
  {
  }

  /** Adjacent sections meeting on the anchor line: the earlier one, home, stays active. */
  lemma AdjacentOnAnchor(s: NavState, scrollY: real)
    ensures OnScroll(s, scrollY, map["home" := Rect(-500.0, 100.0), "about" := Rect(100.0, 700.0)]).activeSection == "home"
  {
    var dom := map["home" := Rect(-500.0, 100.0), "about" := Rect(100.0, 700.0)];
    FirstMatchWins(Sections, dom, 0);
  }

  /** With home not on the page, a section whose top sits on the anchor line is found. */
  lemma MissingHomeSkipped(s: NavState, scrollY: real)
    ensures OnScroll(s, scrollY, map["about" := Rect(100.0, 900.0)]).activeSection == "about"
  {
    var dom := map["about" := Rect(100.0, 900.0)];
    assert "home" !in dom;
    FirstMatchWins(Sections, dom, 1);
  }

  /** The threshold is strict: at 50px the bar is not scrolled; at 50.5px and 51px it is. */
  lemma ScrollThresholdStrict(s: NavState, dom: Dom)
    ensures !OnScroll(s, 50.0, dom).scrolled
    ensures OnScroll(s, 50.5, dom).scrolled && OnScroll(s, 51.0, dom).scrolled
  {
  }

  /** Handling the same scroll offset and geometry twice is the same as handling it once. */
  lemma Idempotent(s: NavState, scrollY: real, dom: Dom)
    ensures OnScroll(OnScroll(s, scrollY, dom), scrollY, dom) == OnScroll(s, scrollY, dom)
  {
  }

  /** The two state cells, updated in place by each scroll event. */
  class ScrollTracker {
    var scrolled: bool
    var activeSection: string

    function Snapshot(): NavState
      reads this
    {
      NavState(scrolled, activeSection)
    }

    /** The active section is always one of the declared ones. */
    ghost predicate Valid()
      reads this
    {
      activeSection in Sections
    }

    constructor ()
      ensures Valid() && Snapshot() == Initial
    {
      scrolled := false;
      activeSection := "home";
    }

    /** The scroll handler. */
    method HandleScroll(scrollY: real, dom: Dom)
      requires Valid()
      modifies this
      ensures Valid()
      ensures Snapshot() == OnScroll(old(Snapshot()), scrollY, dom)
    {
      scrolled := scrollY > ScrollThreshold;

      var current := Find(Sections, dom);
      // Every declared id is a non-empty string, so "found" and "truthy" coincide.
      if current.Some? {
        activeSection := current.value;
      }
    }
  }
}
