/**
 * The page's scroll reactions that carry logic: the header's "scrolled"
 * class and the highlighting of the navigation link of the section in view.
 *
 * Scroll offsets are fractional, as the host reports them; section tops and
 * heights are whole pixels, as `offsetTop` and `offsetHeight` are.
 */
module PageScroll {

  import opened Optional
  import opened SliderIndex

  /** Offset past which the header gets its "scrolled" class. */
  const ScrolledThreshold: real := 50.0

  /** How far below the top of the viewport a section counts as in view. */
  const HighlightOffset: real := 100.0

  /** The header element and its "scrolled" class. */
  class Header {
    var scrolled: bool

    constructor ()
      ensures !scrolled
    {
      scrolled := false;
    }

    /** The scroll listener: add the class past the threshold, remove it otherwise. */
    method OnScroll(pageYOffset: real)
      modifies this
      ensures scrolled <==> pageYOffset > ScrolledThreshold
    {
      if pageYOffset > ScrolledThreshold {
        scrolled := true;
      } else {
        scrolled := false;
      }
    }
  }

  /**
   * A `section[id]` of the page: its offset top, its offset height and the
   * position, among all `.nav-link` elements, of the first link that points
   * at its id, if there is one.
   */
  datatype Section = Section(top: int, height: int, link: Option<nat>)

  /** Section `s` has a link and the probe position `pos` falls inside it. */
  predicate Covers(s: Section, pos: real)
  {
    s.link.Some? && s.top as real <= pos < (s.top + s.height) as real
  }

  /** Every section's link is one of the `n` navigation links. */
  predicate LinksWithin(sections: seq<Section>, n: nat)
  {
    forall i :: 0 <= i < |sections| && sections[i].link.Some? ==> sections[i].link.value < n
  }

  /**
   * The link of the last section in document order that covers `pos`, or
   * None when no section with a link covers it.
   */
  function LastCoveringLink(sections: seq<Section>, pos: real): (r: Option<nat>)
    ensures r.None? <==> forall i :: 0 <= i < |sections| ==> !Covers(sections[i], pos)
    ensures r.Some? ==>
      exists i :: 0 <= i < |sections| && Covers(sections[i], pos) && sections[i].link == r &&
        forall j :: i < j < |sections| ==> !Covers(sections[j], pos)
  {
    if |sections| == 0 then None
    else if Covers(sections[|sections| - 1], pos) then sections[|sections| - 1].link
    else LastCoveringLink(sections[..|sections| - 1], pos)
  }

  /**
   * The link flags after highlighting for probe position `pos`: only the
   * last covering section's link is active, or nothing changes.
   */
  function Highlighted(flags: seq<bool>, sections: seq<Section>, pos: real): (r: seq<bool>)
    requires LinksWithin(sections, |flags|)
    ensures |r| == |flags|
    ensures (forall i :: 0 <= i < |sections| ==> !Covers(sections[i], pos)) ==> r == flags
  {
    match LastCoveringLink(sections, pos)
    case None => flags
    case Some(k) => OnlyAt(|flags|, k)
  }

  /**
   * `highlightNavLink`: for each section in turn whose link exists and which
   * contains `scrollY + 100`, clear every link's flag and set that link's.
   */
  method HighlightNavLink(sections: seq<Section>, scrollY: real, linkActive: array<bool>)
    requires LinksWithin(sections, linkActive.Length)
    modifies linkActive
    ensures linkActive[..] == Highlighted(old(linkActive[..]), sections, scrollY + HighlightOffset)
  {
    var pos := scrollY + HighlightOffset;
    for i := 0 to |sections|
      invariant linkActive[..] == Highlighted(old(linkActive[..]), sections[..i], pos)
    {
      var section := sections[i];
      if section.link.Some? {
        if pos >= section.top as real && pos < (section.top + section.height) as real {
          for j := 0 to linkActive.Length
            invariant forall k :: 0 <= k < j ==> !linkActive[k]
          {
            linkActive[j] := false;
          }
          linkActive[section.link.value] := true;
        }
      }
      assert sections[..i + 1][..i] == sections[..i];
    }
    assert sections[..|sections|] == sections;
  }

  /**
   * When some section with a link contains the probe position, exactly one
   * link is active afterwards: that of the last such section.
   */
  lemma HighlightSelectsLast(flags: seq<bool>, sections: seq<Section>, pos: real, i: int)
    requires LinksWithin(sections, |flags|)
    requires 0 <= i < |sections| && Covers(sections[i], pos)
    requires forall j :: i < j < |sections| ==> !Covers(sections[j], pos)
    ensures ExactlyOneAt(Highlighted(flags, sections, pos), sections[i].link.value)
  {
  }
}
