/** The mobile navigation toggle and the in-page link handler: the toggle
    button's `aria-expanded` attribute, the panel's `is-open` class, and the
    scroll position a link click asks for. */
module Navigation {
  import opened Optional
  import opened JsText

  /** The toggle button's `aria-expanded` attribute (`None` when absent) and
      whether the navigation panel has the class `is-open`. */
  datatype NavUi = NavUi(ariaExpanded: Option<string>, isOpen: bool)

  /** The toggle reads the attribute as expanded only when it is exactly
      the string "true". */
  predicate Expanded(u: NavUi) {
    u.ariaExpanded == Some("true")
  }

  /** The attribute and the class agree. */
  predicate InSync(u: NavUi) {
    Expanded(u) == u.isOpen
  }

  /** One click on the toggle: the attribute is written as the negation of
      what was read, and the class is flipped. */
  function Toggled(u: NavUi): (r: NavUi)
    ensures Expanded(r) == !Expanded(u) && r.isOpen == !u.isOpen
    ensures r.ariaExpanded == Some("true") || r.ariaExpanded == Some("false")
  {
    NavUi(Some(if Expanded(u) then "false" else "true"), !u.isOpen)
  }

  /** A toggle keeps the attribute and the class in step, whichever state
      they start in. */
  lemma {:induction false} ToggleKeepsSync(u: NavUi)
    ensures InSync(Toggled(u)) == InSync(u)
  {
  }

  /** Two clicks restore the original state once the attribute holds one
      of the two values the toggle writes. */
  lemma {:induction false} ToggleTwiceRestores(u: NavUi)
    requires u.ariaExpanded == Some("true") || u.ariaExpanded == Some("false")
    ensures Toggled(Toggled(u)) == u
  {
  }

  /** Any other starting attribute (absent, or some other string) reads as
      collapsed, so two clicks leave it as "false". */
  lemma {:induction false} ToggleTwiceNormalises(u: NavUi)
    requires u.ariaExpanded != Some("true") && u.ariaExpanded != Some("false")
    ensures Toggled(Toggled(u)) == NavUi(Some("false"), u.isOpen)
  {
  }

  /** Following a link closes an open panel and marks the toggle collapsed;
      a closed panel is left as it is, attribute included. */
  function ClosedForScroll(u: NavUi): (r: NavUi)
    ensures !r.isOpen
    ensures u.isOpen ==> r.ariaExpanded == Some("false")
    ensures !u.isOpen ==> r == u
  {
    if u.isOpen then NavUi(Some("false"), false) else u
  }

  /** `href.replace('#', '')`: removes the first `#` only. */
  function TargetId(href: string): (id: string)
    ensures '#' !in href ==> id == href
    ensures '#' in href ==> |id| + 1 == |href| && CountOf(id, '#') + 1 == CountOf(href, '#')
  {
    var k := FirstIndex(href, '#');
    if k == |href| then href
    else
      assert href == href[..k] + [href[k]] + href[k + 1..];
      CountOfConcat(href[..k] + [href[k]], href[k + 1..], '#');
      CountOfConcat(href[..k], [href[k]], '#');
      CountOfConcat(href[..k], href[k + 1..], '#');
      CountOfZero(href[..k], '#');
      href[..k] + href[k + 1..]
  }

  /** Whatever precedes the first `#` and whatever follows it are kept, in
      order, and only that `#` is dropped. */
  lemma {:induction false} TargetIdDropsFirstHash(href: string, pre: string, post: string)
    requires href == pre + "#" + post && '#' !in pre
    ensures TargetId(href) == pre + post
  {
    var k := FirstIndex(href, '#');
    assert href[|pre|] == '#';
    assert forall i :: 0 <= i < |pre| ==> href[i] == pre[i];
    assert k == |pre|;
    assert href[..k] == pre;
    assert href[k + 1..] == post;
  }

  /** A fragment link `#id` names the section `id`, whatever `id` holds. */
  lemma {:induction false} FragmentTarget(id: string)
    ensures TargetId("#" + id) == id
  {
    assert ("#" + id)[1..] == id;
  }

  /** The page offset a link click scrolls to: the section's document
      position less the header's height and an 8-unit gap. */
  function ScrollTarget(sectionTop: int, pageYOffset: int, headerHeight: int): (y: int)
    ensures (sectionTop + pageYOffset) - y == headerHeight + 8
  {
    var elementPosition := sectionTop + pageYOffset;
    var headerOffset := headerHeight + 8;
    elementPosition - headerOffset
  }

  /** The toggle button and the navigation panel, whose state the click
      handlers change in place. */
  class NavBar {
    var ariaExpanded: Option<string>
    var isOpen: bool

    constructor (initial: NavUi)
      ensures State() == initial
    {
      ariaExpanded := initial.ariaExpanded;
      isOpen := initial.isOpen;
    }

    function State(): NavUi
      reads this
    {
      NavUi(ariaExpanded, isOpen)
    }

    /** A click on the toggle button. */
    method ClickToggle()
      modifies this
      ensures State() == Toggled(old(State()))
    {
      var expanded := ariaExpanded == Some("true");
      ariaExpanded := Some(if !expanded then "true" else "false");
      isOpen := !isOpen;
    }

    /** A click on a navigation link. `sectionTops` gives, for each element
      id on the page, its top relative to the viewport. `getElementById`
      finds no element for the empty id, since an empty `id` attribute gives
      an element no ID. The default navigation is always suppressed; when
      the link's target exists the panel is closed and the scroll position
      is returned, otherwise nothing happens. */
    method ClickLink(href: string, sectionTops: map<string, int>, headerHeight: int, pageYOffset: int)
      returns (scrollTo: Option<int>)
      modifies this
      ensures var id := TargetId(href);
              if id != "" && id in sectionTops then
                && scrollTo == Some(ScrollTarget(sectionTops[id], pageYOffset, headerHeight))
                && State() == ClosedForScroll(old(State()))
              else
                scrollTo == None && State() == old(State())
    {
      var targetId := TargetId(href);
      if targetId != "" && targetId in sectionTops {
        if isOpen {
          isOpen := false;
          ariaExpanded := Some("false");
        }
        var headerOffset := headerHeight + 8;
        var elementPosition := sectionTops[targetId] + pageYOffset;
        scrollTo := Some(elementPosition - headerOffset);
      } else {
        scrollTo := None;
      }
    }
  }
}
