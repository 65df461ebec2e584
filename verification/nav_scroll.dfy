/**
  The navigation bar's scroll listener: on every scroll event it picks the bar's
  style from the scroll offset, finds the section the reader has scrolled to,
  and marks as active exactly the navigation links that point at that section.

  The page's elements become values: a section is its `id` and its top offset,
  a link is its `href` attribute (absent when the attribute is missing) and its
  `active` class, and the navigation bar is either present or not.
 */
module NavScroll {

  datatype Option<T> = None | Some(value: T)

  /** The scroll offset, in pixels, past which the bar takes its scrolled style. */
  const ScrollThreshold: int := 50
  /** How far, in pixels, above its top a section already counts as reached. */
  const Lookahead: int := 120

  /** The two inline styles the handler writes on the navigation bar. */
  datatype NavStyle = NavStyle(background: string, boxShadow: string)

  const ScrolledStyle: NavStyle := NavStyle("rgba(10, 10, 15, 0.92)", "0 4px 30px rgba(0, 0, 0, 0.3)")
  const RestingStyle: NavStyle := NavStyle("rgba(10, 10, 15, 0.6)", "none")

  /** The navigation bar's style at a scroll offset: scrolled strictly past the threshold or not. */
  function StyleFor(scroll: int): (st: NavStyle)
    ensures st == ScrolledStyle || st == RestingStyle
    ensures st == ScrolledStyle <==> scroll > ScrollThreshold
  {
    if scroll > ScrollThreshold then ScrolledStyle else RestingStyle
  }

  /** The threshold is strict: 50 still gives the resting style, 51 the scrolled one. */
  lemma StyleBoundary()
    ensures StyleFor(0) == RestingStyle
    ensures StyleFor(50) == RestingStyle
    ensures StyleFor(51) == ScrolledStyle
  {
  }

  /** Once scrolled, scrolling further down keeps the scrolled style. */
  lemma StyleMonotone(a: int, b: int)
    requires a <= b && StyleFor(a) == ScrolledStyle
    ensures StyleFor(b) == ScrolledStyle
  {
  }

  /** A `section` element with an `id`, and its top offset in the document. */
  datatype Section = Section(id: string, offsetTop: int)

  /** The reader has scrolled to within the lookahead of the section's top, or past it. */
  predicate Reached(scroll: int, sec: Section) {
    scroll >= sec.offsetTop - Lookahead
  }

  /**
    The index of the last section, in document order, that the reader has
    reached, or -1 when none is reached.
   */
  function LastReached(scroll: int, secs: seq<Section>): (k: int)
    ensures -1 <= k < |secs|
    ensures k >= 0 ==> Reached(scroll, secs[k])
    ensures forall j :: k < j < |secs| ==> !Reached(scroll, secs[j])
    decreases |secs|
  {
    if |secs| == 0 then -1
    else if Reached(scroll, secs[|secs| - 1]) then |secs| - 1
    else LastReached(scroll, secs[..|secs| - 1])
  }

  /**
    The handler's scan: walk the sections in document order, and let every
    reached section overwrite the current id.
   */
  function Scan(scroll: int, secs: seq<Section>, current: string): (id: string)
    ensures id == current || exists i :: 0 <= i < |secs| && Reached(scroll, secs[i]) && id == secs[i].id
    decreases |secs|
  {
    if |secs| == 0 then current
    else
      var id := Scan(scroll, secs[1..], if Reached(scroll, secs[0]) then secs[0].id else current);
      assert forall i :: 0 <= i < |secs| - 1 ==> secs[1..][i] == secs[i + 1];
      id
  }

  /** The contract of `LastReached` determines it: no other index satisfies it. */
  lemma LastReachedUnique(scroll: int, secs: seq<Section>, k: int)
    requires -1 <= k < |secs|
    requires k >= 0 ==> Reached(scroll, secs[k])
    requires forall j :: k < j < |secs| ==> !Reached(scroll, secs[j])
    ensures LastReached(scroll, secs) == k
  {
    var k' := LastReached(scroll, secs);
    if k' >= 0 {
      assert Reached(scroll, secs[k']);
    }
    if k >= 0 {
      assert Reached(scroll, secs[k]);
    }
  }

  /** Prepending a section shifts the last reached index, unless none was reached after it. */
  lemma LastReachedCons(scroll: int, h: Section, t: seq<Section>)
    ensures var k := LastReached(scroll, t);
      LastReached(scroll, [h] + t) == if k >= 0 then k + 1 else if Reached(scroll, h) then 0 else -1
  {
    var secs := [h] + t;
    var k := LastReached(scroll, t);
    var e := if k >= 0 then k + 1 else if Reached(scroll, h) then 0 else -1;
    forall j | e < j < |secs|
      ensures !Reached(scroll, secs[j])
    {
      if j == 0 {
        assert secs[0] == h;
      } else {
        assert secs[j] == t[j - 1];
      }
    }
    if e >= 0 {
      assert secs[e] == if k >= 0 then t[k] else h;
    }
    LastReachedUnique(scroll, secs, e);
  }

  /**
    The scan ends on the id of the last reached section, and keeps the id it
    started from when no section is reached.
   */
  lemma {:induction false} ScanFindsLastReached(scroll: int, secs: seq<Section>, current: string)
    ensures var k := LastReached(scroll, secs);
      Scan(scroll, secs, current) == if k >= 0 then secs[k].id else current
    decreases |secs|
  {
    if |secs| > 0 {
      var h, t := secs[0], secs[1..];
      assert secs == [h] + t;
      LastReachedCons(scroll, h, t);
      ScanFindsLastReached(scroll, t, if Reached(scroll, h) then h.id else current);
    }
  }

  /**
    The id of the active section: that of the last section in document order
    the reader has reached, or the empty string when none is reached.
   */
  function ActiveSectionId(scroll: int, secs: seq<Section>): (id: string)
    ensures LastReached(scroll, secs) < 0 ==> id == ""
    ensures LastReached(scroll, secs) >= 0 ==> id == secs[LastReached(scroll, secs)].id
  {
    ScanFindsLastReached(scroll, secs, "");
    Scan(scroll, secs, "")
  }

  /** Scrolling further down never moves the active section back up the page. */
  lemma LastReachedMonotone(a: int, b: int, secs: seq<Section>)
    requires a <= b
    ensures LastReached(a, secs) <= LastReached(b, secs)
  {
    var ka := LastReached(a, secs);
    if ka >= 0 {
      assert Reached(b, secs[ka]);
    }
  }

  /**
    Sections at 0, 800 and 1600 with the reader at 900: the section at 800 is
    active, since 900 >= 800 - 120 and 900 < 1600 - 120.
   */
  lemma ActiveSectionExample()
    ensures ActiveSectionId(900, [Section("home", 0), Section("about", 800), Section("projects", 1600)]) == "about"
  {
    var secs := [Section("home", 0), Section("about", 800), Section("projects", 1600)];
    assert !Reached(900, secs[2]);
    assert Reached(900, secs[1]);
    assert LastReached(900, secs) == 1;
  }

  /** A navigation link: its `href` attribute, if any, and whether it has the `active` class. */
  datatype Link = Link(href: Option<string>, active: bool)

  /** The `href` a link needs to point at the section with this id. */
  function Fragment(id: string): (f: string) {
    "#" + id
  }

  /**
    Every link loses `active`, and regains it exactly when its `href` is the
    fragment of the current section.
   */
  function MarkLinks(links: seq<Link>, current: string): (r: seq<Link>)
    ensures |r| == |links|
    ensures forall i :: 0 <= i < |links| ==> r[i].href == links[i].href
    ensures forall i :: 0 <= i < |links| ==> (r[i].active <==> links[i].href == Some(Fragment(current)))
  {
    seq(|links|, i requires 0 <= i < |links| => Link(links[i].href, links[i].href == Some(Fragment(current))))
  }

  /** The links' previous `active` classes make no difference. */
  lemma MarkLinksForgetsPrevious(a: seq<Link>, b: seq<Link>, current: string)
    requires |a| == |b| && forall i :: 0 <= i < |a| ==> a[i].href == b[i].href
    ensures MarkLinks(a, current) == MarkLinks(b, current)
  {
  }

  /** When no two links share an `href`, at most one link ends up active. */
  lemma AtMostOneActive(links: seq<Link>, current: string)
    requires forall i, j :: 0 <= i < j < |links| ==> links[i].href != links[j].href
    ensures forall i, j ::
      (0 <= i < |links| && 0 <= j < |links| &&
       MarkLinks(links, current)[i].active && MarkLinks(links, current)[j].active) ==> i == j
  {
  }

  /**
    With no section reached the current id stays empty, so the handler marks
    active exactly the links whose `href` is `#`, and no other link.
   */
  lemma NoSectionMarksBareHash(scroll: int, hasNav: bool, secs: seq<Section>, links: seq<Link>)
    requires forall j :: 0 <= j < |secs| ==> !Reached(scroll, secs[j])
    ensures OnScroll(scroll, hasNav, secs, links).current == ""
    ensures forall i :: 0 <= i < |links| ==>
      (OnScroll(scroll, hasNav, secs, links).links[i].active <==> links[i].href == Some("#"))
  {
  }

  /**
    When the last reached section has an empty `id` attribute, the current id is
    empty too, so the handler marks the `#` links and no other.
   */
  lemma EmptyIdSectionMarksBareHash(scroll: int, hasNav: bool, secs: seq<Section>, links: seq<Link>)
    requires LastReached(scroll, secs) >= 0 && secs[LastReached(scroll, secs)].id == ""
    ensures OnScroll(scroll, hasNav, secs, links).current == ""
    ensures forall i :: 0 <= i < |links| ==>
      (OnScroll(scroll, hasNav, secs, links).links[i].active <==> links[i].href == Some("#"))
  {
    assert Fragment("") == "#";
  }

  /** Everything one scroll event changes. */
  datatype ScrollEffect = ScrollEffect(navStyle: Option<NavStyle>, current: string, links: seq<Link>)

  /**
    The scroll listener: the bar's style (only when the bar exists), the active
    section's id, and the links with their `active` classes recomputed.
   */
  function OnScroll(scroll: int, hasNav: bool, secs: seq<Section>, links: seq<Link>): (e: ScrollEffect)
    ensures hasNav <==> e.navStyle.Some?
    ensures hasNav ==> e.navStyle == Some(if scroll > ScrollThreshold then ScrolledStyle else RestingStyle)
    ensures var k := LastReached(scroll, secs);
      e.current == if k >= 0 then secs[k].id else ""
    ensures |e.links| == |links|
    ensures forall i :: 0 <= i < |links| ==> e.links[i].href == links[i].href
    ensures var k := LastReached(scroll, secs);
      forall i :: 0 <= i < |links| ==>
        (e.links[i].active <==> links[i].href == Some(if k >= 0 then "#" + secs[k].id else "#"))
  {
    var current := ActiveSectionId(scroll, secs);
    assert Fragment("") == "#";
    ScrollEffect(if hasNav then Some(StyleFor(scroll)) else None, current, MarkLinks(links, current))
  }

  /**
    The listener keeps no state between events: what a scroll event leaves does
    not depend on any earlier scroll event.
   */
  lemma OnScrollForgetsHistory(earlier: int, scroll: int, hasNav: bool, secs: seq<Section>, links: seq<Link>)
    ensures OnScroll(scroll, hasNav, secs, OnScroll(earlier, hasNav, secs, links).links)
         == OnScroll(scroll, hasNav, secs, links)
  {
    var current := ActiveSectionId(scroll, secs);
    MarkLinksForgetsPrevious(OnScroll(earlier, hasNav, secs, links).links, links, current);
  }
}
