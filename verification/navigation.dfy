/** The two scroll listeners of `setupNavigation`: the navbar's "scrolled"
    class, and the navigation link of the section currently scrolled to. */
module Navigation {
  import opened Wrappers

  /** Scroll distance, in pixels, past which the navbar is "scrolled". */
  const ScrolledThreshold: real := 100.0

  /** Allowance for the fixed navbar: a section counts as reached this many
      pixels before its top arrives at the top of the window. */
  const NavbarOffset: int := 120

  /** `classList.toggle(name, force)`. */
  function ToggleForced(classes: set<string>, name: string, force: bool): (r: set<string>)
    ensures name in r <==> force
    ensures r - {name} == classes - {name}
  {
    if force then classes + {name} else classes - {name}
  }

  /** The navbar's class list after a scroll event at `scrollY`. */
  function NavbarOnScroll(classes: set<string>, scrollY: real): (r: set<string>)
    ensures "scrolled" in r <==> scrollY > ScrolledThreshold
    ensures r - {"scrolled"} == classes - {"scrolled"}
  {
    ToggleForced(classes, "scrolled", scrollY > ScrolledThreshold)
  }

  /** A `<section>`: its `id` attribute (`None` when it has none) and its
      `offsetTop`, an integer number of pixels. */
  datatype Section = Section(id: Option<string>, offsetTop: int)

  /** A `.nav-link`: its `href` attribute and its class list. */
  datatype Link = Link(href: Option<string>, classes: set<string>)

  /** `window.scrollY >= section.offsetTop - 120`; `scrollY` may be
      fractional. */
  predicate Reached(section: Section, scrollY: real) {
    scrollY >= (section.offsetTop - NavbarOffset) as real
  }

  /** The position of the last reached section in document order. */
  function LastReached(sections: seq<Section>, scrollY: real): (r: Option<nat>)
    ensures r.Some? ==> r.value < |sections| && Reached(sections[r.value], scrollY)
    ensures r.Some? ==> forall j :: r.value < j < |sections| ==> !Reached(sections[j], scrollY)
    ensures r.None? ==> forall j :: 0 <= j < |sections| ==> !Reached(sections[j], scrollY)
  {
    if sections == [] then None
    else if Reached(sections[|sections| - 1], scrollY) then Some(|sections| - 1)
    else LastReached(sections[..|sections| - 1], scrollY)
  }

  /** The value the handler's `current` ends with: the `id` of the last
      reached section (`None` standing for JavaScript's `null` when that
      section has no `id`), or "" when no section is reached. */
  function CurrentId(sections: seq<Section>, scrollY: real): Option<string> {
    match LastReached(sections, scrollY)
    case None => Some("")
    case Some(k) => sections[k].id
  }

  lemma LastReachedExtend(sections: seq<Section>, i: nat, scrollY: real)
    requires i < |sections|
    ensures LastReached(sections[..i + 1], scrollY)
      == if Reached(sections[i], scrollY) then Some(i) else LastReached(sections[..i], scrollY)
  {
    assert sections[..i + 1][..i] == sections[..i];
  }

  /** The `sections.forEach` scan: every reached section overwrites
      `current`, so the last one in document order wins. */
  method ScanCurrent(sections: seq<Section>, scrollY: real) returns (current: Option<string>)
    ensures current == CurrentId(sections, scrollY)
  {
    current := Some("");
    var i := 0;
    while i < |sections|
      invariant 0 <= i <= |sections|
      invariant current == CurrentId(sections[..i], scrollY)
    {
      LastReachedExtend(sections, i, scrollY);
      if Reached(sections[i], scrollY) {
        current := sections[i].id;
      }
      i := i + 1;
    }
    assert sections[..i] == sections;
  }

  /** `current` is the `id` of the last reached section in document order,
      and "" when no section is reached. */
  lemma CurrentIdIsLastReached(sections: seq<Section>, scrollY: real)
    ensures (forall j :: 0 <= j < |sections| ==> !Reached(sections[j], scrollY))
      ==> CurrentId(sections, scrollY) == Some("")
    ensures forall k ::
      (0 <= k < |sections| && Reached(sections[k], scrollY)
       && (forall j :: k < j < |sections| ==> !Reached(sections[j], scrollY)))
      ==> CurrentId(sections, scrollY) == sections[k].id
  {
    var r := LastReached(sections, scrollY);
    forall k | 0 <= k < |sections| && Reached(sections[k], scrollY)
      && (forall j :: k < j < |sections| ==> !Reached(sections[j], scrollY))
      ensures r == Some(k)
    {
    }
  }

  /** `"#" + current`, where JavaScript writes `null` as "null". */
  function Anchor(current: Option<string>): string {
    "#" + current.GetOr("null")
  }

  /** One link of the `navLinks.forEach` update: "active" is removed, then
      added back exactly when the link's `href` is the current anchor. */
  function Highlight(link: Link, current: Option<string>): (r: Link)
    ensures r.href == link.href
    ensures "active" in r.classes <==> link.href == Some(Anchor(current))
    ensures r.classes - {"active"} == link.classes - {"active"}
  {
    var cleared := link.classes - {"active"};
    Link(link.href, if link.href == Some(Anchor(current)) then cleared + {"active"} else cleared)
  }

  /** The whole `navLinks.forEach` update. */
  function HighlightAll(links: seq<Link>, current: Option<string>): (r: seq<Link>)
    ensures |r| == |links|
    ensures forall i :: 0 <= i < |r| ==> r[i].href == links[i].href
    ensures forall i :: 0 <= i < |r| ==>
      ("active" in r[i].classes <==> links[i].href == Some(Anchor(current)))
    ensures forall i :: 0 <= i < |r| ==> r[i].classes - {"active"} == links[i].classes - {"active"}
  {
    seq(|links|, i requires 0 <= i < |links| => Highlight(links[i], current))
  }

  /** The highlight listener: scan the sections, then update every link. */
  method HighlightOnScroll(sections: seq<Section>, links: seq<Link>, scrollY: real)
    returns (updated: seq<Link>)
    ensures |updated| == |links|
    ensures forall i :: 0 <= i < |links| ==>
      ("active" in updated[i].classes <==> links[i].href == Some(Anchor(CurrentId(sections, scrollY))))
    ensures forall i :: 0 <= i < |links| ==>
      updated[i].href == links[i].href && updated[i].classes - {"active"} == links[i].classes - {"active"}
  {
    var current := ScanCurrent(sections, scrollY);
    updated := HighlightAll(links, current);
  }

  /** Links whose `href`s differ pairwise. */
  predicate DistinctHrefs(links: seq<Link>) {
    forall i, j :: 0 <= i < j < |links| && links[i].href.Some? ==> links[i].href != links[j].href
  }

  /** With distinct `href`s, at most one link ends up active. */
  lemma AtMostOneActive(links: seq<Link>, current: Option<string>)
    requires DistinctHrefs(links)
    ensures var r := HighlightAll(links, current);
      forall i, j :: 0 <= i < j < |r| ==> !("active" in r[i].classes && "active" in r[j].classes)
  {
  }

  /** A second scroll event at the same position changes nothing more. */
  lemma HighlightIdempotent(links: seq<Link>, current: Option<string>)
    ensures HighlightAll(HighlightAll(links, current), current) == HighlightAll(links, current)
  {
    var once := HighlightAll(links, current);
    var twice := HighlightAll(once, current);
    forall i | 0 <= i < |links|
      ensures twice[i] == once[i]
    {
      assert twice[i].classes == once[i].classes;
    }
  }

  /** Above every section (all of them more than 120 pixels below the
      scroll position) `current` stays "", so a link to "#" is the one
      highlighted. */
  lemma ExampleAboveAllSections()
    ensures var sections := [Section(Some("about"), 600), Section(Some("work"), 1400)];
      var links := [Link(Some("#"), {"nav-link"}), Link(Some("#about"), {"nav-link", "active"})];
      var r := HighlightAll(links, CurrentId(sections, 0.0));
      "active" in r[0].classes && "active" !in r[1].classes
  {
    var sections := [Section(Some("about"), 600), Section(Some("work"), 1400)];
    assert sections[..1] == [Section(Some("about"), 600)];
    assert [Section(Some("about"), 600)][..0] == [];
    assert CurrentId(sections, 0.0) == Some("");
    assert Anchor(Some("")) == "#";
  }

  /** A reached section without an `id` makes `current` null, and the link
      it matches is the one whose `href` is "#null". */
  lemma ExampleSectionWithoutId()
    ensures var sections := [Section(Some("home"), 0), Section(None, 800)];
      var links := [Link(Some("#home"), {"active"}), Link(Some("#null"), {})];
      var r := HighlightAll(links, CurrentId(sections, 700.0));
      "active" !in r[0].classes && "active" in r[1].classes
  {
    var sections := [Section(Some("home"), 0), Section(None, 800)];
    assert Reached(sections[1], 700.0);
    assert CurrentId(sections, 700.0) == None;
    assert Anchor(None) == "#null";
    assert "#home" != "#null";
  }
}
