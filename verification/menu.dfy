/** The mobile menu of `setupNavigation`: the hamburger button's click
    handler and the click handler on every navigation link. */
module Menu {
  import opened Wrappers

  /** The `.hamburger` button: its `aria-expanded` attribute (`None` when
      absent) and its class list. */
  datatype Hamburger = Hamburger(ariaExpanded: Option<string>, classes: set<string>)

  /** The elements the handlers touch; `querySelector` may have found
      neither. `navMenu` is the class list of `.nav-menu`. */
  datatype MenuState = MenuState(hamburger: Option<Hamburger>, navMenu: Option<set<string>>)

  /** `classList.toggle(name)`. */
  function Toggle(classes: set<string>, name: string): (r: set<string>)
    ensures name in r <==> name !in classes
    ensures r - {name} == classes - {name}
  {
    if name in classes then classes - {name} else classes + {name}
  }

  /** `getAttribute('aria-expanded') === 'true'`. */
  predicate Expanded(h: Hamburger) {
    h.ariaExpanded == Some("true")
  }

  predicate MenuActive(navMenu: Option<set<string>>) {
    navMenu.Some? && "active" in navMenu.value
  }

  /** A hamburger click: `aria-expanded` becomes `String(!expanded)`, and
      "active" is toggled on the button and on the menu. Without a
      hamburger no listener was registered, so nothing happens. */
  function ClickHamburger(m: MenuState): (r: MenuState)
    ensures m.hamburger.None? ==> r == m
    ensures m.hamburger.Some? ==> (
      && r.hamburger.Some?
      && r.hamburger.value.ariaExpanded in {Some("true"), Some("false")}
      && (Expanded(r.hamburger.value) <==> !Expanded(m.hamburger.value))
      && ("active" in r.hamburger.value.classes <==> "active" !in m.hamburger.value.classes)
      && r.hamburger.value.classes - {"active"} == m.hamburger.value.classes - {"active"})
    ensures m.hamburger.Some? ==> (
      && r.navMenu.Some? == m.navMenu.Some?
      && (MenuActive(r.navMenu) <==> !MenuActive(m.navMenu) && m.navMenu.Some?)
      && (r.navMenu.Some? ==> r.navMenu.value - {"active"} == m.navMenu.value - {"active"}))
  {
    match m.hamburger
    case None => m
    case Some(h) =>
      var aria := if Expanded(h) then "false" else "true";
      var navMenu := match m.navMenu
        case None => None
        case Some(classes) => Some(Toggle(classes, "active"));
      MenuState(Some(Hamburger(Some(aria), Toggle(h.classes, "active"))), navMenu)
  }

  /** A navigation-link click: "active" is removed from the button and the
      menu, and `aria-expanded` is set to "false", on whichever exist. */
  function ClickNavLink(m: MenuState): (r: MenuState)
    ensures Closed(r)
    ensures r.hamburger.Some? == m.hamburger.Some? && r.navMenu.Some? == m.navMenu.Some?
    ensures r.hamburger.Some? ==> r.hamburger.value.classes - {"active"} == m.hamburger.value.classes - {"active"}
    ensures r.navMenu.Some? ==> r.navMenu.value - {"active"} == m.navMenu.value - {"active"}
  {
    var hamburger := match m.hamburger
      case None => None
      case Some(h) => Some(Hamburger(Some("false"), h.classes - {"active"}));
    var navMenu := match m.navMenu
      case None => None
      case Some(classes) => Some(classes - {"active"});
    MenuState(hamburger, navMenu)
  }

  /** The closed menu: collapsed button, nothing "active". */
  predicate Closed(m: MenuState) {
    && (m.hamburger.Some? ==> m.hamburger.value.ariaExpanded == Some("false")
                              && "active" !in m.hamburger.value.classes)
    && !MenuActive(m.navMenu)
  }

  /** The button's `aria-expanded`, its "active" class and the menu's
      "active" class all agree. */
  predicate InSync(m: MenuState) {
    m.hamburger.Some? ==>
      && (Expanded(m.hamburger.value) <==> "active" in m.hamburger.value.classes)
      && (m.navMenu.Some? ==> (MenuActive(m.navMenu) <==> Expanded(m.hamburger.value)))
  }

  /** A hamburger click keeps the three indicators in agreement. */
  lemma ClickKeepsSync(m: MenuState)
    requires InSync(m)
    ensures InSync(ClickHamburger(m))
  {
  }

  /** A navigation-link click leaves the menu closed and in agreement. */
  lemma ClickNavLinkCloses(m: MenuState)
    ensures Closed(ClickNavLink(m)) && InSync(ClickNavLink(m))
  {
  }

  /** Clicking a navigation link twice is the same as clicking it once. */
  lemma ClickNavLinkIdempotent(m: MenuState)
    ensures ClickNavLink(ClickNavLink(m)) == ClickNavLink(m)
  {
    var once := ClickNavLink(m);
    if once.hamburger.Some? {
      assert once.hamburger.value.classes - {"active"} == once.hamburger.value.classes;
    }
    if once.navMenu.Some? {
      assert once.navMenu.value - {"active"} == once.navMenu.value;
    }
  }

  lemma ToggleTwice(classes: set<string>, name: string)
    ensures Toggle(Toggle(classes, name), name) == classes
  {
  }

  /** Two hamburger clicks restore the state, once `aria-expanded` holds
      "true" or "false" (an absent or other value becomes "false"). */
  lemma ClickTwiceRestores(m: MenuState)
    requires m.hamburger.Some? ==> m.hamburger.value.ariaExpanded in {Some("true"), Some("false")}
    ensures ClickHamburger(ClickHamburger(m)) == m
  {
    if m.hamburger.Some? {
      var h := m.hamburger.value;
      ToggleTwice(h.classes, "active");
      if m.navMenu.Some? {
        ToggleTwice(m.navMenu.value, "active");
      }
    }
  }

  /** From a fresh page (no `aria-expanded`, nothing "active") the first
      hamburger click opens the menu. */
  lemma ExampleFirstClickOpens()
    ensures var r := ClickHamburger(MenuState(Some(Hamburger(None, {"hamburger"})), Some({"nav-menu"})));
      r == MenuState(Some(Hamburger(Some("true"), {"hamburger", "active"})), Some({"nav-menu", "active"}))
  {
    assert "active" !in {"hamburger"} && "active" !in {"nav-menu"};
    assert Toggle({"hamburger"}, "active") == {"hamburger", "active"};
    assert Toggle({"nav-menu"}, "active") == {"nav-menu", "active"};
  }
}
