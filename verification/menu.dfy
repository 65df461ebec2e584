/**
  The hamburger menu: clicking the icon toggles the `open` class on the menu
  links and on the icon, and locks page scrolling (`overflow: hidden` on the
  body) exactly while the menu is open.
 */
module Menu {

  /** The two `open` classes and the body's inline `overflow` style. */
  datatype MenuState = MenuState(menuOpen: bool, iconOpen: bool, overflow: string)

  /** The value the handler writes on the body while the menu is open. */
  const Locked: string := "hidden"

  /** The page as loaded: menu and icon closed, no inline overflow. */
  const Closed: MenuState := MenuState(false, false, "")

  /** The body's overflow agrees with the menu, as the handler leaves it. */
  predicate Consistent(m: MenuState) {
    m.overflow == if m.menuOpen then Locked else ""
  }

  /** One click on the hamburger icon. */
  function ToggleMenu(m: MenuState): (r: MenuState)
    ensures r.menuOpen != m.menuOpen && r.iconOpen != m.iconOpen
    ensures r.overflow == Locked <==> r.menuOpen
    ensures r.overflow == Locked || r.overflow == ""
  {
    var menuOpen := !m.menuOpen;
    MenuState(menuOpen, !m.iconOpen, if menuOpen then Locked else "")
  }

  /**
    Toggling twice gives back the state it started from exactly when that state
    was consistent; in any case the two flags are restored.
   */
  lemma ToggleTwice(m: MenuState)
    ensures ToggleMenu(ToggleMenu(m)) == m <==> Consistent(m)
    ensures ToggleMenu(ToggleMenu(m)).menuOpen == m.menuOpen
    ensures ToggleMenu(ToggleMenu(m)).iconOpen == m.iconOpen
  {
  }

  /** A toggle keeps the icon in step with the menu if it was in step before. */
  lemma ToggleKeepsIconInStep(m: MenuState)
    requires m.menuOpen == m.iconOpen
    ensures ToggleMenu(m).menuOpen == ToggleMenu(m).iconOpen
  {
  }

  /** The state after `k` clicks. */
  function Toggles(m: MenuState, k: nat): (r: MenuState)
    ensures k > 0 ==> Consistent(r)
    decreases k
  {
    if k == 0 then m else ToggleMenu(Toggles(m, k - 1))
  }

  /**
    From the page as loaded, the menu is open, the icon shows open and the page
    is scroll-locked exactly after an odd number of clicks.
   */
  lemma {:induction false} ToggleParity(k: nat)
    ensures Toggles(Closed, k).menuOpen <==> k % 2 == 1
    ensures Toggles(Closed, k).iconOpen <==> k % 2 == 1
    ensures Toggles(Closed, k).overflow == (if k % 2 == 1 then Locked else "")
    decreases k
  {
    if k > 0 {
      ToggleParity(k - 1);
    }
  }
}
