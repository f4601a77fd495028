/** The debounced navbar scroll handler: the navbar's `scrolled` class and
    the colour of its links and menu-icon bars as a function of the
    vertical scroll offset. */
module Navbar {

  /** The scroll offset the navbar must exceed to count as scrolled. */
  const ScrollThreshold: real := 50.0

  /** The two palettes the handler switches between: `--text-primary`
      (dark) and `--white` (light). */
  datatype Palette = Dark | Light

  /** What the handler leaves on the page: whether the navbar carries the
      `scrolled` class, and the colour of the nav links (other than the
      call-to-action button) and of the menu-icon bars. */
  datatype NavbarLook = NavbarLook(scrolled: bool, links: Palette, icon: Palette)

  /** The handler's decision for a `window.scrollY` of `y`. The offset is a
      double in the browser; the comparison with 50 is exact, so it is
      modelled as a real. */
  function LookAt(y: real): (v: NavbarLook)
    ensures v.scrolled <==> y > ScrollThreshold
    ensures v.links == v.icon
    ensures v.links == Dark <==> v.scrolled
  {
    if y > ScrollThreshold then NavbarLook(true, Dark, Dark)
    else NavbarLook(false, Light, Light)
  }

  /** The boundary is exclusive: at 50 the navbar is at the top with the
      light palette, just past it (50.5, 51) it is scrolled and dark. */
  lemma ThresholdIsStrict()
    ensures LookAt(50.0) == NavbarLook(false, Light, Light)
    ensures LookAt(50.5) == NavbarLook(true, Dark, Dark)
    ensures LookAt(51.0) == NavbarLook(true, Dark, Dark)
  {
  }
}
