/** Smooth scrolling for in-page links: where a click on an `a[href^="#"]`
    asks the window to scroll. */
module Anchors {
  import opened Wrappers

  /** The height left free for the fixed header above a scroll target. */
  const HeaderAllowance: int := 80

  /** The scroll position requested for a link with attribute `href`.
      `targets` gives, for each selector that finds an element, that
      element's `offsetTop`. An empty `href`, a bare `#`, or a selector
      that finds nothing requests no scroll. */
  function ScrollTarget(href: string, targets: map<string, int>): (r: Option<int>)
    ensures r.Some? <==> href != "" && href != "#" && href in targets
    ensures r.Some? ==> r.value + HeaderAllowance == targets[href]
  {
    if href != "" && href != "#" && href in targets then Some(targets[href] - HeaderAllowance)
    else None
  }

  /** The requested position is the header's allowance (80) above the
      element's `offsetTop`, and the difference between two requested
      positions equals the difference between the two offsets. */
  lemma TargetClearsHeader(a: string, b: string, targets: map<string, int>)
    requires ScrollTarget(a, targets).Some? && ScrollTarget(b, targets).Some?
    ensures targets[a] - ScrollTarget(a, targets).value == 80
    ensures ScrollTarget(b, targets).value - ScrollTarget(a, targets).value == targets[b] - targets[a]
  {
  }
}
