/** Lazy image loading: an image with a `data-src` attribute is watched
    until it first intersects the viewport, then its real source is swapped
    in, its `lazy` class removed, and it is no longer watched. */
module LazyImages {
  import opened Wrappers

  /** An image element: its `src`, its `data-src` attribute if present,
      whether its class list holds `lazy`, and whether the lazy-image
      observer is watching it. */
  datatype Image = Image(src: string, dataSrc: Option<string>, lazy: bool, observed: bool)

  /** `img.dataset.src` is truthy: present and not the empty string. */
  predicate HasDeferredSource(img: Image)
  {
    img.dataSrc.Some? && img.dataSrc.value != ""
  }

  /** `img` with its real source in place, no longer lazy or watched. */
  function Loaded(img: Image): (r: Image)
    requires img.dataSrc.Some?
  {
    Image(img.dataSrc.value, img.dataSrc, false, false)
  }

  /** Setup: every image matching `img[data-src]` is observed, whatever
      the attribute's value; nothing else about the image changes. */
  function Observe(img: Image): (r: Image)
    ensures r.observed <==> (img.observed || img.dataSrc.Some?)
    ensures r.(observed := img.observed) == img
  {
    if img.dataSrc.Some? then img.(observed := true) else img
  }

  /** One intersection report for `img`. The observer reports only on
      images it watches; on an intersecting report with a truthy
      `data-src` the source is swapped, `lazy` dropped and the image
      unobserved; otherwise nothing changes. */
  function OnReport(img: Image, intersecting: bool): (r: Image)
    ensures r != img <==> img.observed && intersecting && HasDeferredSource(img)
    ensures r != img ==> r == Loaded(img)
    ensures r.observed ==> r == img
  {
    if img.observed && intersecting && HasDeferredSource(img) then Loaded(img) else img
  }

  /** The image after a sequence of intersection reports. */
  function Reports(img: Image, rs: seq<bool>): (r: Image)
  {
    if rs == [] then img else OnReport(Reports(img, rs[..|rs| - 1]), rs[|rs| - 1])
  }

  /** A loaded image is left alone by every later report. */
  lemma {:induction false} LoadedIsFinal(img: Image, rs: seq<bool>)
    requires img.dataSrc.Some?
    ensures Reports(Loaded(img), rs) == Loaded(img)
  {
    if rs != [] {
      LoadedIsFinal(img, rs[..|rs| - 1]);
    }
  }

  /** The swap is one-shot: a watched image with a truthy `data-src` ends
      up loaded exactly when some report was intersecting, and untouched
      otherwise. */
  lemma {:induction false} SwapIsOneShot(img: Image, rs: seq<bool>)
    requires img.observed && HasDeferredSource(img)
    ensures (exists k :: 0 <= k < |rs| && rs[k]) ==> Reports(img, rs) == Loaded(img)
    ensures (forall k :: 0 <= k < |rs| ==> !rs[k]) ==> Reports(img, rs) == img
  {
    if rs != [] {
      var prefix := rs[..|rs| - 1];
      SwapIsOneShot(img, prefix);
      if exists k :: 0 <= k < |prefix| && prefix[k] {
        assert Reports(img, prefix) == Loaded(img);
      } else if rs[|rs| - 1] {
        assert Reports(img, prefix) == img by {
          assert forall k :: 0 <= k < |prefix| ==> prefix[k] == rs[k];
        }
      } else {
        assert forall k :: 0 <= k < |prefix| ==> prefix[k] == rs[k];
      }
    }
  }

  /** An image whose `data-src` is empty is watched but never swapped: the
      attribute matches the selector but is not truthy. */
  lemma {:induction false} EmptyDeferredSourceNeverLoads(img: Image, rs: seq<bool>)
    requires img.dataSrc == Some("")
    ensures Reports(img, rs) == img
  {
    if rs != [] {
      EmptyDeferredSourceNeverLoads(img, rs[..|rs| - 1]);
    }
  }
}
