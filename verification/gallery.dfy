// The image gallery of a listing's page.

module Gallery {
  import opened Optional
  import Cyclic

  /** The images shown: the listing's gallery when it has one, otherwise
      its main image alone. Never empty, so stepping through them never
      divides by zero. */
  function Images(gallery: Option<seq<string>>, imageUrl: string): (r: seq<string>)
    ensures |r| >= 1
    ensures gallery.Some? && gallery.value != [] ==> r == gallery.value
    ensures gallery.None? || gallery.value == [] ==> r == [imageUrl]
  {
    if gallery.Some? && |gallery.value| > 0 then gallery.value else [imageUrl]
  }

  /** The gallery component: the selected image and whether the full-screen
      view is open. */
  class PropertyGallery {
    const images: seq<string>
    var selected: nat
    var modalOpen: bool

    predicate Valid()
      reads this
    {
      |images| >= 1 && selected < |images|
    }

    /** A gallery as first rendered: the first image, the full-screen view
        closed. */
    constructor(gallery: Option<seq<string>>, imageUrl: string)
      ensures images == Images(gallery, imageUrl)
      ensures selected == 0 && !modalOpen
      ensures Valid()
    {
      images := Images(gallery, imageUrl);
      selected := 0;
      modalOpen := false;
    }

    /** The "next" arrow: one image on, from the last back to the first. */
    method NextImage()
      requires Valid()
      modifies this
      ensures selected == Cyclic.Next(old(selected), |images|)
      ensures modalOpen == old(modalOpen)
      ensures Valid()
    {
      selected := (selected + 1) % |images|;
    }

    /** The "previous" arrow: one image back, from the first to the last. */
    method PrevImage()
      requires Valid()
      modifies this
      ensures selected == Cyclic.Prev(old(selected), |images|)
      ensures modalOpen == old(modalOpen)
      ensures Valid()
    {
      selected := (selected - 1 + |images|) % |images|;
    }

    /** A thumbnail click. */
    method SelectImage(index: nat)
      requires Valid() && index < |images|
      modifies this
      ensures selected == index && modalOpen == old(modalOpen)
      ensures Valid()
    {
      selected := index;
    }

    /** A click on the main image: the full-screen view opens on `index`. */
    method OpenModal(index: nat)
      requires Valid() && index < |images|
      modifies this
      ensures selected == index && modalOpen
      ensures Valid()
    {
      selected := index;
      modalOpen := true;
    }

    /** The close button of the full-screen view. */
    method CloseModal()
      requires Valid()
      modifies this
      ensures selected == old(selected) && !modalOpen
      ensures Valid()
    {
      modalOpen := false;
    }

    /** The counter "position / total": a position from 1 to the number of
        images. */
    function Counter(): (r: (nat, nat))
      reads this
      requires Valid()
      ensures r.0 == selected + 1 && r.1 == |images|
      ensures 1 <= r.0 <= r.1
    {
      (selected + 1, |images|)
    }

    /** Arrows and thumbnails appear only with more than one image. */
    predicate ShowsNavigation()
      reads this
    {
      |images| > 1
    }

    /** Which thumbnail carries the highlight border. */
    function Highlighted(): (r: seq<bool>)
      reads this
      requires Valid()
      ensures |r| == |images|
      ensures Cyclic.CountTrue(r) == 1 && r[selected]
    {
      Cyclic.OneMarked(|images|, selected);
      Cyclic.Marks(|images|, selected)
    }
  }
}
