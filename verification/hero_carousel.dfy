// The carousel of featured listings at the top of the home page.

module HeroCarousel {
  import Seqs
  import Cyclic
  import PropertyService

  type Property = PropertyService.Property

  /** The slides as the selection is written: the first three featured
      listings. The fallback to the first three listings is joined with
      `||` to an array, which is never falsy, so it is never taken. */
  function SlidesAsWritten(listings: seq<Property>): (r: seq<Property>)
    ensures |r| <= 3
    ensures forall p | p in r :: PropertyService.IsFeatured(p)
    ensures r == [] <==> forall p | p in listings :: !PropertyService.IsFeatured(p)
    ensures var featured := PropertyService.FeaturedFallback(listings);
      |r| == Seqs.Min(3, |featured|) && r == featured[..|r|]
  {
    var featured := Seqs.Filter(listings, PropertyService.IsFeatured);
    assert featured == [] <==> forall p | p in listings :: !PropertyService.IsFeatured(p) by {
      if featured != [] {
        assert featured[0] in featured;
      }
    }
    Seqs.Take(featured, 3)
  }

  /** The slides as intended: the first three featured listings, or the
      first three listings when none is featured. */
  function Slides(listings: seq<Property>): (r: seq<Property>)
    ensures |r| <= 3
    ensures r == [] <==> listings == []
    ensures (exists p | p in listings :: PropertyService.IsFeatured(p)) ==> r == SlidesAsWritten(listings)
    ensures (forall p | p in listings :: !PropertyService.IsFeatured(p)) ==> r == Seqs.Take(listings, 3)
  {
    var featured := SlidesAsWritten(listings);
    if featured != [] then featured else Seqs.Take(listings, 3)
  }

  /** Without a featured listing the selection as written shows nothing,
      although there are listings to show. */
  lemma {:induction false} AsWrittenLosesFallback(listings: seq<Property>)
    requires listings != []
    requires forall p | p in listings :: !PropertyService.IsFeatured(p)
    ensures SlidesAsWritten(listings) == []
    ensures Slides(listings) == Seqs.Take(listings, 3) != []
  {
  }

  /** One listing that is not featured: no slide as written, one slide as
      intended. */
  lemma {:induction false} CottageOnly()
    ensures SlidesAsWritten([PropertyService.Cottage]) == []
    ensures Slides([PropertyService.Cottage]) == [PropertyService.Cottage]
  {
    AsWrittenLosesFallback([PropertyService.Cottage]);
  }

  /** With one to three featured listings the slides are exactly those. */
  lemma {:induction false} FewFeaturedAreSlides(listings: seq<Property>)
    requires 1 <= |PropertyService.FeaturedFallback(listings)| <= 3
    ensures Slides(listings) == PropertyService.FeaturedFallback(listings)
  {
    var featured := PropertyService.FeaturedFallback(listings);
    assert featured[0] in featured;
  }

  /** The in-memory listings give the three featured ones. */
  lemma {:induction false} MockSlides()
    ensures Slides(PropertyService.MockProperties)
      == [PropertyService.Villa, PropertyService.SuburbanParadise, PropertyService.Townhouse]
  {
    PropertyService.MockFeatured();
    FewFeaturedAreSlides(PropertyService.MockProperties);
  }

  /** What the hero area shows. */
  datatype Hero =
    | Blank                                          // no listing to show
    | Static(property: Property)                     // before mounting
    | Carousel(slides: seq<Property>, active: seq<bool>)

  /** The hero area: nothing without slides, the first slide alone before
      the component is mounted, and afterwards every slide with exactly the
      current one visible (and its indicator lit). */
  function View(mounted: bool, slides: seq<Property>, current: nat): (h: Hero)
    ensures slides == [] ==> h == Blank
    ensures slides != [] && !mounted ==> h == Static(slides[0])
    ensures mounted && slides != [] ==> h.Carousel? && h.slides == slides && |h.active| == |slides|
    ensures mounted && current < |slides| ==> Cyclic.CountTrue(h.active) == 1 && h.active[current]
  {
    if slides == [] then Blank
    else if !mounted then Static(slides[0])
    else
      Cyclic.OneMarked(|slides|, current);
      Carousel(slides, Cyclic.Marks(|slides|, current))
  }

  /** The carousel component's state. */
  class HeroSection {
    const slides: seq<Property>
    var mounted: bool
    var currentIndex: nat
    var isPaused: bool

    predicate Valid()
      reads this
    {
      currentIndex < |slides| || (slides == [] && currentIndex == 0)
    }

    /** The component before mounting, on the first slide, not paused. */
    constructor(listings: seq<Property>)
      ensures slides == Slides(listings)
      ensures !mounted && currentIndex == 0 && !isPaused
      ensures Valid()
    {
      slides := Slides(listings);
      mounted := false;
      currentIndex := 0;
      isPaused := false;
    }

    /** The mount effect. */
    method Mount()
      modifies this
      ensures mounted && currentIndex == old(currentIndex) && isPaused == old(isPaused)
    {
      mounted := true;
    }

    /** The timer runs only when mounted, with several slides, not paused. */
    predicate AutoAdvances()
      reads this
    {
      mounted && |slides| > 1 && !isPaused
    }

    /** One tick of the four-second timer. */
    method Tick()
      requires Valid()
      modifies this
      ensures currentIndex == if old(AutoAdvances()) then Cyclic.Next(old(currentIndex), |slides|) else old(currentIndex)
      ensures mounted == old(mounted) && isPaused == old(isPaused)
      ensures Valid()
    {
      if mounted && |slides| > 1 && !isPaused {
        currentIndex := (currentIndex + 1) % |slides|;
      }
    }

    /** The "next" button of a slide. */
    method GoToNext()
      requires Valid() && slides != []
      modifies this
      ensures currentIndex == Cyclic.Next(old(currentIndex), |slides|)
      ensures mounted == old(mounted) && isPaused == old(isPaused)
      ensures Valid()
    {
      currentIndex := (currentIndex + 1) % |slides|;
    }

    /** The "previous" button of a slide. */
    method GoToPrev()
      requires Valid() && slides != []
      modifies this
      ensures currentIndex == Cyclic.Prev(old(currentIndex), |slides|)
      ensures mounted == old(mounted) && isPaused == old(isPaused)
      ensures Valid()
    {
      currentIndex := (currentIndex - 1 + |slides|) % |slides|;
    }

    /** An indicator dot. */
    method GoToSlide(index: nat)
      requires index < |slides|
      modifies this
      ensures currentIndex == index
      ensures mounted == old(mounted) && isPaused == old(isPaused)
      ensures Valid()
    {
      currentIndex := index;
    }

    /** The pointer enters the carousel: the timer stops. */
    method MouseEnter()
      modifies this
      ensures isPaused && !AutoAdvances()
      ensures mounted == old(mounted) && currentIndex == old(currentIndex)
    {
      isPaused := true;
    }

    /** The pointer leaves: the timer runs again if it can. */
    method MouseLeave()
      modifies this
      ensures !isPaused && (AutoAdvances() <==> mounted && |slides| > 1)
      ensures mounted == old(mounted) && currentIndex == old(currentIndex)
    {
      isPaused := false;
    }

    /** What the component renders now. */
    function Render(): (h: Hero)
      reads this
      requires Valid()
      ensures slides == [] ==> h == Blank
      ensures slides != [] && !mounted ==> h == Static(slides[0])
      ensures mounted && slides != [] ==>
                h.Carousel? && h.slides == slides && |h.active| == |slides|
                && Cyclic.CountTrue(h.active) == 1 && h.active[currentIndex]
    {
      View(mounted, slides, currentIndex)
    }
  }
}
