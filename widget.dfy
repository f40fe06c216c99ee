/**
 * The slideshow controller of slides.js as an object: the closure's variables
 * become fields, the slides' `active` classes an array owned by the page, the
 * thumbnails' `active-thumb` classes and background images arrays built at
 * initialisation, and every handler a method proved to follow the matching
 * step function of module Slideshow.
 */
module Widget {
  import opened Slideshow

  /** What initialisation finds inside the `.slideshow` root: each slide's
      background image and its `active` class, and whether the
      `.rhombus-trails` container is present. */
  datatype Markup = Markup(slideImages: seq<string>, slideActive: array<bool>, hasTrail: bool)

  /** The thumbnail-building loop: thumbnail i copies slide i's background
      image, and only thumbnail 0 gets `active-thumb`. */
  method BuildThumbnails(images: seq<string>) returns (image: array<string>, active: array<bool>)
    ensures fresh(image) && fresh(active)
    ensures image.Length == active.Length == |images|
    ensures forall i :: 0 <= i < |images| ==> image[i] == images[i]
    ensures forall i :: 0 <= i < |images| ==> (active[i] <==> i == 0)
  {
    image := new string[|images|];
    active := new bool[|images|];
    var i := 0;
    while i < |images|
      invariant 0 <= i <= |images|
      invariant forall j :: 0 <= j < i ==> image[j] == images[j]
      invariant forall j :: 0 <= j < i ==> (active[j] <==> j == 0)
    {
      image[i] := images[i];
      active[i] := i == 0;
      i := i + 1;
    }
  }

  class Controller {
    /** The slides' `active` classes; the slides belong to the page. */
    const slideActive: array<bool>
    /** The thumbnails' `active-thumb` classes. */
    const thumbActive: array<bool>
    /** The thumbnails' background images. */
    const thumbImage: array<string>
    var current: nat
    var isPaused: bool
    /** Intervals the host keeps firing, and whether `autoTransition` names a live one. */
    var intervals: nat
    var handleLive: bool
    /** The toggle button's `aria-pressed` and icon (None while the button is empty). */
    var ariaPressed: bool
    var icon: Option<Icon>
    /** The thumbnail the arrow indicator was last centred on. */
    var arrowOver: Option<nat>

    ghost function Snapshot(): State
      reads this, slideActive, thumbActive
    {
      State(slideActive[..], thumbActive[..], current, isPaused, intervals, handleLive,
            ariaPressed, icon, arrowOver)
    }

    /** Holds between the steps of a handler. */
    ghost predicate Consistent()
      reads this, slideActive, thumbActive
    {
      slideActive != thumbActive && thumbImage.Length == slideActive.Length
      && WellFormed(Snapshot())
    }

    /** Holds whenever no handler is running. */
    ghost predicate Valid()
      reads this, slideActive, thumbActive
    {
      Consistent() && Invariant(Snapshot())
    }

    /** Initialisation of a found `.slideshow` root: builds the thumbnails,
        refreshes the button and starts rotation; the slides are not touched. */
    constructor (images: seq<string>, slides: array<bool>)
      requires |images| == slides.Length
      ensures Valid()
      ensures slideActive == slides && fresh(thumbActive) && fresh(thumbImage)
      ensures thumbImage[..] == images
      ensures Snapshot() == Slideshow.Init(old(slides[..]))
    {
      slideActive := slides;
      current := 0;
      isPaused := false;
      intervals, handleLive := 0, false;
      ariaPressed := false;
      icon := None;
      arrowOver := None;
      var image, active := BuildThumbnails(images);
      thumbImage, thumbActive := image, active;
      new;
      assert thumbImage[..] == images;
      assert thumbActive[..] == FirstOnly(|images|);
      UpdateAutoplayButton();
      StartAutoTransition();
    }

    /** `updateAutoplayButton`. */
    method UpdateAutoplayButton()
      requires Consistent()
      modifies this
      ensures Consistent()
      ensures Snapshot() == Slideshow.UpdateAutoplayButton(old(Snapshot()))
    {
      icon := Some(if isPaused then Play else Pause);
      ariaPressed := !isPaused;
    }

    /** The host's `clearInterval(autoTransition)`. */
    method ClearInterval()
      requires Consistent()
      modifies this
      ensures Consistent()
      ensures Snapshot() == Slideshow.ClearInterval(old(Snapshot()))
      ensures intervals == old(intervals) - (if old(handleLive) then 1 else 0)
      ensures intervals == 0 && !handleLive
    {
      if handleLive {
        intervals := intervals - 1;
        handleLive := false;
      }
    }

    /** The host's `autoTransition = setInterval(...)`, here only after a clear. */
    method SetInterval()
      requires Consistent() && !handleLive
      modifies this
      ensures Consistent()
      ensures Snapshot() == Slideshow.SetInterval(old(Snapshot()))
      ensures intervals == old(intervals) + 1 == 1 && handleLive
    {
      intervals := intervals + 1;
      handleLive := true;
    }

    /** `startAutoTransition`: exactly one live interval afterwards. */
    method StartAutoTransition()
      requires Consistent()
      modifies this
      ensures Consistent()
      ensures Snapshot() == Slideshow.StartAutoTransition(old(Snapshot()))
      ensures intervals == 1 && handleLive
      ensures ariaPressed == !isPaused && icon == Some(if isPaused then Play else Pause)
    {
      ClearInterval();
      SetInterval();
      UpdateAutoplayButton();
    }

    /** `pauseAutoTransition`: paused with no live interval afterwards. */
    method PauseAutoTransition()
      requires Consistent()
      modifies this
      ensures Valid()
      ensures Snapshot() == Slideshow.PauseAutoTransition(old(Snapshot()))
      ensures isPaused && intervals == 0 && !ariaPressed && icon == Some(Play)
    {
      isPaused := true;
      ClearInterval();
      UpdateAutoplayButton();
    }

    /** `positionArrow`: a no-op when there is no thumbnail at `current`. */
    method PositionArrow()
      modifies this`arrowOver
      ensures Snapshot() == Slideshow.PositionArrow(old(Snapshot()))
    {
      if current < thumbActive.Length {
        arrowOver := Some(current);
      }
    }

    /** `showSlide(index)`. */
    method ShowSlide(index: nat)
      requires Consistent() && index < slideActive.Length
      modifies this, slideActive, thumbActive
      ensures Consistent()
      ensures Snapshot() == Slideshow.ShowSlide(old(Snapshot()), index)
      ensures current == index && slideActive[index] && thumbActive[index]
      ensures old(SlidesShow(Snapshot())) ==> SlidesShow(Snapshot())
    {
      ghost var s := Snapshot();
      slideActive[current] := false;
      thumbActive[current] := false;
      current := index;
      slideActive[current] := true;
      thumbActive[current] := true;
      PositionArrow();
      ShowSlideMoves(s, index);
    }

    /** One firing of the interval. */
    method Tick()
      requires Valid() && (!isPaused ==> slideActive.Length > 0)
      modifies this, slideActive, thumbActive
      ensures Valid()
      ensures Snapshot() == Slideshow.Tick(old(Snapshot()))
      ensures old(SlidesShow(Snapshot())) ==> SlidesShow(Snapshot())
    {
      TickAdvances(Snapshot());
      if !isPaused {
        var next := NextIndex(current, slideActive.Length);
        ShowSlide(next);
      }
    }

    /** The click handler of thumbnail i. */
    method ClickThumbnail(i: nat)
      requires Valid() && i < thumbActive.Length
      modifies this, slideActive, thumbActive
      ensures Valid()
      ensures Snapshot() == ThumbnailClicked(old(Snapshot()), i)
      ensures current == i && isPaused && intervals == 0
      ensures old(SlidesShow(Snapshot())) ==> SlidesShow(Snapshot())
    {
      ShowSlide(i);
      PauseAutoTransition();
    }

    /** The toggle button's click handler. */
    method ClickToggle()
      requires Valid()
      modifies this
      ensures Valid()
      ensures Snapshot() == ToggleClicked(old(Snapshot()))
    {
      ToggleFlips(Snapshot());
      if isPaused {
        isPaused := false;
        StartAutoTransition();
      } else {
        isPaused := true;
        ClearInterval();
      }
      UpdateAutoplayButton();
    }

    /** The deferred layout pass; its scroll is page I/O. */
    method LayoutSettled()
      requires Valid()
      modifies this`arrowOver
      ensures Valid()
      ensures Snapshot() == Slideshow.LayoutSettled(old(Snapshot()))
    {
      PositionArrow();
    }
  }

  /** The `DOMContentLoaded` handler: no `.slideshow` root, no controller and
      no timer; otherwise a controller over the root's slides. The page's
      slide flags are not written during initialisation. */
  method Boot(root: Option<Markup>) returns (c: Option<Controller>)
    requires root.Some? ==> root.value.hasTrail
    requires root.Some? ==> |root.value.slideImages| == root.value.slideActive.Length
    ensures c.None? <==> root.None?
    ensures c.Some? ==>
      && fresh(c.value) && c.value.Valid()
      && c.value.slideActive == root.value.slideActive
      && c.value.thumbImage[..] == root.value.slideImages
      && c.value.Snapshot() == Init(root.value.slideActive[..])
  {
    if root.None? {
      return None;
    }
    var ctl := new Controller(root.value.slideImages, root.value.slideActive);
    c := Some(ctl);
  }

  /** Three firings with no interaction, starting at slide 0 of three. */
  method RotateThrice(c: Controller) returns (seen: seq<nat>)
    requires c.Valid() && c.slideActive.Length == 3 && c.current == 0 && !c.isPaused
    modifies c, c.slideActive, c.thumbActive
    ensures c.Valid() && seen == [1, 2, 0] && c.current == 0 && !c.isPaused
  {
    c.Tick();
    seen := [c.current];
    c.Tick();
    seen := seen + [c.current];
    c.Tick();
    seen := seen + [c.current];
  }

  /** A click on thumbnail 2, a click on the toggle and one firing, with three slides. */
  method ClickAndResume(c: Controller) returns (seen: seq<nat>, pausedByClick: bool, timersAfterClick: nat,
                                                pausedAfterToggle: bool, timersAfterToggle: nat)
    requires c.Valid() && c.slideActive.Length == 3
    modifies c, c.slideActive, c.thumbActive
    ensures c.Valid() && seen == [2, 2, 0]
    ensures pausedByClick && timersAfterClick == 0
    ensures !pausedAfterToggle && timersAfterToggle == 1
  {
    c.ClickThumbnail(2);
    seen := [c.current];
    pausedByClick, timersAfterClick := c.isPaused, c.intervals;
    c.ClickToggle();
    seen := seen + [c.current];
    pausedAfterToggle, timersAfterToggle := c.isPaused, c.intervals;
    c.Tick();
    seen := seen + [c.current];
  }

  /** The three-slide scenario run on a controller: the index after
      initialisation, after each of three firings, after a click on thumbnail
      2, after a click on the toggle and after one more firing; plus the
      paused flag and live intervals after the thumbnail click and after the
      toggle click. */
  method ThreeSlideScenario() returns (visited: seq<nat>, pausedByClick: bool, timersAfterClick: nat,
                                       pausedAfterToggle: bool, timersAfterToggle: nat)
    ensures visited == [0, 1, 2, 0, 2, 2, 0]
    ensures pausedByClick && timersAfterClick == 0
    ensures !pausedAfterToggle && timersAfterToggle == 1
  {
    var slides := new bool[3];
    slides[0], slides[1], slides[2] := true, false, false;
    var c := new Controller(["one", "two", "three"], slides);
    visited := [c.current];
    var rotated := RotateThrice(c);
    var resumed;
    resumed, pausedByClick, timersAfterClick, pausedAfterToggle, timersAfterToggle := ClickAndResume(c);
    visited := visited + rotated + resumed;
  }
}
