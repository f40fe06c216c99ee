/**
 * The slideshow controller of slides.js as a state machine on values.
 *
 * A `State` holds everything the controller's handlers read or write once the
 * page plumbing is stripped away: the `active` flag of every slide, the
 * `active-thumb` flag of every thumbnail, the current index, the paused flag,
 * the timer registry, the toggle button's `aria-pressed` value and icon, and
 * which thumbnail the arrow indicator was last positioned over.
 *
 * Each operation of the controller is a function from the old state to the
 * new one; the class in module Widget is proved to follow these functions,
 * and the lemmas below state what the controller promises about them.
 */
module Slideshow {

  datatype Option<T> = None | Some(value: T)

  /** The two icons the toggle button can show. */
  datatype Icon = Play | Pause

  /**
   * `intervals` counts the intervals the host keeps firing; `handleLive` says
   * whether the stored handle `autoTransition` still names one of them.
   * `icon` is None while the button is still empty (before its first refresh).
   * `arrowOver` is the thumbnail the arrow was last centred on, None before
   * the first positioning.
   */
  datatype State = State(
    slides: seq<bool>,
    thumbs: seq<bool>,
    current: nat,
    paused: bool,
    intervals: nat,
    handleLive: bool,
    ariaPressed: bool,
    icon: Option<Icon>,
    arrowOver: Option<nat>)

  /** Flag k is set and every other flag is clear. */
  predicate ActiveOnlyAt(flags: seq<bool>, k: nat)
  {
    forall j :: 0 <= j < |flags| ==> (flags[j] <==> j == k)
  }

  /** The number of set flags. */
  function CountActive(flags: seq<bool>): nat
  {
    if flags == [] then 0 else (if flags[0] then 1 else 0) + CountActive(flags[1..])
  }

  lemma {:induction false} NoneActive(flags: seq<bool>)
    ensures CountActive(flags) == 0 <==> forall j :: 0 <= j < |flags| ==> !flags[j]
  {
    if flags != [] {
      NoneActive(flags[1..]);
      assert forall j :: 1 <= j < |flags| ==> flags[j] == flags[1..][j - 1];
    }
  }

  /** "Only flag k is set" is the same as "flag k is set and exactly one flag is". */
  lemma {:induction false} ExactlyOneActive(flags: seq<bool>, k: nat)
    requires k < |flags|
    ensures ActiveOnlyAt(flags, k) <==> flags[k] && CountActive(flags) == 1
  {
    var rest := flags[1..];
    assert forall j :: 1 <= j < |flags| ==> flags[j] == rest[j - 1];
    NoneActive(rest);
    if k == 0 {
      if ActiveOnlyAt(flags, k) {
        assert forall j :: 0 <= j < |rest| ==> !rest[j] by {
          forall j | 0 <= j < |rest| ensures !rest[j] { assert flags[j + 1] == rest[j]; }
        }
      }
    } else {
      ExactlyOneActive(rest, k - 1);
      if ActiveOnlyAt(flags, k) {
        assert ActiveOnlyAt(rest, k - 1) by {
          forall j | 0 <= j < |rest| ensures rest[j] <==> j == k - 1 { assert flags[j + 1] == rest[j]; }
        }
      }
    }
  }

  /** The thumbnail flags the building loop leaves: only thumbnail 0 is active. */
  function FirstOnly(n: nat): seq<bool>
  {
    seq(n, j => j == 0)
  }

  /** The index a timer firing moves to: `(current + 1) % slides.length`. */
  function NextIndex(current: nat, count: nat): (r: nat)
    requires current < count
    ensures r < count
    ensures r == if current + 1 < count then current + 1 else 0
  {
    (current + 1) % count
  }

  // ---------------------------------------------------------------------------
  // Invariants

  /**
   * What holds in every state the controller can be in, whatever the markup:
   * one thumbnail per slide, an index in range (or zero when there are no
   * slides), exactly the current thumbnail active, a live interval exactly
   * when the stored handle is live, and the arrow over the current thumbnail
   * once it has been positioned.
   */
  predicate WellFormed(s: State)
  {
    && |s.thumbs| == |s.slides|
    && (s.current < |s.slides| || (s.slides == [] && s.current == 0))
    && ActiveOnlyAt(s.thumbs, s.current)
    && s.intervals == (if s.handleLive then 1 else 0)
    && (s.arrowOver == None || s.arrowOver == Some(s.current))
  }

  /** The toggle button reflects the paused flag: pressed while playing, Play icon while paused. */
  predicate ButtonShows(s: State)
  {
    s.ariaPressed == !s.paused && s.icon == Some(if s.paused then Play else Pause)
  }

  /** An interval is scheduled exactly when the slideshow is not paused. */
  predicate TimerShows(s: State)
  {
    s.handleLive == !s.paused
  }

  /** The invariant every handler re-establishes before it returns. */
  predicate Invariant(s: State)
  {
    WellFormed(s) && ButtonShows(s) && TimerShows(s)
  }

  /** Exactly the current slide is active (this rests on the page markup). */
  predicate SlidesShow(s: State)
  {
    ActiveOnlyAt(s.slides, s.current)
  }

  // ---------------------------------------------------------------------------
  // Operations

  /** The state right after the closure's variables are declared and the
      thumbnails and the button are built, before the first button refresh. */
  function Built(markup: seq<bool>): (r: State)
    ensures WellFormed(r) && r.slides == markup
    ensures r.current == 0 && !r.paused && r.intervals == 0 && r.icon == None
  {
    State(markup, FirstOnly(|markup|), 0, false, 0, false, false, None, None)
  }

  /** `clearInterval(autoTransition)`: cancels the interval the handle names, if it is live. */
  function ClearInterval(s: State): (r: State)
    requires s.handleLive ==> s.intervals > 0
    ensures !r.handleLive && r.intervals == s.intervals - (if s.handleLive then 1 else 0)
    ensures WellFormed(s) ==> WellFormed(r) && r.intervals == 0
    ensures r.(intervals := s.intervals, handleLive := s.handleLive) == s
  {
    if s.handleLive then s.(intervals := s.intervals - 1, handleLive := false) else s
  }

  /** `autoTransition = setInterval(...)`: one more live interval, named by the handle. */
  function SetInterval(s: State): (r: State)
    ensures r.handleLive && r.intervals == s.intervals + 1
    ensures r.(intervals := s.intervals, handleLive := s.handleLive) == s
  {
    s.(intervals := s.intervals + 1, handleLive := true)
  }

  /** `updateAutoplayButton`. */
  function UpdateAutoplayButton(s: State): (r: State)
    ensures ButtonShows(r)
    ensures r.(icon := s.icon, ariaPressed := s.ariaPressed) == s
  {
    s.(icon := Some(if s.paused then Play else Pause), ariaPressed := !s.paused)
  }

  /** `positionArrow`: a no-op when there is no thumbnail at the current index. */
  function PositionArrow(s: State): (r: State)
    ensures s.current < |s.thumbs| ==> r.arrowOver == Some(s.current)
    ensures WellFormed(s) ==> WellFormed(r)
    ensures r.(arrowOver := s.arrowOver) == s
  {
    if s.current < |s.thumbs| then s.(arrowOver := Some(s.current)) else s
  }

  /** `showSlide(index)`. */
  function ShowSlide(s: State, index: nat): (r: State)
    requires s.current < |s.slides| == |s.thumbs| && index < |s.slides|
    ensures |r.slides| == |s.slides| && |r.thumbs| == |s.thumbs|
    ensures r.current == index && r.slides[index] && r.thumbs[index] && r.arrowOver == Some(index)
    ensures WellFormed(s) ==> WellFormed(r)
  {
    PositionArrow(s.(
      slides := s.slides[s.current := false][index := true],
      thumbs := s.thumbs[s.current := false][index := true],
      current := index))
  }

  /** One firing of the interval's callback. */
  function Tick(s: State): (r: State)
    requires WellFormed(s) && (!s.paused ==> |s.slides| > 0)
    ensures WellFormed(r) && |r.slides| == |s.slides| && r.paused == s.paused
    ensures !s.paused ==> r.current == NextIndex(s.current, |s.slides|)
  {
    if s.paused then s else ShowSlide(s, NextIndex(s.current, |s.slides|))
  }

  /** `startAutoTransition`. */
  function StartAutoTransition(s: State): (r: State)
    requires s.handleLive ==> s.intervals > 0
    ensures r.handleLive && ButtonShows(r) && r.paused == s.paused
    ensures WellFormed(s) ==> WellFormed(r) && r.intervals == 1
  {
    UpdateAutoplayButton(SetInterval(ClearInterval(s)))
  }

  /** `pauseAutoTransition`. */
  function PauseAutoTransition(s: State): (r: State)
    requires s.handleLive ==> s.intervals > 0
    ensures r.paused && !r.handleLive && ButtonShows(r)
    ensures WellFormed(s) ==> Invariant(r) && r.intervals == 0
  {
    UpdateAutoplayButton(ClearInterval(s.(paused := true)))
  }

  /** The toggle button's click handler. */
  function ToggleClicked(s: State): (r: State)
    requires s.handleLive ==> s.intervals > 0
    ensures r.paused == !s.paused && r.handleLive == !r.paused && ButtonShows(r)
    ensures WellFormed(s) ==> Invariant(r)
  {
    UpdateAutoplayButton(
      if s.paused then StartAutoTransition(s.(paused := false))
      else ClearInterval(s.(paused := true)))
  }

  /** The click handler of thumbnail `i`. */
  function ThumbnailClicked(s: State, i: nat): (r: State)
    requires WellFormed(s) && i < |s.slides|
    ensures Invariant(r) && |r.slides| == |s.slides| && r.current == i && r.slides[i]
    ensures r.paused && r.intervals == 0
  {
    PauseAutoTransition(ShowSlide(s, i))
  }

  /** The deferred layout pass (its scroll is page I/O). */
  function LayoutSettled(s: State): (r: State)
    ensures WellFormed(s) ==> WellFormed(r)
    ensures r.(arrowOver := s.arrowOver) == s
  {
    PositionArrow(s)
  }

  /** Initialisation: the button is refreshed (line 64), then rotation starts (line 117). */
  function Init(markup: seq<bool>): (r: State)
    ensures Invariant(r) && r.slides == markup && !r.paused
  {
    StartAutoTransition(UpdateAutoplayButton(Built(markup)))
  }

  // ---------------------------------------------------------------------------
  // Properties of single operations

  /** Initialisation: one thumbnail per slide, only thumbnail 0 active, index 0, running,
      exactly one interval, `aria-pressed` true and the Pause icon; the slide
      flags are the markup's, so the slides agree iff the markup marks slide 0 alone. */
  lemma InitShape(markup: seq<bool>)
    ensures var t := Init(markup);
      && Invariant(t)
      && t.slides == markup
      && |t.thumbs| == |markup|
      && (forall j :: 0 <= j < |markup| ==> (t.thumbs[j] <==> j == 0))
      && t.current == 0 && !t.paused
      && t.intervals == 1
      && t.ariaPressed && t.icon == Some(Pause)
      && t.arrowOver == None
      && (SlidesShow(t) <==> ActiveOnlyAt(markup, 0))
  {
  }

  /** `showSlide(i)` clears the old slide and thumbnail, sets slide and thumbnail i,
      moves the arrow to i and changes no other flag and nothing else. */
  lemma ShowSlideMoves(s: State, i: nat)
    requires WellFormed(s) && i < |s.slides|
    ensures var t := ShowSlide(s, i);
      && WellFormed(t)
      && t.current == i && t.slides[i] && t.thumbs[i]
      && (i != s.current ==> !t.slides[s.current] && !t.thumbs[s.current])
      && |t.slides| == |s.slides| && |t.thumbs| == |s.thumbs|
      && (forall j :: 0 <= j < |s.slides| && j != i && j != s.current ==> t.slides[j] == s.slides[j])
      && (forall j :: 0 <= j < |s.thumbs| && j != i && j != s.current ==> t.thumbs[j] == s.thumbs[j])
      && t.arrowOver == Some(i)
      && t.paused == s.paused && t.intervals == s.intervals && t.handleLive == s.handleLive
      && t.ariaPressed == s.ariaPressed && t.icon == s.icon
      && (SlidesShow(s) ==> SlidesShow(t))
      && (Invariant(s) ==> Invariant(t))
  {
  }

  /** `showSlide(current)` does not change a flag or the index (remove-then-add
      round-trips), and calling `showSlide(i)` twice is the same as once. */
  lemma ShowSlideIdempotent(s: State)
    requires WellFormed(s) && SlidesShow(s) && s.current < |s.slides|
    ensures var t := ShowSlide(s, s.current);
      t.slides == s.slides && t.thumbs == s.thumbs && t.current == s.current
      && t == s.(arrowOver := Some(s.current))
  {
  }

  /** Calling `showSlide(i)` twice is the same as once, whatever the flags were. */
  lemma ShowSlideTwice(s: State, i: nat)
    requires WellFormed(s) && i < |s.slides|
    ensures ShowSlide(ShowSlide(s, i), i) == ShowSlide(s, i)
  {
  }

  /** A firing while paused changes nothing; one while running moves to the
      next slide modulo the slide count and touches nothing but the flags, the
      index and the arrow. */
  lemma TickAdvances(s: State)
    requires WellFormed(s) && (!s.paused ==> |s.slides| > 0)
    ensures s.paused ==> Tick(s) == s
    ensures !s.paused ==> var t := Tick(s);
      && t.current == (s.current + 1) % |s.slides|
      && t.slides[t.current] && t.thumbs[t.current]
      && t.paused == s.paused && t.intervals == s.intervals && t.handleLive == s.handleLive
      && t.ariaPressed == s.ariaPressed && t.icon == s.icon
      && (SlidesShow(s) ==> SlidesShow(t))
    ensures WellFormed(Tick(s)) && |Tick(s).slides| == |s.slides| && Tick(s).paused == s.paused
    ensures Invariant(s) ==> Invariant(Tick(s))
  {
  }

  /** The host's timer calls as the model sees them: clearing removes the one
      live interval the handle names and clearing again does nothing;
      scheduling after a clear leaves exactly one live interval, named by the
      handle. Other fields are untouched. */
  lemma TimerCalls(s: State)
    requires WellFormed(s)
    ensures var c := ClearInterval(s);
      && WellFormed(c) && c.intervals == 0 && !c.handleLive
      && ClearInterval(c) == c
      && c == s.(intervals := 0, handleLive := false)
    ensures var t := SetInterval(ClearInterval(s));
      && WellFormed(t) && t.intervals == 1 && t.handleLive
      && t == s.(intervals := 1, handleLive := true)
  {
  }

  /** However often `startAutoTransition` runs, exactly one interval is live
      afterwards, because it cancels before it schedules. */
  lemma StartLeavesOneInterval(s: State)
    requires WellFormed(s)
    ensures var t := StartAutoTransition(s);
      && WellFormed(t)
      && t.intervals == 1 && t.handleLive
      && ButtonShows(t)
      && StartAutoTransition(t) == t
      && t.paused == s.paused && t.current == s.current
      && t.slides == s.slides && t.thumbs == s.thumbs && t.arrowOver == s.arrowOver
  {
  }

  /** `pauseAutoTransition` leaves the slideshow paused with no live interval
      and the button showing it, touches no flag, and repeating it changes nothing. */
  lemma PauseStops(s: State)
    requires WellFormed(s)
    ensures var t := PauseAutoTransition(s);
      && Invariant(t)
      && t.paused && t.intervals == 0 && !t.handleLive
      && !t.ariaPressed && t.icon == Some(Play)
      && PauseAutoTransition(t) == t
      && t.current == s.current && t.slides == s.slides && t.thumbs == s.thumbs
      && t.arrowOver == s.arrowOver
  {
  }

  /** Clicking thumbnail i shows slide i and leaves the slideshow paused with no timer. */
  lemma ThumbnailClickPauses(s: State, i: nat)
    requires WellFormed(s) && i < |s.slides|
    ensures var t := ThumbnailClicked(s, i);
      && Invariant(t)
      && t.current == i && t.slides[i] && t.thumbs[i]
      && t.paused && t.intervals == 0
      && !t.ariaPressed && t.icon == Some(Play)
      && (SlidesShow(s) ==> SlidesShow(t))
  {
  }

  /** The toggle handler flips the paused flag, schedules exactly one interval
      when it resumes and none when it pauses, and leaves the slides alone. */
  lemma ToggleFlips(s: State)
    requires WellFormed(s)
    ensures var t := ToggleClicked(s);
      && Invariant(t)
      && t.paused == !s.paused
      && t.intervals == (if t.paused then 0 else 1)
      && t.current == s.current && t.slides == s.slides && t.thumbs == s.thumbs
      && t.arrowOver == s.arrowOver
  {
  }

  // ---------------------------------------------------------------------------
  // Runs of events

  /** What the host can deliver once initialisation is over. */
  datatype Event = TimerFired | ThumbnailClick(i: nat) | ToggleClick | LayoutPass

  /** An event that can arrive and runs without throwing: a firing needs a live
      interval and at least one slide; a click needs a thumbnail to click. */
  predicate Enabled(s: State, e: Event)
  {
    match e
    case TimerFired => s.intervals > 0 && |s.slides| > 0
    case ThumbnailClick(i) => i < |s.thumbs|
    case ToggleClick => true
    case LayoutPass => true
  }

  function Step(s: State, e: Event): (t: State)
    requires WellFormed(s) && Enabled(s, e)
    ensures WellFormed(t) && |t.slides| == |s.slides|
  {
    match e
    case TimerFired => Tick(s)
    case ThumbnailClick(i) => ThumbnailClicked(s, i)
    case ToggleClick => ToggleClicked(s)
    case LayoutPass => LayoutSettled(s)
  }

  /** The state after a sequence of events, or None if one of them cannot arrive there. */
  function Run(s: State, events: seq<Event>): (r: Option<State>)
    requires WellFormed(s)
    ensures r.Some? ==> WellFormed(r.value) && |r.value.slides| == |s.slides|
    decreases |events|
  {
    if events == [] then Some(s)
    else if !Enabled(s, events[0]) then None
    else Run(Step(s, events[0]), events[1..])
  }

  lemma StepKeepsInvariant(s: State, e: Event)
    requires Invariant(s) && Enabled(s, e)
    ensures Invariant(Step(s, e))
    ensures SlidesShow(s) ==> SlidesShow(Step(s, e))
  {
  }

  /** Every handler re-establishes the invariant, so any run of events keeps it. */
  lemma {:induction false} RunKeepsInvariant(s: State, events: seq<Event>)
    requires Invariant(s)
    ensures Run(s, events).Some? ==> Invariant(Run(s, events).value)
    ensures Run(s, events).Some? && SlidesShow(s) ==> SlidesShow(Run(s, events).value)
    decreases |events|
  {
    if events != [] && Enabled(s, events[0]) {
      StepKeepsInvariant(s, events[0]);
      RunKeepsInvariant(Step(s, events[0]), events[1..]);
    }
  }

  /** In every state reachable from initialisation, whatever the markup: at
      most one live interval, one exactly when not paused, `aria-pressed ==
      !isPaused`, and the Play icon exactly when paused. */
  lemma ReachableTimerAndButton(markup: seq<bool>, events: seq<Event>)
    ensures Run(Init(markup), events).Some? ==>
      var t := Run(Init(markup), events).value;
      && t.intervals <= 1
      && (t.intervals == 1 <==> !t.paused)
      && t.ariaPressed == !t.paused
      && (t.icon == Some(Play) <==> t.paused)
  {
    RunKeepsInvariant(Init(markup), events);
  }

  /** In every state reachable from initialisation over markup that marks
      slide 0 alone: exactly one slide and one thumbnail active, both at the
      current index. */
  lemma Reachable(markup: seq<bool>, events: seq<Event>)
    requires |markup| > 0 && ActiveOnlyAt(markup, 0)
    ensures Run(Init(markup), events).Some? ==>
      var t := Run(Init(markup), events).value;
      && t.current < |t.slides| == |t.thumbs| == |markup|
      && t.slides[t.current] && CountActive(t.slides) == 1
      && t.thumbs[t.current] && CountActive(t.thumbs) == 1
  {
    InitShape(markup);
    var s := Init(markup);
    RunKeepsInvariant(s, events);
    if Run(s, events).Some? {
      var t := Run(s, events).value;
      ExactlyOneActive(t.slides, t.current);
      ExactlyOneActive(t.thumbs, t.current);
    }
  }

  // ---------------------------------------------------------------------------
  // Rotation without interaction

  /** The state after k firings. */
  function Ticks(s: State, k: nat): (t: State)
    requires WellFormed(s) && (!s.paused ==> |s.slides| > 0)
    ensures WellFormed(t) && |t.slides| == |s.slides| && t.paused == s.paused
  {
    if k == 0 then s else Tick(Ticks(s, k - 1))
  }

  lemma {:induction false} MulAtLeast(d: int, n: int)
    requires n > 0 && d >= 1
    ensures d * n >= n
  {
    if d > 1 {
      MulAtLeast(d - 1, n);
      assert d * n == (d - 1) * n + n;
    }
  }

  /** The remainder is the only r in [0, n) with a == q * n + r. */
  lemma ModUnique(a: int, n: int, q: int, r: int)
    requires n > 0 && 0 <= r < n && a == q * n + r
    ensures a % n == r
  {
    var d := q - a / n;
    assert a == (a / n) * n + a % n;
    assert d * n == a % n - r by {
      assert q * n - (a / n) * n == d * n;
    }
    if d >= 1 {
      MulAtLeast(d, n);
    } else if d <= -1 {
      MulAtLeast(-d, n);
    }
  }

  lemma ModSucc(a: nat, n: nat)
    requires n > 0
    ensures (a % n + 1) % n == (a + 1) % n
  {
    var q, r := a / n, a % n;
    assert a == q * n + r;
    if r + 1 < n {
      ModUnique(a + 1, n, q, r + 1);
      ModUnique(r + 1, n, 0, r + 1);
    } else {
      assert a + 1 == (q + 1) * n + 0;
      ModUnique(a + 1, n, q + 1, 0);
      ModUnique(r + 1, n, 1, 0);
    }
  }

  /** With no interaction, k firings while running move the index k places
      round the ring of slides; while paused they change nothing. */
  lemma {:induction false} TicksVisit(s: State, k: nat)
    requires WellFormed(s) && |s.slides| > 0
    ensures !s.paused ==> Ticks(s, k).current == (s.current + k) % |s.slides|
    ensures s.paused ==> Ticks(s, k) == s
    ensures Invariant(s) ==> Invariant(Ticks(s, k))
    ensures SlidesShow(s) ==> SlidesShow(Ticks(s, k))
  {
    if k > 0 {
      TicksVisit(s, k - 1);
      var p := Ticks(s, k - 1);
      TickAdvances(p);
      if !s.paused {
        ModSucc(s.current + (k - 1), |s.slides|);
      }
    } else {
      assert s.current == s.current % |s.slides|;
    }
  }

  /** The end-to-end scenario with three slides: three firings visit 0, 1, 2, 0;
      a click on thumbnail 2 shows slide 2 and pauses with no timer; a click on
      the toggle resumes with one interval, and the next firing shows slide 0. */
  lemma ThreeSlides()
    ensures var s0 := Init([true, false, false]);
      && Invariant(s0) && s0.current == 0 && s0.intervals == 1
      && Run(s0, [TimerFired]).Some? && Run(s0, [TimerFired]).value.current == 1
      && Run(s0, [TimerFired, TimerFired]).Some? && Run(s0, [TimerFired, TimerFired]).value.current == 2
      && Run(s0, [TimerFired, TimerFired, TimerFired]).Some?
      && Run(s0, [TimerFired, TimerFired, TimerFired]).value.current == 0
    ensures var s3 := Run(Init([true, false, false]), [TimerFired, TimerFired, TimerFired]);
      s3.Some? ==>
      var s4 := Run(s3.value, [ThumbnailClick(2)]);
      && s4.Some? && s4.value.current == 2 && s4.value.paused && s4.value.intervals == 0
      && s4.value.icon == Some(Play) && !s4.value.ariaPressed
      && s4.value.slides == [false, false, true] && s4.value.thumbs == [false, false, true]
      && Run(s4.value, [ToggleClick]).Some?
      && var s5 := Run(s4.value, [ToggleClick]).value;
      && !s5.paused && s5.intervals == 1 && s5.current == 2
      && Run(s5, [TimerFired]).Some? && Run(s5, [TimerFired]).value.current == 0
      && Run(s5, [TimerFired]).value.slides == [true, false, false]
  {
  }
}
