# Slideshow controller

A model of the slideshow widget in `slides.js`: the controller that keeps one
slide and one thumbnail active, rotates through the slides on a repeating
timer, jumps to a slide (and pauses) when its thumbnail is clicked, and
pauses or resumes rotation from a toggle button whose `aria-pressed` value and
icon show the state.

The model has two modules.

- `Slideshow` (`slideshow.dfy`) describes the controller on values. A `State`
  holds the slides' `active` flags, the thumbnails' `active-thumb` flags, the
  current index, the paused flag, the timer registry (how many intervals are
  live, and whether the stored handle `autoTransition` names a live one), the
  button's `aria-pressed` and icon, and the thumbnail the arrow indicator was
  last centred on. Each handler is a function from state to state. The lemmas
  state what the controller promises: index arithmetic modulo the slide count,
  exactly one slide and thumbnail active at the current index, an interval
  live exactly when not paused (never more than one), and
  `aria-pressed == !isPaused` with the Play icon exactly when paused. An
  `Event` sequence (`Run`) shows that these hold in every reachable state.
- `Widget` (`widget.dfy`) is the controller as an object. The closure's
  variables are the fields of class `Controller`. The slides' `active`
  classes are an array that belongs to the page. The thumbnails'
  `active-thumb` classes and background images are arrays that the
  thumbnail-building loop fills. Every handler is a method whose `ensures`
  equates the new `Snapshot()` with the matching `Slideshow` function of the
  old one. `Boot` models the `DOMContentLoaded` handler, including the missing
  `.slideshow` root.

Timer firings, the deferred layout pass and clicks are explicit method calls
(`Tick`, `LayoutSettled`, `ClickThumbnail`, `ClickToggle`). In the value
model they are `Event`s.

Three behaviours of the code are kept as written:

- Exactly one slide is meant to be active at all times, but the code never
  sets a slide's flag at initialisation: it only marks thumbnail 0
  (slides.js:18). The model takes the slide flags from the markup, and
  `SlidesShow` ("exactly the current slide is active") holds after
  initialisation if and only if the markup marks slide 0 alone.
- `aria-pressed` means "rotating", not "paused". The code first sets it to
  `"false"` (slides.js:37). It then overwrites it with
  `!isPaused` on every refresh (slides.js:61). So it is `true` while rotating,
  and `true` after initialisation.
- With zero slides, initialisation runs, and the deferred arrow positioning
  does nothing because there is no thumbnail 0. The first timer firing then
  throws (slides.js:75, 90). The model admits zero slides everywhere except
  where it would throw: `Tick` requires a slide unless paused, and `Enabled`
  does not admit a firing.

## Model

| member | source | states |
|---|---|---|
| `Slideshow.NextIndex` | slides.js:90 | the next index is in range, and it is `current + 1` or, after the last slide, 0 |
| `Slideshow.ExactlyOneActive` | slides.js:75-82 | "only flag k is set" holds exactly when flag k is set and the number of set flags is 1 |
| `Slideshow.Built` | slides.js:8-37 | the state once the thumbnails and the button are built: the slide flags are the markup's, only thumbnail 0 is active, index 0, not paused, no interval, and an empty button. It is well formed. `InitShape` states what initialisation makes of it |
| `Slideshow.ClearInterval` | slides.js:87 | the `clearInterval(autoTransition)` call, also made at lines 50 and 99. Afterwards the handle is not live, and one interval fewer is live exactly when the handle was. In a well-formed state none is live afterwards. Nothing else changes. `TimerCalls` adds that a second clear does nothing |
| `Slideshow.SetInterval` | slides.js:88 | one more interval is live and the handle names it. Nothing else changes. `TimerCalls` shows that after a clear exactly one is live |
| `Slideshow.UpdateAutoplayButton` | slides.js:56-62 | afterwards the button shows the paused flag: `aria-pressed == !isPaused`, and the Play icon exactly when paused. Nothing else changes |
| `Slideshow.PositionArrow` | slides.js:103-106 | the arrow is over the current thumbnail when there is one. Nothing else changes, and a well-formed state stays well formed |
| `Slideshow.ShowSlide` | slides.js:74-84 | slide and thumbnail `index` are active, the index is `index` and the arrow is over it. The lengths are kept, and a well-formed state stays well formed. `ShowSlideMoves`, `ShowSlideIdempotent` and `ShowSlideTwice` state the rest |
| `Slideshow.Tick` | slides.js:89-92 | a firing keeps the state well formed, the slide count and the paused flag. While running it moves the index to `NextIndex`. `TickAdvances` states the rest |
| `Slideshow.StartAutoTransition` | slides.js:86-95 | the handle is live and the button shows the paused flag, which is unchanged. From a well-formed state exactly one interval is live. `StartLeavesOneInterval` adds that a second call changes nothing |
| `Slideshow.PauseAutoTransition` | slides.js:97-101 | paused, the handle not live, and the button showing it. From a well-formed state no interval is live and the invariant holds. `PauseStops` adds that repeating it changes nothing |
| `Slideshow.ToggleClicked` | slides.js:42-53 | the paused flag flips, the handle is live exactly when not paused, and the button shows the flag. From a well-formed state the invariant holds. `ToggleFlips` adds the interval count and what is unchanged |
| `Slideshow.ThumbnailClicked` | slides.js:19-22 | the index is i, slide i is active, and the slideshow is paused with no live interval. The invariant holds. `ThumbnailClickPauses` adds the thumbnail and the button |
| `Slideshow.LayoutSettled` | slides.js:68-72 | the deferred pass changes only the arrow and keeps a well-formed state well formed |
| `Slideshow.Init` | slides.js:8-117 | initialisation establishes the invariant, keeps the markup's slide flags and is not paused. `InitShape` states the whole state |
| `Slideshow.Step` | slides.js:19-93 | one event the host delivers: a firing (lines 88-93), a thumbnail click (19-22), a toggle click (42-53) or the layout pass (68-72). It needs `Enabled`: a live interval and a slide for a firing, and an existing thumbnail for a click. It keeps the state well formed and the slide count. `StepKeepsInvariant` adds the invariant |
| `Slideshow.Run` | slides.js:19-93 | a sequence of events, or None when one of them is not `Enabled`. Every state it reaches is well formed and has the same slide count. `RunKeepsInvariant` adds the invariant |
| `Slideshow.Ticks` | slides.js:88-93 | k firings with no interaction keep the state well formed, the slide count and the paused flag. `TicksVisit` states where the index goes |
| `Slideshow.InitShape` | slides.js:8-117 | after initialisation the invariant holds. The slide flags are the markup's. Only thumbnail 0 is active. The index is 0 and rotation is running with one live interval. `aria-pressed` is true, the icon is Pause, and the arrow is not yet positioned. The slides agree with the index iff the markup marks slide 0 alone |
| `Slideshow.ShowSlideMoves` | slides.js:74-84 | `showSlide(i)` clears the old slide and thumbnail and sets slide and thumbnail i. It sets the index to i and puts the arrow over i. No other flag and no timer or button state changes. "Exactly the current slide active" and the invariant are preserved |
| `Slideshow.ShowSlideIdempotent` | slides.js:75-82 | when the slides agree with the index, `showSlide(current)` changes no flag and not the index, only the arrow: the remove-then-add round-trips |
| `Slideshow.ShowSlideTwice` | slides.js:74-84 | `showSlide(i)` twice equals once, whatever flags the markup set |
| `Slideshow.TickAdvances` | slides.js:88-93 | a firing while paused changes nothing. One while running sets the index to `(current + 1) % slides.length`, with that slide and thumbnail active. Pause, timer and button state are unchanged, and both invariants are preserved |
| `Slideshow.TicksVisit` | slides.js:88-93 | k firings while running move the index to `(current + k) % slides.length`. While paused they change nothing. Both invariants are preserved |
| `Slideshow.TimerCalls` | slides.js:87-88 | clearing the stored interval leaves no live interval, and clearing again changes nothing. Scheduling after a clear leaves exactly one live interval, named by the handle. No other field changes |
| `Slideshow.StartLeavesOneInterval` | slides.js:86-95 | after `startAutoTransition` exactly one interval is live and the handle names it. A second call gives the same state. The button shows the paused flag: `aria-pressed == !isPaused`, and the Play icon exactly when paused. Index, flags and arrow are unchanged |
| `Slideshow.PauseStops` | slides.js:97-101 | after `pauseAutoTransition` the slideshow is paused with no live interval. `aria-pressed` is false and the icon is Play, and the invariant holds. Repeating the call changes nothing. Index, flags and arrow are unchanged |
| `Slideshow.ThumbnailClickPauses` | slides.js:19-22 | clicking thumbnail i shows slide i and leaves the slideshow paused with no live interval and the Play icon. The invariant holds |
| `Slideshow.ToggleFlips` | slides.js:42-53 | the toggle handler flips the paused flag. It leaves one live interval when resuming and none when pausing. The invariant holds, and index, flags and arrow are unchanged |
| `Slideshow.StepKeepsInvariant` | slides.js:42-101 | every handler (firing, thumbnail click, toggle click, layout pass) preserves the invariant and the agreement of the slides with the index |
| `Slideshow.RunKeepsInvariant` | slides.js:42-101 | any sequence of events preserves the invariant and the agreement of the slides with the index |
| `Slideshow.ReachableTimerAndButton` | slides.js:8-117 | in every state reachable from initialisation, whatever the markup: at most one live interval, and one exactly when not paused. `aria-pressed == !isPaused`, and the icon is Play exactly when paused |
| `Slideshow.Reachable` | slides.js:8-117 | in every state reachable from initialisation over markup that marks slide 0 alone: the index is in range, and exactly one slide and exactly one thumbnail are active, both at the index |
| `Slideshow.ThreeSlides` | slides.js:86-117 | with three slides, three firings visit 1, 2, 0. A click on thumbnail 2 shows slide 2 and pauses with no timer and the Play icon. A toggle click resumes with one interval, and the next firing shows slide 0 |
| `Widget.BuildThumbnails` | slides.js:14-24 | builds one thumbnail per slide, in order. Thumbnail i copies slide i's background image, and only thumbnail 0 is active |
| `Widget.Controller.constructor` | slides.js:6-117 | initialisation keeps the page's slide flags as they are, builds the thumbnails and reaches the state `Slideshow.Init` describes. The controller is valid afterwards |
| `Widget.Controller.UpdateAutoplayButton` | slides.js:56-62 | sets `aria-pressed` to `!isPaused`, and the icon to Play when paused and Pause otherwise |
| `Widget.Controller.ClearInterval` | slides.js:50 | the host's `clearInterval(autoTransition)`: it removes one live interval only when the stored handle is live, so afterwards none is live and clearing again does nothing |
| `Widget.Controller.SetInterval` | slides.js:88 | the host's `setInterval`: it adds one live interval and the stored handle names it. It may only run once the stored handle is cleared, so exactly one interval is live afterwards |
| `Widget.Controller.StartAutoTransition` | slides.js:86-95 | clears the stored interval before scheduling a new one, so exactly one interval is live afterwards. Then it refreshes the button: `aria-pressed == !isPaused`, and the icon from `isPaused` |
| `Widget.Controller.PauseAutoTransition` | slides.js:97-101 | leaves the controller paused with no live interval, `aria-pressed` false and the Play icon, and valid |
| `Widget.Controller.PositionArrow` | slides.js:103-106 | moves the arrow over the current thumbnail, or does nothing when there is no thumbnail at the current index |
| `Widget.Controller.ShowSlide` | slides.js:74-84 | follows `Slideshow.ShowSlide`: slide and thumbnail `index` are active and the index is `index`. Agreement of the slides with the index is preserved |
| `Widget.Controller.Tick` | slides.js:88-93 | follows `Slideshow.Tick` and keeps the controller valid. Agreement of the slides with the index is preserved |
| `Widget.Controller.ClickThumbnail` | slides.js:19-22 | follows `Slideshow.ThumbnailClicked`, leaving index i, paused and no live interval. It keeps the controller valid and the slides in agreement with the index |
| `Widget.Controller.ClickToggle` | slides.js:42-53 | follows `Slideshow.ToggleClicked` and keeps the controller valid |
| `Widget.Controller.LayoutSettled` | slides.js:68-72 | the deferred pass positions the arrow and keeps the controller valid |
| `Widget.Boot` | slides.js:3-4 | with no `.slideshow` root there is no controller, and so no timer and no mutation. Otherwise a fresh, valid controller over the root's slides is in the state `Slideshow.Init` describes. The page's slide flags are not written |
| `Widget.ThreeSlideScenario` | slides.js:86-117 | on a controller over three slides, the index runs 0, 1, 2, 0, then 2 after a click on thumbnail 2. It stays 2 after a toggle click and is 0 after the next firing. The thumbnail click pauses with no interval, and the toggle click resumes with one |

## Left out

- DOM plumbing: `querySelector`, `createElement`, `appendChild`, class lists, `className`, `type` and `innerHTML` are not modelled. Flags are booleans. The two SVG icons are the `Icon` values `Play` and `Pause`, and the static `Autoplay` label is not modelled.
- The thumbnail container is assumed to hold no `.thumb` element before initialisation, so thumbnail i is the i-th `.thumb` queried. Its presence is a precondition (`hasTrail`), since slides.js:23 and 31 throw without it.
- `positionArrow` geometry (slides.js:107-113): the bounding rectangles and the CSS transform are floating-point layout. The model records only which thumbnail the arrow is centred on. The `!arrow` guard never fires once initialisation has created the arrow.
- The scroll in the deferred pass (slides.js:69) is page I/O. The 4000 ms interval and the 50 ms delay are wall-clock timing: firings and the deferred pass are explicit calls, and `Run` admits the layout pass any number of times.
- Interval handles are counted, not identified. `StartLeavesOneInterval` says that a second `startAutoTransition` gives the same state, which holds up to the identity of the new handle.
- `e.stopPropagation()` (slides.js:43) is host event dispatch with no effect on this state. The `DOMContentLoaded` registration (slides.js:2) is host wiring. `Boot` is the handler it registers.
- The arrow's `aria-hidden` and the button's initial `aria-pressed="false"` (slides.js:30, 37) are not observable once initialisation returns. `Built` records the latter, and the first refresh overwrites it.
- Widget.Controller.Tick: requires a slide when not paused, because the source throws on an empty slide list (slides.js:75, 90) and the model does not model exceptions.
