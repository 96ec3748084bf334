# Slider, gallery and modal state machines of the ICISSE 2026 page script

The page script (`script.js`) drives a conference web page. Besides a
statistics counter and a navbar scroll threshold (both outside this model),
its logic beyond direct DOM manipulation is the index arithmetic of its
widgets, which is what is modelled here:

- the **objectives card slider**, with previous/next buttons, one dot per
  card, and a clamp on resize;
- the **technical-tracks slider**, whose window shows 1, 2 or 3 cards by
  viewport width, moves through one clamping "go to", and rebuilds its dots
  on resize;
- the **glass** and **TMU** auto-advancing sliders, which tick circularly
  and jump on dot clicks by clearing every "active" flag and setting one;
- the **gallery rotator**, which moves a front pointer round `n` cards and
  gives each card a role class from the list front / back-right / back-left;
- the **committee modal**, whose "open" state goes with a scroll-locked page
  body.

Each widget is modelled as an immutable state record with pure transition
functions, one Dafny module per widget:

| file | module | widget |
|---|---|---|
| rows.dfy | `Rows` | rows of sibling elements carrying "active", as `seq<bool>`; counting active elements |
| objectives_slider.dfy | `ObjectivesSlider` | objectives slider |
| tracks_slider.dfy | `TracksSlider` | technical-tracks slider |
| auto_slider.dfy | `AutoSlider` | glass and TMU sliders |
| gallery.dfy | `Gallery` | gallery rotator |
| modal.dfy | `Modal` | committee modal |

The layout measurements the handlers take on every call become event
inputs. For the objectives slider this is the number of whole cards that
fit (`visible`), a natural number. For the tracks slider it is the viewport
width (`width`), an integer. DOM class lists become flags or token sets.

The TMU slider runs the same code as the glass slider except that it has no
background layers. It is modelled as the glass slider with an empty
background row (`AutoSlider.GoToTmu`, `AutoSlider.TickTmu`). On an empty row
the glass code's background steps do nothing.

In two places the widgets' apparent intent and the code differ; the model
follows the code:

- The objectives next button is disabled when `index >= maxIndex`, not only
  when `index == maxIndex`.
- An auto-slider jump can name an element that does not exist. A dot click
  can name a missing slide, because each click handler belongs to an
  existing dot but the slide list may be shorter. A tick can reach a slide
  that has no dot. Either way the handler throws part-way through. The
  model returns `Fault` with every row cleared and, when only the dot is
  missing, slide k active. The current index
  is assigned only after both rows are updated, so it stays unchanged and
  remains a valid slide (`AutoSlider.DotWithoutSlideFaults`,
  `AutoSlider.TickWithoutDotFaults`).

Behaviour at the edges, as written and proved:

- An objectives dot click is not clamped, so the index can pass `maxIndex`.
  Next is then disabled and does nothing. Of the two buttons only previous
  moves the index down, and a resize under the same layout pulls it back to
  `maxIndex` (`ObjectivesSlider.DotPastMaxIndex`).
- When no whole objectives card fits (`visible == 0`), `maxIndex` equals the
  card count. Next can then move the index onto the position after the last
  card, where no dot is active (`ObjectivesSlider.EmptyLayoutPassesLastCard`).
  Whenever at least one card fits, exactly one dot stays active
  (`ObjectivesSlider.FittingLayoutsKeepOneDot`).
- With more than three gallery cards, a card three or more places after the
  front looks up a missing list entry. Adding that missing value to the
  class list adds the token "undefined". Removing the three role classes
  never removes that token, so it stays
  (`Gallery.MoreThanThreeLeavesUndefined`).

## Model

| member | source | states |
|---|---|---|
| Rows.Highlight | script.js:119-121 | clearing "active" on a row and setting it at one position leaves exactly that element active (active count 1) if the position exists, and no element active (count 0) otherwise |
| Rows.Cleared | script.js:299-301 | removing "active" from every element of a row leaves none active: active count 0 |
| Rows.CountSingle | script.js:298-305 | a row whose active elements are exactly those at position `k` holds one active element when `k` is in the row, none otherwise |
| Rows.OnlyActiveCountsOne | script.js:119-121 | "only the element at k is active" means the row's active count is exactly one |
| ObjectivesSlider.MaxIndex | script.js:128-131 | the last full-window start is within the cards, is where a window of `visible` cards ends at the last card, and is 0 when all cards fit |
| ObjectivesSlider.SetupDots | script.js:96-104 | the load-time loop builds one dot per card with only the first active, the same row the redraw's highlight at index zero gives |
| ObjectivesSlider.Render | script.js:108-134 | a redraw keeps the index; afterwards previous is disabled iff the index is 0, next iff the index is at least maxIndex, and the dot at the index is the only active dot |
| ObjectivesSlider.Init | script.js:92-165 | after load the index is 0, previous is disabled, next is disabled iff all cards fit, and the state is valid |
| ObjectivesSlider.Prev | script.js:141-146 | moves back one card iff the index is positive, then redraws: previous disabled iff the new index is zero, next iff it is at or past maxIndex; otherwise the state is untouched; keeps the index within [0, maxIndex] |
| ObjectivesSlider.Next | script.js:148-162 | moves forward one card iff the index is below the freshly measured maxIndex, then redraws: previous enabled, next disabled iff the new index is maxIndex; otherwise the state is untouched; keeps the index within [0, maxIndex] |
| ObjectivesSlider.Dot | script.js:136-139 | a dot click sets the index to exactly the dot's position, with no clamp; next is disabled iff that position is at least maxIndex |
| ObjectivesSlider.Resize | script.js:168-182 | sets the index to min(index, maxIndex), leaves an in-range index unchanged, and redraws: previous is disabled iff the index is 0, next iff the index is the new maxIndex |
| ObjectivesSlider.ResizeIdempotent | script.js:168-182 | resizing twice to the same layout equals resizing once |
| ObjectivesSlider.ResizeButtonsFollowIndex | script.js:168-182 | after a resize, previous is disabled iff the index is 0 and next iff the index equals the new maxIndex |
| ObjectivesSlider.DotButtonsFollowIndex | script.js:124-139 | after a dot click, previous is disabled iff the index is 0 and next iff the index is at least maxIndex |
| ObjectivesSlider.DotPastMaxIndex | script.js:136-182 | a dot past maxIndex leaves the index past it with next disabled; next is a no-op there, previous steps down by one, and a resize under the same layout pulls the index back to maxIndex |
| ObjectivesSlider.DotPastMaxIndexExample | script.js:97-102 | with three cards of which two fit, the last dot sets index 2 while maxIndex is 1 |
| ObjectivesSlider.Step | script.js:141-182 | every event handler keeps the card count |
| ObjectivesSlider.StepValid | script.js:108-182 | each handler preserves validity: one dot per card, dots and the previous button following the index, index at most the card count |
| ObjectivesSlider.RunValid | script.js:92-182 | every state reached from a valid one by any event sequence is valid |
| ObjectivesSlider.InitNextFollows | script.js:124-165 | after the load-time redraw, next is disabled exactly when the index is at or past maxIndex |
| ObjectivesSlider.StepNextFollows | script.js:133-182 | any event measured under the layout the next flag follows keeps it following, including the clicks that do nothing |
| ObjectivesSlider.RunNextFollows | script.js:108-182 | under one fixed layout, next is disabled in every reachable state exactly when the index is at or past maxIndex |
| ObjectivesSlider.NavigationKeepsRange | script.js:141-182 | under a fixed layout with no dot clicks, the index stays in [0, maxIndex] once it starts there |
| ObjectivesSlider.FittingLayoutsKeepOneDot | script.js:108-182 | when at least one card fits in every layout, the index stays below the card count and exactly one dot is active |
| ObjectivesSlider.EmptyLayoutPassesLastCard | script.js:128-162 | when no whole card fits, pressing next once per card puts the index at the card count, with no dot active |
| ObjectivesSlider.NextRunsToEnd | script.js:148-162 | with no whole card fitting, n presses of next advance the index by n, up to the card count |
| TracksSlider.VisibleCards | script.js:196-201 | 1 card iff width is at most 768, 2 iff width is in (768, 1024], 3 iff width exceeds 1024 |
| TracksSlider.TotalSlides | script.js:203-205 | at least one start position; when the cards fill a window, the last start position plus the visible count equals the card count; otherwise exactly one |
| TracksSlider.BuildDots | script.js:207-217 | the rebuild loop creates exactly `total` dots, and only the dot at the current position is active: the same row as clearing and highlighting that position |
| TracksSlider.UpdatePosition | script.js:219-235 | does nothing with no cards; otherwise previous is disabled iff at position 0, next iff at the last position, and the current dot is the only active one; when the position has no dot, no dot is active |
| TracksSlider.Clamp | script.js:238-241 | the result lies in [0, total-1], equals an in-range request, is 0 below and total-1 above |
| TracksSlider.GoTo | script.js:237-243 | for any integer request, the position ends in [0, TotalSlides-1]; it is exact in range and clamped to the nearest end outside; with cards, the redraw disables previous iff at position 0 and next iff at the last position, and leaves active only the dot at the position, or none when that dot does not exist |
| TracksSlider.Prev | script.js:245-247 | goes back one position, stays at 0 at the start, always lands on a valid position, and with cards leaves both button flags following the new position |
| TracksSlider.Next | script.js:248-250 | goes forward one position, stays at the last position at the end, always lands on a valid position, and with cards leaves both button flags following the new position |
| TracksSlider.GoToIdempotent | script.js:237-243 | going to the position just reached changes nothing |
| TracksSlider.Resize | script.js:255-262 | clamps the position to min(current, total-1), rebuilds exactly `total` dots with exactly one active, and sets the buttons when there are cards |
| TracksSlider.ResizeIdempotent | script.js:255-262 | resizing twice to the same width equals resizing once |
| TracksSlider.Init | script.js:191-253 | after load the position is 0 and the dot row matches the width; with cards, previous is disabled and next is disabled iff there is one start position; with no cards the markup's button flags are kept |
| TracksSlider.Step | script.js:245-262 | every event keeps the card count and lands on a start position valid for that event's width |
| TracksSlider.ResizeSyncs | script.js:255-262 | after a resize the position, the dot count, the active dot and (with cards) both button flags agree with the new width |
| TracksSlider.StepKeepsSynced | script.js:207-262 | while the width is unchanged, each event keeps the state in step with it |
| TracksSlider.RunKeepsSynced | script.js:207-262 | while the width is unchanged, every reachable state has exactly one active dot, at the current position, and (with cards) previous disabled exactly at the first position and next exactly at the last |
| AutoSlider.GoTo | script.js:297-308 | succeeds iff slide and dot k exist; then exactly one slide, one dot and at most one background are active, all at k, and current becomes k; otherwise the handler aborts with no dot active and current unchanged |
| AutoSlider.GoToTmu | script.js:343-349 | TMU jump: succeeds iff slide and dot k exist, then only slide k and dot k are active and current is k; when it throws, no dot is active and current is unchanged; no background is involved |
| AutoSlider.Tick | script.js:310-313 | advances to the next slide, wrapping from the last to 0; never faults when every slide has a dot; the result is a slide index with one slide active |
| AutoSlider.TickTmu | script.js:351-353 | the TMU tick advances to the next slide and wraps from the last to 0; it never faults when every slide has a dot; on success only that slide and its dot are active, and no background is involved |
| AutoSlider.Ticks | script.js:310-317 | repeated ticks on a slider whose slides all have dots never fault, and after at least one tick exactly one slide and one dot are active |
| AutoSlider.TicksAdvance | script.js:310-313 | after m ticks, for m up to the slide count, the current slide is (start + m) wrapped round the circle |
| AutoSlider.TicksReturn | script.js:310-313 | one tick per slide returns to the starting slide |
| AutoSlider.OneActiveDetermined | script.js:297-308 | a state with exactly one active slide, dot and background is fully determined by its current index |
| AutoSlider.TicksCompose | script.js:310-317 | a ticks followed by b ticks equal a + b ticks |
| AutoSlider.TicksPeriodic | script.js:310-317 | after the first tick the whole slider state repeats with period equal to the slide count |
| AutoSlider.DotWithoutSlideFaults | script.js:297-331 | a dot without a matching slide aborts the jump with no slide and no dot active and current unchanged |
| AutoSlider.TickWithoutDotFaults | script.js:304-312 | a tick onto a slide that has no dot aborts after activating that slide, with no dot active and current unchanged |
| Gallery.RoleIndex | script.js:387-388 | the role index lies in [0, n), is the cyclic distance from the front card, and is 0 exactly for the front card |
| Gallery.TokenAt | script.js:379-389 | a distance below 3 gives that entry of the role list; 3 or more gives the token "undefined" |
| Gallery.Holder | script.js:387-388 | the card p places after the front has role index p |
| Gallery.Reassign | script.js:385-389 | after reassignment a card holds exactly the role for its distance (none past the list), and "undefined" is never removed |
| Gallery.Advance | script.js:383 | the front pointer moves to the next card, wrapping after the last, and stays below the card count |
| Gallery.Rotate | script.js:382-391 | a tick advances the front; each card then holds exactly the role for its distance from the new front, and gains "undefined" iff that distance is 3 or more |
| Gallery.FrontIsUnique | script.js:382-391 | after a tick the front token is on the new front card and on no other |
| Gallery.RolesInListIffAtMostThree | script.js:379-389 | every role index is a valid index into the three-entry list iff there are at most three cards |
| Gallery.EachRoleHeldOnce | script.js:382-391 | with at least three cards, each of the three roles is held by exactly one card after a tick |
| Gallery.RotationShiftsRoles | script.js:383-388 | a tick shifts the role pattern one card along: card i+1 gets card i's former distance |
| Gallery.MoreThanThreeLeavesUndefined | script.js:384-390 | with more than three cards some card gains "undefined" on a tick and keeps it on the next |
| Gallery.ThreeCardExample | script.js:379-391 | three cards with card 0 in front: one tick makes card 1 front, card 2 back-right, card 0 back-left |
| Modal.Step | script.js:271-287 | open sets active and hides overflow; close and a backdrop click clear active and set overflow to auto; a click inside the content changes nothing |
| Modal.Reachable | script.js:271-287 | any click sequence preserves "open iff scroll locked" |
| Modal.InitialReachable | script.js:270-287 | every state reachable from page load is open exactly when scroll is locked |
| Modal.ContentClicksKeepOpen | script.js:282-287 | any number of clicks inside the content leave the dialog unchanged |

## Left out

- DOM querying, element creation, click-listener registration and
  class-list mutation: rows of elements are `seq<bool>` and class lists are
  token sets. The model assumes the objectives dot query finds exactly the
  dots built at load.
- Pixel geometry: `offsetWidth`, the computed gap with its 32-pixel fallback,
  and the `translateX` offsets. These are floating-point DOM measurements.
  The whole-card count they yield is an input to the objectives events.
- Timers: the glass slider's 7000 ms interval, the TMU slider's 5000 ms
  interval and the gallery's 3500 ms interval. Also the cancel-and-restart
  after a dot click. Only the transition one tick performs is modelled, and
  timing is not.
- The presence guards that decide whether a widget is set up at all. These
  guards are on the slider track, buttons, modal elements, and the slide or
  card counts. The model starts from a set-up widget. Where a guard makes a
  count positive, that is a `requires` (objectives `total > 0`, ticks and
  rotations only with at least one slide or card).
- The navbar scroll threshold, the reveal observer, the hero time-out and
  the statistics counter. These are browser callbacks with floating-point
  counting, outside the widgets' index logic.
- Disabled buttons: a disabled button fires no click, but the model accepts
  previous and next events in every state. This admits more event sequences
  than the page can produce, so every property proved over all sequences
  also holds for the real ones.
- TracksSlider.RunKeepsSynced: proved for a fixed width only. If the width
  changes, the state is out of step until the resize event fires.
  `TracksSlider.ResizeSyncs` shows that this event restores it.
- AutoSlider.TicksAdvance: stated for at most one full round of ticks.
  Longer runs follow from `AutoSlider.TicksPeriodic`.
