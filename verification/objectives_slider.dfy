/** The objectives card slider: a paging widget over `total` cards with
    previous/next buttons and one dot per card. Its index moves with the
    buttons, the dots and window resizes. The number of cards that fit in
    the container (`visible`) is a layout measurement taken again by every
    handler, so each event carries it as an input. */
module ObjectivesSlider {
  import opened Rows

  /** The widget's state: the current index, the card count, the dot row and
      the two buttons' disabled flags. */
  datatype Slider = Slider(
    index: nat,
    total: nat,
    dots: seq<bool>,
    prevDisabled: bool,
    nextDisabled: bool)

  /** The largest index at which a full window of `visible` cards still ends
      inside the track; zero when every card fits. */
  function MaxIndex(total: nat, visible: nat): (m: nat)
    ensures m <= total
    ensures visible <= total ==> m + visible == total
    ensures total <= visible ==> m == 0
  {
    if total > visible then total - visible else 0
  }

  /** The dot row built once when the page loads: one dot per card, the
      first one active. */
  method SetupDots(total: nat) returns (dots: seq<bool>)
    ensures |dots| == total
    ensures forall i :: 0 <= i < total ==> (dots[i] <==> i == 0)
    ensures total > 0 ==> CountActive(dots) == 1
    ensures dots == Highlight(total, 0)
  {
    dots := [];
    var index := 0;
    while index < total
      invariant index <= total
      invariant |dots| == index
      invariant forall i :: 0 <= i < index ==> (dots[i] <==> i == 0)
    {
      dots := dots + [index == 0];
      index := index + 1;
    }
    CountSingle(dots, 0);
  }

  /** The redraw every navigation ends with: the dot at the index is the only
      active one, previous is disabled at index zero, and next is disabled
      once the index reaches the last full window. */
  function Render(s: Slider, visible: nat): (r: Slider)
    ensures r.index == s.index && r.total == s.total && |r.dots| == |s.dots|
    ensures r.prevDisabled <==> r.index == 0
    ensures r.nextDisabled <==> r.index >= MaxIndex(r.total, visible)
    ensures r.index < |r.dots| ==> OnlyActiveAt(r.dots, r.index)
    ensures r.index >= |r.dots| ==> CountActive(r.dots) == 0
  {
    s.(dots := Highlight(|s.dots|, s.index),
       prevDisabled := s.index == 0,
       nextDisabled := s.index >= MaxIndex(s.total, visible))
  }

  /** The state after the page loads: dots built, index zero, buttons set. */
  function Init(total: nat, visible: nat): (r: Slider)
    requires total > 0
    ensures Valid(r) && r.index == 0 && r.total == total
    ensures r.prevDisabled
    ensures r.nextDisabled <==> total <= visible
  {
    Render(Slider(0, total, Highlight(total, 0), false, false), visible)
  }

  /** The previous button: moves back one card unless already at the first
      one, in which case nothing at all happens (not even a redraw). */
  function Prev(s: Slider, visible: nat): (r: Slider)
    ensures s.index > 0 ==> r.index + 1 == s.index && r.total == s.total
    ensures s.index == 0 ==> r == s
    ensures s.index <= MaxIndex(s.total, visible) ==> r.index <= MaxIndex(r.total, visible)
    ensures s.index > 0 ==> (r.prevDisabled <==> r.index == 0) && (r.nextDisabled <==> r.index >= MaxIndex(r.total, visible))
  {
    if s.index > 0 then Render(s.(index := s.index - 1), visible) else s
  }

  /** The next button: moves forward one card while a later full window
      exists under the current layout; otherwise nothing happens. */
  function Next(s: Slider, visible: nat): (r: Slider)
    ensures s.index < MaxIndex(s.total, visible) ==> r.index == s.index + 1 && r.total == s.total
    ensures s.index >= MaxIndex(s.total, visible) ==> r == s
    ensures s.index <= MaxIndex(s.total, visible) ==> r.index <= MaxIndex(r.total, visible)
    ensures s.index < MaxIndex(s.total, visible) ==> !r.prevDisabled && (r.nextDisabled <==> r.index == MaxIndex(r.total, visible))
  {
    if s.index < MaxIndex(s.total, visible) then Render(s.(index := s.index + 1), visible) else s
  }

  /** A click on dot `i`: the index becomes exactly `i`, with no clamping to
      the last full window. */
  function Dot(s: Slider, i: nat, visible: nat): (r: Slider)
    requires i < s.total
    ensures r.index == i && r.total == s.total
    ensures r.nextDisabled <==> i >= MaxIndex(s.total, visible)
  {
    Render(s.(index := i), visible)
  }

  /** A window resize: an index past the new last full window is pulled back
      to it, and the widget is redrawn. */
  function Resize(s: Slider, visible: nat): (r: Slider)
    ensures r.index == if s.index <= MaxIndex(s.total, visible) then s.index else MaxIndex(s.total, visible)
    ensures r.index <= MaxIndex(r.total, visible) && r.total == s.total
    ensures s.index <= MaxIndex(s.total, visible) ==> r.index == s.index
    ensures !r.prevDisabled || r.index == 0
    ensures r.prevDisabled <==> r.index == 0
    ensures r.nextDisabled <==> r.index == MaxIndex(r.total, visible)
  {
    var m := MaxIndex(s.total, visible);
    Render(s.(index := if s.index > m then m else s.index), visible)
  }

  /** Resizing twice to the same layout is the same as resizing once. */
  lemma ResizeIdempotent(s: Slider, visible: nat)
    ensures Resize(Resize(s, visible), visible) == Resize(s, visible)
  {
  }

  /** After a resize both button flags agree with the index under the new
      layout: previous is disabled iff the index is zero, next iff the index
      is the last full-window start. */
  lemma ResizeButtonsFollowIndex(s: Slider, visible: nat)
    ensures var r := Resize(s, visible); (r.prevDisabled <==> r.index == 0) && (r.nextDisabled <==> r.index == MaxIndex(r.total, visible))
  {
  }

  /** After a dot click previous is disabled iff the index is zero, and next
      iff the index is at or past the last full-window start. */
  lemma DotButtonsFollowIndex(s: Slider, i: nat, visible: nat)
    requires i < s.total
    ensures var r := Dot(s, i, visible); (r.prevDisabled <==> r.index == 0) && (r.nextDisabled <==> r.index >= MaxIndex(r.total, visible))
  {
  }

  /** A dot click may leave the index past the last full window. Then next is
      disabled and does nothing; of the two buttons only previous moves the
      index down, and a resize under the same layout pulls it back to the
      last full-window start. */
  lemma DotPastMaxIndex(s: Slider, i: nat, visible: nat)
    requires i < s.total && i > MaxIndex(s.total, visible)
    ensures Dot(s, i, visible).index > MaxIndex(s.total, visible)
    ensures Dot(s, i, visible).nextDisabled
    ensures Next(Dot(s, i, visible), visible) == Dot(s, i, visible)
    ensures Prev(Dot(s, i, visible), visible).index == i - 1
    ensures Resize(Dot(s, i, visible), visible).index == MaxIndex(s.total, visible)
  {
  }

  /** Such a dot exists: with three cards of which two fit, the last dot puts
      the index at 2 while the last full window starts at 1. */
  lemma DotPastMaxIndexExample()
    ensures Dot(Init(3, 2), 2, 2).index == 2 && MaxIndex(3, 2) == 1
    ensures Dot(Init(3, 2), 2, 2).nextDisabled
  {
  }

  /** The user-visible events, each carrying the layout measured when it
      fires. */
  datatype Event = PrevClick(visible: nat) | NextClick(visible: nat) | DotClick(i: nat, visible: nat) | WindowResize(visible: nat)

  /** A dot event can only name one of the dots built at load. */
  predicate Admissible(total: nat, e: Event)
  {
    e.DotClick? ==> e.i < total
  }

  function Step(s: Slider, e: Event): (r: Slider)
    requires Admissible(s.total, e)
    ensures r.total == s.total
  {
    match e
    case PrevClick(v) => Prev(s, v)
    case NextClick(v) => Next(s, v)
    case DotClick(i, v) => Dot(s, i, v)
    case WindowResize(v) => Resize(s, v)
  }

  function Run(s: Slider, events: seq<Event>): (r: Slider)
    requires forall k :: 0 <= k < |events| ==> Admissible(s.total, events[k])
    ensures r.total == s.total
    decreases |events|
  {
    if |events| == 0 then s else Run(Step(s, events[0]), events[1..])
  }

  /** The state shape every reachable state has: one dot per card, the dot
      row and the previous button in step with the index, and the index at
      most the card count. */
  predicate Valid(s: Slider)
  {
    && s.total > 0
    && |s.dots| == s.total
    && s.index <= s.total
    && (s.prevDisabled <==> s.index == 0)
    && forall i :: 0 <= i < |s.dots| ==> (s.dots[i] <==> i == s.index)
  }

  lemma StepValid(s: Slider, e: Event)
    requires Valid(s) && Admissible(s.total, e)
    ensures Valid(Step(s, e))
  {
  }

  /** Every state reached from a valid one by any sequence of events is
      valid. */
  lemma {:induction false} RunValid(s: Slider, events: seq<Event>)
    requires Valid(s)
    requires forall k :: 0 <= k < |events| ==> Admissible(s.total, events[k])
    ensures Valid(Run(s, events))
    decreases |events|
  {
    if |events| > 0 {
      StepValid(s, events[0]);
      RunValid(Step(s, events[0]), events[1..]);
    }
  }

  /** The next button's flag agrees with the index under layout `visible`:
      disabled exactly when the index is at or past the last full-window
      start. */
  predicate NextFollows(s: Slider, visible: nat)
  {
    s.nextDisabled <==> s.index >= MaxIndex(s.total, visible)
  }

  /** The load-time state has the next flag in step with its layout. */
  lemma InitNextFollows(total: nat, visible: nat)
    requires total > 0
    ensures NextFollows(Init(total, visible), visible)
  {
  }

  /** An event measured under the layout the next flag already follows
      keeps it following that layout, including the clicks that change
      nothing. */
  lemma StepNextFollows(s: Slider, e: Event)
    requires Admissible(s.total, e) && NextFollows(s, e.visible)
    ensures NextFollows(Step(s, e), e.visible)
  {
  }

  /** While the layout stays the same, the next button is disabled in every
      reachable state exactly when the index is at or past the last
      full-window start. */
  lemma {:induction false} RunNextFollows(s: Slider, events: seq<Event>, visible: nat)
    requires NextFollows(s, visible)
    requires forall k :: 0 <= k < |events| ==> Admissible(s.total, events[k]) && events[k].visible == visible
    ensures NextFollows(Run(s, events), visible)
    decreases |events|
  {
    if |events| > 0 {
      StepNextFollows(s, events[0]);
      assert forall k :: 0 <= k < |events[1..]| ==> events[1..][k] == events[k + 1];
      RunNextFollows(Step(s, events[0]), events[1..], visible);
    }
  }

  /** Only button and resize events under one fixed layout. */
  predicate NavigationOnly(events: seq<Event>, visible: nat)
  {
    forall k :: 0 <= k < |events| ==> !events[k].DotClick? && events[k].visible == visible
  }

  /** Under a fixed layout and without dot clicks, the index stays within
      [0, MaxIndex] once it starts there. */
  lemma {:induction false} NavigationKeepsRange(s: Slider, events: seq<Event>, visible: nat)
    requires s.index <= MaxIndex(s.total, visible)
    requires NavigationOnly(events, visible)
    ensures Run(s, events).index <= MaxIndex(s.total, visible)
    decreases |events|
  {
    if |events| > 0 {
      assert !events[0].DotClick? && events[0].visible == visible;
      var t := Step(s, events[0]);
      assert NavigationOnly(events[1..], visible) by {
        forall k | 0 <= k < |events[1..]|
          ensures !events[1..][k].DotClick? && events[1..][k].visible == visible
        {
          assert events[1..][k] == events[k + 1];
        }
      }
      NavigationKeepsRange(t, events[1..], visible);
    }
  }

  /** When at least one card fits in every layout, the index stays below the
      card count, so exactly one dot is active in every reachable state. */
  lemma {:induction false} FittingLayoutsKeepOneDot(s: Slider, events: seq<Event>)
    requires Valid(s) && s.index < s.total
    requires forall k :: 0 <= k < |events| ==> Admissible(s.total, events[k]) && events[k].visible >= 1
    ensures Run(s, events).index < s.total
    ensures CountActive(Run(s, events).dots) == 1
    decreases |events|
  {
    if |events| == 0 {
      OnlyActiveCountsOne(s.dots, s.index);
    } else {
      StepValid(s, events[0]);
      FittingLayoutsKeepOneDot(Step(s, events[0]), events[1..]);
    }
  }

  /** When no whole card fits (the container is narrower than one card plus
      gap), the last full window starts at the card count itself, so next
      can move the index past the last card and no dot is active. */
  lemma EmptyLayoutPassesLastCard(total: nat)
    requires total > 0
    ensures Run(Init(total, 0), seq(total, _ => NextClick(0))).index == total
    ensures CountActive(Run(Init(total, 0), seq(total, _ => NextClick(0))).dots) == 0
  {
    NextRunsToEnd(Init(total, 0), total);
  }

  /** `n` presses of next with no whole card fitting advance the index by
      `n`, as long as the index does not pass the card count. */
  lemma {:induction false} NextRunsToEnd(s: Slider, n: nat)
    requires Valid(s) && s.index + n <= s.total
    ensures Run(s, seq(n, _ => NextClick(0))).index == s.index + n
    ensures Valid(Run(s, seq(n, _ => NextClick(0))))
    ensures s.index + n == s.total ==> CountActive(Run(s, seq(n, _ => NextClick(0))).dots) == 0
    decreases n
  {
    var evs := seq(n, _ => NextClick(0));
    if n > 0 {
      var t := Step(s, evs[0]);
      assert evs[1..] == seq(n - 1, _ => NextClick(0));
      StepValid(s, evs[0]);
      NextRunsToEnd(t, n - 1);
    }
    if s.index + n == s.total {
      CountSingle(Run(s, evs).dots, s.total);
    }
  }
}
