/** The technical-tracks slider: a paging widget over `cards` track cards
    whose window shows 1, 2 or 3 cards depending on the viewport width. Every
    move goes through one clamping "go to", and a resize rebuilds the dot
    row because the number of start positions depends on the width. The
    viewport width is read again by every handler, so each event carries it
    as an input. */
module TracksSlider {
  import opened Rows

  /** The widget's state: the current start position, the card count, the
      dot row and the two buttons' disabled flags. */
  datatype Tracks = Tracks(
    current: nat,
    cards: nat,
    dots: seq<bool>,
    prevDisabled: bool,
    nextDisabled: bool)

  /** Cards shown at once: one on narrow viewports (at most 768 pixels), two
      up to 1024 pixels, three beyond. */
  function VisibleCards(width: int): (v: nat)
    ensures 1 <= v <= 3
    ensures v == 1 <==> width <= 768
    ensures v == 2 <==> 768 < width <= 1024
    ensures v == 3 <==> 1024 < width
  {
    if width <= 768 then 1 else if width <= 1024 then 2 else 3
  }

  /** Number of start positions: one per window of visible cards that fits,
      and never fewer than one. */
  function TotalSlides(cards: nat, width: int): (t: nat)
    ensures t >= 1
    ensures cards >= VisibleCards(width) ==> (t - 1) + VisibleCards(width) == cards
    ensures cards <= VisibleCards(width) ==> t == 1
  {
    var v := VisibleCards(width);
    if cards - v + 1 > 1 then cards - v + 1 else 1
  }

  /** The dot row rebuilt from scratch: one dot per start position, the one
      at `current` active. */
  method BuildDots(total: nat, current: nat) returns (dots: seq<bool>)
    ensures |dots| == total
    ensures forall i :: 0 <= i < total ==> (dots[i] <==> i == current)
    ensures current < total ==> CountActive(dots) == 1
    ensures dots == Highlight(total, current)
  {
    dots := [];
    var i := 0;
    while i < total
      invariant i <= total
      invariant |dots| == i
      invariant forall j :: 0 <= j < i ==> (dots[j] <==> j == current)
    {
      dots := dots + [i == current];
      i := i + 1;
    }
    CountSingle(dots, current);
  }

  /** The redraw after a move. With no cards it does nothing at all;
      otherwise previous is disabled at the first position, next at the last,
      and the existing dot at `current` is the only active one. */
  function UpdatePosition(s: Tracks, width: int): (r: Tracks)
    ensures r.current == s.current && r.cards == s.cards && |r.dots| == |s.dots|
    ensures s.cards == 0 ==> r == s
    ensures s.cards > 0 ==> (r.prevDisabled <==> r.current == 0)
    ensures s.cards > 0 ==> (r.nextDisabled <==> r.current + 1 >= TotalSlides(r.cards, width))
    ensures s.cards > 0 && r.current < |r.dots| ==> OnlyActiveAt(r.dots, r.current)
    ensures s.cards > 0 && r.current >= |r.dots| ==> CountActive(r.dots) == 0
  {
    if s.cards == 0 then s
    else
      s.(prevDisabled := s.current == 0,
         nextDisabled := s.current >= TotalSlides(s.cards, width) - 1,
         dots := Highlight(|s.dots|, s.current))
  }

  /** Clamp a requested position into [0, total - 1]. */
  function Clamp(idx: int, total: nat): (c: nat)
    requires total >= 1
    ensures c < total
    ensures 0 <= idx < total ==> c == idx
    ensures idx < 0 ==> c == 0
    ensures idx >= total ==> c == total - 1
  {
    var upper := if idx < total - 1 then idx else total - 1;
    if upper > 0 then upper else 0
  }

  /** Go to position `idx`, for any integer `idx`: the position is clamped
      into the start positions the current width allows. */
  function GoTo(s: Tracks, idx: int, width: int): (r: Tracks)
    ensures r.cards == s.cards && |r.dots| == |s.dots|
    ensures r.current < TotalSlides(s.cards, width)
    ensures 0 <= idx < TotalSlides(s.cards, width) ==> r.current == idx
    ensures idx < 0 ==> r.current == 0
    ensures idx >= TotalSlides(s.cards, width) ==> r.current + 1 == TotalSlides(s.cards, width)
    ensures s.cards > 0 ==> (r.prevDisabled <==> r.current == 0)
    ensures s.cards > 0 ==> (r.nextDisabled <==> r.current + 1 == TotalSlides(s.cards, width))
    ensures s.cards > 0 && r.current < |r.dots| ==> OnlyActiveAt(r.dots, r.current)
    ensures s.cards > 0 && r.current >= |r.dots| ==> CountActive(r.dots) == 0
  {
    UpdatePosition(s.(current := Clamp(idx, TotalSlides(s.cards, width))), width)
  }

  /** The previous button: one position back, never below the first. */
  function Prev(s: Tracks, width: int): (r: Tracks)
    ensures s.current == 0 ==> r.current == 0
    ensures 0 < s.current < TotalSlides(s.cards, width) ==> r.current + 1 == s.current
    ensures r.current < TotalSlides(s.cards, width)
    ensures s.cards > 0 ==> (r.prevDisabled <==> r.current == 0)
    ensures s.cards > 0 ==> (r.nextDisabled <==> r.current + 1 == TotalSlides(s.cards, width))
  {
    GoTo(s, s.current - 1, width)
  }

  /** The next button: one position forward, never past the last. */
  function Next(s: Tracks, width: int): (r: Tracks)
    ensures s.current + 1 < TotalSlides(s.cards, width) ==> r.current == s.current + 1
    ensures s.current + 1 >= TotalSlides(s.cards, width) ==> r.current + 1 == TotalSlides(s.cards, width)
    ensures r.current < TotalSlides(s.cards, width)
    ensures s.cards > 0 ==> (r.prevDisabled <==> r.current == 0)
    ensures s.cards > 0 ==> (r.nextDisabled <==> r.current + 1 == TotalSlides(s.cards, width))
  {
    GoTo(s, s.current + 1, width)
  }

  /** Going to the position one is already at changes nothing about the
      position: "go to" is idempotent. */
  lemma GoToIdempotent(s: Tracks, idx: int, width: int)
    ensures GoTo(GoTo(s, idx, width), GoTo(s, idx, width).current, width) == GoTo(s, idx, width)
  {
  }

  /** A window resize: the position is clamped to the new last start
      position, the dot row is rebuilt with one dot per start position, and
      the widget is redrawn. */
  function Resize(s: Tracks, width: int): (r: Tracks)
    ensures r.current == if s.current < TotalSlides(s.cards, width) then s.current else TotalSlides(s.cards, width) - 1
    ensures r.cards == s.cards
    ensures |r.dots| == TotalSlides(s.cards, width)
    ensures OnlyActiveAt(r.dots, r.current)
    ensures CountActive(r.dots) == 1
    ensures r.cards > 0 ==> (r.prevDisabled <==> r.current == 0)
    ensures r.cards > 0 ==> (r.nextDisabled <==> r.current + 1 == TotalSlides(r.cards, width))
  {
    var total := TotalSlides(s.cards, width);
    var c := if s.current < total - 1 then s.current else total - 1;
    var r := UpdatePosition(s.(current := c, dots := Highlight(total, c)), width);
    OnlyActiveCountsOne(r.dots, r.current);
    r
  }

  /** Resizing twice to the same width is the same as resizing once. */
  lemma ResizeIdempotent(s: Tracks, width: int)
    ensures Resize(Resize(s, width), width) == Resize(s, width)
  {
  }

  /** The state after the page loads: position zero, dots built, and the
      buttons set when there is at least one card. The buttons' flags in the
      page markup are kept when there are none. */
  function Init(cards: nat, width: int, prevDisabled: bool, nextDisabled: bool): (r: Tracks)
    ensures Synced(r, width) && r.current == 0 && r.cards == cards
    ensures cards == 0 ==> r.prevDisabled == prevDisabled && r.nextDisabled == nextDisabled
    ensures cards > 0 ==> r.prevDisabled && (r.nextDisabled <==> TotalSlides(cards, width) == 1)
  {
    var total := TotalSlides(cards, width);
    UpdatePosition(Tracks(0, cards, Highlight(total, 0), prevDisabled, nextDisabled), width)
  }

  /** The state agrees with the width `width`: the position is a start
      position, there is one dot per start position, only the dot at the
      position is active, and (when there are cards) previous is disabled
      exactly at the first position and next exactly at the last. */
  predicate Synced(s: Tracks, width: int)
  {
    && s.current < TotalSlides(s.cards, width)
    && |s.dots| == TotalSlides(s.cards, width)
    && OnlyActiveAt(s.dots, s.current)
    && (s.cards > 0 ==> (s.prevDisabled <==> s.current == 0))
    && (s.cards > 0 ==> (s.nextDisabled <==> s.current + 1 == TotalSlides(s.cards, width)))
  }

  datatype Event = PrevClick(width: int) | NextClick(width: int) | DotClick(i: nat, width: int) | WindowResize(width: int)

  function Step(s: Tracks, e: Event): (r: Tracks)
    ensures r.cards == s.cards
    ensures r.current < TotalSlides(s.cards, e.width)
  {
    match e
    case PrevClick(w) => Prev(s, w)
    case NextClick(w) => Next(s, w)
    case DotClick(i, w) => GoTo(s, i, w)
    case WindowResize(w) => Resize(s, w)
  }

  function Run(s: Tracks, events: seq<Event>): (r: Tracks)
    ensures r.cards == s.cards
    decreases |events|
  {
    if |events| == 0 then s else Run(Step(s, events[0]), events[1..])
  }

  /** A resize brings any state in step with the new width. */
  lemma ResizeSyncs(s: Tracks, width: int)
    ensures Synced(Resize(s, width), width)
  {
  }

  /** Every event keeps a synced state synced when the width does not
      change. */
  lemma StepKeepsSynced(s: Tracks, e: Event)
    requires Synced(s, e.width)
    ensures Synced(Step(s, e), e.width)
  {
  }

  /** While the width stays the same, every reachable state is in step with
      it: exactly one dot is active, and it is the dot at the position. */
  lemma {:induction false} RunKeepsSynced(s: Tracks, events: seq<Event>, width: int)
    requires Synced(s, width)
    requires forall k :: 0 <= k < |events| ==> events[k].width == width
    ensures Synced(Run(s, events), width)
    ensures CountActive(Run(s, events).dots) == 1
    decreases |events|
  {
    if |events| == 0 {
      OnlyActiveCountsOne(s.dots, s.current);
    } else {
      StepKeepsSynced(s, events[0]);
      assert forall k :: 0 <= k < |events[1..]| ==> events[1..][k].width == width by {
        forall k | 0 <= k < |events[1..]| ensures events[1..][k].width == width {
          assert events[1..][k] == events[k + 1];
        }
      }
      RunKeepsSynced(Step(s, events[0]), events[1..], width);
    }
  }
}
