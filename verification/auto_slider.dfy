/** The auto-advancing sliders. The "glass" slider has a row of slides, a
    row of dots and a row of background layers; the "TMU" slider has slides
    and dots only. A timer tick advances circularly and a dot click jumps to
    its slide. Both jump by clearing "active" on every element and then
    setting it on one slide, one dot and (when present) one background. The
    timer itself is not modelled, only the transition one tick performs. */
module AutoSlider {
  import opened Rows

  /** The slider's state: its three rows and the current slide. The TMU
      slider is the case with no background layers. */
  datatype Show = Show(
    slides: seq<bool>,
    dots: seq<bool>,
    backgrounds: seq<bool>,
    current: nat)

  /** The result of a jump. A jump to a slide or dot that does not exist
      throws part-way through the handler; `Fault` carries the state the
      handler leaves behind, with the current slide not updated. */
  datatype Outcome = Done(show: Show) | Fault(show: Show)

  /** Exactly one slide and one dot are active, both at the current slide,
      and no background other than the current one. */
  predicate OneActive(s: Show)
  {
    && OnlyActiveAt(s.slides, s.current)
    && OnlyActiveAt(s.dots, s.current)
    && forall i :: 0 <= i < |s.backgrounds| ==> (s.backgrounds[i] <==> i == s.current)
  }

  /** Jump to slide `k`. When slide and dot `k` exist, exactly they (and
      background `k`, if there is one) end up active and `k` becomes the
      current slide. Otherwise the handler stops after clearing the rows
      (and, if only the dot is missing, after activating the slide). */
  function GoTo(s: Show, k: nat): (r: Outcome)
    ensures r.Done? <==> k < |s.slides| && k < |s.dots|
    ensures r.Done? ==> OneActive(r.show) && r.show.current == k
    ensures r.Done? ==> CountActive(r.show.slides) == 1 && CountActive(r.show.dots) == 1
    ensures r.Done? ==> CountActive(r.show.backgrounds) == (if k < |s.backgrounds| then 1 else 0)
    ensures r.Fault? ==> r.show.current == s.current && CountActive(r.show.dots) == 0
    ensures r.Fault? ==> CountActive(r.show.backgrounds) == 0
    ensures |r.show.slides| == |s.slides| && |r.show.dots| == |s.dots| && |r.show.backgrounds| == |s.backgrounds|
  {
    var cleared := Show(Cleared(|s.slides|), Cleared(|s.dots|), Cleared(|s.backgrounds|), s.current);
    if k >= |s.slides| then
      Fault(cleared)
    else if k >= |s.dots| then
      Fault(cleared.(slides := Highlight(|s.slides|, k)))
    else
      Done(Show(Highlight(|s.slides|, k), Highlight(|s.dots|, k), Highlight(|s.backgrounds|, k), k))
  }

  /** The TMU slider's jump: the glass jump on a slider without background
      layers, so no background ever becomes active. */
  function GoToTmu(s: Show, k: nat): (r: Outcome)
    requires s.backgrounds == []
    ensures r.Done? <==> k < |s.slides| && k < |s.dots|
    ensures r.Done? ==> OnlyActiveAt(r.show.slides, k) && OnlyActiveAt(r.show.dots, k) && r.show.current == k
    ensures r.Fault? ==> r.show.current == s.current && CountActive(r.show.dots) == 0
    ensures r.show.backgrounds == []
  {
    GoTo(s, k)
  }

  /** One timer tick: jump to the next slide, wrapping to the first after
      the last. The timer only runs on a page with at least one slide. */
  function Tick(s: Show): (r: Outcome)
    requires |s.slides| > 0
    ensures r.Done? ==> r.show.current < |s.slides| && OneActive(r.show)
    ensures r.Done? && s.current + 1 < |s.slides| ==> r.show.current == s.current + 1
    ensures s.current < |s.slides| && |s.slides| <= |s.dots| ==> r.Done?
    ensures s.current + 1 == |s.slides| && |s.dots| > 0 ==> r.Done? && r.show.current == 0
  {
    GoTo(s, (s.current + 1) % |s.slides|)
  }

  /** The TMU slider's tick, on a slider without background layers: the
      same circular advance as the glass tick. */
  function TickTmu(s: Show): (r: Outcome)
    requires |s.slides| > 0 && s.backgrounds == []
    ensures r.Done? ==> r.show.current < |s.slides|
    ensures r.Done? ==> OnlyActiveAt(r.show.slides, r.show.current) && OnlyActiveAt(r.show.dots, r.show.current)
    ensures r.Done? && s.current + 1 < |s.slides| ==> r.show.current == s.current + 1
    ensures s.current < |s.slides| && |s.slides| <= |s.dots| ==> r.Done?
    ensures s.current + 1 == |s.slides| && |s.dots| > 0 ==> r.Done? && r.show.current == 0
    ensures r.show.backgrounds == []
  {
    Tick(s)
  }

  /** The page markup gives at least one slide and a dot for every slide. */
  predicate WellFormed(s: Show)
  {
    0 < |s.slides| <= |s.dots| && s.current < |s.slides|
  }

  /** `m` timer ticks in a row. On a well-formed slider no tick faults. */
  function Ticks(s: Show, m: nat): (r: Show)
    requires WellFormed(s)
    ensures WellFormed(r)
    ensures |r.slides| == |s.slides| && |r.dots| == |s.dots| && |r.backgrounds| == |s.backgrounds|
    ensures m > 0 ==> OneActive(r)
    decreases m
  {
    if m == 0 then s else Tick(Ticks(s, m - 1)).show
  }

  /** After `m` ticks, for `m` up to one full round, the current slide has
      advanced by `m` around the circle. */
  lemma {:induction false} TicksAdvance(s: Show, m: nat)
    requires WellFormed(s) && m <= |s.slides|
    ensures Ticks(s, m).current == if s.current + m < |s.slides| then s.current + m else s.current + m - |s.slides|
    decreases m
  {
    if m > 0 {
      TicksAdvance(s, m - 1);
    }
  }

  /** Ticking once per slide brings the slider back to the slide it
      started on. */
  lemma TicksReturn(s: Show)
    requires WellFormed(s)
    ensures Ticks(s, |s.slides|).current == s.current
  {
    TicksAdvance(s, |s.slides|);
  }

  /** Two states in which one slide is active have the same rows when their
      row lengths and current slides agree. */
  lemma OneActiveDetermined(s: Show, t: Show)
    requires OneActive(s) && OneActive(t) && s.current == t.current
    requires |s.slides| == |t.slides| && |s.dots| == |t.dots| && |s.backgrounds| == |t.backgrounds|
    ensures s == t
  {
  }

  /** Ticking is additive: `a` ticks followed by `b` ticks are `a + b`
      ticks. */
  lemma {:induction false} TicksCompose(s: Show, a: nat, b: nat)
    requires WellFormed(s)
    ensures Ticks(s, a + b) == Ticks(Ticks(s, a), b)
    decreases b
  {
    if b > 0 {
      TicksCompose(s, a, b - 1);
    }
  }

  /** Once the first tick has happened, the slider's whole state repeats
      with a period of one full round. */
  lemma TicksPeriodic(s: Show, m: nat)
    requires WellFormed(s) && m > 0
    ensures Ticks(s, m + |s.slides|) == Ticks(s, m)
  {
    var t := Ticks(s, m);
    TicksCompose(s, m, |s.slides|);
    TicksReturn(t);
    OneActiveDetermined(Ticks(t, |s.slides|), t);
  }

  /** A tick onto a slide that has no dot aborts after activating that
      slide: no dot is active and the current slide is unchanged. Dot clicks
      cannot reach this case, since each click belongs to an existing dot. */
  lemma TickWithoutDotFaults(s: Show)
    requires |s.dots| == s.current + 1 && s.current + 1 < |s.slides|
    ensures Tick(s).Fault? && Tick(s).show.current == s.current
    ensures OnlyActiveAt(Tick(s).show.slides, s.current + 1)
    ensures CountActive(Tick(s).show.dots) == 0
  {
  }

  /** Clicking a dot whose slide is missing aborts the jump with no slide
      and no dot active, and the current slide unchanged. */
  lemma DotWithoutSlideFaults(s: Show, k: nat)
    requires |s.slides| <= k < |s.dots|
    ensures GoTo(s, k).Fault? && GoTo(s, k).show.current == s.current
    ensures CountActive(GoTo(s, k).show.slides) == 0 && CountActive(GoTo(s, k).show.dots) == 0
  {
  }
}
