/** The committee modal: a dialog opened by one button and closed by another
    or by a click on its backdrop. While it is open the page behind it does
    not scroll. */
module Modal {

  /** The page body's inline overflow style: not set by the script yet,
      "hidden" (scroll locked) or "auto" (scroll restored). */
  datatype Overflow = Unset | Hidden | Auto

  /** Whether the modal carries "active", and the body's overflow style. */
  datatype Dialog = Dialog(active: bool, overflow: Overflow)

  /** Closed, with the body's overflow style untouched, when the page loads. */
  const Initial: Dialog := Dialog(false, Unset)

  /** A click on the open button, on the close button, or on the modal
      element; `onBackdrop` says whether the click's target is the modal
      element itself rather than something inside its content. */
  datatype Event = OpenClick | CloseClick | ModalClick(onBackdrop: bool)

  /** The dialog is open exactly when page scrolling is locked. */
  predicate ScrollLockedIffOpen(d: Dialog)
  {
    d.active <==> d.overflow == Hidden
  }

  function Step(d: Dialog, e: Event): (r: Dialog)
    ensures e == OpenClick ==> r.active && r.overflow == Hidden
    ensures e == CloseClick ==> !r.active && r.overflow == Auto
    ensures e.ModalClick? && e.onBackdrop ==> !r.active && r.overflow == Auto
    ensures e.ModalClick? && !e.onBackdrop ==> r == d
  {
    match e
    case OpenClick => Dialog(true, Hidden)
    case CloseClick => Dialog(false, Auto)
    case ModalClick(onBackdrop) => if onBackdrop then Dialog(false, Auto) else d
  }

  function Run(d: Dialog, events: seq<Event>): Dialog
    decreases |events|
  {
    if |events| == 0 then d else Run(Step(d, events[0]), events[1..])
  }

  /** Every state reachable from the initial one, by any sequence of clicks,
      keeps "open" and "scroll locked" together. */
  lemma {:induction false} Reachable(d: Dialog, events: seq<Event>)
    requires ScrollLockedIffOpen(d)
    ensures ScrollLockedIffOpen(Run(d, events))
    decreases |events|
  {
    if |events| > 0 {
      Reachable(Step(d, events[0]), events[1..]);
    }
  }

  lemma InitialReachable(events: seq<Event>)
    ensures ScrollLockedIffOpen(Run(Initial, events))
  {
    Reachable(Initial, events);
  }

  /** A click inside the content never closes an open dialog, however many
      such clicks there are. */
  lemma {:induction false} ContentClicksKeepOpen(d: Dialog, n: nat)
    ensures Run(d, seq(n, _ => ModalClick(false))) == d
    decreases n
  {
    if n > 0 {
      assert seq(n, _ => ModalClick(false))[1..] == seq(n - 1, _ => ModalClick(false));
      ContentClicksKeepOpen(d, n - 1);
    }
  }
}
