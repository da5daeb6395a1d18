/** The message bar's state between host calls: the queue of alerts,
    the position of the one on display and whether its detail panel is
    expanded, with the operations that change it (`update`, the dismiss
    button's `showNextMessage`, the details toggle) and what the host
    renders from it. */
module Banner {
  import opened Wrappers
  import opened Rules
  import opened DataTable
  import opened Evaluator
  import JsNumber

  datatype Banner = Banner(messages: seq<Alert>, index: nat, expanded: bool)

  /** The queue position is on an alert, or 0 for an empty queue. */
  predicate Valid(b: Banner) {
    if b.messages == [] then b.index == 0 else b.index < |b.messages|
  }

  /** The state after the constructor's `clearVisual`. */
  function Initial(): (b: Banner)
    ensures b.messages == [] && b.index == 0 && !b.expanded
  {
    Banner([], 0, false)
  }

  /** `update`: the previous queue is discarded; with no table or no rows
      the bar is cleared, otherwise the queue is the evaluator's alerts,
      shown from the first one, collapsed. */
  function Update(view: Option<Table>, settings: Settings): (b: Banner)
    ensures b.index == 0 && !b.expanded && Valid(b)
    ensures |b.messages| <= 8
    ensures forall k :: 0 <= k < |b.messages| ==> WellFormed(b.messages[k])
    ensures view.None? || view.value.rows == [] ==> b.messages == []
  {
    match view
    case None => Banner([], 0, false)
    case Some(t) =>
      if t.rows == [] then Banner([], 0, false)
      else Banner(Evaluate(t, settings), 0, false)
  }

  /** The alert on display, if any. */
  function Current(b: Banner): Option<Alert> {
    if b.index < |b.messages| then Some(b.messages[b.index]) else None
  }

  /** The detail element's text: the current alert's detail, or empty
      once the bar is cleared. */
  function DetailText(b: Banner): (r: string)
    ensures Current(b).None? ==> r == []
    ensures Current(b).Some? ==> r == Current(b).value.detail
  {
    match Current(b)
    case Some(a) => a.detail
    case None => ""
  }

  /** `showNextMessage`: removes the alert on display (`splice`) and shows
      the one that slides into its place, wrapping to the first alert
      when the removed one was last; an emptied queue clears the bar.
      The detail panel collapses in every case. What is removed, and
      what is kept in which order, is `DismissRemovesCurrent`. */
  function ShowNextMessage(b: Banner): (r: Banner)
    ensures !r.expanded
    ensures b.messages == [] ==> r.messages == [] && r.index == b.index
    ensures b.index < |b.messages| ==> |r.messages| == |b.messages| - 1
    ensures b.messages != [] && b.index < |r.messages| ==> r.index == b.index
    ensures b.messages != [] && b.index >= |r.messages| ==> r.index == 0
    ensures Valid(b) ==> Valid(r)
  {
    if b.messages == [] then b.(expanded := false)
    else
      var m := if b.index < |b.messages| then b.messages[..b.index] + b.messages[b.index + 1..] else b.messages;
      if m == [] then Banner([], 0, false)
      else Banner(m, if b.index >= |m| then 0 else b.index, false)
  }

  /** Dismissing removes exactly the alert on display: the others stay,
      in their order. */
  lemma DismissRemovesCurrent(b: Banner)
    requires b.index < |b.messages|
    ensures var r := ShowNextMessage(b);
            && multiset(r.messages) + multiset{b.messages[b.index]} == multiset(b.messages)
            && forall k :: 0 <= k < |r.messages| ==> r.messages[k] == b.messages[if k < b.index then k else k + 1]
  {
    assert b.messages == b.messages[..b.index] + [b.messages[b.index]] + b.messages[b.index + 1..];
  }

  /** The details toggle: does nothing when there is no detail text,
      otherwise flips the expanded flag and leaves the queue alone. */
  function ToggleDetails(b: Banner): (r: Banner)
    ensures DetailText(b) == [] ==> r == b
    ensures DetailText(b) != [] ==> r.expanded == !b.expanded && r.messages == b.messages && r.index == b.index
  {
    if DetailText(b) == [] then b else b.(expanded := !b.expanded)
  }

  lemma ToggleTwice(b: Banner)
    ensures ToggleDetails(ToggleDetails(b)) == b
  {
  }

  /** The detail panel is open only when there is detail text to show. */
  predicate DetailVisible(b: Banner) {
    b.expanded && DetailText(b) != []
  }

  /** The "N more" label: the number of queued alerts besides the one on
      display, shown only when positive. */
  function RemainingLabel(b: Banner): (s: string)
    ensures s != [] <==> |b.messages| >= 2
    ensures s != [] ==> |s| > 5 && s[|s| - 5..] == " more"
  {
    var remaining := |b.messages| - 1;
    if remaining > 0 then JsNumber.NatToString(remaining) + " more" else ""
  }

  /** The number in a shown label reads back as the count of the other
      queued alerts. */
  lemma RemainingLabelCount(b: Banner)
    requires |b.messages| >= 2
    ensures var s := RemainingLabel(b);
            JsNumber.AllDigits(s[..|s| - 5]) && JsNumber.DigitsValue(s[..|s| - 5]) == |b.messages| - 1
  {
    var s := RemainingLabel(b);
    assert s[..|s| - 5] == JsNumber.NatToString(|b.messages| - 1);
    JsNumber.NatToStringRoundTrip(|b.messages| - 1);
  }

  /** `applySeverity`'s clamp of a severity into a style index. */
  function StyleIndex(severity: int): (i: int)
    ensures 0 <= i <= 3
    ensures 0 <= severity <= 3 ==> i == severity
    ensures severity < 0 ==> i == 0
    ensures severity > 3 ==> i == 3
  {
    if severity < 0 then 0 else if severity > 3 then 3 else severity
  }

  /** What every state the host can observe satisfies: position 0, a
      queue of well-formed alerts of at most eight. */
  predicate Reachable(b: Banner) {
    && b.index == 0
    && |b.messages| <= 8
    && forall k :: 0 <= k < |b.messages| ==> WellFormed(b.messages[k])
  }

  /** The constructor, `update`, dismissing and toggling all keep the
      state reachable, so the position is always 0 and valid. */
  lemma ReachableIsClosed(b: Banner, view: Option<Table>, settings: Settings)
    ensures Reachable(Initial())
    ensures Reachable(Update(view, settings))
    ensures Reachable(b) ==> Reachable(ShowNextMessage(b)) && Reachable(ToggleDetails(b))
    ensures Reachable(b) ==> Valid(b)
  {
    if Reachable(b) { DismissKeepsReachable(b); }
  }

  lemma DismissKeepsReachable(b: Banner)
    requires Reachable(b)
    ensures Reachable(ShowNextMessage(b))
  {
    if b.messages != [] {
      var r := ShowNextMessage(b);
      forall k | 0 <= k < |r.messages| ensures WellFormed(r.messages[k]) {
        assert r.messages[k] == b.messages[k + 1];
      }
    }
  }

  /** In a reachable state dismissing removes the first alert: the queue
      is worked through front to back. */
  lemma DismissTakesFront(b: Banner)
    requires Reachable(b) && b.messages != []
    ensures ShowNextMessage(b).messages == b.messages[1..]
    ensures Current(ShowNextMessage(b)) == if |b.messages| > 1 then Some(b.messages[1]) else None
  {
  }

  /** Dismissing `n` times. */
  function DismissTimes(b: Banner, n: nat): Banner
    decreases n
  {
    if n == 0 then b else DismissTimes(ShowNextMessage(b), n - 1)
  }

  /** From a reachable state, the k-th dismissal shows the alert that
      stood k places behind the current one, and dismissing once per
      alert empties the queue. */
  lemma DismissWalksQueue(b: Banner, k: nat)
    requires Reachable(b) && k <= |b.messages|
    ensures DismissTimes(b, k).messages == b.messages[k..]
    ensures Reachable(DismissTimes(b, k))
    ensures k < |b.messages| ==> Current(DismissTimes(b, k)) == Some(b.messages[k])
  {
    DismissDropsPrefix(b, k);
    var d := DismissTimes(b, k);
    forall j | 0 <= j < |d.messages| ensures WellFormed(d.messages[j]) {
      assert d.messages[j] == b.messages[k + j];
    }
    if k < |b.messages| {
      assert d.messages[0] == b.messages[k];
    }
  }

  /** Dismissing at position 0 drops the front alert and stays at 0. */
  lemma DismissAtFront(b: Banner)
    requires b.index == 0 && b.messages != []
    ensures ShowNextMessage(b).messages == b.messages[1..]
    ensures ShowNextMessage(b).index == 0
  {
    assert b.messages[..0] + b.messages[1..] == b.messages[1..];
  }

  /** Each dismissal at position 0 drops one alert off the front. */
  lemma {:induction false} DismissDropsPrefix(b: Banner, k: nat)
    requires b.index == 0 && k <= |b.messages|
    ensures DismissTimes(b, k).messages == b.messages[k..]
    ensures DismissTimes(b, k).index == 0
    decreases k
  {
    if k > 0 {
      var next := ShowNextMessage(b);
      DismissAtFront(b);
      DismissDropsPrefix(next, k - 1);
      assert DismissTimes(b, k) == DismissTimes(next, k - 1);
      assert b.messages[1..][k - 1..] == b.messages[k..];
    }
  }

  /** Dismissing the last of three alerts wraps to the first: from
      [A, B, C] showing C, the queue becomes [A, B] showing A. */
  lemma DismissWrapsToFirst(a: Alert, b: Alert, c: Alert, expanded: bool)
    ensures var r := ShowNextMessage(Banner([a, b, c], 2, expanded));
            r.messages == [a, b] && r.index == 0 && Current(r) == Some(a) && !r.expanded
  {
  }

  /** A new `update` discards whatever dismissals and toggles happened
      before: the queue is rebuilt from the table and rules alone and
      shown from its first alert, collapsed. */
  lemma UpdateShowsFirst(t: Table, settings: Settings)
    requires t.rows != []
    ensures var b := Update(Some(t), settings);
            var alerts := Evaluate(t, settings);
            && b.messages == alerts
            && Current(b) == (if alerts == [] then None else Some(alerts[0]))
            && !DetailVisible(b)
  {
  }
}
