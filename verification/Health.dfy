/** The provider health monitor: one mutable state per target, its outage windows, and
    the downtime arithmetic of the daily report. Times are whole microseconds. */
module Health {
  import opened Numbers
  import opened Wrappers

  datatype Status = Unknown | Healthy | Unhealthy

  /** A failure comes with the warning cooldown of the call that reports it. */
  datatype Event = Success(at: int) | Failure(at: int, cooldown: int)

  /** The value of an outage window. */
  datatype Window = Window(start: int, end: Option<int>)

  const SECOND: int := 1_000_000

  // ----- what a history of events means -----

  function StatusAfter(h: seq<Event>): Status {
    if h == [] then Unknown else if h[|h| - 1].Failure? then Unhealthy else Healthy
  }

  /** Whether the target counted as unhealthy at time `t`: the last event up to `t`
      was a failure. */
  predicate UnhealthyAt(h: seq<Event>, t: int) {
    if h == [] then false
    else if h[|h| - 1].at <= t then h[|h| - 1].Failure?
    else UnhealthyAt(h[..|h| - 1], t)
  }

  ghost predicate Nondecreasing(h: seq<Event>) {
    forall i, j :: 0 <= i <= j < |h| ==> h[i].at <= h[j].at
  }

  predicate Open(ws: seq<Window>) {
    ws != [] && ws[|ws| - 1].end.None?
  }

  function AfterEvent(ws: seq<Window>, e: Event): seq<Window> {
    if e.Failure? then (if Open(ws) then ws else ws + [Window(e.at, None)])
    else (if Open(ws) then ws[..|ws| - 1] + [ws[|ws| - 1].(end := Some(e.at))] else ws)
  }

  /** The outage windows a history leaves. */
  function Outages(h: seq<Event>): seq<Window> {
    if h == [] then [] else AfterEvent(Outages(h[..|h| - 1]), h[|h| - 1])
  }

  /** Windows in order, apart from each other, only the last one possibly open, and
      nothing after `latest`. */
  ghost predicate Ordered(ws: seq<Window>, latest: int) {
    && (forall i :: 0 <= i < |ws| ==> ws[i].start <= latest)
    && (forall i :: 0 <= i < |ws| && ws[i].end.Some? ==> ws[i].start <= ws[i].end.value <= latest)
    && (forall i, j :: 0 <= i < j < |ws| ==> ws[i].end.Some? && ws[i].end.value <= ws[j].start)
  }

  /** The last window is open exactly while the status is unhealthy, whatever the clock
      does. */
  lemma StatusOfOutages(h: seq<Event>)
    ensures Open(Outages(h)) <==> StatusAfter(h) == Unhealthy
  {
    if h != [] {
      OpenAfter(Outages(h[..|h| - 1]), h[|h| - 1]);
    }
  }

  lemma OpenAfter(ws: seq<Window>, e: Event)
    ensures Open(AfterEvent(ws, e)) <==> e.Failure?
  {
  }

  /** Over every run with a nondecreasing clock the outages stay ordered and disjoint. */
  lemma {:induction false} OutagesOrdered(h: seq<Event>, now: int)
    requires Nondecreasing(h) && (h != [] ==> h[|h| - 1].at <= now)
    ensures Ordered(Outages(h), now)
  {
    if h != [] {
      OutagesOrdered(h[..|h| - 1], h[|h| - 1].at);
      EventKeepsOrder(Outages(h[..|h| - 1]), h[|h| - 1], now);
    }
  }

  lemma EventKeepsOrder(ws: seq<Window>, e: Event, now: int)
    requires Ordered(ws, e.at) && e.at <= now
    ensures Ordered(AfterEvent(ws, e), now)
  {
    var r := AfterEvent(ws, e);
    assert forall i :: 0 <= i < |ws| ==> r[i].start == ws[i].start && (ws[i].end.Some? ==> r[i] == ws[i]);
  }

  predicate Within(w: Window, t: int) {
    w.start <= t && (w.end.Some? ==> t < w.end.value)
  }

  ghost predicate Covered(ws: seq<Window>, t: int) {
    exists i :: 0 <= i < |ws| && Within(ws[i], t)
  }

  lemma CoveredAfter(ws: seq<Window>, e: Event, t: int)
    requires Ordered(ws, e.at)
    ensures t < e.at ==> (Covered(AfterEvent(ws, e), t) <==> Covered(ws, t))
    ensures e.at <= t ==> (Covered(AfterEvent(ws, e), t) <==> e.Failure?)
  {
    var r := AfterEvent(ws, e);
    if t < e.at {
      if i :| 0 <= i < |ws| && Within(ws[i], t) {
        assert Within(r[i], t);
      }
      if i :| 0 <= i < |r| && Within(r[i], t) {
        assert Within(ws[i], t);
      }
    } else if e.Failure? {
      assert Within(r[|r| - 1], t);
    }
  }

  /** The windows cover exactly the times at which the target was unhealthy. */
  lemma {:induction false} OutagesCover(h: seq<Event>, t: int)
    requires Nondecreasing(h)
    ensures Covered(Outages(h), t) <==> UnhealthyAt(h, t)
  {
    if h != [] {
      var n := |h| - 1;
      OutagesOrdered(h[..n], h[n].at);
      CoveredAfter(Outages(h[..n]), h[n], t);
      OutagesCover(h[..n], t);
    }
  }

  // ----- downtime -----

  datatype Overlap = Overlap(start: int, end: int, length: int, openEnded: bool)

  /** The part of an outage inside a report window; an open outage lasts until `now`. */
  function OverlapOutage(w: Window, start: int, end: int, now: int): Option<Overlap> {
    var outageEnd := if w.end.Some? then w.end.value else now;
    var from, to := Max(w.start, start), Min(outageEnd, end);
    if to - from <= 0 then None else Some(Overlap(from, to, to - from, w.end.None?))
  }

  /** A time of the outage inside the report window, and not after now if it is open. */
  ghost predicate InBoth(w: Window, start: int, end: int, now: int, t: int) {
    start <= t < end && Within(w, t) && (w.end.None? ==> t < now)
  }

  /** The overlap is empty exactly if there is no such time, and otherwise spans them all. */
  lemma OverlapExactly(w: Window, start: int, end: int, now: int)
    ensures OverlapOutage(w, start, end, now).None? <==> forall t :: !InBoth(w, start, end, now, t)
    ensures OverlapOutage(w, start, end, now).Some? ==>
      var o := OverlapOutage(w, start, end, now).value;
      && (forall t :: o.start <= t < o.end <==> InBoth(w, start, end, now, t))
      && o.start < o.end && o.length == o.end - o.start && (o.openEnded <==> w.end.None?)
  {
    var o := OverlapOutage(w, start, end, now);
    if o.Some? {
      assert InBoth(w, start, end, now, o.value.start);
    }
  }

  function LengthIn(w: Window, start: int, end: int, now: int): nat {
    var o := OverlapOutage(w, start, end, now);
    if o.Some? then o.value.length else 0
  }

  function Downtime(ws: seq<Window>, start: int, end: int, now: int): nat {
    if ws == [] then 0 else Downtime(ws[..|ws| - 1], start, end, now) + LengthIn(ws[|ws| - 1], start, end, now)
  }

  /** The measure of the unhealthy times in a span, counted tick by tick. */
  function UnhealthyTicks(h: seq<Event>, start: int, end: int): (n: nat)
    ensures end >= start ==> n <= end - start
    decreases end - start
  {
    if end <= start then 0 else UnhealthyTicks(h, start, end - 1) + if UnhealthyAt(h, end - 1) then 1 else 0
  }

  function CoverCount(ws: seq<Window>, t: int): nat {
    if ws == [] then 0 else CoverCount(ws[..|ws| - 1], t) + if Within(ws[|ws| - 1], t) then 1 else 0
  }

  /** Ordered windows cover a time at most once. */
  lemma {:induction false} CoveredOnce(ws: seq<Window>, t: int, latest: int)
    requires Ordered(ws, latest)
    ensures CoverCount(ws, t) == if Covered(ws, t) then 1 else 0
  {
    if ws != [] {
      var n := |ws| - 1;
      CoveredOnce(ws[..n], t, latest);
      if Within(ws[n], t) {
        forall i | 0 <= i < n ensures !Within(ws[..n][i], t) {
          assert ws[i].end.Some? && ws[i].end.value <= ws[n].start;
        }
      } else {
        if i :| 0 <= i < |ws| && Within(ws[i], t) {
          assert Within(ws[..n][i], t);
        }
        if i :| 0 <= i < n && Within(ws[..n][i], t) {
          assert Within(ws[i], t);
        }
      }
    }
  }

  /** One tick more at the end of the window adds the windows that cover it. */
  lemma {:induction false} DowntimeStep(ws: seq<Window>, start: int, end: int, now: int)
    requires start <= end < now
    ensures Downtime(ws, start, end + 1, now) == Downtime(ws, start, end, now) + CoverCount(ws, end)
  {
    if ws != [] {
      DowntimeStep(ws[..|ws| - 1], start, end, now);
    }
  }

  lemma {:induction false} NoDowntime(ws: seq<Window>, start: int, end: int, now: int)
    requires end <= start
    ensures Downtime(ws, start, end, now) == 0
  {
    if ws != [] {
      NoDowntime(ws[..|ws| - 1], start, end, now);
    }
  }

  lemma {:induction false} DowntimeUntilNow(ws: seq<Window>, start: int, end: int, now: int)
    requires now <= end && Ordered(ws, now)
    ensures Downtime(ws, start, end, now) == Downtime(ws, start, now, now)
  {
    if ws != [] {
      DowntimeUntilNow(ws[..|ws| - 1], start, end, now);
    }
  }

  /** Downtime is the measure of the unhealthy part of the report window, up to now. */
  lemma {:induction false} DowntimeIsUnhealthyTime(h: seq<Event>, start: int, end: int, now: int)
    requires Nondecreasing(h) && (h != [] ==> h[|h| - 1].at <= now)
    ensures Downtime(Outages(h), start, end, now) == UnhealthyTicks(h, start, Min(end, now))
    decreases Min(end, now) - start
  {
    var ws := Outages(h);
    OutagesOrdered(h, now);
    if now < end {
      DowntimeUntilNow(ws, start, end, now);
    }
    var last := Min(end, now);
    if last <= start {
      NoDowntime(ws, start, last, now);
    } else {
      DowntimeIsUnhealthyTime(h, start, last - 1, now);
      DowntimeStep(ws, start, last - 1, now);
      CoveredOnce(ws, last - 1, now);
      OutagesCover(h, last - 1);
    }
  }

  /** Downtime adds up over adjacent report windows, whatever the windows are. */
  lemma {:induction false} DowntimeAdds(ws: seq<Window>, a: int, b: int, c: int, now: int)
    requires a <= b <= c
    ensures Downtime(ws, a, c, now) == Downtime(ws, a, b, now) + Downtime(ws, b, c, now)
  {
    if ws != [] {
      DowntimeAdds(ws[..|ws| - 1], a, b, c, now);
    }
  }

  // ----- availability -----

  /** The percentage of the daily report before it is clamped at zero. */
  function RawAvailability(down: nat, start: int, end: int): real {
    var total := Max(SECOND, end - start);
    100.0 * (total - down) as real / total as real
  }

  /** The clamp never acts: the percentage always lies between 0 and 100, and it is 0
      exactly when the target was down for the whole of a window of at least a second. */
  lemma ClampNeverActs(h: seq<Event>, start: int, end: int, now: int)
    requires Nondecreasing(h) && (h != [] ==> h[|h| - 1].at <= now)
    ensures var down := Downtime(Outages(h), start, end, now);
      && 0.0 <= RawAvailability(down, start, end) <= 100.0
      && (RawAvailability(down, start, end) == 0.0 <==> down == end - start >= SECOND)
  {
    DowntimeIsUnhealthyTime(h, start, end, now);
    var down, total := Downtime(Outages(h), start, end, now), Max(SECOND, end - start);
    assert 0 <= down <= total;
    Percentage(down, total);
  }

  /** The percentage is the share of the window, or of a second, that was not down. */
  lemma ShareOfWindow(down: nat, start: int, end: int)
    ensures var all := Max(1_000_000, end - start);
      RawAvailability(down, start, end) * all as real == 100.0 * (all - down) as real
  {
    var all := Max(1_000_000, end - start);
    var up, whole := (all - down) as real, all as real;
    var q := 100.0 * up / whole;
    assert q * whole == 100.0 * up;
  }

  /** The availability of a history over a report window. */
  function Availability(h: seq<Event>, start: int, end: int, now: int): real {
    RawAvailability(Downtime(Outages(h), start, end, now), start, end)
  }

  /** Availability over adjacent report windows of at least a second: that of the whole is
      the mean of the parts, weighted by their lengths. */
  lemma AvailabilityAdds(h: seq<Event>, a: int, b: int, c: int, now: int)
    requires b - a >= SECOND && c - b >= SECOND
    ensures Availability(h, a, c, now) * (c - a) as real ==
      Availability(h, a, b, now) * (b - a) as real + Availability(h, b, c, now) * (c - b) as real
  {
    hide RawAvailability, Downtime, Outages;
    var ws := Outages(h);
    DowntimeAdds(ws, a, b, c, now);
    ShareOfWindow(Downtime(ws, a, b, now), a, b);
    ShareOfWindow(Downtime(ws, b, c, now), b, c);
    ShareOfWindow(Downtime(ws, a, c, now), a, c);
    WholeIsMean(Downtime(ws, a, b, now), Downtime(ws, b, c, now), b - a, c - b);
  }

  lemma WholeIsMean(down: int, downToo: int, first: int, second: int)
    ensures 100.0 * (first + second - (down + downToo)) as real == 100.0 * (first - down) as real + 100.0 * (second - downToo) as real
  {
    assert (first + second - (down + downToo)) as real == (first - down) as real + (second - downToo) as real;
  }

  lemma Percentage(down: int, total: int)
    requires 0 <= down <= total && total > 0
    ensures 0.0 <= 100.0 * (total - down) as real / total as real <= 100.0
    ensures 100.0 * (total - down) as real / total as real == 0.0 <==> down == total
  {
    var up, all := (total - down) as real, total as real;
    assert 0.0 <= up <= all;
    var q := 100.0 * up / all;
    assert q * all == 100.0 * up;
  }

  // ----- since when -----

  /** The events from `k` on are all of the last event's kind, and no earlier one joins
      them. */
  ghost predicate LastStretch(h: seq<Event>, k: nat) {
    && k < |h|
    && (forall i :: k <= i < |h| ==> h[i].Success? == h[|h| - 1].Success?)
    && (k > 0 ==> h[k - 1].Success? != h[|h| - 1].Success?)
  }

  // ----- warnings -----

  /** The last warning sent, and whether the last event of the history sent one. */
  function LastWarning(h: seq<Event>): Option<int>
    decreases |h|, 1
  {
    if h == [] then None
    else if Warns(h) then Some(h[|h| - 1].at)
    else LastWarning(h[..|h| - 1])
  }

  predicate Warns(h: seq<Event>)
    decreases |h|, 0
  {
    && h != [] && h[|h| - 1].Failure?
    && (StatusAfter(h[..|h| - 1]) != Unhealthy || Due(LastWarning(h[..|h| - 1]), h[|h| - 1].at, h[|h| - 1].cooldown))
  }

  predicate Due(last: Option<int>, now: int, cooldown: int) {
    last.Some? ==> now - last.value >= cooldown
  }

  /** While one outage lasts, the last warning is at least as late as any earlier one. */
  lemma {:induction false} LastWarningIsLater(h: seq<Event>, i: nat, j: nat)
    requires Nondecreasing(h) && i <= j < |h| && Warns(h[..i + 1])
    ensures LastWarning(h[..j + 1]).Some? && LastWarning(h[..j + 1]).value >= h[i].at
  {
    if i < j {
      LastWarningIsLater(h, i, j - 1);
      assert h[..j + 1][..j] == h[..j];
    }
  }

  /** Two warnings inside one outage are at least the later call's cooldown apart. */
  lemma WarningsApart(h: seq<Event>, i: nat, j: nat)
    requires Nondecreasing(h) && i < j < |h| && forall k :: i <= k <= j ==> h[k].Failure?
    requires Warns(h[..i + 1]) && Warns(h[..j + 1])
    ensures h[j].at - h[i].at >= h[j].cooldown
  {
    LastWarningIsLater(h, i, j - 1);
    assert h[..j + 1][..j] == h[..j];
    assert h[..j][|h[..j]| - 1] == h[j - 1];
  }

  /** No outage stays silent: at every failure the current outage, which began with
      event `k`, has had a warning, and the failure itself warns unless the last one is
      less than its cooldown ago. */
  lemma {:induction false} WarnedInTime(h: seq<Event>, k: nat)
    requires Nondecreasing(h) && h != [] && h[|h| - 1].Failure? && LastStretch(h, k)
    ensures LastWarning(h).Some? && h[k].at <= LastWarning(h).value <= h[|h| - 1].at
    ensures Warns(h) || h[|h| - 1].at - LastWarning(h).value < h[|h| - 1].cooldown
    ensures Warns(h[..k + 1])
    decreases |h|
  {
    var n := |h| - 1;
    if k < n {
      assert h[n - 1].Failure?;
      WarnedInTime(h[..n], k);
      assert h[..n][..k + 1] == h[..k + 1];
    } else {
      assert h[..k + 1] == h;
    }
  }

  // ----- the mutable state -----

  class OutageWindow {
    const startedAt: int
    var endedAt: Option<int>

    constructor (at: int)
      ensures startedAt == at && endedAt == None
    {
      startedAt, endedAt := at, None;
    }

    function View(): Window
      reads this
    {
      Window(startedAt, endedAt)
    }
  }

  ghost function Views(ws: seq<OutageWindow>): (r: seq<Window>)
    reads ws
    ensures |r| == |ws| && forall i :: 0 <= i < |r| ==> r[i] == ws[i].View()
  {
    if ws == [] then [] else Views(ws[..|ws| - 1]) + [ws[|ws| - 1].View()]
  }

  /** What one more event does to everything a state keeps about its history. */
  lemma {:induction false} HistoryStep(h: seq<Event>, e: Event, k: nat)
    requires h != [] ==> LastStretch(h, k)
    ensures var g := h + [e];
      && Outages(g) == AfterEvent(Outages(h), e)
      && StatusAfter(g) == (if e.Failure? then Unhealthy else Healthy)
      && LastStretch(g, if h != [] && e.Success? == h[|h| - 1].Success? then k else |h|)
      && LastWarning(g) == (if Warns(g) then Some(e.at) else LastWarning(h))
      && (Warns(g) <==>
            e.Failure? && (StatusAfter(h) != Unhealthy || Due(LastWarning(h), e.at, e.cooldown)))
  {
    var g := h + [e];
    assert g[..|h|] == h;
  }

  /** The fields of a state say what its history says; `k` is where the last stretch
      of equal events starts. */
  ghost predicate Agrees(h: seq<Event>, k: nat, status: Status, healthySince: Option<int>, unhealthySince: Option<int>,
                         lastWarningAt: Option<int>) {
    && status == StatusAfter(h)
    && lastWarningAt == LastWarning(h)
    && (if h == [] then healthySince.None? && unhealthySince.None?
        else
          && LastStretch(h, k)
          && healthySince == (if status == Healthy then Some(h[k].at) else None)
          && unhealthySince == (if status == Unhealthy then Some(h[k].at) else None))
  }

  lemma {:induction false} SuccessAgrees(h: seq<Event>, k: nat, status: Status, healthySince: Option<int>, unhealthySince: Option<int>,
                      lastWarningAt: Option<int>, now: int)
    requires Agrees(h, k, status, healthySince, unhealthySince, lastWarningAt)
    ensures var anew := healthySince.None? || status == Unhealthy;
      Agrees(h + [Success(now)], if anew then |h| else k, Healthy, if anew then Some(now) else healthySince, None,
             lastWarningAt)
  {
    hide Outages, LastWarning, AfterEvent;
    HistoryStep(h, Success(now), k);
  }

  lemma {:induction false} FailureAgrees(h: seq<Event>, k: nat, status: Status, healthySince: Option<int>, unhealthySince: Option<int>,
                      lastWarningAt: Option<int>, cooldown: int, now: int)
    requires Agrees(h, k, status, healthySince, unhealthySince, lastWarningAt)
    ensures var first := status != Unhealthy; var warns := first || Due(lastWarningAt, now, cooldown);
      && (Warns(h + [Failure(now, cooldown)]) <==> warns)
      && Agrees(h + [Failure(now, cooldown)], if first then |h| else k, Unhealthy, None, if first then Some(now) else unhealthySince,
                if warns then Some(now) else lastWarningAt)
  {
    hide Outages, LastWarning, AfterEvent;
    HistoryStep(h, Failure(now, cooldown), k);
  }

  lemma AgreesStatus(h: seq<Event>, k: nat, status: Status, healthySince: Option<int>, unhealthySince: Option<int>,
                     lastWarningAt: Option<int>)
    requires Agrees(h, k, status, healthySince, unhealthySince, lastWarningAt)
    ensures status == StatusAfter(h) && lastWarningAt == LastWarning(h)
  {
  }

  lemma HistoryOutages(h: seq<Event>, e: Event)
    ensures Outages(h + [e]) == AfterEvent(Outages(h), e)
  {
    assert (h + [e])[..|h|] == h;
  }

  /** What a success does to the windows, by the status before it. */
  lemma SuccessOutages(h: seq<Event>, now: int)
    ensures var ws := Outages(h); var r := Outages(h + [Success(now)]);
      if StatusAfter(h) == Unhealthy
      then ws != [] && ws[|ws| - 1].end.None? && r == ws[|ws| - 1 := Window(ws[|ws| - 1].start, Some(now))]
      else r == ws
  {
    hide Outages, StatusAfter;
    HistoryOutages(h, Success(now));
    StatusOfOutages(h);
  }

  /** What a failure does to the windows, by the status before it. */
  lemma FailureOutages(h: seq<Event>, now: int, cooldown: int)
    ensures Outages(h + [Failure(now, cooldown)]) == (if StatusAfter(h) == Unhealthy then Outages(h) else Outages(h) + [Window(now, None)])
  {
    hide Outages, StatusAfter;
    HistoryOutages(h, Failure(now, cooldown));
    StatusOfOutages(h);
  }

  ghost predicate Distinct(ws: seq<OutageWindow>) {
    forall i, j :: 0 <= i < j < |ws| ==> ws[i] != ws[j]
  }

  /** Close the last window in place. */
  method CloseLast(ws: seq<OutageWindow>, now: int)
    requires ws != [] && Distinct(ws)
    modifies ws[|ws| - 1]
    ensures Views(ws) == old(Views(ws))[|ws| - 1 := Window(ws[|ws| - 1].startedAt, Some(now))]
    ensures ws[|ws| - 1].endedAt == Some(now)
  {
    ws[|ws| - 1].endedAt := Some(now);
  }

  /** Append a window that opens now. */
  method OpenAnother(ws: seq<OutageWindow>, now: int) returns (r: seq<OutageWindow>)
    requires Distinct(ws)
    ensures |r| == |ws| + 1 && r[..|ws|] == ws && fresh(r[|ws|]) && Distinct(r)
    ensures ws <= r && forall w :: w in r ==> w in ws || fresh(w)
    ensures Views(r) == old(Views(ws)) + [Window(now, None)]
  {
    var w := new OutageWindow(now);
    r := ws + [w];
    assert r[..|ws|] == ws;
  }

  class LlmHealthState {
    var status: Status
    var healthySince: Option<int>
    var unhealthySince: Option<int>
    var lastSuccessAt: Option<int>
    var lastFailureAt: Option<int>
    var lastWarningAt: Option<int>
    var outages: seq<OutageWindow>
    ghost var history: seq<Event>
    ghost var stretch: nat                 // where the last stretch of equal events starts

    constructor ()
      ensures Valid() && history == [] && outages == []
    {
      status, healthySince, unhealthySince := Unknown, None, None;
      lastSuccessAt, lastFailureAt, lastWarningAt, outages := None, None, None, [];
      history, stretch := [], 0;
    }

    ghost function Windows(): (r: seq<Window>)
      reads this`outages, outages
      ensures |r| == |outages| && forall i :: 0 <= i < |r| ==> r[i] == outages[i].View()
    {
      Views(outages)
    }

    ghost predicate Valid()
      reads this, outages
    {
      && Distinct(outages) && Windows() == Outages(history)
      && Agrees(history, stretch, status, healthySince, unhealthySince, lastWarningAt)
    }

    /** Close the open outage, if there is one, in place. */
    method RecordSuccess(now: int) returns (recovered: Option<OutageWindow>)
      requires Valid()
      modifies this, outages
      ensures Valid() && history == old(history) + [Success(now)] && outages == old(outages)
      ensures lastSuccessAt == Some(now) && lastFailureAt == old(lastFailureAt)
      ensures recovered.Some? <==> old(status) == Unhealthy
      ensures recovered.Some? ==> outages != [] && recovered.value == outages[|outages| - 1] && recovered.value.endedAt == Some(now)
      ensures recovered.None? ==> Windows() == old(Windows())
    {
      hide Outages, Agrees, Views, StatusAfter;
      SuccessOutages(history, now);
      SuccessAgrees(history, stretch, status, healthySince, unhealthySince, lastWarningAt, now);
      AgreesStatus(history, stretch, status, healthySince, unhealthySince, lastWarningAt);
      var open := status == Unhealthy && outages != [];
      status := Healthy;
      lastSuccessAt := Some(now);
      unhealthySince := None;
      if healthySince.None? || open {
        healthySince := Some(now);
        stretch := |history|;
      }
      history := history + [Success(now)];
      recovered := None;
      if open && outages[|outages| - 1].endedAt.None? {
        CloseLast(outages, now);
        recovered := Some(outages[|outages| - 1]);
      }
    }

    /** Open an outage on the first failure; say whether a warning is to be sent. */
    method RecordFailure(now: int, cooldown: int) returns (warn: bool)
      requires Valid()
      modifies this
      ensures Valid() && history == old(history) + [Failure(now, cooldown)]
      ensures lastFailureAt == Some(now) && lastSuccessAt == old(lastSuccessAt)
      ensures warn <==> Warns(history)
      ensures old(outages) <= outages && |outages| == |old(outages)| + (if old(status) == Unhealthy then 0 else 1)
      ensures forall w :: w in outages ==> w in old(outages) || fresh(w)
    {
      hide Outages, Agrees, Warns, Views, LastWarning, StatusAfter, Distinct, Due;
      FailureOutages(history, now, cooldown);
      FailureAgrees(history, stretch, status, healthySince, unhealthySince, lastWarningAt, cooldown, now);
      AgreesStatus(history, stretch, status, healthySince, unhealthySince, lastWarningAt);
      var first := status != Unhealthy;
      status := Unhealthy;
      lastFailureAt := Some(now);
      healthySince := None;
      if first {
        unhealthySince := Some(now);
        stretch := |history|;
        outages := OpenAnother(outages, now);
      }
      history := history + [Failure(now, cooldown)];
      warn := WarnIfDue(first, now, cooldown);
    }

    /** The end of a recorded failure: remember the warning when one is due. */
    method WarnIfDue(first: bool, now: int, cooldown: int) returns (warn: bool)
      modifies this`lastWarningAt
      ensures warn <==> first || Due(old(lastWarningAt), now, cooldown)
      ensures lastWarningAt == if warn then Some(now) else old(lastWarningAt)
    {
      var due := lastWarningAt.None? || now - lastWarningAt.value >= cooldown;
      if first || due {
        lastWarningAt := Some(now);
        return true;
      }
      return false;
    }

    /** The loop of the report over the outages of a state. */
    method OutageSecondsBetween(start: int, end: int, now: int) returns (total: nat)
      ensures total == Downtime(Windows(), start, end, now)
    {
      total := 0;
      for i := 0 to |outages|
        invariant total == Downtime(Windows()[..i], start, end, now)
      {
        var overlap := OverlapOutage(outages[i].View(), start, end, now);
        assert Windows()[..i + 1][..i] == Windows()[..i];
        if overlap.Some? {
          total := total + overlap.value.length;
        }
      }
      assert Windows()[..|outages|] == Windows();
    }
  }

  lemma StateOutages(state: LlmHealthState)
    requires state.Valid()
    ensures state.Windows() == Outages(state.history)
  {
  }

  /** The whole report line of one target: the downtime of a state is the time its
      history was unhealthy inside the window. */
  method ReportDowntime(state: LlmHealthState, start: int, end: int, now: int) returns (total: nat, percent: real)
    requires state.Valid() && Nondecreasing(state.history)
    requires state.history != [] ==> state.history[|state.history| - 1].at <= now
    ensures total == UnhealthyTicks(state.history, start, Min(end, now))
    ensures 0.0 <= percent <= 100.0
    ensures var all := Max(1_000_000, end - start);
      percent * all as real == 100.0 * (all - UnhealthyTicks(state.history, start, Min(end, now))) as real
  {
    hide *;
    StateOutages(state);
    total := state.OutageSecondsBetween(start, end, now);
    DowntimeIsUnhealthyTime(state.history, start, end, now);
    ClampNeverActs(state.history, start, end, now);
    ShareOfWindow(total, start, end);
    var raw := RawAvailability(total, start, end);
    percent := if raw > 0.0 then raw else 0.0;
  }
}
