/** The basic event pass: the loop that turns the calendar's raw events into
    the `flagged` rows, dropping events past the look-ahead window and,
    when the toggle is on, events nobody attends. */
module EventFilter {
  import opened Wrappers
  import opened Seqs
  import opened PyStr

  const SecondsPerDay: int := 86400

  /** What one start string (`dateTime` or `date`) resolves to once the
      date-time parse and its date-only fallback have run: an instant in
      seconds, or neither parse accepted it. */
  datatype Stamp = Instant(seconds: int) | Unparseable

  /** The `start` object of a raw event; either key may be absent. */
  datatype EventStart = EventStart(dateTime: Option<Stamp>, date: Option<Stamp>)

  /** A raw event as the calendar returns it; `attendees` holds the `email` of each attendee. */
  datatype RawEvent = RawEvent(
    start: EventStart,
    summary: Option<string>,
    description: Option<string>,
    attendees: Option<seq<string>>)

  /** One entry of `flagged`. `start` is the resolved instant that the
      display string is formatted from. */
  datatype Row = Row(event: string, start: int, attendees: seq<string>, description: string)

  datatype StartProblem = NoStartValue | UnparseableStart

  /** The pass stops at the first event whose start cannot be resolved. */
  datatype FlagError = FlagError(index: nat, problem: StartProblem)

  /** `e["start"].get("dateTime", e["start"].get("date"))`, then parsed. */
  function StartOf(e: RawEvent): (r: Result<int, StartProblem>)
    ensures e.start.dateTime.Some? ==> (r.Success? <==> e.start.dateTime.value.Instant?)
    ensures e.start.dateTime.Some? && r.Success? ==> e.start.dateTime.value.seconds == r.value
    ensures e.start.dateTime.None? && e.start.date.Some? && e.start.date.value.Instant? ==>
              r == Success(e.start.date.value.seconds)
    ensures e.start.dateTime.None? && e.start.date.Some? ==> (r.Success? <==> e.start.date.value.Instant?)
    ensures e.start.dateTime.None? && e.start.date.None? ==> r == Failure(NoStartValue)
    ensures r.Failure? ==>
              r.error == (if e.start.dateTime.None? && e.start.date.None? then NoStartValue else UnparseableStart)
  {
    var raw := if e.start.dateTime.Some? then e.start.dateTime else e.start.date;
    match raw
    case None => Failure(NoStartValue)
    case Some(Unparseable) => Failure(UnparseableStart)
    case Some(Instant(t)) => Success(t)
  }

  /** `(start_dt - now).days`: whole days, rounded towards minus infinity. */
  function DayOffset(start: int, now: int): int
  {
    (start - now) / SecondsPerDay
  }

  predicate InWindow(start: int, now: int, days: int)
  {
    DayOffset(start, now) <= days
  }

  function AttendeesOf(e: RawEvent): seq<string>
  {
    match e.attendees
    case None => []
    case Some(a) => a
  }

  /** The row appended for a kept event whose start resolved to `t`. */
  function ToRow(e: RawEvent, t: int): (r: Row)
    ensures r.start == t && r.attendees == AttendeesOf(e)
    ensures e.summary.None? ==> r.event == ""
    ensures e.description.None? ==> r.description == ""
    ensures e.description.Some? ==> r.description == e.description.value
    ensures e.summary.Some? ==> r.event == Title(Lower(e.summary.value))
    ensures e.summary.Some? ==> Lower(r.event) == Lower(e.summary.value)
  {
    var summary := match e.summary case None => "" case Some(s) => s;
    LowerOfTitle(Lower(summary));
    LowerIsLower(summary);
    Row(Title(Lower(summary)), t, AttendeesOf(e), match e.description case None => "" case Some(d) => d)
  }

  /** The two `continue` tests, for an event whose start is `t`. */
  predicate Keeps(e: RawEvent, t: int, now: int, days: int, excludeNoAttendees: bool)
  {
    InWindow(t, now, days) && !(excludeNoAttendees && AttendeesOf(e) == [])
  }

  /** What the loop has produced after the given events, defined one event
      at a time from the back, as the loop appends. */
  function Flagged(events: seq<RawEvent>, now: int, days: int, excludeNoAttendees: bool): Result<seq<Row>, FlagError>
    decreases |events|
  {
    if events == [] then Success([])
    else
      var n := |events| - 1;
      match Flagged(events[..n], now, days, excludeNoAttendees)
      case Failure(err) => Failure(err)
      case Success(rows) =>
        match StartOf(events[n])
        case Failure(problem) => Failure(FlagError(n, problem))
        case Success(t) =>
          Success(rows + if Keeps(events[n], t, now, days, excludeNoAttendees) then [ToRow(events[n], t)] else [])
  }

  /** Once a prefix has failed, the whole pass fails the same way. */
  lemma {:induction false} FailureStops(events: seq<RawEvent>, j: nat, now: int, days: int, excl: bool)
    requires j <= |events|
    requires Flagged(events[..j], now, days, excl).Failure?
    ensures Flagged(events, now, days, excl) == Flagged(events[..j], now, days, excl)
    decreases |events| - j
  {
    if j < |events| {
      var n := |events| - 1;
      assert events[..n][..j] == events[..j];
      FailureStops(events[..n], j, now, days, excl);
    } else {
      assert events[..j] == events;
    }
  }

  /** One more event whose start resolves to `t` extends a successful prefix. */
  lemma FlaggedStep(events: seq<RawEvent>, i: nat, t: int, now: int, days: int, excl: bool)
    requires i < |events| && Flagged(events[..i], now, days, excl).Success?
    requires StartOf(events[i]) == Success(t)
    ensures var rows := Flagged(events[..i], now, days, excl).value;
      Flagged(events[..i + 1], now, days, excl) ==
        if Keeps(events[i], t, now, days, excl) then Success(rows + [ToRow(events[i], t)]) else Success(rows)
  {
    assert events[..i + 1][..i] == events[..i];
    var rows := Flagged(events[..i], now, days, excl).value;
    assert rows + [] == rows;
  }

  /** The loop of streamlit_app.py:151-179. */
  method BuildFlagged(events: seq<RawEvent>, now: int, days: int, excludeNoAttendees: bool)
      returns (r: Result<seq<Row>, FlagError>)
    ensures r == Flagged(events, now, days, excludeNoAttendees)
  {
    var flagged: seq<Row> := [];
    for i := 0 to |events|
      invariant Flagged(events[..i], now, days, excludeNoAttendees) == Success(flagged)
    {
      var e := events[i];
      assert events[..i + 1][..i] == events[..i];
      var raw := if e.start.dateTime.Some? then e.start.dateTime else e.start.date;
      if raw.None? {
        r := Failure(FlagError(i, NoStartValue));
        FailureStops(events, i + 1, now, days, excludeNoAttendees);
        return;
      }
      if raw.value.Unparseable? {
        r := Failure(FlagError(i, UnparseableStart));
        FailureStops(events, i + 1, now, days, excludeNoAttendees);
        return;
      }
      var startAt := raw.value.seconds;
      FlaggedStep(events, i, startAt, now, days, excludeNoAttendees);

      if (startAt - now) / SecondsPerDay > days {
        continue;
      }

      var attendees := AttendeesOf(e);
      if excludeNoAttendees && attendees == [] {
        continue;
      }

      var summaryLower := Lower(match e.summary case None => "" case Some(s) => s);
      var row := Row(Title(summaryLower), startAt, attendees,
                     match e.description case None => "" case Some(d) => d);
      assert row == ToRow(e, startAt);
      flagged := flagged + [row];
    }
    assert events[..|events|] == events;
    r := Success(flagged);
  }

  /** An event that the loop keeps: its start resolves and passes both tests. */
  predicate Passes(e: RawEvent, now: int, days: int, excludeNoAttendees: bool)
  {
    StartOf(e).Success? && Keeps(e, StartOf(e).value, now, days, excludeNoAttendees)
  }

  function PassesFn(now: int, days: int, excludeNoAttendees: bool): RawEvent -> bool
  {
    e => Passes(e, now, days, excludeNoAttendees)
  }

  /** The events that make it into `flagged`, in input order. */
  function Kept(events: seq<RawEvent>, now: int, days: int, excludeNoAttendees: bool): seq<RawEvent>
  {
    Filter(PassesFn(now, days, excludeNoAttendees), events)
  }

  predicate AllResolve(events: seq<RawEvent>)
  {
    forall k :: 0 <= k < |events| ==> StartOf(events[k]).Success?
  }

  function RowsOf(events: seq<RawEvent>): (r: seq<Row>)
    requires AllResolve(events)
    ensures |r| == |events|
    decreases |events|
  {
    if events == [] then [] else [ToRow(events[0], StartOf(events[0]).value)] + RowsOf(events[1..])
  }

  lemma {:induction false} RowsOfAppend(a: seq<RawEvent>, b: seq<RawEvent>)
    requires AllResolve(a) && AllResolve(b)
    ensures AllResolve(a + b) && RowsOf(a + b) == RowsOf(a) + RowsOf(b)
    decreases |a|
  {
    assert AllResolve(a + b) by {
      forall k | 0 <= k < |a + b| ensures StartOf((a + b)[k]).Success? {
        if k < |a| { assert (a + b)[k] == a[k]; } else { assert (a + b)[k] == b[k - |a|]; }
      }
    }
    if a != [] {
      assert (a + b)[1..] == a[1..] + b;
      RowsOfAppend(a[1..], b);
    } else {
      assert a + b == b;
    }
  }

  /** The pass succeeds exactly when every event's start resolves. */
  lemma {:induction false} FlaggedSucceeds(events: seq<RawEvent>, now: int, days: int, excl: bool)
    ensures Flagged(events, now, days, excl).Success? <==> AllResolve(events)
    decreases |events|
  {
    if events != [] {
      var n := |events| - 1;
      FlaggedSucceeds(events[..n], now, days, excl);
      assert forall k :: 0 <= k < n ==> events[..n][k] == events[k];
    }
  }

  /** When the pass fails, it names the first event whose start does not resolve, and why. */
  lemma {:induction false} FlaggedFailsAtFirst(events: seq<RawEvent>, now: int, days: int, excl: bool)
    requires Flagged(events, now, days, excl).Failure?
    ensures var err := Flagged(events, now, days, excl).error;
      && err.index < |events|
      && StartOf(events[err.index]) == Failure(err.problem)
      && forall j :: 0 <= j < err.index ==> StartOf(events[j]).Success?
    decreases |events|
  {
    var n := |events| - 1;
    assert forall k :: 0 <= k < n ==> events[..n][k] == events[k];
    if Flagged(events[..n], now, days, excl).Failure? {
      FlaggedFailsAtFirst(events[..n], now, days, excl);
    } else {
      FlaggedSucceeds(events[..n], now, days, excl);
    }
  }

  /** Appending one event appends its kept part. */
  lemma KeptSnoc(front: seq<RawEvent>, last: RawEvent, now: int, days: int, excl: bool)
    ensures Kept(front + [last], now, days, excl)
         == Kept(front, now, days, excl) + Filter(PassesFn(now, days, excl), [last])
  {
    FilterAppend(PassesFn(now, days, excl), front, [last]);
  }

  /** A single event whose start resolves contributes its row exactly when it is kept. */
  lemma KeptSingle(e: RawEvent, now: int, days: int, excl: bool)
    requires StartOf(e).Success?
    ensures var tail := Filter(PassesFn(now, days, excl), [e]);
      AllResolve(tail)
      && RowsOf(tail) == if Keeps(e, StartOf(e).value, now, days, excl) then [ToRow(e, StartOf(e).value)] else []
  {
    var tail := Filter(PassesFn(now, days, excl), [e]);
    assert tail == if Passes(e, now, days, excl) then [e] else [];
  }

  /** On success, `flagged` is the row of each kept event, in input order. */
  lemma {:induction false} FlaggedIsKeptRows(events: seq<RawEvent>, now: int, days: int, excl: bool)
    requires Flagged(events, now, days, excl).Success?
    ensures AllResolve(Kept(events, now, days, excl))
    ensures Flagged(events, now, days, excl).value == RowsOf(Kept(events, now, days, excl))
    decreases |events|
  {
    if events != [] {
      var n := |events| - 1;
      var last, front := events[n], events[..n];
      assert events == front + [last];
      FlaggedIsKeptRows(front, now, days, excl);
      var keptFront := Kept(front, now, days, excl);
      var tail := Filter(PassesFn(now, days, excl), [last]);
      KeptSnoc(front, last, now, days, excl);
      KeptSingle(last, now, days, excl);
      RowsOfAppend(keptFront, tail);
    }
  }

  lemma KeptIsSubsequence(events: seq<RawEvent>, now: int, days: int, excl: bool)
    ensures IsSubsequence(Kept(events, now, days, excl), events)
  {
    FilterIsSubsequence(PassesFn(now, days, excl), events);
  }

  /** An event is kept exactly when it is an input event, its start resolves
      and it passes both tests; with the toggle off, attendance plays no part. */
  lemma KeptMembership(events: seq<RawEvent>, now: int, days: int, excl: bool, e: RawEvent)
    ensures e in Kept(events, now, days, excl) <==>
      e in events && StartOf(e).Success? && InWindow(StartOf(e).value, now, days)
      && (excl ==> AttendeesOf(e) != [])
  {
    FilterMembership(PassesFn(now, days, excl), events, e);
  }

  /** Every row of a successful pass is inside the window and, with the toggle
      on, has at least one attendee. */
  lemma {:induction false} FlaggedRowsPass(events: seq<RawEvent>, now: int, days: int, excl: bool)
    requires Flagged(events, now, days, excl).Success?
    ensures var rows := Flagged(events, now, days, excl).value;
      forall k :: 0 <= k < |rows| ==>
        DayOffset(rows[k].start, now) <= days && (excl ==> rows[k].attendees != [])
    decreases |events|
  {
    if events != [] {
      FlaggedRowsPass(events[..|events| - 1], now, days, excl);
    }
  }

  /** The window in seconds: kept up to, but not including, `days + 1` whole days ahead. */
  lemma InWindowIff(start: int, now: int, days: int)
    ensures InWindow(start, now, days) <==> start - now < (days + 1) * SecondsPerDay
  {
    var d := start - now;
    assert d == SecondsPerDay * (d / SecondsPerDay) + d % SecondsPerDay;
  }

  /** Only an upper bound is checked: an event that has already started is never
      dropped by the window, however long ago. */
  lemma PastEventsInWindow(start: int, now: int, days: int)
    requires start <= now && days >= 0
    ensures InWindow(start, now, days)
  {
    InWindowIff(start, now, days);
  }

  /** Day granularity at the edges of the window. */
  lemma WindowBoundary(now: int, days: int)
    ensures !InWindow(now + (days + 1) * SecondsPerDay, now, days)
    ensures InWindow(now + days * SecondsPerDay + (SecondsPerDay - 1), now, days)
    ensures InWindow(now + (days - 1) * SecondsPerDay, now, days)
  {
    InWindowIff(now + (days + 1) * SecondsPerDay, now, days);
    InWindowIff(now + days * SecondsPerDay + (SecondsPerDay - 1), now, days);
    InWindowIff(now + (days - 1) * SecondsPerDay, now, days);
  }
}
