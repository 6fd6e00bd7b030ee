/** The calendar side of the extractor: turning parsed VEVENT components
    into event records (attendee normalisation, required start time) and
    the optional half-open date-range filter. Timestamps are UTC seconds. */
module Calendar {
  import opened Wrappers
  import opened Text

  /** An ATTENDEE value: a structured calendar address whose parameters may
      carry a common name (`CN`), or plain text. */
  datatype Attendee =
    | Address(uri: string, params: map<string, string>)
    | Plain(text: string)

  /** A VEVENT as the calendar parser delivers it. `start` is absent when the
      component has no DTSTART. */
  datatype Component = Component(
    summary: Option<string>,
    start: Option<int>,
    end: Option<int>,
    location: Option<string>,
    description: Option<string>,
    attendees: seq<Attendee>)

  /** One row of the event table; `attendees` is the `", "`-joined list of
      attendee display strings. */
  datatype Event = Event(
    summary: Option<string>,
    start: int,
    end: Option<int>,
    location: Option<string>,
    description: Option<string>,
    attendees: string)

  datatype LoadError =
    | MissingCommonName(uri: string)  // an address without a CN parameter
    | MissingStart                    // a component without DTSTART
    | NoStartColumn                   // a table built from no events has no Start column

  predicate HasDisplayName(a: Attendee) {
    a.Plain? || "CN" in a.params
  }

  /** An address shows as its common name, plain text as itself. */
  function DisplayName(a: Attendee): (r: Result<string, LoadError>)
    ensures r.Success? <==> HasDisplayName(a)
    ensures r.Success? ==> r.value == if a.Plain? then a.text else a.params["CN"]
    ensures r.Failure? ==> r.error == MissingCommonName(a.uri)
  {
    match a
    case Address(uri, params) =>
      if "CN" in params then Success(params["CN"]) else Failure(MissingCommonName(uri))
    case Plain(text) => Success(text)
  }

  /** The display strings of all attendees, in order; the first address
      without a common name aborts with its error. */
  function DisplayNames(attendees: seq<Attendee>): (r: Result<seq<string>, LoadError>)
    ensures r.Success? <==> forall k :: 0 <= k < |attendees| ==> HasDisplayName(attendees[k])
    ensures r.Success? ==>
              && |r.value| == |attendees|
              && forall k :: 0 <= k < |attendees| ==> DisplayName(attendees[k]) == Success(r.value[k])
    ensures r.Success? ==> forall k :: 0 <= k < |attendees| ==>
              r.value[k] == if attendees[k].Plain? then attendees[k].text else attendees[k].params["CN"]
    ensures r.Failure? ==> exists k :: 0 <= k < |attendees| && DisplayName(attendees[k]) == Failure(r.error)
                              && forall m :: 0 <= m < k ==> HasDisplayName(attendees[m])
    decreases |attendees|
  {
    if |attendees| == 0 then Success([])
    else match DisplayName(attendees[0])
      case Failure(e) => Failure(e)
      case Success(name) =>
        var rest := DisplayNames(attendees[1..]);
        if rest.Failure? then
          ghost var k :| 0 <= k < |attendees| - 1 && DisplayName(attendees[1..][k]) == Failure(rest.error)
                          && forall m :: 0 <= m < k ==> HasDisplayName(attendees[1..][m]);
          assert DisplayName(attendees[k + 1]) == Failure(rest.error);
          Failure(rest.error)
        else Success([name] + rest.value)
  }

  /** Two results put together as a loop over both inputs would: the first
      failure, or else both values in order. */
  function Chain<T>(x: Result<seq<T>, LoadError>, y: Result<seq<T>, LoadError>): Result<seq<T>, LoadError> {
    if x.Failure? then x else if y.Failure? then y else Success(x.value + y.value)
  }

  /** Normalising two attendee lists one after the other is normalising
      their concatenation: the names come out in order, and an error in the
      first list wins over one in the second. */
  lemma {:induction false} DisplayNamesAppend(a: seq<Attendee>, b: seq<Attendee>)
    ensures DisplayNames(a + b) == Chain(DisplayNames(a), DisplayNames(b))
    decreases |a|
  {
    if |a| == 0 {
      assert a + b == b;
      if DisplayNames(b).Success? {
        assert [] + DisplayNames(b).value == DisplayNames(b).value;
      }
    } else {
      assert (a + b)[0] == a[0];
      assert (a + b)[1..] == a[1..] + b;
      DisplayNamesAppend(a[1..], b);
      var x, y := DisplayNames(a[1..]), DisplayNames(b);
      if DisplayName(a[0]).Success? && x.Success? && y.Success? {
        assert [DisplayName(a[0]).value] + (x.value + y.value) == ([DisplayName(a[0]).value] + x.value) + y.value;
      }
    }
  }

  /** A component becomes an event when every attendee has a display name
      and it has a start time. */
  predicate WellFormed(c: Component) {
    && (forall k :: 0 <= k < |c.attendees| ==> HasDisplayName(c.attendees[k]))
    && c.start.Some?
  }

  /** One event per component: attendee display strings joined with `", "`,
      the other fields carried over. Attendee errors are raised before a
      missing start time is noticed. */
  function BuildEvent(c: Component): (r: Result<Event, LoadError>)
    ensures r.Success? <==> WellFormed(c)
    ensures r.Success? ==>
              && r.value.start == c.start.value
              && r.value.summary == c.summary && r.value.end == c.end
              && r.value.location == c.location && r.value.description == c.description
              && r.value.attendees == Join(DisplayNames(c.attendees).value, ", ")
    ensures DisplayNames(c.attendees).Failure? ==> r == Failure(DisplayNames(c.attendees).error)
    ensures r.Failure? && DisplayNames(c.attendees).Success? ==> r.error == MissingStart
  {
    match DisplayNames(c.attendees)
    case Failure(e) => Failure(e)
    case Success(names) =>
      if c.start.None? then Failure(MissingStart)
      else Success(Event(c.summary, c.start.value, c.end, c.location, c.description, Join(names, ", ")))
  }

  /** All components converted in order; the first failure aborts the load. */
  function BuildEvents(cs: seq<Component>): (r: Result<seq<Event>, LoadError>)
    ensures r.Success? <==> forall k :: 0 <= k < |cs| ==> WellFormed(cs[k])
    ensures r.Success? ==>
              && |r.value| == |cs|
              && forall k :: 0 <= k < |cs| ==> BuildEvent(cs[k]) == Success(r.value[k])
    ensures r.Failure? ==> exists k :: 0 <= k < |cs| && BuildEvent(cs[k]) == Failure(r.error)
                              && forall m :: 0 <= m < k ==> WellFormed(cs[m])
    decreases |cs|
  {
    if |cs| == 0 then Success([])
    else match BuildEvent(cs[0])
      case Failure(e) => Failure(e)
      case Success(ev) =>
        match BuildEvents(cs[1..])
        case Failure(e) =>
          FirstFailureShift(cs, e);
          Failure(e)
        case Success(rest) => Success([ev] + rest)
  }

  /** A first failure in `cs[1..]` behind a well-formed `cs[0]` is a first
      failure in `cs`. */
  lemma FirstFailureShift(cs: seq<Component>, e: LoadError)
    requires |cs| > 0 && WellFormed(cs[0])
    requires exists k :: 0 <= k < |cs| - 1 && BuildEvent(cs[1..][k]) == Failure(e)
                         && forall m :: 0 <= m < k ==> WellFormed(cs[1..][m])
    ensures exists k :: 0 <= k < |cs| && BuildEvent(cs[k]) == Failure(e)
                        && forall m :: 0 <= m < k ==> WellFormed(cs[m])
  {
    var k :| 0 <= k < |cs| - 1 && BuildEvent(cs[1..][k]) == Failure(e)
             && forall m :: 0 <= m < k ==> WellFormed(cs[1..][m]);
    assert BuildEvent(cs[k + 1]) == Failure(e);
  }

  /** Half-open range on the start time: `lo <= start < hi`. */
  predicate InRange(e: Event, lo: int, hi: int) {
    lo <= e.start < hi
  }

  /** The events of `es` whose start lies in `[lo, hi)`, in their order. */
  function KeepInRange(es: seq<Event>, lo: int, hi: int): (r: seq<Event>)
    ensures |r| <= |es|
    ensures forall k :: 0 <= k < |r| ==> InRange(r[k], lo, hi)
    decreases |es|
  {
    if |es| == 0 then []
    else (if InRange(es[0], lo, hi) then [es[0]] else []) + KeepInRange(es[1..], lo, hi)
  }

  /** Each event occurs in the filtered list as often as in `es` if it is in
      range, and never otherwise. */
  lemma {:induction false} KeepInRangeCounts(es: seq<Event>, lo: int, hi: int)
    ensures forall e :: multiset(KeepInRange(es, lo, hi))[e] == (if InRange(e, lo, hi) then multiset(es)[e] else 0)
    ensures |KeepInRange(es, lo, hi)| <= |es|
    decreases |es|
  {
    if |es| > 0 {
      KeepInRangeCounts(es[1..], lo, hi);
      assert es == [es[0]] + es[1..];
    }
  }

  /** Filtering keeps relative order: it distributes over concatenation. */
  lemma {:induction false} KeepInRangeAppend(a: seq<Event>, b: seq<Event>, lo: int, hi: int)
    ensures KeepInRange(a + b, lo, hi) == KeepInRange(a, lo, hi) + KeepInRange(b, lo, hi)
    decreases |a|
  {
    if |a| > 0 {
      assert (a + b)[1..] == a[1..] + b;
      KeepInRangeAppend(a[1..], b, lo, hi);
    } else {
      assert a + b == b;
    }
  }

  /** The date filter applies only when both bounds are given. */
  function FilterByDate(es: seq<Event>, lo: Option<int>, hi: Option<int>): (r: seq<Event>)
    ensures lo.None? || hi.None? ==> r == es
    ensures lo.Some? && hi.Some? ==>
              && (forall e :: e in r ==> InRange(e, lo.value, hi.value) && e in es)
              && (forall e :: e in es && InRange(e, lo.value, hi.value) ==> e in r)
  {
    if lo.Some? && hi.Some? then
      var r := KeepInRange(es, lo.value, hi.value);
      KeepInRangeCounts(es, lo.value, hi.value);
      assert forall e :: e in r <==> multiset(r)[e] > 0;
      assert forall e :: e in es <==> multiset(es)[e] > 0;
      r
    else es
  }

  /** Loading a calendar as intended: build every event, then filter by date.
      It succeeds exactly when every component is well formed, an empty
      calendar giving no events. */
  function LoadEvents(cs: seq<Component>, lo: Option<int>, hi: Option<int>): (r: Result<seq<Event>, LoadError>)
    ensures r.Success? <==> forall k :: 0 <= k < |cs| ==> WellFormed(cs[k])
    ensures r.Success? ==> |r.value| <= |cs|
    ensures r.Success? && lo.Some? && hi.Some? ==> forall k :: 0 <= k < |r.value| ==> InRange(r.value[k], lo.value, hi.value)
    ensures r.Success? && (lo.None? || hi.None?) ==> r.value == BuildEvents(cs).value
    ensures r.Success? && lo.Some? && hi.Some? ==>
              forall e :: e in r.value <==> e in BuildEvents(cs).value && InRange(e, lo.value, hi.value)
    ensures r.Failure? ==> exists k :: 0 <= k < |cs| && BuildEvent(cs[k]) == Failure(r.error)
                              && forall m :: 0 <= m < k ==> WellFormed(cs[m])
  {
    match BuildEvents(cs)
    case Failure(e) => Failure(e)
    case Success(es) => Success(FilterByDate(es, lo, hi))
  }

  /** Converting two calendars one after the other is converting their
      concatenation: the events come out in order, and the first failing
      component decides the error. */
  lemma {:induction false} BuildEventsAppend(a: seq<Component>, b: seq<Component>)
    ensures BuildEvents(a + b) == Chain(BuildEvents(a), BuildEvents(b))
    decreases |a|
  {
    if |a| == 0 {
      assert a + b == b;
      if BuildEvents(b).Success? {
        assert [] + BuildEvents(b).value == BuildEvents(b).value;
      }
    } else {
      assert (a + b)[0] == a[0];
      assert (a + b)[1..] == a[1..] + b;
      BuildEventsAppend(a[1..], b);
      var x, y := BuildEvents(a[1..]), BuildEvents(b);
      if BuildEvent(a[0]).Success? && x.Success? && y.Success? {
        assert [BuildEvent(a[0]).value] + (x.value + y.value) == ([BuildEvent(a[0]).value] + x.value) + y.value;
      }
    }
  }

  /** Loading two calendars one after the other and concatenating the
      results is loading their concatenation: the date filter works event by
      event and keeps the order. */
  lemma LoadEventsAppend(a: seq<Component>, b: seq<Component>, lo: Option<int>, hi: Option<int>)
    ensures LoadEvents(a + b, lo, hi).Success? <==> LoadEvents(a, lo, hi).Success? && LoadEvents(b, lo, hi).Success?
    ensures LoadEvents(a, lo, hi).Success? && LoadEvents(b, lo, hi).Success? ==>
              LoadEvents(a + b, lo, hi).value == LoadEvents(a, lo, hi).value + LoadEvents(b, lo, hi).value
  {
    BuildEventsAppend(a, b);
    if BuildEvents(a).Success? && BuildEvents(b).Success? && lo.Some? && hi.Some? {
      KeepInRangeAppend(BuildEvents(a).value, BuildEvents(b).value, lo.value, hi.value);
    }
  }

  /** Loading a calendar as the table-building code is written: a table made
      from no events has no Start column, so converting that column fails. */
  function LoadEventsAsWritten(cs: seq<Component>, lo: Option<int>, hi: Option<int>): (r: Result<seq<Event>, LoadError>)
    ensures |cs| == 0 ==> r == Failure(NoStartColumn)
    ensures |cs| > 0 ==> r == LoadEvents(cs, lo, hi)
  {
    match BuildEvents(cs)
    case Failure(e) => Failure(e)
    case Success(es) =>
      if |es| == 0 then Failure(NoStartColumn) else Success(FilterByDate(es, lo, hi))
  }

  /** The as-written load rejects a calendar with no events, although every
      one of its (zero) components is well formed; the intended load accepts
      it and returns no events. */
  lemma EmptyCalendarDiscrepancy(lo: Option<int>, hi: Option<int>)
    ensures LoadEventsAsWritten([], lo, hi) == Failure(NoStartColumn)
    ensures LoadEvents([], lo, hi) == Success([])
  {
    assert BuildEvents([]) == Success([]);
  }
}
