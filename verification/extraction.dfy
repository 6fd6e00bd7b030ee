/** The extraction pipeline proper: the Emails column of the event table,
    the clean-and-explode step, the two text-file extractors, and the final
    merge into one set of addresses. Files are given as their contents. */
module Extraction {
  import opened Wrappers
  import opened Text
  import opened EmailPattern
  import opened Scanner
  import opened Calendar

  /** An event-table row with its added Emails column. */
  datatype Row = Row(event: Event, emails: string)

  /** Emails = the `", "`-joined matches found in the Attendees text; the
      event itself is untouched, and Emails is empty exactly when the
      Attendees text holds no match. */
  function ExtractEmailAddresses(es: seq<Event>): (rows: seq<Row>)
    ensures |rows| == |es|
    ensures forall k :: 0 <= k < |es| ==> rows[k].event == es[k]
    ensures forall k :: 0 <= k < |es| ==> (rows[k].emails == "" <==> Matches(es[k].attendees) == [])
  {
    forall k | 0 <= k < |es| ensures Join(Matches(es[k].attendees), ", ") == "" <==> Matches(es[k].attendees) == [] {
      JoinEmpty(Matches(es[k].attendees), ", ");
    }
    seq(|es|, k requires 0 <= k < |es| => Row(es[k], Join(Matches(es[k].attendees), ", ")))
  }

  /** One row per comma-separated piece of Emails, each piece stripped; the
      event is copied to every piece, and there is one row per comma plus one. */
  function ExplodeRow(r: Row): (out: seq<Row>)
    ensures |out| == Count(r.emails, ',') + 1
    ensures forall k :: 0 <= k < |out| ==> out[k].event == r.event
  {
    var parts := Split(r.emails, ',');
    seq(|parts|, k requires 0 <= k < |parts| => Row(r.event, Strip(parts[k])))
  }

  /** Every exploded address is free of commas and surrounding whitespace. */
  lemma ExplodeFacts(r: Row)
    ensures forall k :: 0 <= k < |ExplodeRow(r)| ==> ',' !in ExplodeRow(r)[k].emails && EdgeClean(ExplodeRow(r)[k].emails)
  {
    var parts := Split(r.emails, ',');
    var out := ExplodeRow(r);
    forall k | 0 <= k < |out| ensures ',' !in out[k].emails && EdgeClean(out[k].emails) {
      assert out[k] == Row(r.event, Strip(parts[k]));
      StripSubset(parts[k]);
    }
  }

  /** `clean_and_explode_emails`: rows with an empty Emails column are
      dropped, the others exploded. */
  function CleanAndExplode(rows: seq<Row>): (out: seq<Row>)
    ensures forall k :: 0 <= k < |out| ==> ',' !in out[k].emails && EdgeClean(out[k].emails)
    ensures (forall k :: 0 <= k < |rows| ==> rows[k].emails == "") ==> out == []
    decreases |rows|
  {
    if |rows| == 0 then []
    else
      ExplodeFacts(rows[0]);
      CleanRow(rows[0]) + CleanAndExplode(rows[1..])
  }

  /** What one row contributes: nothing when its Emails column is empty,
      otherwise its exploded rows. */
  function CleanRow(r: Row): (out: seq<Row>)
    ensures out == [] <==> r.emails == ""
    ensures forall k :: 0 <= k < |out| ==> out[k].event == r.event
  {
    if r.emails == "" then [] else ExplodeRow(r)
  }

  /** Cleaning a non-empty table: the first row's contribution, then the rest. */
  lemma CleanUnfold(rows: seq<Row>)
    requires |rows| > 0
    ensures CleanAndExplode(rows) == CleanRow(rows[0]) + CleanAndExplode(rows[1..])
  {
  }

  /** Every cleaned row comes from an input row with a non-empty Emails
      column and carries its event unchanged; its address holds no comma
      and no surrounding whitespace. */
  lemma {:induction false} CleanFacts(rows: seq<Row>)
    ensures forall r :: r in CleanAndExplode(rows) ==>
              && (exists src :: src in rows && src.emails != "" && r.event == src.event)
              && ',' !in r.emails && EdgeClean(r.emails)
    decreases |rows|
  {
    if |rows| > 0 {
      CleanFacts(rows[1..]);
      var head, rest := CleanRow(rows[0]), CleanAndExplode(rows[1..]);
      CleanUnfold(rows);
      forall r: Row | r in head + rest
        ensures (exists src :: src in rows && src.emails != "" && r.event == src.event)
        ensures ',' !in r.emails && EdgeClean(r.emails)
      {
        if r in head {
          var k :| 0 <= k < |head| && head[k] == r;
          ExplodeFacts(rows[0]);
          assert rows[0] in rows;
        } else {
          var src :| src in rows[1..] && src.emails != "" && r.event == src.event;
          assert src in rows;
        }
      }
    }
  }

  /** Cleaning keeps row order: it distributes over concatenation. */
  lemma {:induction false} CleanAppend(a: seq<Row>, b: seq<Row>)
    ensures CleanAndExplode(a + b) == CleanAndExplode(a) + CleanAndExplode(b)
    decreases |a|
  {
    if |a| > 0 {
      var head := CleanRow(a[0]);
      assert (a + b)[0] == a[0];
      assert (a + b)[1..] == a[1..] + b;
      CleanUnfold(a + b);
      CleanUnfold(a);
      CleanAppend(a[1..], b);
      assert head + (CleanAndExplode(a[1..]) + CleanAndExplode(b)) == (head + CleanAndExplode(a[1..])) + CleanAndExplode(b);
    } else {
      assert a + b == b;
    }
  }

  /** A single row vanishes exactly when its Emails column is empty, and
      otherwise yields at least one row, all carrying its event. */
  lemma CleanSingle(r: Row)
    ensures CleanAndExplode([r]) == [] <==> r.emails == ""
    ensures forall x :: x in CleanAndExplode([r]) ==> x.event == r.event
  {
    assert [r][1..] == [];
  }

  /** The pieces `Join(ms, ", ")` splits into at `,`: the first address, then
      each further address behind the space of the separator. */
  function Padded(ms: seq<string>): (ps: seq<string>)
    ensures |ps| == |ms|
    ensures |ms| > 0 ==> ps[0] == ms[0]
    ensures forall k :: 0 < k < |ms| ==> ps[k] == " " + ms[k]
  {
    seq(|ms|, k requires 0 <= k < |ms| => if k == 0 then ms[0] else " " + ms[k])
  }

  lemma {:induction false} JoinPadded(ms: seq<string>)
    requires |ms| > 0
    ensures Join(ms, ", ") == Join(Padded(ms), ",")
    decreases |ms|
  {
    if |ms| > 1 {
      JoinPadded(ms[1..]);
      JoinPaddedStep(ms);
    }
  }

  lemma JoinPaddedStep(ms: seq<string>)
    requires |ms| > 1
    requires Join(ms[1..], ", ") == Join(Padded(ms[1..]), ",")
    ensures Join(ms, ", ") == Join(Padded(ms), ",")
  {
    var ps := Padded(ms);
    var qs := Padded(ms[1..]);
    PaddedTail(ms);
    JoinPrefixFirst(qs, " ", ",");
    CommaSpace(ms[0], Join(qs, ","));
  }

  /** Past the first piece, the padded pieces are those of the tail with
      the tail's first piece padded too. */
  lemma PaddedTail(ms: seq<string>)
    requires |ms| > 1
    ensures Padded(ms)[1..] == [" " + Padded(ms[1..])[0]] + Padded(ms[1..])[1..]
  {
    var ps := Padded(ms);
    var qs := Padded(ms[1..]);
    var rs := [" " + qs[0]] + qs[1..];
    forall j | 0 <= j < |rs| ensures rs[j] == ps[1..][j] {
      assert ps[1..][j] == ps[j + 1];
      if j > 0 {
        assert rs[j] == qs[j];
        assert ms[1..][j] == ms[j + 1];
      }
    }
  }

  /** The separator `", "` is a comma followed by a space. */
  lemma CommaSpace(a: string, x: string)
    ensures a + ", " + x == a + "," + (" " + x)
  {
  }

  /** Explode round trip: a row whose Emails is the `", "`-join of addresses
      free of commas and whitespace explodes into one row per address, in
      order, each carrying the row's event. */
  lemma ExplodeRoundTrip(r: Row, ms: seq<string>)
    requires |ms| > 0
    requires forall k :: 0 <= k < |ms| ==> Unseparated(ms[k])
    requires r.emails == Join(ms, ", ")
    ensures ExplodeRow(r) == RowsFor(r.event, ms)
  {
    var out, want := ExplodeRow(r), RowsFor(r.event, ms);
    PaddedSplit(r, ms);
    ExplodeLength(r);
    forall k | 0 <= k < |ms| ensures out[k] == want[k] {
      ExplodeAt(r, k);
      StripPaddedAt(ms, k);
    }
    RowsEqual(out, want);
  }

  /** A `", "`-joined list splits at `,` into its padded pieces. */
  lemma PaddedSplit(r: Row, ms: seq<string>)
    requires |ms| > 0
    requires forall k :: 0 <= k < |ms| ==> Unseparated(ms[k])
    requires r.emails == Join(ms, ", ")
    ensures Split(r.emails, ',') == Padded(ms)
  {
    JoinPadded(ms);
    PaddedHasNoComma(ms);
    SplitJoin(Padded(ms), ',');
  }

  lemma RowsEqual(a: seq<Row>, b: seq<Row>)
    requires |a| == |b|
    requires forall k :: 0 <= k < |a| ==> a[k] == b[k]
    ensures a == b
  {
  }

  lemma ExplodeLength(r: Row)
    ensures |ExplodeRow(r)| == |Split(r.emails, ',')|
  {
  }

  /** The `k`-th exploded row: the row's event with the `k`-th piece stripped. */
  lemma ExplodeAt(r: Row, k: nat)
    requires k < |Split(r.emails, ',')|
    ensures ExplodeRow(r)[k] == Row(r.event, Strip(Split(r.emails, ',')[k]))
  {
  }

  lemma PaddedHasNoComma(ms: seq<string>)
    requires forall k :: 0 <= k < |ms| ==> Unseparated(ms[k])
    ensures forall k :: 0 <= k < |ms| ==> ',' !in Padded(ms)[k]
  {
    forall k | 0 <= k < |ms| ensures ',' !in Padded(ms)[k] {
      assert forall m :: 0 <= m < |ms[k]| ==> ms[k][m] != ',';
    }
  }

  lemma StripPaddedAt(ms: seq<string>, k: nat)
    requires k < |ms| && Unseparated(ms[k])
    ensures Strip(Padded(ms)[k]) == ms[k]
  {
    StripAfterSpace(ms[k]);
    if k == 0 {
      assert Padded(ms)[k] == ms[k];
    } else {
      assert Padded(ms)[k] == " " + ms[k];
    }
  }

  lemma StripAfterSpace(w: string)
    requires Unseparated(w)
    ensures Strip(w) == w && Strip(" " + w) == w
  {
    StripUnseparated(w);
    StripSurrounded(" ", w, "");
    assert " " + w + "" == " " + w;
  }

  /** One row per address, each carrying the event `e`. */
  function RowsFor(e: Event, ms: seq<string>): (rows: seq<Row>)
    ensures |rows| == |ms|
  {
    seq(|ms|, k requires 0 <= k < |ms| => Row(e, ms[k]))
  }

  /** One row per match in each event's Attendees text, events in order. */
  function MatchRows(es: seq<Event>): seq<Row>
    decreases |es|
  {
    if |es| == 0 then [] else RowsFor(es[0], Matches(es[0].attendees)) + MatchRows(es[1..])
  }

  /** Extract-then-clean on a table gives exactly one row per match: events
      without a match disappear, the others are repeated once per address,
      in order, and nothing but the Emails column differs from the event. */
  lemma {:induction false} CalendarRows(es: seq<Event>)
    ensures CleanAndExplode(ExtractEmailAddresses(es)) == MatchRows(es)
    decreases |es|
  {
    if |es| > 0 {
      var rows := ExtractEmailAddresses(es);
      ExtractTail(es);
      CalendarRows(es[1..]);
      assert MatchRows(es) == RowsFor(es[0], Matches(es[0].attendees)) + MatchRows(es[1..]);
      CleanUnfold(rows);
      HeadRows(es[0], rows[0]);
    }
  }

  lemma ExtractTail(es: seq<Event>)
    requires |es| > 0
    ensures ExtractEmailAddresses(es)[1..] == ExtractEmailAddresses(es[1..])
    ensures ExtractEmailAddresses(es)[0] == Row(es[0], Join(Matches(es[0].attendees), ", "))
  {
  }

  /** The rows one event contributes: one per match, in order. */
  lemma HeadRows(e: Event, row: Row)
    requires row == Row(e, Join(Matches(e.attendees), ", "))
    ensures CleanRow(row) == RowsFor(e, Matches(e.attendees))
  {
    var ms := Matches(e.attendees);
    assert forall k :: 0 <= k < |ms| ==> Unseparated(ms[k]) && ms[k] != "";
    JoinedRows(e, ms, row);
  }

  /** A row whose Emails is the `", "`-join of non-empty addresses free of
      commas and whitespace is dropped when there are none and otherwise
      explodes back into them. */
  lemma JoinedRows(e: Event, ms: seq<string>, row: Row)
    requires forall k :: 0 <= k < |ms| ==> Unseparated(ms[k]) && ms[k] != ""
    requires row == Row(e, Join(ms, ", "))
    ensures CleanRow(row) == RowsFor(e, ms)
  {
    JoinEmpty(ms, ", ");
    if |ms| > 0 {
      ExplodeRoundTrip(row, ms);
    }
  }

  /** The Emails column of each row. */
  function Addresses(rows: seq<Row>): (ws: seq<string>)
    ensures |ws| == |rows|
  {
    seq(|rows|, k requires 0 <= k < |rows| => rows[k].emails)
  }

  /** The Attendees text of each event. */
  function AttendeeTexts(es: seq<Event>): seq<string>
  {
    seq(|es|, k requires 0 <= k < |es| => es[k].attendees)
  }

  /** `extract_emails_from_text`: the matches of every text, texts in order
      and matches in scan order, duplicates kept. */
  function ExtractFromText(texts: seq<string>): (ws: seq<string>)
    ensures forall k, w :: 0 <= k < |texts| && w in Matches(texts[k]) ==> w in ws
    decreases |texts|
  {
    if |texts| == 0 then []
    else
      var rest := ExtractFromText(texts[1..]);
      assert forall k :: 0 < k < |texts| ==> texts[k] == texts[1..][k - 1];
      Matches(texts[0]) + rest
  }

  /** Every address the free-text extractor returns occurs as a match of
      the pattern in one of the texts, has the pattern's shape, and holds no
      comma or whitespace. */
  lemma {:induction false} ExtractFromTextFacts(texts: seq<string>)
    ensures forall w :: w in ExtractFromText(texts) ==>
              && HasEmailShape(w) && Unseparated(w) && |w| >= 6
              && exists k :: 0 <= k < |texts| && OccursIn(w, texts[k])
    decreases |texts|
  {
    if |texts| > 0 {
      ExtractFromTextFacts(texts[1..]);
      forall w | w in ExtractFromText(texts[1..])
        ensures exists k :: 0 <= k < |texts| && OccursIn(w, texts[k])
      {
        var k :| 0 <= k < |texts| - 1 && OccursIn(w, texts[1..][k]);
        assert texts[k + 1] == texts[1..][k];
      }
    }
  }

  /** Matches of several texts are the matches of each, concatenated. */
  lemma {:induction false} ExtractFromTextAppend(a: seq<string>, b: seq<string>)
    ensures ExtractFromText(a + b) == ExtractFromText(a) + ExtractFromText(b)
    ensures |ExtractFromText(a + b)| == |ExtractFromText(a)| + |ExtractFromText(b)|
    decreases |a|
  {
    if |a| > 0 {
      assert (a + b)[1..] == a[1..] + b;
      ExtractFromTextAppend(a[1..], b);
    } else {
      assert a + b == b;
    }
  }

  /** A single text contributes exactly its own matches. */
  lemma ExtractFromOneText(t: string)
    ensures ExtractFromText([t]) == Matches(t)
  {
    assert [t][1..] == [];
  }

  /** The calendar's addresses are exactly what the free-text extractor
      finds in the events' Attendees texts. */
  lemma {:induction false} CalendarAddresses(es: seq<Event>)
    ensures Addresses(CleanAndExplode(ExtractEmailAddresses(es))) == ExtractFromText(AttendeeTexts(es))
    decreases |es|
  {
    CalendarRows(es);
    MatchRowAddresses(es);
  }

  lemma {:induction false} MatchRowAddresses(es: seq<Event>)
    ensures Addresses(MatchRows(es)) == ExtractFromText(AttendeeTexts(es))
    decreases |es|
  {
    if |es| > 0 {
      MatchRowAddresses(es[1..]);
      var ms := Matches(es[0].attendees);
      var head := RowsFor(es[0], ms);
      assert AttendeeTexts(es)[1..] == AttendeeTexts(es[1..]);
      assert AttendeeTexts(es)[0] == es[0].attendees;
      assert MatchRows(es) == head + MatchRows(es[1..]);
      AddressesAppend(head, MatchRows(es[1..]));
      assert Addresses(head) == ms;
    }
  }

  lemma AddressesAppend(a: seq<Row>, b: seq<Row>)
    ensures Addresses(a + b) == Addresses(a) + Addresses(b)
  {
  }

  /** `re.match` at the start of a stripped line: accepted exactly when a
      match of the pattern starts at its first character. */
  predicate LineAccepted(w: string)
    ensures LineAccepted(w) <==> exists j :: IsMatch(w, 0, j)
  {
    MatchAt(w, 0).Some?
  }

  /** Every line stripped of surrounding whitespace: each result is the
      line's text between its leading and trailing whitespace. */
  function StripAll(lines: seq<string>): (stripped: seq<string>)
    ensures |stripped| == |lines|
    ensures forall k :: 0 <= k < |lines| ==> stripped[k] == Strip(lines[k])
    ensures forall k :: 0 <= k < |lines| ==> EdgeClean(stripped[k]) && exists a :: StrippedAt(lines[k], a, stripped[k])
  {
    forall k | 0 <= k < |lines| ensures exists a :: StrippedAt(lines[k], a, Strip(lines[k])) {
      StripIsInfix(lines[k]);
    }
    seq(|lines|, k requires 0 <= k < |lines| => Strip(lines[k]))
  }

  /** The (stripped) lines at whose start the pattern matches, in line order;
      the whole line is kept, whatever follows the match. */
  function AcceptLines(lines: seq<string>): (ws: seq<string>)
    ensures |ws| <= |lines|
    ensures forall k :: 0 <= k < |ws| ==> LineAccepted(ws[k]) && ws[k] in lines
    decreases |lines|
  {
    if |lines| == 0 then []
    else if LineAccepted(lines[0]) then [lines[0]] + AcceptLines(lines[1..])
    else AcceptLines(lines[1..])
  }

  /** The accepted lines are exactly the lines the pattern matches at the
      start of, and there are no more of them than lines. */
  lemma {:induction false} AcceptLinesFacts(lines: seq<string>)
    ensures |AcceptLines(lines)| <= |lines|
    ensures forall w :: w in AcceptLines(lines) <==> w in lines && LineAccepted(w)
    decreases |lines|
  {
    if |lines| > 0 {
      AcceptLinesFacts(lines[1..]);
      assert forall l :: l in lines <==> l == lines[0] || l in lines[1..];
    }
  }

  /** Line filtering keeps line order: it distributes over concatenation. */
  lemma {:induction false} AcceptLinesAppend(a: seq<string>, b: seq<string>)
    ensures AcceptLines(a + b) == AcceptLines(a) + AcceptLines(b)
    decreases |a|
  {
    if |a| > 0 {
      assert (a + b)[1..] == a[1..] + b;
      AcceptLinesAppend(a[1..], b);
    } else {
      assert a + b == b;
    }
  }

  /** `extract_emails_from_newline_separated_text`: each line is stripped,
      and kept whole when the pattern matches at its start. */
  function ExtractFromNewlineText(text: string): (ws: seq<string>)
    ensures |ws| <= |Lines(text)|
    ensures forall k :: 0 <= k < |ws| ==> LineAccepted(ws[k]) && EdgeClean(ws[k])
  {
    AcceptLines(StripAll(Lines(text)))
  }

  /** Every kept line is one the pattern matches at the start of, stripped
      and free of line breaks, and every line whose stripped form the pattern
      matches at the start of is kept. */
  lemma ExtractFromNewlineTextFacts(text: string)
    ensures forall w :: w in ExtractFromNewlineText(text) ==> LineAccepted(w) && EdgeClean(w) && '\n' !in w
    ensures forall k :: 0 <= k < |Lines(text)| && LineAccepted(Strip(Lines(text)[k])) ==>
              Strip(Lines(text)[k]) in ExtractFromNewlineText(text)
  {
    var lines := Lines(text);
    var stripped := StripAll(lines);
    var ws := AcceptLines(stripped);
    AcceptLinesFacts(stripped);
    forall w | w in ws ensures EdgeClean(w) && '\n' !in w {
      var k :| 0 <= k < |stripped| && w == stripped[k];
      StripSubset(lines[k]);
    }
    assert forall k :: 0 <= k < |lines| ==> stripped[k] in stripped;
  }

  /** Because of the leading `\b`, an accepted line starts with a word
      character: one starting with `.`, `%`, `+` or `-` is never accepted,
      although those characters may start a local part. */
  lemma AcceptedStartsWithWordChar(w: string)
    requires LineAccepted(w)
    ensures |w| > 0 && IsWordChar(w[0])
  {
    var m := Search(w, 0).value;
    assert BoundaryAt(w, 0);
  }

  /** Text after a match does not stop the line from being accepted, as long
      as it does not continue the last word. */
  lemma TrailingTextKept(w: string, g: string)
    requires LineAccepted(w)
    requires |g| == 0 || !IsWordChar(g[0])
    ensures LineAccepted(w + g)
  {
    var m := Search(w, 0).value;
    var s := w + g;
    assert forall k :: 0 <= k < |w| ==> s[k] == w[k];
    assert IsMatchSplit(s, 0, m.at, m.dot, m.end);
  }

  /** The final merge: the set of all addresses from the three sources. */
  function Merge(fromNewline: seq<string>, fromCalendar: seq<string>, fromText: seq<string>): (r: set<string>)
    ensures forall w :: w in r <==> w in fromNewline || w in fromCalendar || w in fromText
  {
    set w | w in fromNewline + fromCalendar + fromText
  }

  /** Merging is insensitive to duplicates and to the order of the lists. */
  lemma MergeDeduplicates(a: seq<string>, b: seq<string>, c: seq<string>)
    ensures Merge(a + a, b + b, c + c) == Merge(a, b, c)
    ensures Merge(a, b, c) == Merge(c, a, b)
  {
  }

  /** The calendar's addresses: load, extract, clean and explode. */
  function CalendarEmails(es: seq<Event>): (ws: seq<string>)
    ensures ws == ExtractFromText(AttendeeTexts(es))
  {
    CalendarAddresses(es);
    Addresses(CleanAndExplode(ExtractEmailAddresses(es)))
  }

  /** The addresses of the newline-separated file, when one is given. */
  function NewlineEmails(newlineText: Option<string>): (ws: seq<string>)
    ensures forall k :: 0 <= k < |ws| ==> LineAccepted(ws[k]) && EdgeClean(ws[k])
    ensures newlineText.None? ==> ws == []
    ensures newlineText.Some? ==> ws == ExtractFromNewlineText(newlineText.value)
  {
    if newlineText.Some? then ExtractFromNewlineText(newlineText.value) else []
  }

  /** The whole run with the corrected calendar load: the calendar's
      addresses, those of the name/email texts and those of the
      newline-separated text, merged. Only a malformed calendar component
      makes it fail. The calendar contributes exactly what the free-text
      extractor finds in the loaded events' Attendees texts. */
  function CollectEmails(
    cs: seq<Component>, lo: Option<int>, hi: Option<int>,
    nameEmailTexts: seq<string>, newlineText: Option<string>): (r: Result<set<string>, LoadError>)
    ensures r.Success? <==> forall k :: 0 <= k < |cs| ==> WellFormed(cs[k])
    ensures r.Success? ==> forall w :: w in r.value ==> |w| > 0 && '@' in w && EdgeClean(w)
    ensures r.Success? ==> forall w :: w in r.value <==>
              || w in ExtractFromText(AttendeeTexts(LoadEvents(cs, lo, hi).value))
              || w in ExtractFromText(nameEmailTexts)
              || (newlineText.Some? && w in ExtractFromNewlineText(newlineText.value))
  {
    match LoadEvents(cs, lo, hi)
    case Failure(e) => Failure(e)
    case Success(es) =>
      ExtractFromTextFacts(nameEmailTexts);
      CollectedFacts(es, ExtractFromText(nameEmailTexts), NewlineEmails(newlineText));
      Success(Merge(NewlineEmails(newlineText), CalendarEmails(es), ExtractFromText(nameEmailTexts)))
  }

  /** The whole run as the calendar loader is written: a calendar without
      events stops the run with the missing Start column before anything is
      written; any other calendar gives what the corrected run gives. */
  function CollectEmailsAsWritten(
    cs: seq<Component>, lo: Option<int>, hi: Option<int>,
    nameEmailTexts: seq<string>, newlineText: Option<string>): (r: Result<set<string>, LoadError>)
    ensures r.Success? <==> |cs| > 0 && forall k :: 0 <= k < |cs| ==> WellFormed(cs[k])
    ensures |cs| == 0 ==> r == Failure(NoStartColumn)
    ensures |cs| > 0 ==> r == CollectEmails(cs, lo, hi, nameEmailTexts, newlineText)
  {
    match LoadEventsAsWritten(cs, lo, hi)
    case Failure(e) => Failure(e)
    case Success(es) => Success(Merge(NewlineEmails(newlineText), CalendarEmails(es), ExtractFromText(nameEmailTexts)))
  }

  lemma CollectedFacts(es: seq<Event>, fromText: seq<string>, fromNewline: seq<string>)
    requires forall w :: w in fromText ==> HasEmailShape(w) && Unseparated(w) && |w| >= 6
    requires forall k :: 0 <= k < |fromNewline| ==> LineAccepted(fromNewline[k]) && EdgeClean(fromNewline[k])
    ensures forall w :: w in CalendarEmails(es) || w in fromText || w in fromNewline ==>
              |w| > 0 && '@' in w && EdgeClean(w)
  {
    ExtractFromTextFacts(AttendeeTexts(es));
    forall w | w in CalendarEmails(es) || w in fromText || w in fromNewline
      ensures |w| > 0 && '@' in w && EdgeClean(w)
    {
      if w in fromNewline {
        var m := Search(w, 0).value;
        assert w[m.at] == '@';
      } else {
        var at, dot :| IsShapeSplit(w, at, dot);
        assert w[at] == '@';
        StripUnseparated(w);
      }
    }
  }
}
