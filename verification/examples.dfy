/** Worked instances of the extractor's behaviour on small inputs. */
module Examples {
  import opened Wrappers
  import opened Text
  import opened EmailPattern
  import opened Calendar
  import opened Scanner
  import opened Extraction

  /** A line holding an address followed by more words is kept whole. */
  lemma AddressLineWithTrailingWords()
    ensures LineAccepted("a@b.com" + " extra")
  {
    assert IsMatchSplit("a@b.com", 0, 1, 3, 7);
    TrailingTextKept("a@b.com", " extra");
  }

  /** `re.match` rejects a line starting with a local-part character that
      is not a word character, even though the rest is a valid address. It
      rejects a leading space too, but the extractor strips each line
      before matching, so a padded line is kept (`PaddedLineKept`). */
  lemma NonWordStartRejected()
    ensures !LineAccepted(".a@b.com")
    ensures !LineAccepted("+a@b.com")
    ensures !LineAccepted(" a@b.com")
  {
    if LineAccepted(".a@b.com") {
      AcceptedStartsWithWordChar(".a@b.com");
    }
    if LineAccepted("+a@b.com") {
      AcceptedStartsWithWordChar("+a@b.com");
    }
    if LineAccepted(" a@b.com") {
      AcceptedStartsWithWordChar(" a@b.com");
    }
  }

  /** The extractor strips a line before matching it, so leading spaces do
      not stop an address line from being kept. */
  lemma PaddedLineKept(p: string, w: string)
    requires AllSpace(p) && LineAccepted(w) && EdgeClean(w)
    ensures LineAccepted(Strip(p + w))
  {
    assert Strip(p + w) == w by {
      StripSurrounded(p, w, "");
      assert p + w + "" == p + w;
    }
  }

  /** A word character right after the top-level domain leaves no `\b`
      there, and the address line is dropped. */
  lemma WordCharAfterRejected()
    ensures !LineAccepted("a@b.com_x")
  {
    var s := "a@b.com_x";
    assert forall j :: !IsMatch(s, 0, j) by {
      forall at, dot, j ensures !IsMatchSplit(s, 0, at, dot, j) {
        assert !Member(LocalPart, s[1]);
        assert !Member(TopLevel, s[7]);
        assert !BoundaryAt(s, 6) && !BoundaryAt(s, 7);
      }
    }
  }

  /** In running text a match may begin right after a word: in
      `a@b.com.x@y.org` the text `.x@y.org` is a match of its own. */
  lemma MatchStartingWithDot()
    ensures IsMatch("a@b.com.x@y.org", 0, 7)
    ensures IsMatch("a@b.com.x@y.org", 7, 15)
  {
    var s := "a@b.com.x@y.org";
    assert IsMatchSplit(s, 0, 1, 3, 7);
    assert IsMatchSplit(s, 7, 9, 11, 15);
  }

  /** `re.findall` reports both addresses of `a@b.com.x@y.org`: the scan
      resumes at the end of the first match, where `.x@y.org` matches. */
  lemma FoundStartingWithDot()
    ensures FindAll("a@b.com.x@y.org") == [(0, 7), (7, 15)]
  {
    var s := "a@b.com.x@y.org";
    FirstSpan(s);
    SecondSpan(s);
    MatchAtWellBehaved(s);
    var spans: seq<(nat, nat)> := [(0, 7), (7, 15)];
    assert IsScan(MatchAt, s, 15, spans[2..]);
    assert IsScan(MatchAt, s, 7, spans[1..]);
    ScanUnique(MatchAt, s, 0, spans);
  }

  lemma FirstSpan(s: string)
    requires s == "a@b.com.x@y.org"
    ensures MatchAt(s, 0) == Some(7)
  {
    assert IsMatchSplit(s, 0, 1, 3, 7);
    var m := Search(s, 0).value;
    assert m.at == 1;
    assert !Member(DomainPart, s[9]);
    assert m.dot < 9;
    assert !Member(TopLevel, s[9]);
    assert m.dot == 3;
    assert !Member(TopLevel, s[7]);
  }

  lemma SecondSpan(s: string)
    requires s == "a@b.com.x@y.org"
    ensures MatchAt(s, 7) == Some(15)
  {
    assert IsMatchSplit(s, 7, 9, 11, 15);
    var m := Search(s, 7).value;
    assert m.at == 9;
    assert m.dot == 11;
  }

  function EventAt(start: int): Event {
    Event(None, start, None, None, None, "")
  }

  /** The window from 2023-08-01 to 2024-01-01 (UTC seconds) keeps an event
      starting exactly at the lower bound and drops one starting exactly at
      the upper bound. */
  lemma DateWindow()
    ensures FilterByDate(
              [EventAt(1690761600), EventAt(1690848000), EventAt(1703980800), EventAt(1704067200)],
              Some(1690848000), Some(1704067200))
            == [EventAt(1690848000), EventAt(1703980800)]
  {
    var es := [EventAt(1690761600), EventAt(1690848000), EventAt(1703980800), EventAt(1704067200)];
    assert KeepInRange(es[3..], 1690848000, 1704067200) == [];
  }

  /** A line without `@` is never accepted. */
  lemma NoAtRejected(w: string)
    requires '@' !in w
    ensures !LineAccepted(w)
  {
  }

  /** No line break of either kind. */
  predicate OneLine(w: string) {
    '\n' !in w && '\r' !in w
  }

  /** A newline-separated list whose first and third lines are addresses,
      the third padded with whitespace, and whose second line holds no `@`:
      the padding is stripped, the second line skipped, and the empty piece
      after the final line break adds nothing. */
  lemma NewlineList(a: string, n: string, c: string, p: string, q: string)
    requires LineAccepted(a) && EdgeClean(a) && OneLine(a)
    requires '@' !in n && EdgeClean(n) && OneLine(n)
    requires LineAccepted(c) && EdgeClean(c) && OneLine(c)
    requires AllSpace(p) && AllSpace(q) && OneLine(p) && OneLine(q)
    ensures ExtractFromNewlineText(a + "\n" + n + "\n" + (p + c + q) + "\n") == [a, c]
  {
    var lines := [a, n, p + c + q, ""];
    ListLines(a, n, p + c + q);
    var st := StripAll(lines);
    ListStripped(a, n, c, p, q, lines, st);
    ListAccepted(a, n, c, st);
  }

  lemma ListLines(a: string, n: string, m: string)
    requires OneLine(a) && OneLine(n) && OneLine(m)
    ensures Lines(a + "\n" + n + "\n" + m + "\n") == [a, n, m, ""]
  {
    var text := a + "\n" + n + "\n" + m + "\n";
    var parts := [a, n, m, ""];
    assert Join(parts, "\n") == text by {
      assert Join(parts[3..], "\n") == "";
      assert Join(parts[2..], "\n") == m + "\n";
      assert Join(parts[1..], "\n") == n + "\n" + (m + "\n");
    }
    assert '\r' !in text;
    UniversalNewlinesIdentity(text);
    SplitJoin(parts, '\n');
  }

  lemma ListStripped(a: string, n: string, c: string, p: string, q: string, lines: seq<string>, st: seq<string>)
    requires EdgeClean(a) && EdgeClean(n) && EdgeClean(c) && AllSpace(p) && AllSpace(q)
    requires |lines| == 4 && lines[0] == a && lines[1] == n && lines[2] == p + c + q && lines[3] == ""
    requires |st| == |lines| && forall k :: 0 <= k < |lines| ==> st[k] == Strip(lines[k])
    ensures |st| == 4 && st[0] == a && st[1] == n && st[2] == c && st[3] == ""
  {
    assert st[0] == Strip(a);
    StripClean(a);
    assert st[1] == Strip(n);
    StripClean(n);
    assert st[2] == Strip(p + c + q);
    StripSurrounded(p, c, q);
    assert st[3] == Strip("");
    StripClean("");
  }

  lemma ListAccepted(a: string, n: string, c: string, st: seq<string>)
    requires LineAccepted(a) && '@' !in n && LineAccepted(c)
    requires |st| == 4 && st[0] == a && st[1] == n && st[2] == c && st[3] == ""
    ensures AcceptLines(st) == [a, c]
  {
    NoAtRejected(n);
    NoAtRejected("");
    assert AcceptLines(st[3..]) == [];
    assert AcceptLines(st[2..]) == [c];
    assert AcceptLines(st[1..]) == [c];
  }
}
