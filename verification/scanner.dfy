/** `re.findall`: scanning left to right, a match found at a position is
    taken and the scan resumes at its end; a position with no match is
    skipped. The scan is written for any matcher in the style of `re.match`
    at a position, and used with the email pattern's `MatchAt`. */
module Scanner {
  import opened Wrappers
  import opened Text
  import opened EmailPattern

  /** The end of the match that starts at a position of a text, if any. */
  type Matcher = (string, nat) -> Option<nat>

  /** Every match the matcher reports in `s` is non-empty and ends inside `s`. */
  ghost predicate WellBehaved(m: Matcher, s: string) {
    forall i: nat :: i <= |s| && m(s, i).Some? ==> i < m(s, i).value <= |s|
  }

  /** The spans (start, end) of the matches found scanning from `pos`: each
      is the match reported at its start, and they are ordered and do not
      overlap. */
  function FindFrom(m: Matcher, s: string, pos: nat): (spans: seq<(nat, nat)>)
    requires pos <= |s| && WellBehaved(m, s)
    ensures forall k :: 0 <= k < |spans| ==>
              pos <= spans[k].0 < spans[k].1 <= |s| && m(s, spans[k].0) == Some(spans[k].1)
    ensures forall k :: 0 < k < |spans| ==> spans[k - 1].1 <= spans[k].0
    decreases |s| - pos
  {
    if pos == |s| then []
    else match m(s, pos)
      case Some(j) => [(pos, j)] + FindFrom(m, s, j)
      case None => FindFrom(m, s, pos + 1)
  }

  /** No match starts anywhere in `[lo, hi)`. */
  ghost predicate NoMatchIn(m: Matcher, s: string, lo: nat, hi: nat) {
    forall p: nat :: lo <= p < hi ==> m(s, p).None?
  }

  /** `span` is the match reported at its start, and no match starts
      between `lo` and that start. */
  ghost predicate SpanOk(m: Matcher, s: string, lo: nat, span: (nat, nat)) {
    && lo <= span.0 < span.1 <= |s|
    && m(s, span.0) == Some(span.1)
    && NoMatchIn(m, s, lo, span.0)
  }

  /** An independent description of a left-to-right, non-overlapping scan
      from `pos`: each span is the first match at or after the previous
      span's end, and no match starts after the last one. */
  ghost predicate IsScan(m: Matcher, s: string, pos: nat, spans: seq<(nat, nat)>)
    decreases |spans|
  {
    && pos <= |s|
    && if |spans| == 0 then NoMatchIn(m, s, pos, |s|)
       else SpanOk(m, s, pos, spans[0]) && IsScan(m, s, spans[0].1, spans[1..])
  }

  /** The scan is leftmost: nothing `FindFrom` skips holds a match. */
  lemma {:induction false} FindFromIsScan(m: Matcher, s: string, pos: nat)
    requires pos <= |s| && WellBehaved(m, s)
    ensures IsScan(m, s, pos, FindFrom(m, s, pos))
    decreases |s| - pos
  {
    if pos < |s| {
      match m(s, pos)
      case Some(j) =>
        FindFromIsScan(m, s, j);
        assert FindFrom(m, s, pos)[1..] == FindFrom(m, s, j);
      case None =>
        FindFromIsScan(m, s, pos + 1);
        NoMatchExtends(m, s, pos, FindFrom(m, s, pos + 1));
    }
  }

  /** A scan from `pos + 1` is a scan from `pos` when nothing matches at `pos`. */
  lemma NoMatchExtends(m: Matcher, s: string, pos: nat, spans: seq<(nat, nat)>)
    requires pos < |s| && m(s, pos).None?
    requires IsScan(m, s, pos + 1, spans)
    ensures IsScan(m, s, pos, spans)
  {
  }

  /** Positions without a match do not change what the scan finds. */
  lemma {:induction false} SkipUnmatched(m: Matcher, s: string, pos: nat, p: nat)
    requires pos <= p <= |s| && WellBehaved(m, s)
    requires NoMatchIn(m, s, pos, p)
    ensures FindFrom(m, s, pos) == FindFrom(m, s, p)
    decreases p - pos
  {
    if pos < p {
      assert m(s, pos).None?;
      SkipUnmatched(m, s, pos + 1, p);
    }
  }

  /** The scan is the only one: any sequence of spans meeting `IsScan` is
      what `FindFrom` returns. */
  lemma {:induction false} ScanUnique(m: Matcher, s: string, pos: nat, spans: seq<(nat, nat)>)
    requires WellBehaved(m, s)
    requires IsScan(m, s, pos, spans)
    ensures spans == FindFrom(m, s, pos)
    decreases |spans|
  {
    if |spans| == 0 {
      SkipUnmatched(m, s, pos, |s|);
    } else {
      var (p, j) := spans[0];
      SkipUnmatched(m, s, pos, p);
      ScanUnique(m, s, j, spans[1..]);
      assert spans == [(p, j)] + spans[1..];
    }
  }

  /** `re.findall` with the email pattern, as spans. */
  function FindAll(s: string): (spans: seq<(nat, nat)>)
    ensures forall k :: 0 <= k < |spans| ==>
              spans[k].0 < spans[k].1 <= |s| && MatchAt(s, spans[k].0) == Some(spans[k].1)
  {
    MatchAtWellBehaved(s);
    FindFrom(MatchAt, s, 0)
  }

  lemma MatchAtWellBehaved(s: string)
    ensures WellBehaved(MatchAt, s)
  {
    forall i: nat | i <= |s| && MatchAt(s, i).Some? ensures i < MatchAt(s, i).value <= |s| {
      var r := Search(s, i).value;
      assert IsMatchSplit(s, i, r.at, r.dot, r.end);
    }
  }

  /** Text without an `@` has no match: a scan that finds anything has an
      `@` in the text. */
  lemma NoAtNoMatch(s: string)
    ensures FindAll(s) != [] ==> '@' in s
  {
    var spans := FindAll(s);
    if |spans| > 0 {
      var r := Search(s, spans[0].0).value;
      assert s[r.at] == '@';
    }
  }

  /** `w` is the text of some match of the pattern in `s`. */
  ghost predicate OccursIn(w: string, s: string) {
    exists i, j :: 0 <= i <= j <= |s| && IsMatch(s, i, j) && w == s[i..j]
  }

  /** What the text of a match is: an occurrence of the pattern in `s`,
      with the pattern's shape, no comma or whitespace, and at least six
      characters. */
  ghost predicate IsFoundAddress(w: string, s: string) {
    OccursIn(w, s) && HasEmailShape(w) && Unseparated(w) && |w| >= 6
  }

  /** The strings `re.findall` returns: the text of each span, in scan
      order, every one a found address of `s`. */
  function Matches(s: string): (ws: seq<string>)
    ensures |ws| == |FindAll(s)|
    ensures forall k :: 0 <= k < |ws| ==> ws[k] == s[FindAll(s)[k].0..FindAll(s)[k].1]
    ensures forall k :: 0 <= k < |ws| ==> IsFoundAddress(ws[k], s)
  {
    var spans := FindAll(s);
    forall k | 0 <= k < |spans| ensures IsFoundAddress(s[spans[k].0..spans[k].1], s) {
      SpanFacts(s, spans[k].0, spans[k].1);
    }
    seq(|spans|, k requires 0 <= k < |spans| => s[spans[k].0..spans[k].1])
  }

  lemma SpanFacts(s: string, i: nat, j: nat)
    requires i <= j <= |s| && MatchAt(s, i) == Some(j)
    ensures IsFoundAddress(s[i..j], s)
  {
    var m := Search(s, i).value;
    assert IsMatch(s, i, j) by {
      assert IsMatchSplit(s, i, m.at, m.dot, j);
    }
    MatchHasShape(s, i, m.at, m.dot, j);
    ShapeFacts(s[i..j], m.at - i, m.dot - i);
  }
}
