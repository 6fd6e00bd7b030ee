/** The string primitives the extractor leans on, restricted to ASCII:
    Python's `str.strip()`, `str.split(sep)`, `sep.join(parts)` and the
    universal-newline translation of a file opened in text mode. */
module Text {

  /** Python's `str.isspace()` on one ASCII character: space, tab, line feed,
      vertical tab, form feed, carriage return and the separators 0x1C-0x1F. */
  predicate IsSpace(c: char) {
    c == ' ' || ('\t' <= c <= '\r') || ('\U{1C}' <= c <= '\U{1F}')
  }

  /** No leading and no trailing whitespace. */
  predicate EdgeClean(s: string) {
    |s| == 0 || (!IsSpace(s[0]) && !IsSpace(s[|s| - 1]))
  }

  /** Holds neither a comma nor whitespace, so it survives a split on `,`
      and a strip unchanged. */
  predicate Unseparated(s: string) {
    forall k :: 0 <= k < |s| ==> s[k] != ',' && !IsSpace(s[k])
  }

  predicate AllSpace(s: string) {
    forall k :: 0 <= k < |s| ==> IsSpace(s[k])
  }

  /** Python's `str.lstrip()`: the suffix left after dropping leading whitespace. */
  function TrimLeft(s: string): (r: string)
    ensures |r| <= |s| && r == s[|s| - |r|..]
    ensures AllSpace(s[..|s| - |r|])
    ensures |r| == 0 || !IsSpace(r[0])
    decreases |s|
  {
    if |s| > 0 && IsSpace(s[0]) then
      var r := TrimLeft(s[1..]);
      assert s[..|s| - |r|] == [s[0]] + s[1..][..|s| - 1 - |r|];
      r
    else s
  }

  /** Python's `str.rstrip()`: the prefix left after dropping trailing whitespace. */
  function TrimRight(s: string): (r: string)
    ensures |r| <= |s| && r == s[..|r|]
    ensures AllSpace(s[|r|..])
    ensures |r| == 0 || !IsSpace(r[|r| - 1])
    decreases |s|
  {
    if |s| > 0 && IsSpace(s[|s| - 1]) then
      var r := TrimRight(s[..|s| - 1]);
      assert s[|r|..] == s[..|s| - 1][|r|..] + [s[|s| - 1]];
      r
    else s
  }

  /** `r` sits at offset `a` of `s` with only whitespace around it. */
  predicate StrippedAt(s: string, a: int, r: string) {
    && 0 <= a && a + |r| <= |s|
    && r == s[a..a + |r|]
    && AllSpace(s[..a])
    && AllSpace(s[a + |r|..])
  }

  /** Python's `str.strip()`: drops leading and trailing whitespace. */
  function Strip(s: string): (r: string)
    ensures EdgeClean(r)
    ensures |r| <= |s|
  {
    TrimRight(TrimLeft(s))
  }

  /** What `strip` keeps is an infix of the text with only whitespace
      around it. */
  lemma StripIsInfix(s: string)
    ensures exists a :: StrippedAt(s, a, Strip(s))
  {
    var l := TrimLeft(s);
    var r := TrimRight(l);
    var a := |s| - |l|;
    assert l == s[a..];
    assert r == l[..|r|];
    assert r == s[a..a + |r|];
    assert s[a + |r|..] == l[|r|..];
    assert AllSpace(s[..a]);
    assert AllSpace(s[a + |r|..]);
    assert r == Strip(s);
    assert StrippedAt(s, a, r);
  }

  /** `strip` adds no character. */
  lemma StripSubset(s: string)
    ensures forall c :: c in Strip(s) ==> c in s
  {
    var l := TrimLeft(s);
    var r := TrimRight(l);
    var a := |s| - |l|;
    assert r == s[a..a + |r|];
    InfixSubset(s, a, a + |r|);
  }

  lemma InfixSubset(s: string, a: nat, b: nat)
    requires a <= b <= |s|
    ensures forall c :: c in s[a..b] ==> c in s
  {
    forall c | c in s[a..b] ensures c in s {
      var k :| 0 <= k < b - a && s[a..b][k] == c;
      assert s[a + k] == c;
    }
  }

  /** Stripping text that is edge-clean between two runs of whitespace gives
      back exactly that text: `Strip` has one possible answer. */
  lemma {:induction false} StripSurrounded(p: string, w: string, q: string)
    requires AllSpace(p) && AllSpace(q) && EdgeClean(w)
    ensures Strip(p + w + q) == w
  {
    assert p + w + q == p + (w + q);
    TrimLeftSpaces(p, w + q);
    if |w| == 0 {
      assert w + q == q;
      TrimLeftSpaces(q, "");
      assert q + "" == q;
    } else {
      assert TrimLeft(w + q) == w + q;
      TrimRightSpaces(w, q);
    }
  }

  lemma {:induction false} TrimLeftSpaces(p: string, t: string)
    requires AllSpace(p)
    ensures TrimLeft(p + t) == TrimLeft(t)
    decreases |p|
  {
    if |p| > 0 {
      assert (p + t)[1..] == p[1..] + t;
      TrimLeftSpaces(p[1..], t);
    } else {
      assert p + t == t;
    }
  }

  lemma {:induction false} TrimRightSpaces(w: string, q: string)
    requires AllSpace(q)
    requires |w| == 0 || !IsSpace(w[|w| - 1])
    ensures TrimRight(w + q) == w
    decreases |q|
  {
    if |q| > 0 {
      assert (w + q)[..|w + q| - 1] == w + q[..|q| - 1];
      TrimRightSpaces(w, q[..|q| - 1]);
    } else {
      assert w + q == w;
    }
  }

  /** `strip` is idempotent and leaves edge-clean text alone. */
  lemma StripIdempotent(s: string)
    ensures Strip(Strip(s)) == Strip(s)
  {
    StripClean(Strip(s));
  }

  lemma StripUnseparated(s: string)
    requires Unseparated(s)
    ensures Strip(s) == s
  {
    StripClean(s);
  }

  lemma StripClean(s: string)
    requires EdgeClean(s)
    ensures Strip(s) == s
  {
    StripSurrounded("", s, "");
    assert "" + s + "" == s;
  }

  /** Python's `sep.join(parts)`: the join starts with the first part. */
  function Join(parts: seq<string>, sep: string): (r: string)
    ensures |parts| > 0 ==> parts[0] <= r
  {
    if |parts| == 0 then ""
    else if |parts| == 1 then parts[0]
    else parts[0] + sep + Join(parts[1..], sep)
  }

  /** Joining non-empty parts gives the empty text only for no parts. */
  lemma {:induction false} JoinEmpty(parts: seq<string>, sep: string)
    requires forall k :: 0 <= k < |parts| ==> parts[k] != ""
    ensures Join(parts, sep) == "" <==> |parts| == 0
  {
    if |parts| > 0 {
      assert |Join(parts, sep)| >= |parts[0]| > 0;
    }
  }

  /** Putting text in front of the first part puts it in front of the join. */
  lemma JoinPrefixFirst(parts: seq<string>, p: string, sep: string)
    requires |parts| > 0
    ensures Join([p + parts[0]] + parts[1..], sep) == p + Join(parts, sep)
  {
    var qs := [p + parts[0]] + parts[1..];
    assert qs[1..] == parts[1..];
    if |parts| > 1 {
      assert p + parts[0] + sep + Join(parts[1..], sep) == p + (parts[0] + sep + Join(parts[1..], sep));
    }
  }

  /** Number of occurrences of `c` in `s`. */
  function Count(s: string, c: char): nat
  {
    if |s| == 0 then 0 else (if s[0] == c then 1 else 0) + Count(s[1..], c)
  }

  /** Python's `s.split(c)` for a one-character separator: the pieces between
      the separators, one more than there are separators, none holding `c`,
      and joined back with `c` they give `s`. */
  function Split(s: string, c: char): (parts: seq<string>)
    ensures |parts| == Count(s, c) + 1
    ensures forall k :: 0 <= k < |parts| ==> c !in parts[k]
    ensures Join(parts, [c]) == s
    decreases |s|
  {
    if |s| == 0 then [""]
    else
      var rest := Split(s[1..], c);
      if s[0] == c then
        assert ([""] + rest)[1..] == rest;
        [""] + rest
      else
        var parts := [[s[0]] + rest[0]] + rest[1..];
        assert parts[1..] == rest[1..];
        assert Join(parts, [c]) == [s[0]] + Join(rest, [c]);
        parts
  }

  /** Splitting a joined list gives the list back when no piece holds the
      separator. */
  lemma {:induction false} SplitJoin(parts: seq<string>, c: char)
    requires |parts| > 0
    requires forall k :: 0 <= k < |parts| ==> c !in parts[k]
    ensures Split(Join(parts, [c]), c) == parts
    decreases |parts|
  {
    if |parts| == 1 {
      SplitNoSeparator(parts[0], c);
    } else {
      SplitJoin(parts[1..], c);
      SplitAtFirst(parts[0], Join(parts[1..], [c]), c);
      assert parts[0] + [c] + Join(parts[1..], [c]) == parts[0] + ([c] + Join(parts[1..], [c]));
      assert [parts[0]] + parts[1..] == parts;
    }
  }

  lemma {:induction false} SplitNoSeparator(x: string, c: char)
    requires c !in x
    ensures Split(x, c) == [x]
    decreases |x|
  {
    if |x| > 0 {
      SplitNoSeparator(x[1..], c);
      assert [x[0]] + x[1..] == x;
    }
  }

  lemma {:induction false} SplitAtFirst(x: string, y: string, c: char)
    requires c !in x
    ensures Split(x + ([c] + y), c) == [x] + Split(y, c)
    decreases |x|
  {
    if |x| == 0 {
      assert x + ([c] + y) == [c] + y;
      assert ([c] + y)[1..] == y;
    } else {
      assert (x + ([c] + y))[1..] == x[1..] + ([c] + y);
      SplitAtFirst(x[1..], y, c);
      assert [x[0]] + x[1..] == x;
    }
  }

  /** Python's universal-newline reading: `\r\n` and a lone `\r` both become `\n`. */
  function UniversalNewlines(s: string): (r: string)
    ensures '\r' !in r
    ensures |r| <= |s|
    decreases |s|
  {
    if |s| == 0 then ""
    else if s[0] == '\r' then
      "\n" + UniversalNewlines(if |s| >= 2 && s[1] == '\n' then s[2..] else s[1..])
    else [s[0]] + UniversalNewlines(s[1..])
  }

  /** A `\r\n` pair reads as a single line feed. */
  lemma {:induction false} CrLfRead(x: string, y: string)
    requires '\r' !in x
    ensures UniversalNewlines(x + "\r\n" + y) == x + "\n" + UniversalNewlines(y)
    decreases |x|
  {
    if |x| == 0 {
      assert x + "\r\n" + y == "\r\n" + y;
      assert ("\r\n" + y)[2..] == y;
    } else {
      assert (x + "\r\n" + y)[1..] == x[1..] + "\r\n" + y;
      CrLfRead(x[1..], y);
      assert [x[0]] + (x[1..] + "\n" + UniversalNewlines(y)) == x + "\n" + UniversalNewlines(y);
    }
  }

  /** A carriage return not followed by a line feed reads as a line feed. */
  lemma {:induction false} LoneCrRead(x: string, y: string)
    requires '\r' !in x
    requires |y| == 0 || y[0] != '\n'
    ensures UniversalNewlines(x + "\r" + y) == x + "\n" + UniversalNewlines(y)
    decreases |x|
  {
    if |x| == 0 {
      assert x + "\r" + y == "\r" + y;
      assert ("\r" + y)[1..] == y;
    } else {
      assert (x + "\r" + y)[1..] == x[1..] + "\r" + y;
      LoneCrRead(x[1..], y);
      assert [x[0]] + (x[1..] + "\n" + UniversalNewlines(y)) == x + "\n" + UniversalNewlines(y);
    }
  }

  /** Text without carriage returns reads back unchanged. */
  lemma {:induction false} UniversalNewlinesIdentity(s: string)
    requires '\r' !in s
    ensures UniversalNewlines(s) == s
    decreases |s|
  {
    if |s| > 0 {
      UniversalNewlinesIdentity(s[1..]);
      assert [s[0]] + s[1..] == s;
    }
  }

  /** The lines of a text-mode file, line terminators removed: joined with
      line feeds they give back the text as read. */
  function Lines(text: string): (lines: seq<string>)
    ensures |lines| > 0
    ensures forall k :: 0 <= k < |lines| ==> '\n' !in lines[k] && '\r' !in lines[k]
    ensures Join(lines, "\n") == UniversalNewlines(text)
  {
    var t := UniversalNewlines(text);
    var lines := Split(t, '\n');
    assert Join(lines, "\n") == t;
    forall k | 0 <= k < |lines| ensures '\r' !in lines[k] {
      JoinContains(lines, "\n", k);
    }
    lines
  }

  /** Lines free of line breaks, written out with a line feed between them,
      read back as the same lines. */
  lemma LinesJoin(ls: seq<string>)
    requires |ls| > 0
    requires forall k :: 0 <= k < |ls| ==> '\n' !in ls[k] && '\r' !in ls[k]
    ensures Lines(Join(ls, "\n")) == ls
  {
    JoinAvoids(ls, "\n", '\r');
    UniversalNewlinesIdentity(Join(ls, "\n"));
    SplitJoin(ls, '\n');
  }

  /** A character in neither the parts nor the separator is not in the join. */
  lemma {:induction false} JoinAvoids(parts: seq<string>, sep: string, c: char)
    requires c !in sep
    requires forall k :: 0 <= k < |parts| ==> c !in parts[k]
    ensures c !in Join(parts, sep)
    decreases |parts|
  {
    if |parts| > 1 {
      JoinAvoids(parts[1..], sep, c);
    }
  }

  /** Every part's characters appear in the joined text. */
  lemma {:induction false} JoinContains(parts: seq<string>, sep: string, k: nat)
    requires k < |parts|
    ensures forall c :: c in parts[k] ==> c in Join(parts, sep)
    decreases |parts|
  {
    if |parts| > 1 {
      if k > 0 {
        JoinContains(parts[1..], sep, k - 1);
      }
    }
  }
}
