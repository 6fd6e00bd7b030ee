/** The email pattern shared by every extractor: a word boundary, one or
    more local-part characters, `@`, one or more domain characters, a
    literal `.`, two or more top-level-domain characters and a word boundary,
    with ASCII word boundaries. `IsMatchSplit` states declaratively when
    `s[i..j]` matches in the context of `s`; `Search` is the order in which a
    backtracking regex engine tries the alternatives (greedy quantifiers give
    back one character at a time), and is proved to find exactly the match
    that the backtracking order prefers. */
module EmailPattern {
  import opened Wrappers
  import opened Text

  predicate IsLetter(c: char) { 'A' <= c <= 'Z' || 'a' <= c <= 'z' }

  predicate IsDigit(c: char) { '0' <= c <= '9' }

  /** `\w` restricted to ASCII. */
  predicate IsWordChar(c: char) { IsLetter(c) || IsDigit(c) || c == '_' }

  /** The three character classes of the pattern. Note the literal `|` in the
      top-level-domain class. */
  datatype CharClass =
    | LocalPart   // [A-Za-z0-9._%+-]
    | DomainPart  // [A-Za-z0-9.-]
    | TopLevel    // [A-Z|a-z]

  predicate Member(cls: CharClass, c: char) {
    match cls
    case LocalPart => IsLetter(c) || IsDigit(c) || c == '.' || c == '_' || c == '%' || c == '+' || c == '-'
    case DomainPart => IsLetter(c) || IsDigit(c) || c == '.' || c == '-'
    case TopLevel => IsLetter(c) || c == '|'
  }

  /** Every character of `s[lo..hi]` belongs to `cls`. */
  predicate AllIn(s: string, lo: int, hi: int, cls: CharClass) {
    0 <= lo <= hi <= |s| && forall k :: lo <= k < hi ==> Member(cls, s[k])
  }

  predicate WordAt(s: string, k: int) { 0 <= k < |s| && IsWordChar(s[k]) }

  /** `\b` at position `k`: exactly one of the neighbours is a word character
      (outside the string counts as a non-word character). */
  predicate BoundaryAt(s: string, k: int) { WordAt(s, k - 1) != WordAt(s, k) }

  /** The part after the domain: a `.` at `dot`, two or more top-level-domain
      characters up to `j`, and a boundary at `j`. */
  predicate DotOk(s: string, dot: int, j: int) {
    && 0 <= dot < |s|
    && s[dot] == '.'
    && dot + 3 <= j <= |s|
    && AllIn(s, dot + 1, j, TopLevel)
    && BoundaryAt(s, j)
  }

  /** `s[i..j]` matches the pattern with the `@` at `at` and the last
      literal `.` at `dot`. */
  predicate IsMatchSplit(s: string, i: int, at: int, dot: int, j: int) {
    && 0 <= i < at && at + 1 < dot
    && BoundaryAt(s, i)
    && AllIn(s, i, at, LocalPart)
    && at < |s| && s[at] == '@'
    && AllIn(s, at + 1, dot, DomainPart)
    && DotOk(s, dot, j)
  }

  /** `s[i..j]` is an occurrence of the pattern in `s`. */
  ghost predicate IsMatch(s: string, i: int, j: int) {
    exists at, dot :: IsMatchSplit(s, i, at, dot, j)
  }

  /** End of the maximal run of `cls` characters starting at `k`: greedy `+`. */
  function RunEnd(s: string, k: nat, cls: CharClass): (e: nat)
    requires k <= |s|
    ensures k <= e <= |s|
    ensures forall m :: k <= m <= |s| ==> (AllIn(s, k, m, cls) <==> m <= e)
    decreases |s| - k
  {
    if k < |s| && Member(cls, s[k]) then
      assert forall m :: k + 1 <= m <= |s| ==> (AllIn(s, k, m, cls) <==> AllIn(s, k + 1, m, cls));
      RunEnd(s, k + 1, cls)
    else k
  }

  /** The largest `m` with `lo <= m <= k` at which `\b` holds. */
  function LastBoundary(s: string, lo: nat, k: nat): (r: Option<nat>)
    requires k <= |s|
    ensures r.Some? ==> lo <= r.value <= k && BoundaryAt(s, r.value)
    ensures r.Some? ==> forall m :: r.value < m <= k ==> !BoundaryAt(s, m)
    ensures r.None? ==> forall m :: lo <= m <= k ==> !BoundaryAt(s, m)
    decreases k
  {
    if k < lo then None
    else if BoundaryAt(s, k) then Some(k)
    else if k == lo then None
    else LastBoundary(s, lo, k - 1)
  }

  /** `[A-Z|a-z]{2,}\b` after the dot at `dot`: the greedy repetition gives
      back characters until a boundary follows, so the end found is the
      largest one that works. */
  function TldEnd(s: string, dot: nat): (r: Option<nat>)
    requires dot < |s| && s[dot] == '.'
    ensures r.Some? ==> DotOk(s, dot, r.value)
    ensures r.Some? ==> forall j :: DotOk(s, dot, j) ==> j <= r.value
    ensures r.None? ==> forall j :: !DotOk(s, dot, j)
  {
    LastBoundary(s, dot + 3, RunEnd(s, dot + 1, TopLevel))
  }

  /** The greedy domain part gives back characters one at a time: dot
      positions are tried from `d` down to `a + 1`, the first one whose
      top-level domain succeeds wins. */
  function DotSearch(s: string, a: nat, d: nat): (r: Option<(nat, nat)>)
    requires d <= |s|
    ensures r.Some? ==> a < r.value.0 <= d && DotOk(s, r.value.0, r.value.1)
    ensures r.Some? ==> forall dot, j :: a < dot <= d && DotOk(s, dot, j) ==>
                          dot < r.value.0 || (dot == r.value.0 && j <= r.value.1)
    ensures r.None? ==> forall dot, j :: a < dot <= d ==> !DotOk(s, dot, j)
    decreases d
  {
    if d <= a then None
    else if d < |s| && s[d] == '.' && TldEnd(s, d).Some? then Some((d, TldEnd(s, d).value))
    else DotSearch(s, a, d - 1)
  }

  /** Where the `@`, the last literal `.` and the end of a match lie. */
  datatype MatchParts = MatchParts(at: nat, dot: nat, end: nat)

  /** The pattern tried at position `i`, in backtracking order. It finds a
      match exactly when one exists, and the one it finds has the largest dot
      position and, for that dot, the largest end; the `@` is forced, since
      `@` is not a local-part character. */
  function Search(s: string, i: nat): (r: Option<MatchParts>)
    requires i <= |s|
    ensures r.Some? ==> IsMatchSplit(s, i, r.value.at, r.value.dot, r.value.end)
    ensures r.Some? ==> forall at, dot, j :: IsMatchSplit(s, i, at, dot, j) ==>
                          at == r.value.at && (dot < r.value.dot || (dot == r.value.dot && j <= r.value.end))
    ensures r.None? ==> forall at, dot, j :: !IsMatchSplit(s, i, at, dot, j)
  {
    if !BoundaryAt(s, i) then None
    else
      var at := RunEnd(s, i, LocalPart);
      if at == i || at == |s| || s[at] != '@' then
        assert forall at', dot, j :: IsMatchSplit(s, i, at', dot, j) ==> at' == at by {
          forall at', dot, j | IsMatchSplit(s, i, at', dot, j) ensures at' == at {
            ForcedAt(s, i, at', at);
          }
        }
        None
      else
        var e := RunEnd(s, at + 1, DomainPart);
        var found := DotSearch(s, at + 1, e);
        forall at', dot, j | IsMatchSplit(s, i, at', dot, j)
          ensures at' == at && at + 1 < dot <= e && DotOk(s, dot, j)
        {
          ForcedAt(s, i, at', at);
        }
        if found.None? then None
        else Some(MatchParts(at, found.value.0, found.value.1))
  }

  /** The `@` of any split is the end of the local-part run. */
  lemma ForcedAt(s: string, i: nat, at': int, at: nat)
    requires i <= |s| && at == RunEnd(s, i, LocalPart)
    requires AllIn(s, i, at', LocalPart) && at' < |s| && s[at'] == '@'
    ensures at' == at
  {
    assert AllIn(s, i, at, LocalPart);
    assert !Member(LocalPart, s[at']);
  }

  /** `re.match` at position `i`: the end of the match found there, if any.
      It is the longest match starting at `i`: a split with an earlier dot
      ends at or before the dot `Search` picks, since `.` is not a
      top-level-domain character. */
  function MatchAt(s: string, i: nat): (r: Option<nat>)
    ensures r.Some? ==> IsMatch(s, i, r.value)
    ensures r.None? <==> forall j :: !IsMatch(s, i, j)
    ensures r.Some? ==> forall j :: IsMatch(s, i, j) ==> j <= r.value
  {
    if i > |s| then None
    else match Search(s, i)
      case None => None
      case Some(m) =>
        assert forall j :: IsMatch(s, i, j) ==> j <= m.end by {
          forall j | IsMatch(s, i, j) ensures j <= m.end {
            var at', dot' :| IsMatchSplit(s, i, at', dot', j);
            if dot' < m.dot {
              assert !Member(TopLevel, s[m.dot]);
              assert j <= m.dot;
            }
          }
        }
        assert IsMatch(s, i, m.end);
        Some(m.end)
  }

  /** The pattern's shape without its context: a non-empty local part, one
      `@`, a non-empty domain, a `.` and at least two top-level-domain
      characters, with the `@` at `at` and the last literal `.` at `dot`. */
  predicate IsShapeSplit(w: string, at: int, dot: int) {
    && 0 < at && at + 1 < dot && dot + 3 <= |w|
    && AllIn(w, 0, at, LocalPart)
    && w[at] == '@'
    && AllIn(w, at + 1, dot, DomainPart)
    && w[dot] == '.'
    && AllIn(w, dot + 1, |w|, TopLevel)
  }

  ghost predicate HasEmailShape(w: string) {
    exists at, dot :: IsShapeSplit(w, at, dot)
  }

  /** The text of a match has the pattern's shape. */
  lemma MatchHasShape(s: string, i: int, at: int, dot: int, j: int)
    requires IsMatchSplit(s, i, at, dot, j)
    ensures IsShapeSplit(s[i..j], at - i, dot - i)
    ensures HasEmailShape(s[i..j])
  {
    var w := s[i..j];
    assert forall k :: 0 <= k < |w| ==> w[k] == s[i + k];
    assert IsShapeSplit(w, at - i, dot - i);
  }

  /** What the shape guarantees of a matched address: exactly one `@`, no
      comma and no whitespace (so stripping leaves it alone), at least six
      characters, and a last character from the top-level-domain class. */
  lemma ShapeFacts(w: string, at: int, dot: int)
    requires IsShapeSplit(w, at, dot)
    ensures forall k :: 0 <= k < |w| ==> (w[k] == '@' <==> k == at)
    ensures Unseparated(w)
    ensures Strip(w) == w
    ensures |w| >= 6
    ensures Member(TopLevel, w[|w| - 1])
  {
    assert forall k :: 0 <= k < |w| ==> Member(LocalPart, w[k]) || k == at || Member(DomainPart, w[k]) || Member(TopLevel, w[k]);
    StripUnseparated(w);
  }
}
