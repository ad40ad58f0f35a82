/**
 * The local search utilities: case-insensitive substring search, the list of
 * match positions, and the highlighter that escapes text for HTML and wraps
 * each match in a <mark> tag.
 *
 * Case folding is String.prototype.toLowerCase restricted to ASCII (A-Z to
 * a-z, every other character kept), which preserves length; the regular
 * expression's i flag folds the same way. The regular expression the
 * highlighter builds is a capturing group of escaped literal characters; its
 * split is modelled directly.
 */
module SearchUtils {
  import opened Wrappers

  // ---------------------------------------------------------------------
  // String.prototype.trim and the blank-query test
  // ---------------------------------------------------------------------

  /** The WhiteSpace and LineTerminator code points that trim removes. */
  predicate IsJsWhitespace(c: char)
  {
    c == '\t' || c == '\U{000B}' || c == '\U{000C}' || c == ' ' || c == '\U{00A0}' || c == '\U{FEFF}'
    || c == '\U{1680}' || '\U{2000}' <= c <= '\U{200A}' || c == '\U{202F}' || c == '\U{205F}' || c == '\U{3000}'
    || c == '\n' || c == '\r' || c == '\U{2028}' || c == '\U{2029}'
  }

  /** Drops leading whitespace: the result is a suffix that starts with a non-whitespace character. */
  function TrimStart(s: string): (r: string)
    ensures |r| <= |s| && r == s[|s| - |r|..]
    ensures forall i :: 0 <= i < |s| - |r| ==> IsJsWhitespace(s[i])
    ensures r != [] ==> !IsJsWhitespace(r[0])
    decreases |s|
  {
    if s != [] && IsJsWhitespace(s[0]) then TrimStart(s[1..]) else s
  }

  /** Drops trailing whitespace: the result is a prefix that ends with a non-whitespace character. */
  function TrimEnd(s: string): (r: string)
    ensures |r| <= |s| && r == s[..|r|]
    ensures forall i :: |r| <= i < |s| ==> IsJsWhitespace(s[i])
    ensures r != [] ==> !IsJsWhitespace(r[|r| - 1])
    decreases |s|
  {
    if s != [] && IsJsWhitespace(s[|s| - 1]) then TrimEnd(s[..|s| - 1]) else s
  }

  function Trim(s: string): string
  {
    TrimEnd(TrimStart(s))
  }

  /** `!query.trim()`: the trimmed query is the empty string. */
  predicate IsBlank(query: string)
  {
    Trim(query) == []
  }

  // ---------------------------------------------------------------------
  // Case folding and occurrences
  // ---------------------------------------------------------------------

  function Lower(c: char): char
  {
    if 'A' <= c <= 'Z' then (c as int + 32) as char else c
  }

  function LowerStr(s: string): (r: string)
    ensures |r| == |s|
  {
    seq(|s|, i requires 0 <= i < |s| => Lower(s[i]))
  }

  /** q occurs in t starting at position k. */
  predicate OccursAt(t: string, q: string, k: int)
  {
    0 <= k && k + |q| <= |t| && t[k..k + |q|] == q
  }

  /**
   * The search loop of String.prototype.indexOf from position i: the first
   * occurrence at or after i, or -1 when there is none.
   */
  function FindFrom(t: string, q: string, i: nat): (r: int)
    requires i <= |t|
    ensures r == -1 <==> forall k :: i <= k ==> !OccursAt(t, q, k)
    ensures r != -1 ==> i <= r && OccursAt(t, q, r)
    ensures r != -1 ==> forall k :: i <= k < r ==> !OccursAt(t, q, k)
    decreases |t| - i
  {
    if i + |q| > |t| then -1
    else if t[i..i + |q|] == q then assert OccursAt(t, q, i); i
    else FindFrom(t, q, i + 1)
  }

  /** t.indexOf(q, position): the position is clamped to 0 .. |t|. */
  function IndexOf(t: string, q: string, position: int): int
  {
    FindFrom(t, q, if position < 0 then 0 else if position > |t| then |t| else position)
  }

  // ---------------------------------------------------------------------
  // searchText and getSearchIndices
  // ---------------------------------------------------------------------

  /** searchText: true for a blank query, else whether lower(query) is a substring of lower(text). */
  function SearchText(text: string, query: string): (r: bool)
    ensures r <==> IsBlank(query) || exists k :: OccursAt(LowerStr(text), LowerStr(query), k)
  {
    if IsBlank(query) then true else IndexOf(LowerStr(text), LowerStr(query), 0) != -1
  }

  /**
   * indices lists in increasing order exactly the positions before bound
   * where q occurs in t.
   */
  ghost predicate FoundBefore(t: string, q: string, indices: seq<nat>, bound: int)
  {
    && (forall i, j :: 0 <= i < j < |indices| ==> indices[i] < indices[j])
    && (forall j :: 0 <= j < |indices| ==> indices[j] < bound)
    && (forall k :: k < bound ==> (k in indices <==> OccursAt(t, q, k)))
  }

  /** The loop's step: record the occurrence at index and search again from index + 1. */
  lemma FoundStep(t: string, q: string, indices: seq<nat>, index: nat, next: int)
    requires 0 < |q| && OccursAt(t, q, index) && FoundBefore(t, q, indices, index)
    requires next == IndexOf(t, q, index + 1)
    ensures next != -1 ==> OccursAt(t, q, next) && FoundBefore(t, q, indices + [index], next)
    ensures next == -1 ==> FoundBefore(t, q, indices + [index], |t| + 1)
  {
    var bound := if next == -1 then |t| + 1 else next;
    forall k | k < bound
      ensures k in indices + [index] <==> OccursAt(t, q, k)
    {
      if k > index {
        assert k !in indices + [index];
      }
    }
  }

  /**
   * getSearchIndices: [] for a blank query; otherwise every position where
   * lower(query) occurs in lower(text), in increasing order, overlapping
   * occurrences included since each search resumes one past the last hit.
   */
  method GetSearchIndices(text: string, query: string) returns (indices: seq<nat>)
    ensures IsBlank(query) ==> indices == []
    ensures !IsBlank(query) ==> forall k :: k in indices <==> OccursAt(LowerStr(text), LowerStr(query), k)
    ensures forall i, j :: 0 <= i < j < |indices| ==> indices[i] < indices[j]
    ensures !IsBlank(query) ==> (indices != [] <==> SearchText(text, query))
  {
    if IsBlank(query) {
      return [];
    }
    indices := [];
    var lowerText := LowerStr(text);
    var lowerQuery := LowerStr(query);
    var index := IndexOf(lowerText, lowerQuery, 0);
    while index != -1
      invariant index != -1 ==> OccursAt(lowerText, lowerQuery, index) && FoundBefore(lowerText, lowerQuery, indices, index)
      invariant index == -1 ==> FoundBefore(lowerText, lowerQuery, indices, |lowerText| + 1)
      decreases if index == -1 then 0 else |lowerText| + 1 - index
    {
      var next := IndexOf(lowerText, lowerQuery, index + 1);
      FoundStep(lowerText, lowerQuery, indices, index, next);
      indices := indices + [index];
      index := next;
    }
    FoundAll(lowerText, lowerQuery, indices);
    IndicesAgreeWithSearch(text, query, indices);
  }

  /** Past the last position, nothing more can occur. */
  lemma FoundAll(t: string, q: string, indices: seq<nat>)
    requires FoundBefore(t, q, indices, |t| + 1)
    ensures forall k :: k in indices <==> OccursAt(t, q, k)
  {
    forall k | k in indices
      ensures k < |t| + 1
    {
      var j :| 0 <= j < |indices| && indices[j] == k;
    }
  }

  // ---------------------------------------------------------------------
  // escapeHtml
  // ---------------------------------------------------------------------

  predicate IsHtmlSpecial(c: char)
  {
    c == '&' || c == '<' || c == '>' || c == '"' || c == '\''
  }

  /** The escape table: & < > " ' become entities, every other character stays. */
  function EscapeHtmlChar(c: char): string
  {
    if c == '&' then "&amp;"
    else if c == '<' then "&lt;"
    else if c == '>' then "&gt;"
    else if c == '"' then "&quot;"
    else if c == '\'' then "&#039;"
    else [c]
  }

  /** escapeHtml: every special character replaced, so no raw < > " ' remains. */
  function EscapeHtml(s: string): (r: string)
    ensures forall i :: 0 <= i < |r| ==> r[i] != '<' && r[i] != '>' && r[i] != '"' && r[i] != '\''
    decreases |s|
  {
    if s == [] then "" else EscapeHtmlChar(s[0]) + EscapeHtml(s[1..])
  }

  /** How an HTML parser reads the five entities back; every other character stands for itself. */
  function UnescapeHtml(t: string): string
    decreases |t|
  {
    if t == [] then []
    else if "&amp;" <= t then "&" + UnescapeHtml(t[5..])
    else if "&lt;" <= t then "<" + UnescapeHtml(t[4..])
    else if "&gt;" <= t then ">" + UnescapeHtml(t[4..])
    else if "&quot;" <= t then "\"" + UnescapeHtml(t[6..])
    else if "&#039;" <= t then "'" + UnescapeHtml(t[6..])
    else [t[0]] + UnescapeHtml(t[1..])
  }

  // ---------------------------------------------------------------------
  // escapeRegex and the pattern the highlighter compiles
  // ---------------------------------------------------------------------

  /** The characters escapeRegex prefixes with a backslash. */
  predicate IsRegexSyntax(c: char)
  {
    c == '.' || c == '*' || c == '+' || c == '?' || c == '^' || c == '$' || c == '{' || c == '}'
    || c == '(' || c == ')' || c == '|' || c == '[' || c == ']' || c == '\\'
  }

  /** escapeRegex: a backslash before each syntax character. */
  function EscapeRegex(s: string): string
    decreases |s|
  {
    if s == [] then ""
    else (if IsRegexSyntax(s[0]) then ['\\', s[0]] else [s[0]]) + EscapeRegex(s[1..])
  }

  /**
   * The string a pattern of literal atoms matches: a backslash before a
   * syntax character stands for that character, any other character for
   * itself. None when the pattern holds a regular-expression operator or
   * another escape, which this model does not interpret.
   */
  function LiteralOf(p: string): Option<string>
    decreases |p|
  {
    if p == [] then Some([])
    else if p[0] == '\\' then
      if |p| >= 2 && IsRegexSyntax(p[1]) then
        match LiteralOf(p[2..])
        case Some(l) => Some([p[1]] + l)
        case None => None
      else None
    else if IsRegexSyntax(p[0]) then None
    else
      match LiteralOf(p[1..])
      case Some(l) => Some([p[0]] + l)
      case None => None
  }

  /** The literal a pattern `( literal atoms )` captures. */
  function CapturedLiteral(source: string): Option<string>
  {
    if |source| >= 2 && source[0] == '(' && source[|source| - 1] == ')' then LiteralOf(source[1..|source| - 1])
    else None
  }

  /** The source of `new RegExp(`(${escapeRegex(query)})`, 'gi')`. */
  function HighlightPattern(query: string): string
  {
    "(" + EscapeRegex(query) + ")"
  }

  // ---------------------------------------------------------------------
  // split and highlightText
  // ---------------------------------------------------------------------

  /** The case-insensitive literal matches at position q of s. */
  predicate MatchAt(s: string, lit: string, q: int)
  {
    OccursAt(LowerStr(s), LowerStr(lit), q)
  }

  /**
   * String.prototype.split with a capturing regular expression, from the
   * pending piece start p and the scan position q: on a match at q the piece
   * before it and the captured match are emitted and both positions move past
   * the match; otherwise q advances by one; at the end the rest of the string
   * is the last piece.
   */
  function SplitFrom(s: string, lit: string, p: nat, q: nat): seq<string>
    requires 0 < |lit| && p <= q <= |s|
    decreases |s| - q
  {
    if q == |s| then [s[p..]]
    else if MatchAt(s, lit, q) then [s[p..q], s[q..q + |lit|]] + SplitFrom(s, lit, q + |lit|, q + |lit|)
    else SplitFrom(s, lit, p, q + 1)
  }

  function Split(s: string, lit: string): seq<string>
    requires 0 < |lit|
  {
    SplitFrom(s, lit, 0, 0)
  }

  /** The class list of the highlight tag. */
  const MarkClass: string := "bg-yellow-300" + " text-gray-900" + " font-semibold" + " px-0.5" + " rounded"
  /** The tag name and class attribute of the highlight tag. */
  const MarkAttributes: string := "mark class=\"" + MarkClass + "\""
  const MarkOpen: string := "<" + MarkAttributes + ">"
  const MarkClose: string := "</mark>"

  /** One part of the split: marked when it equals the query case-insensitively, escaped always. */
  function RenderPart(part: string, query: string): string
  {
    if LowerStr(part) == LowerStr(query) then MarkOpen + EscapeHtml(part) + MarkClose else EscapeHtml(part)
  }

  /** parts.map(RenderPart).join(''). */
  function RenderParts(parts: seq<string>, query: string): string
    decreases |parts|
  {
    if parts == [] then "" else RenderPart(parts[0], query) + RenderParts(parts[1..], query)
  }

  /** highlightText: the text verbatim for a blank query, else the rendered parts of the split. */
  function HighlightText(text: string, query: string): string
  {
    if IsBlank(query) then text
    else
      NonBlankNotEmpty(query);
      PatternCapturesQuery(query);
      var lit := CapturedLiteral(HighlightPattern(query)).value;
      RenderParts(Split(text, lit), query)
  }

  // ---------------------------------------------------------------------
  // Specification of the highlight: greedy tilings and marked output
  // ---------------------------------------------------------------------

  /** The positions where lit occurs case-insensitively in s. */
  ghost function Matches(s: string, lit: string): set<int>
  {
    set k | 0 <= k <= |s| && MatchAt(s, lit, k)
  }

  /**
   * parts tiles s[p..] as gap, match, gap, ..., gap, with matches of length n
   * that start at positions in m and no position of m inside a gap.
   */
  ghost predicate Tiling(s: string, n: nat, m: set<int>, p: nat, parts: seq<string>)
    decreases |parts|
  {
    && p <= |s|
    && |parts| % 2 == 1
    && if |parts| == 1 then parts[0] == s[p..] && (forall k :: p <= k < |s| ==> k !in m)
       else
         var q := p + |parts[0]|;
         && q + n <= |s|
         && parts[0] == s[p..q]
         && (forall k :: p <= k < q ==> k !in m)
         && q in m
         && parts[1] == s[q..q + n]
         && Tiling(s, n, m, q + n, parts[2..])
  }

  /**
   * The left-to-right, non-overlapping case-insensitive occurrences of lit:
   * each match is the first occurrence at or after the end of the previous one.
   */
  ghost predicate Greedy(s: string, lit: string, p: nat, parts: seq<string>)
  {
    Tiling(s, |lit|, Matches(s, lit), p, parts)
  }

  /** Gaps escaped; matches escaped and wrapped in the mark tags. */
  function Marked(parts: seq<string>): string
    requires |parts| % 2 == 1
    decreases |parts|
  {
    if |parts| == 1 then EscapeHtml(parts[0])
    else EscapeHtml(parts[0]) + (MarkOpen + EscapeHtml(parts[1]) + MarkClose + Marked(parts[2..]))
  }

  function Concat(parts: seq<string>): string
    decreases |parts|
  {
    if parts == [] then "" else parts[0] + Concat(parts[1..])
  }

  /** Drops the rest of a tag, up to and including its closing '>'. */
  function SkipTag(t: string): (r: string)
    ensures |r| <= |t|
    decreases |t|
  {
    if t == [] then [] else if t[0] == '>' then t[1..] else SkipTag(t[1..])
  }

  /** The characters outside tags: every run from '<' to the next '>' removed. */
  function StripTags(t: string): string
    decreases |t|
  {
    if t == [] then []
    else if t[0] == '<' then StripTags(SkipTag(t[1..]))
    else [t[0]] + StripTags(t[1..])
  }

  // ---------------------------------------------------------------------
  // Properties
  // ---------------------------------------------------------------------

  /** A query is blank exactly when every character is JavaScript whitespace. */
  lemma BlankIffAllWhitespace(query: string)
    ensures IsBlank(query) <==> forall i :: 0 <= i < |query| ==> IsJsWhitespace(query[i])
  {
    var r := TrimStart(query);
    if r != [] {
      assert !IsJsWhitespace(r[0]);
      assert TrimEnd(r) != [];
      assert query[|query| - |r|] == r[0];
    }
  }

  lemma NonBlankNotEmpty(query: string)
    ensures !IsBlank(query) ==> |query| > 0
  {
  }

  lemma LowerSlice(s: string, a: int, b: int)
    requires 0 <= a <= b <= |s|
    ensures LowerStr(s[a..b]) == LowerStr(s)[a..b]
  {
  }

  /** For a non-blank query, the position list is non-empty exactly when searchText holds. */
  lemma IndicesAgreeWithSearch(text: string, query: string, indices: seq<nat>)
    requires !IsBlank(query)
    requires forall k :: k in indices <==> OccursAt(LowerStr(text), LowerStr(query), k)
    ensures indices != [] <==> SearchText(text, query)
  {
    if indices != [] {
      assert indices[0] in indices;
    }
  }

  /** escapeHtml leaves a string without special characters unchanged. */
  lemma {:induction false} EscapeHtmlPlain(s: string)
    requires forall i :: 0 <= i < |s| ==> !IsHtmlSpecial(s[i])
    ensures EscapeHtml(s) == s
    decreases |s|
  {
    if s != [] {
      EscapeHtmlPlain(s[1..]);
    }
  }

  lemma {:induction false} EscapeHtmlConcat(a: string, b: string)
    ensures EscapeHtml(a + b) == EscapeHtml(a) + EscapeHtml(b)
    decreases |a|
  {
    if a != [] {
      assert (a + b)[0] == a[0];
      assert (a + b)[1..] == a[1..] + b;
      EscapeHtmlConcat(a[1..], b);
      assert EscapeHtml(a + b) == EscapeHtmlChar(a[0]) + (EscapeHtml(a[1..]) + EscapeHtml(b));
    } else {
      assert a + b == b;
    }
  }

  lemma UnescapeHtmlChar(c: char, rest: string)
    ensures UnescapeHtml(EscapeHtmlChar(c) + rest) == [c] + UnescapeHtml(rest)
  {
    var t := EscapeHtmlChar(c) + rest;
    if c == '&' {
      assert "&amp;" <= t && t[5..] == rest;
    } else if c == '<' {
      assert !("&amp;" <= t) by { assert t[1] == 'l'; }
      assert "&lt;" <= t && t[4..] == rest;
    } else if c == '>' {
      assert !("&amp;" <= t) by { assert t[1] == 'g'; }
      assert !("&lt;" <= t) by { assert t[1] == 'g'; }
      assert "&gt;" <= t && t[4..] == rest;
    } else if c == '"' {
      assert !("&amp;" <= t) by { assert t[1] == 'q'; }
      assert !("&lt;" <= t) by { assert t[1] == 'q'; }
      assert !("&gt;" <= t) by { assert t[1] == 'q'; }
      assert "&quot;" <= t && t[6..] == rest;
    } else if c == '\'' {
      assert !("&amp;" <= t) by { assert t[1] == '#'; }
      assert !("&lt;" <= t) by { assert t[1] == '#'; }
      assert !("&gt;" <= t) by { assert t[1] == '#'; }
      assert !("&quot;" <= t) by { assert t[1] == '#'; }
      assert "&#039;" <= t && t[6..] == rest;
    } else {
      assert t[0] == c && t[1..] == rest;
    }
  }

  /** Reading escapeHtml's output as HTML gives back the original text. */
  lemma {:induction false} UnescapeEscapeHtml(s: string)
    ensures UnescapeHtml(EscapeHtml(s)) == s
    decreases |s|
  {
    if s != [] {
      UnescapeHtmlChar(s[0], EscapeHtml(s[1..]));
      UnescapeEscapeHtml(s[1..]);
      assert [s[0]] + s[1..] == s;
    }
  }

  lemma {:induction false} LiteralOfEscapeRegex(s: string)
    ensures LiteralOf(EscapeRegex(s)) == Some(s)
    decreases |s|
  {
    if s != [] {
      var e := EscapeRegex(s);
      LiteralOfEscapeRegex(s[1..]);
      if IsRegexSyntax(s[0]) {
        assert e[2..] == EscapeRegex(s[1..]);
      } else {
        assert e[1..] == EscapeRegex(s[1..]);
      }
      assert [s[0]] + s[1..] == s;
    }
  }

  /** The highlight pattern is a capturing group that matches the query literally. */
  lemma PatternCapturesQuery(query: string)
    ensures CapturedLiteral(HighlightPattern(query)) == Some(query)
  {
    var source := HighlightPattern(query);
    assert source[1..|source| - 1] == EscapeRegex(query);
    LiteralOfEscapeRegex(query);
  }

  lemma TilingLast(s: string, n: nat, m: set<int>, p: nat)
    requires p <= |s| && forall k :: p <= k < |s| ==> k !in m
    ensures Tiling(s, n, m, p, [s[p..]])
  {
  }

  lemma TilingStep(s: string, n: nat, m: set<int>, p: nat, q: nat, rest: seq<string>)
    requires p <= q && q + n <= |s|
    requires (forall k :: p <= k < q ==> k !in m) && q in m
    requires Tiling(s, n, m, q + n, rest)
    ensures Tiling(s, n, m, p, [s[p..q], s[q..q + n]] + rest)
  {
    var parts := [s[p..q], s[q..q + n]] + rest;
    assert parts[2..] == rest;
  }

  /** The split is the greedy tiling. */
  lemma {:induction false} SplitFromGreedy(s: string, lit: string, p: nat, q: nat)
    requires 0 < |lit| && p <= q <= |s|
    requires forall k :: p <= k < q ==> k !in Matches(s, lit)
    ensures Greedy(s, lit, p, SplitFrom(s, lit, p, q))
    decreases |s| - q
  {
    var m := Matches(s, lit);
    if q == |s| {
      TilingLast(s, |lit|, m, p);
    } else if MatchAt(s, lit, q) {
      var n := |lit|;
      assert q in m;
      SplitFromGreedy(s, lit, q + n, q + n);
      TilingStep(s, n, m, p, q, SplitFrom(s, lit, q + n, q + n));
    } else {
      assert q !in m;
      SplitFromGreedy(s, lit, p, q + 1);
    }
  }

  /** A tiling is determined by its match positions: there is only one greedy tiling. */
  lemma {:induction false} TilingUnique(s: string, n: nat, m: set<int>, p: nat, a: seq<string>, b: seq<string>)
    requires 0 < n
    requires Tiling(s, n, m, p, a) && Tiling(s, n, m, p, b)
    ensures a == b
    decreases |a|
  {
    if |a| > 1 && |b| > 1 && |a[0]| == |b[0]| {
      TilingUnique(s, n, m, p + |a[0]| + n, a[2..], b[2..]);
      assert a == a[..2] + a[2..] && b == b[..2] + b[2..];
    }
  }

  lemma GreedyUnique(s: string, lit: string, p: nat, a: seq<string>, b: seq<string>)
    requires 0 < |lit|
    requires Greedy(s, lit, p, a) && Greedy(s, lit, p, b)
    ensures a == b
  {
    TilingUnique(s, |lit|, Matches(s, lit), p, a, b);
  }

  /** Concat unfolded over the first two parts. */
  lemma ConcatCons2(parts: seq<string>)
    requires |parts| >= 2
    ensures Concat(parts) == parts[0] + (parts[1] + Concat(parts[2..]))
  {
    assert parts[1..][1..] == parts[2..];
  }

  lemma SliceSplit(s: string, p: nat, q: nat, r: nat)
    requires p <= q <= r <= |s|
    ensures s[p..] == s[p..q] + (s[q..r] + s[r..])
  {
  }

  /** The pieces of a tiling put back together give the text. */
  lemma {:induction false} TilingConcat(s: string, n: nat, m: set<int>, p: nat, parts: seq<string>)
    requires Tiling(s, n, m, p, parts)
    ensures Concat(parts) == s[p..]
    decreases |parts|
  {
    if |parts| > 1 {
      var q := p + |parts[0]|;
      TilingConcat(s, n, m, q + n, parts[2..]);
      ConcatCons2(parts);
      SliceSplit(s, p, q, q + n);
    } else {
      assert Concat(parts) == parts[0] + Concat(parts[1..]);
      assert parts[1..] == [];
    }
  }

  /** A gap never equals the query case-insensitively, so only the matches are marked. */
  lemma GapNotMatch(s: string, query: string, p: nat, q: nat)
    requires 0 < |query| && p <= q <= |s|
    requires forall k :: p <= k < q ==> k !in Matches(s, query)
    ensures LowerStr(s[p..q]) != LowerStr(query)
  {
    LowerSlice(s, p, q);
    if p < q {
      assert p !in Matches(s, query);
    }
  }

  /** A match equals the query case-insensitively. */
  lemma MatchIsQuery(s: string, query: string, q: int)
    requires q in Matches(s, query)
    ensures LowerStr(s[q..q + |query|]) == LowerStr(query)
  {
    LowerSlice(s, q, q + |query|);
  }

  lemma RenderPartsCons2(parts: seq<string>, query: string)
    requires |parts| >= 2
    ensures RenderParts(parts, query) == RenderPart(parts[0], query) + (RenderPart(parts[1], query) + RenderParts(parts[2..], query))
  {
    assert parts[1..][1..] == parts[2..];
  }

  /** The first gap and match of a tiling, and the tiling of the rest. */
  lemma TilingHead(s: string, n: nat, m: set<int>, p: nat, parts: seq<string>)
    requires Tiling(s, n, m, p, parts) && |parts| > 1
    ensures var q := p + |parts[0]|;
            && q + n <= |s|
            && parts[0] == s[p..q] && (forall k :: p <= k < q ==> k !in m)
            && q in m && parts[1] == s[q..q + n]
            && Tiling(s, n, m, q + n, parts[2..])
  {
  }

  /** Rendering a gap and a match: the gap differs from the query, the match equals it. */
  lemma RenderStep(parts: seq<string>, query: string)
    requires |parts| >= 3 && |parts| % 2 == 1
    requires LowerStr(parts[0]) != LowerStr(query) && LowerStr(parts[1]) == LowerStr(query)
    requires RenderParts(parts[2..], query) == Marked(parts[2..])
    ensures RenderParts(parts, query) == Marked(parts)
  {
    RenderPartsCons2(parts, query);
  }

  lemma RenderLast(parts: seq<string>, query: string)
    requires |parts| == 1 && LowerStr(parts[0]) != LowerStr(query)
    ensures RenderParts(parts, query) == Marked(parts)
  {
    assert parts[1..] == [];
  }

  /** Gaps differ from the query and matches equal it, case-insensitively. */
  ghost predicate Alternating(parts: seq<string>, query: string)
    decreases |parts|
  {
    && |parts| % 2 == 1
    && LowerStr(parts[0]) != LowerStr(query)
    && (|parts| > 1 ==> LowerStr(parts[1]) == LowerStr(query) && Alternating(parts[2..], query))
  }

  /** The first gap of a greedy tiling differs from the query, and the first match equals it. */
  lemma GreedyHead(s: string, query: string, p: nat, parts: seq<string>)
    requires 0 < |query|
    requires Greedy(s, query, p, parts)
    ensures LowerStr(parts[0]) != LowerStr(query)
    ensures |parts| > 1 ==> && LowerStr(parts[1]) == LowerStr(query)
                            && Greedy(s, query, p + |parts[0]| + |query|, parts[2..])
  {
    if |parts| == 1 {
      GapNotMatch(s, query, p, |s|);
    } else {
      var q := p + |parts[0]|;
      TilingHead(s, |query|, Matches(s, query), p, parts);
      GapNotMatch(s, query, p, q);
      MatchIsQuery(s, query, q);
    }
  }

  lemma {:induction false} GreedyAlternating(s: string, query: string, p: nat, parts: seq<string>)
    requires 0 < |query|
    requires Greedy(s, query, p, parts)
    ensures Alternating(parts, query)
    decreases |parts|
  {
    GreedyHead(s, query, p, parts);
    if |parts| > 1 {
      GreedyAlternating(s, query, p + |parts[0]| + |query|, parts[2..]);
    }
  }

  lemma {:induction false} RenderAlternating(parts: seq<string>, query: string)
    requires Alternating(parts, query)
    ensures RenderParts(parts, query) == Marked(parts)
    decreases |parts|
  {
    if |parts| == 1 {
      RenderLast(parts, query);
    } else {
      RenderAlternating(parts[2..], query);
      RenderStep(parts, query);
    }
  }

  /**
   * For a non-blank query, highlightText marks exactly the left-to-right,
   * non-overlapping case-insensitive occurrences of the query: its output is
   * the marked rendering of the one greedy tiling of the text.
   */
  lemma HighlightMarksOccurrences(text: string, query: string)
    requires !IsBlank(query)
    ensures exists parts :: Greedy(text, query, 0, parts) && HighlightText(text, query) == Marked(parts)
  {
    NonBlankNotEmpty(query);
    PatternCapturesQuery(query);
    var parts := Split(text, query);
    SplitFromGreedy(text, query, 0, 0);
    GreedyAlternating(text, query, 0, parts);
    RenderAlternating(parts, query);
  }

  lemma {:induction false} StripTagsPlain(x: string, rest: string)
    requires forall i :: 0 <= i < |x| ==> x[i] != '<'
    ensures StripTags(x + rest) == x + StripTags(rest)
    decreases |x|
  {
    if x != [] {
      var t := x + rest;
      assert t[0] == x[0] && t[1..] == x[1..] + rest;
      StripTagsPlain(x[1..], rest);
      assert [x[0]] + (x[1..] + StripTags(rest)) == x + StripTags(rest);
    } else {
      assert x + rest == rest;
    }
  }

  lemma {:induction false} SkipTagPast(x: string, y: string)
    requires forall i :: 0 <= i < |x| ==> x[i] != '>'
    ensures SkipTag(x + ">" + y) == y
    decreases |x|
  {
    var t := x + ">" + y;
    if x == [] {
      assert t == ">" + y;
    } else {
      assert t[0] == x[0] && t[1..] == x[1..] + ">" + y;
      SkipTagPast(x[1..], y);
    }
  }

  /** A tag without a '>' inside is dropped whole. */
  lemma StripTagsTag(inner: string, y: string)
    requires forall i :: 0 <= i < |inner| ==> inner[i] != '>'
    ensures StripTags("<" + inner + ">" + y) == StripTags(y)
  {
    var t := "<" + inner + ">" + y;
    assert t[1..] == inner + ">" + y;
    SkipTagPast(inner, y);
  }

  lemma NoGtConcat(a: string, b: string)
    requires forall i :: 0 <= i < |a| ==> a[i] != '>'
    requires forall i :: 0 <= i < |b| ==> b[i] != '>'
    ensures forall i :: 0 <= i < |a + b| ==> (a + b)[i] != '>'
  {
  }

  lemma MarkClassNoGt()
    ensures forall i :: 0 <= i < |MarkClass| ==> MarkClass[i] != '>'
  {
    var x := "bg-yellow-300" + " text-gray-900";
    assert forall i :: 0 <= i < |x| ==> x[i] != '>';
    var y := " font-semibold" + " px-0.5" + " rounded";
    assert forall i :: 0 <= i < |y| ==> y[i] != '>';
    NoGtConcat(x, y);
    assert MarkClass == x + y;
  }

  lemma MarkAttributesNoGt()
    ensures forall i :: 0 <= i < |MarkAttributes| ==> MarkAttributes[i] != '>'
  {
    MarkClassNoGt();
    NoGtConcat("mark class=\"", MarkClass);
    NoGtConcat("mark class=\"" + MarkClass, "\"");
  }

  lemma MarkTags(y: string)
    ensures StripTags(MarkOpen + y) == StripTags(y)
    ensures StripTags(MarkClose + y) == StripTags(y)
  {
    MarkAttributesNoGt();
    StripTagsTag(MarkAttributes, y);
    assert MarkClose == "<" + "/mark" + ">";
    StripTagsTag("/mark", y);
  }

  /** Stripping the tags from one marked match keeps the escaped gap and the escaped match. */
  lemma StripTagsSegment(g: string, m: string, tail: string)
    requires forall i :: 0 <= i < |g| ==> g[i] != '<'
    requires forall i :: 0 <= i < |m| ==> m[i] != '<'
    ensures StripTags(g + MarkOpen + m + MarkClose + tail) == g + m + StripTags(tail)
  {
    assert g + MarkOpen + m + MarkClose + tail == g + (MarkOpen + (m + (MarkClose + tail)));
    StripTagsPlain(g, MarkOpen + (m + (MarkClose + tail)));
    MarkTags(m + (MarkClose + tail));
    StripTagsPlain(m, MarkClose + tail);
    MarkTags(tail);
    assert g + (m + StripTags(tail)) == g + m + StripTags(tail);
  }

  lemma {:induction false} StripTagsMarked(parts: seq<string>)
    requires |parts| % 2 == 1
    ensures StripTags(Marked(parts)) == EscapeHtml(Concat(parts))
    decreases |parts|
  {
    if |parts| == 1 {
      var e := EscapeHtml(parts[0]);
      StripTagsPlain(e, []);
      assert e + [] == e;
      assert StripTags([]) == [];
      assert parts[1..] == [];
      assert Concat(parts) == parts[0];
    } else {
      StripTagsMarked(parts[2..]);
      StripTagsMarkedStep(parts[0], parts[1], parts[2..]);
      assert parts == [parts[0], parts[1]] + parts[2..];
    }
  }

  lemma MarkedCons(g: string, m: string, rest: seq<string>)
    requires |rest| % 2 == 1
    ensures Marked([g, m] + rest) == EscapeHtml(g) + MarkOpen + EscapeHtml(m) + MarkClose + Marked(rest)
    ensures Concat([g, m] + rest) == g + (m + Concat(rest))
  {
    var parts := [g, m] + rest;
    assert parts[0] == g && parts[1] == m && parts[2..] == rest && parts[1..][1..] == rest;
    Regroup(EscapeHtml(g), MarkOpen, EscapeHtml(m), MarkClose, Marked(rest));
  }

  lemma Regroup(a: string, b: string, c: string, d: string, e: string)
    ensures a + (b + c + d + e) == a + b + c + d + e
  {
  }

  lemma StripTagsMarkedStep(g: string, m: string, rest: seq<string>)
    requires |rest| % 2 == 1
    requires StripTags(Marked(rest)) == EscapeHtml(Concat(rest))
    ensures StripTags(Marked([g, m] + rest)) == EscapeHtml(Concat([g, m] + rest))
  {
    MarkedCons(g, m, rest);
    StripTagsSegment(EscapeHtml(g), EscapeHtml(m), Marked(rest));
    EscapeHtmlConcat(m, Concat(rest));
    EscapeHtmlConcat(g, m + Concat(rest));
    AppendAssoc(EscapeHtml(g), EscapeHtml(m), EscapeHtml(Concat(rest)));
  }

  /**
   * For a non-blank query, removing the mark tags from highlightText's output
   * and reading the entities back gives the original text.
   */
  lemma HighlightRoundTrip(text: string, query: string)
    requires !IsBlank(query)
    ensures UnescapeHtml(StripTags(HighlightText(text, query))) == text
  {
    HighlightMarksOccurrences(text, query);
    var parts :| Greedy(text, query, 0, parts) && HighlightText(text, query) == Marked(parts);
    StripTagsMarked(parts);
    TilingConcat(text, |query|, Matches(text, query), 0, parts);
    UnescapeEscapeHtml(text);
  }

  // ---------------------------------------------------------------------
  // The blank-query path
  // ---------------------------------------------------------------------

  /**
   * As written, a blank query returns the text without escaping, so markup in
   * the text is read as markup: for the text "<i>" nothing of it is shown.
   */
  lemma BlankQueryTextNotEscaped()
    ensures IsBlank("") && HighlightText("<i>", "") == "<i>"
    ensures UnescapeHtml(StripTags(HighlightText("<i>", ""))) != "<i>"
  {
    assert SkipTag("i>") == [] by {
      assert "i>"[1..] == ">";
      assert ">"[1..] == [];
    }
    assert "<i>"[1..] == "i>";
    assert StripTags("<i>") == [];
  }

  /** highlightText with the blank-query path escaping the text like every other path. */
  function HighlightTextEscaped(text: string, query: string): string
  {
    if IsBlank(query) then EscapeHtml(text) else HighlightText(text, query)
  }

  /** Read as HTML, the corrected highlight shows exactly the text, for every query. */
  lemma HighlightEscapedRoundTrip(text: string, query: string)
    ensures UnescapeHtml(StripTags(HighlightTextEscaped(text, query))) == text
  {
    if IsBlank(query) {
      StripTagsPlain(EscapeHtml(text), []);
      assert EscapeHtml(text) + [] == EscapeHtml(text);
      assert StripTags([]) == [];
      UnescapeEscapeHtml(text);
    } else {
      HighlightRoundTrip(text, query);
    }
  }
}
