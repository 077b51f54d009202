/** `TrainingDataPreparer.clean_text`: collapse whitespace, replace every
    character outside a small allowed set by a space, normalise quotes and
    dashes, drop HTML-like tags, cap the length, strip. */
module TextCleaning {
  import opened Common

  const MAX_TEXT_LENGTH: nat := 5000
  const ELLIPSIS := "..."
  /** The punctuation the filter keeps besides word characters and whitespace. */
  const PUNCTUATION := ".,!?;:-()[]{}"
  /** The UTF-8 bytes of an en dash and an em dash read as Windows-1252. */
  const MOJIBAKE_EN_DASH := "\U{e2}\U{20ac}\U{201c}"
  const MOJIBAKE_EM_DASH := "\U{e2}\U{20ac}\U{201d}"

  /** `\w`, restricted to ASCII. */
  predicate IsWordChar(c: char) {
    ('a' <= c <= 'z') || ('A' <= c <= 'Z') || ('0' <= c <= '9') || c == '_'
  }

  /** What `[\w\s\.\,\!\?\;\:\-\(\)\[\]\{\}]` matches. */
  predicate IsAllowed(c: char) {
    IsWordChar(c) || IsSpace(c) || c in PUNCTUATION
  }

  /** What a cleaned text is made of: after whitespace has been collapsed,
      the only whitespace left is the plain space. */
  predicate IsCleanChar(c: char) {
    IsWordChar(c) || c == ' ' || c in PUNCTUATION
  }

  /** The characters of `s` that are not whitespace, in order. */
  function NonSpace(s: string): (r: string)
    ensures |r| <= |s|
  {
    if s == [] then [] else (if IsSpace(s[0]) then [] else [s[0]]) + NonSpace(s[1..])
  }

  lemma {:induction false} NonSpaceOfSpaces(s: string)
    requires forall i :: 0 <= i < |s| ==> IsSpace(s[i])
    ensures NonSpace(s) == []
  {
    if s != [] {
      NonSpaceOfSpaces(s[1..]);
    }
  }

  lemma {:induction false} NonSpaceAppend(a: string, b: string)
    ensures NonSpace(a + b) == NonSpace(a) + NonSpace(b)
  {
    if a == [] {
      assert a + b == b;
    } else {
      assert (a + b)[0] == a[0];
      assert (a + b)[1..] == a[1..] + b;
      NonSpaceAppend(a[1..], b);
    }
  }

  /** `re.sub(r'\s+', ' ', s)`: a whitespace character followed by another
      one is dropped, the last of a run becomes a space. */
  function CollapseWhitespace(s: string): (r: string)
    ensures forall i :: 0 <= i < |r| && IsSpace(r[i]) ==> r[i] == ' '
  {
    if s == [] then []
    else if IsSpace(s[0]) && |s| > 1 && IsSpace(s[1]) then CollapseWhitespace(s[1..])
    else [if IsSpace(s[0]) then ' ' else s[0]] + CollapseWhitespace(s[1..])
  }

  /** Collapsing works run by run: a text cut where a whitespace run does
      not continue across the cut collapses as its two pieces do. With
      `CollapseBlank` and `CollapseKeepsChar` this fixes the result of every
      text: each maximal whitespace run becomes one space, every other
      character stays where it was. */
  lemma {:induction false} CollapseJoin(a: string, b: string)
    requires a == [] || b == [] || !IsSpace(a[|a| - 1]) || !IsSpace(b[0])
    ensures CollapseWhitespace(a + b) == CollapseWhitespace(a) + CollapseWhitespace(b)
  {
    if a == [] {
      assert a + b == b;
    } else {
      var c, rest := a[0], a[1..];
      assert a == [c] + rest;
      assert a + b == [c] + (rest + b);
      if rest == [] {
        CollapseJoinSingle(c, b);
      } else {
        assert rest[|rest| - 1] == a[|a| - 1];
        CollapseJoin(rest, b);
        CollapseJoinStep(c, rest, b);
      }
    }
  }

  /** The base case of `CollapseJoin`: one character in front of `b`. */
  lemma CollapseJoinSingle(c: char, b: string)
    requires b == [] || !IsSpace(c) || !IsSpace(b[0])
    ensures CollapseWhitespace([c] + b) == CollapseWhitespace([c]) + CollapseWhitespace(b)
  {
    CollapseCons(c, b);
    CollapseCons(c, []);
    assert [c] + [] == [c];
  }

  /** The step of `CollapseJoin`: putting a character in front keeps the join. */
  lemma CollapseJoinStep(c: char, rest: string, b: string)
    requires rest != []
    requires CollapseWhitespace(rest + b) == CollapseWhitespace(rest) + CollapseWhitespace(b)
    ensures CollapseWhitespace([c] + (rest + b)) == CollapseWhitespace([c] + rest) + CollapseWhitespace(b)
  {
    CollapseCons(c, rest);
    CollapseCons(c, rest + b);
    assert (rest + b)[0] == rest[0];
    PrefixJoin(IsSpace(c) && IsSpace(rest[0]), [if IsSpace(c) then ' ' else c],
               CollapseWhitespace(rest), CollapseWhitespace(b));
  }

  /** Putting `head` in front of both `x + y` and `x`, or in front of
      neither, keeps the first the join of the second and `y`. */
  lemma PrefixJoin(skip: bool, head: string, x: string, y: string)
    ensures (if skip then x + y else head + (x + y)) == (if skip then x else head + x) + y
  {
    if !skip {
      assert head + (x + y) == (head + x) + y;
    }
  }

  /** One step of `CollapseWhitespace`, with the first character split off. */
  lemma CollapseCons(c: char, t: string)
    ensures CollapseWhitespace([c] + t)
            == if IsSpace(c) && t != [] && IsSpace(t[0]) then CollapseWhitespace(t)
               else [if IsSpace(c) then ' ' else c] + CollapseWhitespace(t)
  {
    assert ([c] + t)[0] == c;
    assert ([c] + t)[1..] == t;
  }

  /** A character that is not whitespace is kept as it is. */
  lemma CollapseKeepsChar(c: char)
    requires !IsSpace(c)
    ensures CollapseWhitespace([c]) == [c]
  {
  }

  /** The 'shape' of the collapse: shorter, empty only for the empty text,
      the first and last characters kept or turned into a space, no two
      spaces in a row, and the other characters kept in order. */
  lemma {:induction false} CollapseWhitespaceSpec(s: string)
    ensures var r := CollapseWhitespace(s);
            && |r| <= |s|
            && (r == [] <==> s == [])
            && (s != [] ==> r[0] == (if IsSpace(s[0]) then ' ' else s[0]))
            && (forall i :: 0 <= i < |r| - 1 ==> !(r[i] == ' ' && r[i + 1] == ' '))
            && NonSpace(r) == NonSpace(s)
  {
    if s != [] {
      var t := CollapseWhitespace(s[1..]);
      CollapseWhitespaceSpec(s[1..]);
      if IsSpace(s[0]) && |s| > 1 && IsSpace(s[1]) {
        assert NonSpace(s) == NonSpace(s[1..]);
      } else {
        var c := if IsSpace(s[0]) then ' ' else s[0];
        var r := [c] + t;
        assert r[1..] == t;
        assert NonSpace(r) == NonSpace(s) by {
          assert r[0] == c;
        }
        forall i | 0 <= i < |r| - 1 ensures !(r[i] == ' ' && r[i + 1] == ' ') {
          if i == 0 && c == ' ' {
            assert r[1] == t[0];
          }
        }
      }
    }
  }

  /** The last character is kept, or becomes a space when it is whitespace. */
  lemma {:induction false} CollapseLast(s: string)
    requires s != []
    ensures var r := CollapseWhitespace(s);
            r != [] && r[|r| - 1] == (if IsSpace(s[|s| - 1]) then ' ' else s[|s| - 1])
  {
    if |s| > 1 {
      CollapseLast(s[1..]);
      assert s[1..][|s| - 2] == s[|s| - 1];
    }
  }

  /** `re.sub(r'[^\w\s...]', ' ', s)`: a disallowed character becomes a
      space, position by position. */
  function FilterChars(s: string): (r: string)
    ensures |r| == |s|
    ensures forall i :: 0 <= i < |s| ==> r[i] == (if IsAllowed(s[i]) then s[i] else ' ')
  {
    seq(|s|, i requires 0 <= i < |s| => if IsAllowed(s[i]) then s[i] else ' ')
  }

  /** `s.replace(pattern, replacement)`: occurrences replaced left to right, without
      overlap. */
  function ReplaceAll(s: string, pattern: string, replacement: string): string
    requires pattern != []
    decreases |s|
  {
    if |s| < |pattern| then s
    else if s[..|pattern|] == pattern then replacement + ReplaceAll(s[|pattern|..], pattern, replacement)
    else [s[0]] + ReplaceAll(s[1..], pattern, replacement)
  }

  /** A text lacking one of the characters of `pattern` has no occurrence to
      replace. */
  lemma {:induction false} ReplaceAbsent(s: string, pattern: string, replacement: string, c: char)
    requires pattern != [] && c in pattern && c !in s
    ensures ReplaceAll(s, pattern, replacement) == s
    decreases |s|
  {
    if |s| >= |pattern| {
      assert s[..|pattern|] != pattern by {
        var k :| 0 <= k < |pattern| && pattern[k] == c;
        assert s[..|pattern|][k] == s[k];
      }
      ReplaceAbsent(s[1..], pattern, replacement, c);
      assert s == [s[0]] + s[1..];
    }
  }

  /** `re.sub(r'<[^>]+>', '', s)`: a `<`, at least one character other than
      `>`, and the first `>` after them, are removed together. */
  function RemoveTags(s: string): (r: string)
    decreases |s|
  {
    if s == [] then []
    else if s[0] == '<' && '>' in s[1..] && IndexOf(s[1..], '>') >= 1 then
      RemoveTags(s[IndexOf(s[1..], '>') + 2..])
    else [s[0]] + RemoveTags(s[1..])
  }

  /** Without a `<` there is no tag to remove. */
  lemma {:induction false} RemoveTagsNoOpen(s: string)
    requires '<' !in s
    ensures RemoveTags(s) == s
  {
    if s != [] {
      RemoveTagsNoOpen(s[1..]);
      assert s == [s[0]] + s[1..];
    }
  }

  /** At most 5000 characters, followed by `"..."` when something was cut. */
  function Truncate(s: string): (r: string)
    ensures |s| <= MAX_TEXT_LENGTH ==> r == s
    ensures |s| > MAX_TEXT_LENGTH ==> r == s[..MAX_TEXT_LENGTH] + ELLIPSIS
    ensures |r| <= MAX_TEXT_LENGTH + |ELLIPSIS|
  {
    if |s| > MAX_TEXT_LENGTH then s[..MAX_TEXT_LENGTH] + ELLIPSIS else s
  }

  predicate AllClean(s: string) {
    forall i :: 0 <= i < |s| ==> IsCleanChar(s[i])
  }

  /** Filtering a text whose only whitespace is the plain space leaves
      clean characters only. */
  lemma FilteredIsClean(s: string)
    requires forall i :: 0 <= i < |s| && IsSpace(s[i]) ==> s[i] == ' '
    ensures AllClean(FilterChars(s))
  {
  }

  /** Cutting and stripping keep a text clean. */
  lemma CutKeepsClean(s: string)
    requires AllClean(s)
    ensures AllClean(Strip(Truncate(s)))
  {
    var t := Truncate(s);
    assert AllClean(t) by {
      if |s| > MAX_TEXT_LENGTH {
        assert forall i :: MAX_TEXT_LENGTH <= i < |t| ==> t[i] == '.';
      }
    }
    var r := Strip(t);
    forall i | 0 <= i < |r| ensures IsCleanChar(r[i]) {
      assert r[i] in t;
    }
  }

  /** A clean text has no angle brackets. */
  lemma CleanHasNoBrackets(s: string)
    requires AllClean(s)
    ensures '<' !in s && '>' !in s
  {
    assert !IsCleanChar('<') && !IsCleanChar('>');
  }

  /** Nothing the filter lets through is a `"`, a `€`, a `<` or a `>`. */
  lemma FilterExcludes(s: string, c: char)
    requires !IsAllowed(c)
    ensures c !in FilterChars(s)
  {
  }

  /** The rewrites of `clean_text`, each a whole-text substitution. */
  datatype Rewrite =
    | CollapseSpaces
    | DropDisallowed
    | SwapChar(from: char, to: char)
    | Replace(pattern: string, replacement: string)
    | DropTags
    | Cut
    | StripEnds

  function ApplyRewrite(w: Rewrite, s: string): string {
    match w
    case CollapseSpaces => CollapseWhitespace(s)
    case DropDisallowed => FilterChars(s)
    case SwapChar(from, to) => ReplaceChar(s, from, to)
    case Replace(pattern, replacement) => if pattern == [] then s else ReplaceAll(s, pattern, replacement)
    case DropTags => RemoveTags(s)
    case Cut => Truncate(s)
    case StripEnds => Strip(s)
  }

  /** The rewrites applied in order. */
  function ApplyAll(ws: seq<Rewrite>, s: string): string {
    if ws == [] then s else ApplyAll(ws[1..], ApplyRewrite(ws[0], s))
  }

  const CLEANING: seq<Rewrite> := [
    CollapseSpaces, DropDisallowed, SwapChar('"', '"'), SwapChar('"', '"'),
    Replace(MOJIBAKE_EN_DASH, "-"), Replace(MOJIBAKE_EM_DASH, "-"),
    DropTags, Cut, StripEnds
  ]

  /** `clean_text(text)`: an empty text is returned as it is, any other
      goes through the rewrites in order. */
  function CleanText(text: string): string {
    if text == "" then "" else ApplyAll(CLEANING, text)
  }

  /** What a cleaned text looks like: at most 5003 characters, word
      characters, plain spaces and the kept punctuation only, hence no tag
      brackets; the empty text stays empty. */
  lemma CleanTextProperties(text: string)
    ensures text == "" ==> CleanText(text) == ""
    ensures |CleanText(text)| <= MAX_TEXT_LENGTH + |ELLIPSIS|
    ensures AllClean(CleanText(text))
    ensures '<' !in CleanText(text) && '>' !in CleanText(text)
  {
    if text != "" {
      CleaningSimplified(text);
      var filtered := FilterChars(CollapseWhitespace(text));
      FilteredIsClean(CollapseWhitespace(text));
      CutKeepsClean(filtered);
      CleanHasNoBrackets(Strip(Truncate(filtered)));
    }
  }

  /** The rewrites applied in order reduce to four of them. */
  lemma CleaningSimplified(text: string)
    ensures ApplyAll(CLEANING, text) == Strip(Truncate(FilterChars(CollapseWhitespace(text))))
  {
    var c := FilterChars(CollapseWhitespace(text));
    CleanStepsAreNoOps(text);
    var ws := CLEANING;
    assert ws[0] == CollapseSpaces && ws[1] == DropDisallowed;
    assert ApplyAll(ws, text) == ApplyAll(ws[1..], CollapseWhitespace(text));
    assert ApplyAll(ws[1..], CollapseWhitespace(text)) == ApplyAll(ws[2..], c);
    NoOpTail(c);
  }

  /** The rewrites after the filter, on a text they leave unchanged up to
      the cut: only the cut and the strip remain. */
  lemma NoOpTail(c: string)
    requires ReplaceChar(c, '"', '"') == c
    requires ReplaceAll(c, MOJIBAKE_EN_DASH, "-") == c && ReplaceAll(c, MOJIBAKE_EM_DASH, "-") == c
    requires RemoveTags(c) == c
    ensures ApplyAll(CLEANING[2..], c) == Strip(Truncate(c))
  {
    var ws := CLEANING;
    assert ws[2] == SwapChar('"', '"') && ws[3] == SwapChar('"', '"');
    assert ws[4] == Replace(MOJIBAKE_EN_DASH, "-") && ws[5] == Replace(MOJIBAKE_EM_DASH, "-");
    assert ws[6] == DropTags && ws[7] == Cut && ws[8] == StripEnds;
    assert ApplyAll(ws[2..], c) == ApplyAll(ws[3..], c);
    assert ApplyAll(ws[3..], c) == ApplyAll(ws[4..], c);
    assert ApplyAll(ws[4..], c) == ApplyAll(ws[5..], c);
    assert ApplyAll(ws[5..], c) == ApplyAll(ws[6..], c);
    assert ApplyAll(ws[6..], c) == ApplyAll(ws[7..], c);
    assert ApplyAll(ws[7..], c) == ApplyAll(ws[8..], Truncate(c));
    assert ApplyAll(ws[8..], Truncate(c)) == ApplyAll(ws[9..], Strip(Truncate(c)));
  }

  /** Once the filter has run, the quote and dash rewrites and the tag
      removal change nothing: `"`, `€`, `<` and `>` are not allowed
      characters. So the cleaner is a whitespace collapse, a filter, a cut
      and a strip. */
  lemma CleanStepsAreNoOps(text: string)
    ensures var filtered := FilterChars(CollapseWhitespace(text));
            && ReplaceChar(filtered, '"', '"') == filtered
            && ReplaceAll(filtered, MOJIBAKE_EN_DASH, "-") == filtered
            && ReplaceAll(filtered, MOJIBAKE_EM_DASH, "-") == filtered
            && RemoveTags(filtered) == filtered
  {
    var filtered := FilterChars(CollapseWhitespace(text));
    assert ReplaceChar(filtered, '"', '"') == filtered;
    FilterExcludes(CollapseWhitespace(text), '\U{20ac}');
    FilterExcludes(CollapseWhitespace(text), '<');
    assert '\U{20ac}' in MOJIBAKE_EN_DASH && '\U{20ac}' in MOJIBAKE_EM_DASH;
    ReplaceAbsent(filtered, MOJIBAKE_EN_DASH, "-", '\U{20ac}');
    ReplaceAbsent(filtered, MOJIBAKE_EM_DASH, "-", '\U{20ac}');
    RemoveTagsNoOpen(filtered);
  }

  /** The cleaner is a whitespace collapse, a filter, a cut and a strip. */
  lemma CleanTextSimplified(text: string)
    requires text != ""
    ensures CleanText(text) == Strip(Truncate(FilterChars(CollapseWhitespace(text))))
  {
    CleaningSimplified(text);
  }

  /** A non-empty run of whitespace collapses to one space. */
  lemma {:induction false} CollapseBlank(s: string)
    requires s != [] && forall i :: 0 <= i < |s| ==> IsSpace(s[i])
    ensures CollapseWhitespace(s) == [' ']
  {
    if |s| > 1 {
      assert IsSpace(s[1]);
      CollapseBlank(s[1..]);
    }
  }

  /** A maximal run of whitespace between two pieces becomes exactly one
      space, and the pieces collapse on their own. */
  lemma CollapseRun(a: string, w: string, b: string)
    requires a == [] || !IsSpace(a[|a| - 1])
    requires w != [] && forall i :: 0 <= i < |w| ==> IsSpace(w[i])
    requires b == [] || !IsSpace(b[0])
    ensures CollapseWhitespace(a + (w + b)) == CollapseWhitespace(a) + ([' '] + CollapseWhitespace(b))
  {
    CollapseRunTail(w, b);
    assert (w + b)[0] == w[0];
    CollapseJoin(a, w + b);
  }

  lemma CollapseRunTail(w: string, b: string)
    requires w != [] && forall i :: 0 <= i < |w| ==> IsSpace(w[i])
    requires b == [] || !IsSpace(b[0])
    ensures CollapseWhitespace(w + b) == [' '] + CollapseWhitespace(b)
  {
    CollapseJoin(w, b);
    CollapseBlank(w);
  }

  /** A text of whitespace only cleans to the empty string. */
  lemma BlankCleansToEmpty(text: string)
    requires text != [] && forall i :: 0 <= i < |text| ==> IsSpace(text[i])
    ensures CleanText(text) == ""
  {
    CollapseBlank(text);
    CleanTextSimplified(text);
    assert FilterChars([' ']) == [' '];
    assert StripLeft([' ']) == [];
  }
}
