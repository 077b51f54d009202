/** Shared vocabulary: bytes, optional values, the error taxonomy of the
    system's exceptions, and the string helpers that Python's `str` methods
    provide (`in`, `lower`, `isspace`, `strip`, `split`, `replace`). */
module Common {

  type byte = x: int | 0 <= x < 256
  type bytes = seq<byte>

  datatype Option<+T> = None | Some(value: T) {
    function GetOr(default: T): T {
      match this
      case Some(v) => v
      case None => default
    }
  }

  /** Why an operation failed: the cause carried by the exception. */
  datatype Reason =
    | SaltFileMissing
    | SecretUnset(name: string)
    | FileMissing(path: string)
    | WriteDenied(path: string)
    | ReadDenied(path: string)
    | InvalidKey
    | InvalidToken
    | InvalidJson
    | IntegerTooLong
    | NonAsciiDigest
    | SectionMissing(section: string)
    | ServiceMissing(service: string)
    | NotAMapping

  /** The exception class that reaches the caller. `Raised` is a foreign
      exception that nothing wrapped. */
  datatype Error =
    | SecureDataError(reason: Reason)
    | ConfigError(reason: Reason)
    | Raised(reason: Reason)

  datatype Result<+T> = Ok(value: T) | Err(error: Error)

  // ---------------------------------------------------------------------
  // Substrings: Python's `needle in haystack` on strings.

  /** `needle` occurs in `hay` at offset `i`. */
  ghost predicate OccursAt(needle: string, hay: string, i: int) {
    0 <= i && i + |needle| <= |hay| && hay[i..i + |needle|] == needle
  }

  function Contains(hay: string, needle: string): (r: bool)
    ensures r <==> exists i :: OccursAt(needle, hay, i)
    decreases |hay|
  {
    if |needle| <= |hay| && hay[..|needle|] == needle then
      assert OccursAt(needle, hay, 0);
      true
    else if |hay| <= |needle| then
      assert forall i :: !OccursAt(needle, hay, i) by {
        forall i ensures !OccursAt(needle, hay, i) {
          if 0 <= i && i + |needle| <= |hay| {
            assert hay[i..i + |needle|] == hay[..|needle|];
          }
        }
      }
      false
    else
      var rest := Contains(hay[1..], needle);
      ShiftOccurrence(needle, hay);
      rest
  }

  /** An occurrence in `hay` past its first position is an occurrence in
      `hay[1..]`, and the other way round. */
  lemma ShiftOccurrence(needle: string, hay: string)
    requires |hay| > 0
    requires !(|needle| <= |hay| && hay[..|needle|] == needle)
    ensures (exists i :: OccursAt(needle, hay, i)) <==> (exists i :: OccursAt(needle, hay[1..], i))
  {
    if i :| OccursAt(needle, hay, i) {
      assert i != 0 by {
        assert hay[..|needle|] == hay[0..0 + |needle|];
      }
      assert hay[1..][i - 1..i - 1 + |needle|] == hay[i..i + |needle|];
      assert OccursAt(needle, hay[1..], i - 1);
    }
    if i :| OccursAt(needle, hay[1..], i) {
      assert hay[1..][i..i + |needle|] == hay[i + 1..i + 1 + |needle|];
      assert OccursAt(needle, hay, i + 1);
    }
  }

  // ---------------------------------------------------------------------
  // Character classes.

  /** `str.isspace()` of CPython, which is also what the `\s` class of `re`
      matches in a `str` pattern. */
  predicate IsSpace(c: char) {
    c == ' ' || ('\t' <= c <= '\r') || ('\U{1c}' <= c <= '\U{1f}') ||
    c == '\U{85}' || c == '\U{a0}' || c == '\U{1680}' || ('\U{2000}' <= c <= '\U{200a}') ||
    c == '\U{2028}' || c == '\U{2029}' || c == '\U{202f}' || c == '\U{205f}' || c == '\U{3000}'
  }

  predicate IsAscii(c: char) {
    c < '\U{80}'
  }

  predicate IsAsciiString(s: string) {
    forall i :: 0 <= i < |s| ==> IsAscii(s[i])
  }

  /** `str.lower()` restricted to ASCII capitals. */
  function LowerChar(c: char): (r: char)
    ensures 'A' <= c <= 'Z' ==> 'a' <= r <= 'z'
    ensures !('A' <= c <= 'Z') ==> r == c
  {
    if 'A' <= c <= 'Z' then (c as int - 'A' as int + 'a' as int) as char else c
  }

  function Lower(s: string): (r: string)
    ensures |r| == |s|
    ensures forall i :: 0 <= i < |s| ==> r[i] == LowerChar(s[i])
  {
    seq(|s|, i requires 0 <= i < |s| => LowerChar(s[i]))
  }

  // ---------------------------------------------------------------------
  // `str.strip()` with no argument.

  function StripLeft(s: string): (r: string)
    ensures |r| <= |s| && r == s[|s| - |r|..]
    ensures r == [] || !IsSpace(r[0])
    ensures forall i :: 0 <= i < |s| - |r| ==> IsSpace(s[i])
  {
    if s != [] && IsSpace(s[0]) then StripLeft(s[1..]) else s
  }

  function StripRight(s: string): (r: string)
    ensures |r| <= |s| && r == s[..|r|]
    ensures r == [] || !IsSpace(r[|r| - 1])
    ensures forall i :: |r| <= i < |s| ==> IsSpace(s[i])
  {
    if s != [] && IsSpace(s[|s| - 1]) then StripRight(s[..|s| - 1]) else s
  }

  predicate AllSpace(s: string) {
    forall k :: 0 <= k < |s| ==> IsSpace(s[k])
  }

  function Strip(s: string): (r: string)
    ensures |r| <= |s|
    ensures r == [] || (!IsSpace(r[0]) && !IsSpace(r[|r| - 1]))
    ensures forall c :: c in r ==> c in s
  {
    StripRight(StripLeft(s))
  }

  /** `s.strip()` is the slice of `s` left once its leading and its
      trailing whitespace are cut off. */
  lemma StripIsSlice(s: string)
    ensures exists i, j :: 0 <= i <= j <= |s| && Strip(s) == s[i..j] && AllSpace(s[..i]) && AllSpace(s[j..])
  {
    var left := StripLeft(s);
    var r := StripRight(left);
    var i, j := |s| - |left|, |s| - |left| + |r|;
    assert r == s[i..j];
    assert AllSpace(s[..i]);
    assert AllSpace(s[j..]) by {
      forall k | 0 <= k < |s[j..]| ensures IsSpace(s[j..][k]) {
        assert s[j..][k] == left[|r| + k];
      }
    }
  }

  /** `c * n`: the character `c`, `n` times. */
  function Repeat(c: char, n: nat): (r: string)
    ensures |r| == n && forall i :: 0 <= i < n ==> r[i] == c
  {
    seq(n, _ => c)
  }

  // ---------------------------------------------------------------------
  // `str.split(sep)` for a one-character separator, and its inverse `join`.

  function Split(s: string, sep: char): (parts: seq<string>)
    ensures |parts| >= 1
    ensures forall k :: 0 <= k < |parts| ==> sep !in parts[k]
  {
    if sep !in s then [s]
    else
      var i := IndexOf(s, sep);
      [s[..i]] + Split(s[i + 1..], sep)
  }

  function IndexOf(s: string, c: char): (i: nat)
    requires c in s
    ensures i < |s| && s[i] == c && c !in s[..i]
  {
    if s[0] == c then 0 else 1 + IndexOf(s[1..], c)
  }

  function Join(parts: seq<string>, sep: char): string
    requires |parts| >= 1
  {
    if |parts| == 1 then parts[0] else parts[0] + [sep] + Join(parts[1..], sep)
  }

  /** Splitting undoes joining pieces that do not contain the separator. */
  lemma {:induction false} SplitJoin(parts: seq<string>, sep: char)
    requires |parts| >= 1
    requires forall k :: 0 <= k < |parts| ==> sep !in parts[k]
    ensures Split(Join(parts, sep), sep) == parts
  {
    if |parts| == 1 {
    } else {
      var rest := Join(parts[1..], sep);
      assert Join(parts, sep) == parts[0] + [sep] + rest;
      SplitJoin(parts[1..], sep);
      SplitAtFirst(parts[0], sep, rest);
      assert parts == [parts[0]] + parts[1..];
    }
  }

  /** Splitting at a first separator right after `a`. */
  lemma SplitAtFirst(a: string, c: char, b: string)
    requires c !in a
    ensures Split(a + [c] + b, c) == [a] + Split(b, c)
  {
    var s := a + [c] + b;
    assert s[|a|] == c;
    IndexOfAfter(a, c, b);
    assert s[..|a|] == a;
    assert s[|a| + 1..] == b;
  }

  /** The first separator of `a + [c] + b` is the one after `a` when `a`
      holds none. */
  lemma {:induction false} IndexOfAfter(a: string, c: char, b: string)
    requires c !in a
    ensures IndexOf(a + [c] + b, c) == |a|
  {
    if a != [] {
      assert (a + [c] + b)[1..] == a[1..] + [c] + b;
      IndexOfAfter(a[1..], c, b);
    }
  }

  /** Joining a part in front of at least one more. */
  lemma JoinCons(head: string, tail: seq<string>, sep: char)
    requires |tail| >= 1
    ensures Join([head] + tail, sep) == head + [sep] + Join(tail, sep)
  {
    assert ([head] + tail)[1..] == tail;
  }

  /** A string is the part before its first separator, the separator and
      the rest. */
  lemma AroundFirst(s: string, sep: char)
    requires sep in s
    ensures s == s[..IndexOf(s, sep)] + [sep] + s[IndexOf(s, sep) + 1..]
  {
  }

  /** Joining undoes splitting. */
  lemma {:induction false} JoinSplit(s: string, sep: char)
    ensures Join(Split(s, sep), sep) == s
    decreases |s|
  {
    if sep in s {
      var i := IndexOf(s, sep);
      var rest := s[i + 1..];
      JoinSplit(rest, sep);
      JoinCons(s[..i], Split(rest, sep), sep);
      AroundFirst(s, sep);
    }
  }

  // ---------------------------------------------------------------------
  // One-character rewrites: `s.replace(a, b)` and `s.replace(a, "")` for a
  // single character `a`.

  function ReplaceChar(s: string, a: char, b: char): (r: string)
    ensures |r| == |s|
    ensures forall i :: 0 <= i < |s| ==> r[i] == (if s[i] == a then b else s[i])
  {
    seq(|s|, i requires 0 <= i < |s| => if s[i] == a then b else s[i])
  }

  /** `s` with every `a` taken out: the other characters, each as often as
      in `s`. */
  function RemoveChar(s: string, a: char): (r: string)
    ensures a !in r
    ensures |r| <= |s|
    ensures forall c :: c in r ==> c in s
    ensures a !in s ==> r == s
  {
    if s == [] then []
    else (if s[0] == a then [] else [s[0]]) + RemoveChar(s[1..], a)
  }

  /** Every character other than `a` is kept as often as it occurs. */
  lemma {:induction false} RemoveCharCounts(s: string, a: char)
    ensures multiset(RemoveChar(s, a)) == multiset(s)[a := 0]
  {
    if s != [] {
      assert s == [s[0]] + s[1..];
      RemoveCharCounts(s[1..], a);
    }
  }

  /** Removal works piece by piece, so the characters kept stay in their
      order. */
  lemma {:induction false} RemoveCharAppend(s: string, t: string, a: char)
    ensures RemoveChar(s + t, a) == RemoveChar(s, a) + RemoveChar(t, a)
  {
    if s == [] {
      assert s + t == t;
    } else {
      var c, rest := s[0], s[1..];
      assert s == [c] + rest;
      assert s + t == [c] + (rest + t);
      RemoveCharCons(c, rest + t, a);
      RemoveCharCons(c, rest, a);
      RemoveCharAppend(rest, t, a);
      ConcatAssoc(if c == a then [] else [c], RemoveChar(rest, a), RemoveChar(t, a));
    }
  }

  lemma RemoveCharCons(c: char, t: string, a: char)
    ensures RemoveChar([c] + t, a) == (if c == a then [] else [c]) + RemoveChar(t, a)
  {
    assert ([c] + t)[0] == c;
    assert ([c] + t)[1..] == t;
  }

  lemma ConcatAssoc<T>(x: seq<T>, y: seq<T>, z: seq<T>)
    ensures x + (y + z) == (x + y) + z
  {
  }

  // ---------------------------------------------------------------------
  // Positions that satisfy a test

  /** The positions `i` with `lo <= i < hi` and `keep(i)`, in increasing
      order. */
  function Where(lo: nat, hi: nat, keep: nat -> bool): (w: seq<nat>)
    ensures |w| <= if lo <= hi then hi - lo else 0
    ensures forall k :: 0 <= k < |w| ==> lo <= w[k] < hi && keep(w[k])
    ensures forall k, l :: 0 <= k < l < |w| ==> w[k] < w[l]
    ensures forall i :: lo <= i < hi && keep(i) ==> i in w
    decreases hi - lo
  {
    if lo >= hi then []
    else
      var rest := Where(lo + 1, hi, keep);
      WhereStep(lo, hi, keep, rest);
      (if keep(lo) then [lo] else []) + rest
  }

  /** One step of `Where`: the positions above `lo`, with `lo` in front
      when it passes the test. */
  lemma WhereStep(lo: nat, hi: nat, keep: nat -> bool, rest: seq<nat>)
    requires lo < hi
    requires |rest| <= hi - (lo + 1)
    requires forall k :: 0 <= k < |rest| ==> lo + 1 <= rest[k] < hi && keep(rest[k])
    requires forall k, l :: 0 <= k < l < |rest| ==> rest[k] < rest[l]
    requires forall i :: lo + 1 <= i < hi && keep(i) ==> i in rest
    ensures var w := (if keep(lo) then [lo] else []) + rest;
            && |w| <= hi - lo
            && (forall k :: 0 <= k < |w| ==> lo <= w[k] < hi && keep(w[k]))
            && (forall k, l :: 0 <= k < l < |w| ==> w[k] < w[l])
            && (forall i :: lo <= i < hi && keep(i) ==> i in w)
  {
    var w := (if keep(lo) then [lo] else []) + rest;
    if keep(lo) {
      assert forall k :: 1 <= k < |w| ==> w[k] == rest[k - 1];
    } else {
      assert w == rest;
    }
  }

  // ---------------------------------------------------------------------
  // Collecting the values a loop keeps

  /** The values `g` yields over `xs`, in order, the `None`s skipped. */
  function Collect<A, B>(xs: seq<A>, g: A -> Option<B>): (r: seq<B>)
    ensures |r| <= |xs|
  {
    if xs == [] then []
    else Collect(xs[..|xs| - 1], g) + (if g(xs[|xs| - 1]).Some? then [g(xs[|xs| - 1]).value] else [])
  }

  /** Every collected value satisfies what every value of `g` satisfies. */
  lemma {:induction false} CollectAll<A, B>(xs: seq<A>, g: A -> Option<B>, p: B -> bool)
    requires forall x :: g(x).Some? ==> p(g(x).value)
    ensures forall k :: 0 <= k < |Collect(xs, g)| ==> p(Collect(xs, g)[k])
  {
    if xs != [] {
      CollectAll(xs[..|xs| - 1], g, p);
    }
  }
}
