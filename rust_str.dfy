/**
 * The pieces of Rust's `str` API that the journal logic leans on, stated
 * exactly: `char::is_whitespace`, `trim`, `lines`, `join("\n")`,
 * `starts_with`, `contains`, `split(pat).nth(1)`, `trim_start_matches`
 * and (restricted to ASCII) `to_lowercase`.
 */
module RustStr {
  import opened Wrappers

  /** `char::is_whitespace`: the Unicode `White_Space` property. */
  predicate IsWhitespace(c: char) {
    ('\t' <= c <= '\r') || c == ' ' || c == '\U{85}' || c == '\U{A0}' || c == '\U{1680}'
    || ('\U{2000}' <= c <= '\U{200A}') || c == '\U{2028}' || c == '\U{2029}'
    || c == '\U{202F}' || c == '\U{205F}' || c == '\U{3000}'
  }

  /**
   * Every character is whitespace. The source tests this as
   * `s.trim().is_empty()`; `Trim` below shows that the two agree.
   */
  predicate IsBlank(s: string) {
    forall i :: 0 <= i < |s| ==> IsWhitespace(s[i])
  }

  /** Neither end of `s` is whitespace: what `trim` leaves behind. */
  predicate Trimmed(s: string) {
    s == [] || (!IsWhitespace(s[0]) && !IsWhitespace(s[|s| - 1]))
  }

  /** `trim_start`: drop the leading whitespace. */
  function TrimStart(s: string): (r: string)
    ensures |r| <= |s| && r == s[|s| - |r|..]
    ensures IsBlank(s[..|s| - |r|])
    ensures r == [] || !IsWhitespace(r[0])
  {
    if s != [] && IsWhitespace(s[0]) then
      var r := TrimStart(s[1..]);
      TrimStartStep(s, r);
      r
    else s
  }

  /** `trim_end`: drop the trailing whitespace. */
  function TrimEnd(s: string): (r: string)
    ensures |r| <= |s| && r == s[..|r|]
    ensures IsBlank(s[|r|..])
    ensures r == [] || !IsWhitespace(r[|r| - 1])
  {
    if s != [] && IsWhitespace(s[|s| - 1]) then
      var r := TrimEnd(s[..|s| - 1]);
      TrimEndStep(s, r);
      r
    else s
  }

  /** Trimming the rest after a leading space trims the whole. */
  lemma TrimStartStep(s: string, r: string)
    requires s != [] && IsWhitespace(s[0])
    requires |r| <= |s| - 1 && r == s[1..][|s| - 1 - |r|..] && IsBlank(s[1..][..|s| - 1 - |r|])
    ensures r == s[|s| - |r|..] && IsBlank(s[..|s| - |r|])
  {
    var k := |s| - |r|;
    assert s[1..][k - 1..] == s[k..];
    assert s[..k] == [s[0]] + s[1..][..k - 1];
    BlankConcat([s[0]], s[1..][..k - 1]);
  }

  /** Trimming the text before a trailing space trims the whole. */
  lemma TrimEndStep(s: string, r: string)
    requires s != [] && IsWhitespace(s[|s| - 1])
    requires |r| <= |s| - 1 && r == s[..|s| - 1][..|r|] && IsBlank(s[..|s| - 1][|r|..])
    ensures r == s[..|r|] && IsBlank(s[|r|..])
  {
    assert s[..|s| - 1][..|r|] == s[..|r|];
    assert s[|r|..] == s[..|s| - 1][|r|..] + [s[|s| - 1]];
    BlankConcat(s[..|s| - 1][|r|..], [s[|s| - 1]]);
  }

  /** `trim`: drop whitespace at both ends. */
  function Trim(s: string): (r: string)
    ensures Trimmed(r)
    ensures r == [] <==> IsBlank(s)
    ensures |r| <= |s|
  {
    var t := TrimStart(s);
    var r := TrimEnd(t);
    TrimEnds(s, t, r);
    r
  }

  /** `TrimEnd` after `TrimStart` leaves no whitespace at either end, and nothing only for blank text. */
  lemma TrimEnds(s: string, t: string, r: string)
    requires |t| <= |s| && t == s[|s| - |t|..] && IsBlank(s[..|s| - |t|])
    requires t == [] || !IsWhitespace(t[0])
    requires |r| <= |t| && r == t[..|r|] && IsBlank(t[|r|..])
    requires r == [] || !IsWhitespace(r[|r| - 1])
    ensures Trimmed(r)
    ensures r == [] <==> IsBlank(s)
  {
    var i := |s| - |t|;
    assert s[..i] + s[i..] == s;
    if r == [] {
      assert t[|r|..] == t;
      BlankConcat(s[..i], t);
    } else {
      assert r[0] == t[0] == s[i];
    }
  }

  /** Two runs of whitespace make one. */
  lemma BlankConcat(a: string, b: string)
    requires IsBlank(a) && IsBlank(b)
    ensures IsBlank(a + b)
  {
    forall i | 0 <= i < |a + b|
      ensures IsWhitespace((a + b)[i])
    {
      if i < |a| {
        assert (a + b)[i] == a[i];
      } else {
        assert (a + b)[i] == b[i - |a|];
      }
    }
  }

  /** Trim cuts whitespace off both ends and keeps the middle untouched. */
  lemma {:induction false} TrimIsInfix(s: string)
    ensures exists i, j :: 0 <= i <= j <= |s| && Trim(s) == s[i..j]
                           && IsBlank(s[..i]) && IsBlank(s[j..])
  {
    var t := TrimStart(s);
    var r := TrimEnd(t);
    var i := |s| - |t|;
    var j := i + |r|;
    assert r == s[i..j] by {
      assert t == s[i..];
      assert t[..|r|] == s[i..j];
    }
    assert IsBlank(s[j..]) by {
      assert s[j..] == t[|r|..];
    }
    assert Trim(s) == s[i..j] && IsBlank(s[..i]);
  }

  /** One leading whitespace character in front of trimmed text is all `trim` removes. */
  lemma TrimLeadingSpace(c: char, s: string)
    requires IsWhitespace(c) && Trimmed(s)
    ensures Trim([c] + s) == s
  {
    var t := [c] + s;
    assert t[1..] == s;
    assert TrimStart(s) == s;
    assert TrimStart(t) == s;
    assert TrimEnd(s) == s;
  }

  /** A string that is already trimmed is its own trim. */
  lemma {:induction false} TrimOfTrimmed(s: string)
    requires Trimmed(s)
    ensures Trim(s) == s
  {
    assert TrimStart(s) == s;
    assert TrimEnd(s) == s;
  }

  /** Index of the first `c` in `s`, or `|s|` when there is none. */
  function IndexOf(s: string, c: char): (k: nat)
    ensures k <= |s|
    ensures c !in s[..k]
    ensures k < |s| ==> s[k] == c
  {
    if s == [] then 0
    else if s[0] == c then 0
    else
      var k := 1 + IndexOf(s[1..], c);
      assert s[..k] == [s[0]] + s[1..][..k - 1];
      k
  }

  /** The line terminator `\r\n` loses its `\r` together with the `\n`. */
  function StripCR(line: string): (r: string)
    ensures r == line || (line == r + ['\r'])
  {
    if line != [] && line[|line| - 1] == '\r' then line[..|line| - 1] else line
  }

  /**
   * `str::lines`: split at every `\n`; a final `\n` does not open another
   * line; a `\r` right before a `\n` belongs to the terminator. A last line
   * with no `\n` after it keeps a trailing `\r`.
   */
  function Lines(s: string): (ls: seq<string>)
    ensures ls == [] <==> s == []
    ensures ls != [] ==> StartsWith(s, ls[0])
    ensures forall i :: 0 <= i < |ls| ==> '\n' !in ls[i]
    decreases |s|
  {
    if s == [] then []
    else
      var k := IndexOf(s, '\n');
      if k == |s| then [s]
      else [StripCR(s[..k])] + Lines(s[k + 1..])
  }

  /** Text with no `\n` in it is a single line. */
  lemma LinesOfOneLine(s: string)
    requires s != [] && '\n' !in s
    ensures Lines(s) == [s]
  {
  }

  /** A line followed by `\n` and more text splits off as the first line. */
  lemma {:induction false} LinesCons(a: string, b: string)
    requires '\n' !in a
    ensures Lines(a + "\n" + b) == [StripCR(a)] + Lines(b)
  {
    var s := a + "\n" + b;
    IndexOfFirst(a, b);
    assert s[..|a|] == a;
    assert s[|a| + 1..] == b;
  }

  lemma {:induction false} IndexOfFirst(a: string, b: string)
    requires '\n' !in a
    ensures IndexOf(a + "\n" + b, '\n') == |a|
  {
    var s := a + "\n" + b;
    assert s[|a|] == '\n';
    assert s[..|a|] == a;
  }

  /** Splitting `a ++ b` at lines, where `a` ends its last line with `\n`. */
  lemma {:induction false} LinesAppend(a: string, b: string)
    requires a == [] || a[|a| - 1] == '\n'
    ensures Lines(a + b) == Lines(a) + Lines(b)
    decreases |a|
  {
    if a != [] {
      var k := IndexOf(a, '\n');
      assert k < |a|;
      var head := a[..k];
      var rest := a[k + 1..];
      assert a == head + "\n" + rest;
      assert a + b == head + "\n" + (rest + b);
      LinesCons(head, rest);
      LinesCons(head, rest + b);
      assert rest == [] || rest[|rest| - 1] == '\n';
      LinesAppend(rest, b);
      assert Lines(a) == [StripCR(head)] + Lines(rest);
      assert Lines(a + b) == [StripCR(head)] + Lines(rest + b);
    } else {
      assert a + b == b;
    }
  }

  /** `join("\n")` of a list of lines. */
  function JoinLines(ls: seq<string>): (s: string)
    ensures ls == [] ==> s == []
  {
    if ls == [] then []
    else if |ls| == 1 then ls[0]
    else ls[0] + "\n" + JoinLines(ls[1..])
  }

  predicate StartsWith(s: string, prefix: string) {
    |prefix| <= |s| && s[..|prefix|] == prefix
  }

  predicate OccursAt(s: string, pat: string, k: nat) {
    k + |pat| <= |s| && s[k..k + |pat|] == pat
  }

  /** First position at or after `from` where `pat` occurs in `s`. */
  function FindFrom(s: string, pat: string, from: nat): (r: Option<nat>)
    ensures r.Some? ==> from <= r.value && OccursAt(s, pat, r.value)
    ensures forall k: nat :: from <= k && (r.None? || k < r.value) ==> !OccursAt(s, pat, k)
    decreases |s| - from
  {
    if from + |pat| > |s| then None
    else if OccursAt(s, pat, from) then Some(from)
    else FindFrom(s, pat, from + 1)
  }

  /** `s.contains(pat)`. */
  predicate Contains(s: string, pat: string) {
    FindFrom(s, pat, 0).Some?
  }

  /**
   * `s.split(sep).nth(1)`: the second piece of the split, that is the text
   * between the first and the second occurrence of `sep` (or the end of
   * `s`), and nothing when `sep` does not occur. Matches are found left to
   * right and never overlap.
   */
  function SplitNth1(s: string, sep: string): (r: Option<string>)
    requires sep != []
    ensures r.Some? <==> Contains(s, sep)
    ensures r.Some? ==> !Contains(r.value, sep)
    ensures r.Some? ==>
              var q := FindFrom(s, sep, 0).value + |sep|;
              q + |r.value| <= |s| && s[q..q + |r.value|] == r.value
              && (q + |r.value| == |s| || OccursAt(s, sep, q + |r.value|))
  {
    match FindFrom(s, sep, 0)
    case None => None
    case Some(p) =>
      var q := p + |sep|;
      var end := match FindFrom(s, sep, q) case None => |s| case Some(p2) => p2;
      NoMatchInPiece(s, sep, q, end);
      Some(s[q..end])
  }

  /** Text that holds no match of `sep` from `q` up to `end` holds none in `s[q..end]`. */
  lemma NoMatchInPiece(s: string, sep: string, q: nat, end: nat)
    requires sep != [] && q <= end <= |s|
    requires forall k: nat :: q <= k < end ==> !OccursAt(s, sep, k)
    ensures !Contains(s[q..end], sep)
  {
    var piece := s[q..end];
    if Contains(piece, sep) {
      var k := FindFrom(piece, sep, 0).value;
      assert OccursAt(piece, sep, k);
      assert q + k < end;
      assert piece[k..k + |sep|] == s[q + k..q + k + |sep|];
      assert OccursAt(s, sep, q + k);
      assert false;
    }
  }

  /** `trim_start_matches(c)`: drop every leading `c`. */
  function TrimStartMatches(s: string, c: char): (r: string)
    ensures |r| <= |s| && r == s[|s| - |r|..]
    ensures r == [] || r[0] != c
    ensures forall i :: 0 <= i < |s| - |r| ==> s[i] == c
  {
    if s != [] && s[0] == c then TrimStartMatches(s[1..], c) else s
  }

  function LowerAscii(c: char): char {
    if 'A' <= c <= 'Z' then (c as int + 32) as char else c
  }

  /** `to_lowercase`, restricted to the ASCII letters. */
  function AsciiLower(s: string): (r: string)
    ensures |r| == |s|
    ensures forall i :: 0 <= i < |s| ==> r[i] == LowerAscii(s[i])
  {
    seq(|s|, i requires 0 <= i < |s| => LowerAscii(s[i]))
  }

  /** Text without upper-case ASCII letters is its own lower case. */
  lemma AsciiLowerOfLower(s: string)
    requires forall i :: 0 <= i < |s| ==> !('A' <= s[i] <= 'Z')
    ensures AsciiLower(s) == s
  {
  }

  /** Lower-casing twice changes nothing more. */
  lemma AsciiLowerIdempotent(s: string)
    ensures AsciiLower(AsciiLower(s)) == AsciiLower(s)
  {
  }
}
