/** The JavaScript string operations the authentication code relies on:
    `indexOf`, `replace` with a string pattern, `split` on one character,
    the space-stripping loop of `getCookie`, the whitespace trim of the
    cookie parser, number-to-text conversion and `.length` in UTF-16 units. */
module Strings {
  import opened Wrappers

  /** `!!s` for a string that may be null or undefined: present and not empty. */
  predicate Present(s: Option<string>) {
    s.Some? && s.value != ""
  }

  /** `pat` occurs in `s` starting at position `i`. */
  predicate OccursAt(s: string, pat: string, i: nat) {
    i + |pat| <= |s| && s[i..i + |pat|] == pat
  }

  /** The first position at or after `from` where `pat` occurs. */
  function IndexFrom(s: string, pat: string, from: nat): (r: Option<nat>)
    ensures r.Some? ==> from <= r.value && OccursAt(s, pat, r.value)
    ensures r.Some? ==> forall j :: from <= j < r.value ==> !OccursAt(s, pat, j)
    ensures r.None? ==> forall j: nat :: from <= j ==> !OccursAt(s, pat, j)
    decreases |s| - from
  {
    if from + |pat| > |s| then None
    else if OccursAt(s, pat, from) then Some(from)
    else IndexFrom(s, pat, from + 1)
  }

  /** `s.indexOf(pat)`, with `None` for JavaScript's -1. */
  function IndexOf(s: string, pat: string): (r: Option<nat>)
  {
    IndexFrom(s, pat, 0)
  }

  /** `s.indexOf(pat) === 0` holds exactly when `pat` is a prefix of `s`. */
  lemma IndexOfZero(s: string, pat: string)
    ensures IndexOf(s, pat) == Some(0) <==> pat <= s
  {
    assert OccursAt(s, pat, 0) <==> pat <= s;
  }

  /** `s.replace(pat, rep)` with a string pattern: only the first
      occurrence is replaced. Without one the text is unchanged; with one,
      the text before it and the text after it are kept around the
      replacement, so putting the pattern back rebuilds the text. */
  function ReplaceFirst(s: string, pat: string, rep: string): (r: string)
    ensures IndexOf(s, pat).None? ==> r == s
    ensures IndexOf(s, pat).Some? ==>
              |r| == |s| - |pat| + |rep| && s[..IndexOf(s, pat).value] + rep <= r
    ensures forall i :: IndexOf(s, pat) == Some(i) ==>
              r[i + |rep|..] == s[i + |pat|..] && s == r[..i] + pat + r[i + |rep|..]
  {
    match IndexOf(s, pat)
    case None => s
    case Some(i) => s[..i] + rep + s[i + |pat|..]
  }

  /** Replacing the first occurrence of a pattern by nothing: the text
      before it and the text after it, and the text unchanged when the
      pattern does not occur. */
  lemma ReplaceFirstRemoves(s: string, pat: string)
    ensures IndexOf(s, pat).None? ==> ReplaceFirst(s, pat, "") == s
    ensures pat <= s ==> ReplaceFirst(s, pat, "") == s[|pat|..]
    ensures forall i :: IndexOf(s, pat) == Some(i) ==>
              s == ReplaceFirst(s, pat, "")[..i] + pat + ReplaceFirst(s, pat, "")[i..]
  {
    IndexOfZero(s, pat);
    match IndexOf(s, pat)
    case None =>
    case Some(i) =>
      var r := ReplaceFirst(s, pat, "");
      assert r == s[..i] + s[i + |pat|..];
      assert r[..i] == s[..i] && r[i..] == s[i + |pat|..];
      assert s[i..i + |pat|] == pat;
      assert s == s[..i] + s[i..i + |pat|] + s[i + |pat|..];
  }

  /** Number of occurrences of the character `c` in `s`. */
  function Count(s: string, c: char): nat
  {
    if s == [] then 0 else (if s[0] == c then 1 else 0) + Count(s[1..], c)
  }

  lemma {:induction false} CountAppend(a: string, b: string, c: char)
    ensures Count(a + b, c) == Count(a, c) + Count(b, c)
  {
    if a == [] {
      assert a + b == b;
    } else {
      assert (a + b)[1..] == a[1..] + b;
      CountAppend(a[1..], b, c);
    }
  }

  lemma {:induction false} CountAbsent(s: string, c: char)
    ensures Count(s, c) == 0 <==> c !in s
  {
    if s != [] {
      CountAbsent(s[1..], c);
      assert s == [s[0]] + s[1..];
    }
  }

  /** `parts` glued back together with `sep` between consecutive parts. */
  function Join(parts: seq<string>, sep: string): string
  {
    if parts == [] then ""
    else if |parts| == 1 then parts[0]
    else parts[0] + sep + Join(parts[1..], sep)
  }

  /** `s.split(sep)` for a one-character separator: the empty string gives
      one empty part, and a separator at either end gives an empty part
      there. Splitting loses nothing: joining the parts gives `s` back. */
  function Split(s: string, sep: char): (r: seq<string>)
    ensures |r| == Count(s, sep) + 1
    ensures forall k :: 0 <= k < |r| ==> sep !in r[k]
    ensures Join(r, [sep]) == s
    decreases |s|
  {
    if s == [] then [""]
    else
      var rest := Split(s[1..], sep);
      if s[0] == sep then
        assert [sep] + Join(rest, [sep]) == s;
        [""] + rest
      else
        JoinConsHead(s[0], rest, [sep]);
        assert [s[0]] + s[1..] == s;
        [[s[0]] + rest[0]] + rest[1..]
  }

  lemma JoinConsHead(c: char, parts: seq<string>, sep: string)
    requires parts != []
    ensures Join([[c] + parts[0]] + parts[1..], sep) == [c] + Join(parts, sep)
  {
    var q := [[c] + parts[0]] + parts[1..];
    assert q[1..] == parts[1..];
  }

  /** A part free of the separator is split off whole. */
  lemma {:induction false} SplitAppend(a: string, b: string, sep: char)
    requires sep !in a
    ensures Split(a + [sep] + b, sep) == [a] + Split(b, sep)
    ensures Split(a, sep) == [a]
    decreases |a|
  {
    if a == [] {
      assert a + [sep] + b == [sep] + b;
      assert ([sep] + b)[1..] == b;
    } else {
      assert (a + [sep] + b)[1..] == a[1..] + [sep] + b;
      SplitAppend(a[1..], b, sep);
      assert [a[0]] + a[1..] == a;
    }
  }

  /** The inner loop of `getCookie`: drop leading U+0020 spaces (only
      spaces, not tabs). The result is a suffix of `c` that does not start
      with a space, and everything dropped was a space. */
  function TrimLeadingSpaces(c: string): (r: string)
    ensures |r| <= |c| && r == c[|c| - |r|..]
    ensures r == "" || r[0] != ' '
    ensures forall k :: 0 <= k < |c| - |r| ==> c[k] == ' '
    decreases |c|
  {
    if |c| > 0 && c[0] == ' ' then TrimLeadingSpaces(c[1..]) else c
  }

  /** WSP of RFC 5234 (space and horizontal tab), which section 5.2 of
      RFC 6265 strips around a cookie's name and value. */
  predicate IsWsp(c: char) {
    c == ' ' || c == '\t'
  }

  /** Neither end of `s` is WSP. */
  predicate NoEdgeWsp(s: string) {
    s == "" || (!IsWsp(s[0]) && !IsWsp(s[|s| - 1]))
  }

  /** Drop leading WSP: the result is a suffix not starting with WSP, and
      everything dropped was WSP. */
  function TrimStartWsp(s: string): (r: string)
    ensures |r| <= |s| && r == s[|s| - |r|..]
    ensures r == "" || !IsWsp(r[0])
    ensures forall k :: 0 <= k < |s| - |r| ==> IsWsp(s[k])
    ensures s == "" || !IsWsp(s[0]) ==> r == s
    decreases |s|
  {
    if |s| > 0 && IsWsp(s[0]) then TrimStartWsp(s[1..]) else s
  }

  /** Drop trailing WSP: the result is a prefix not ending with WSP, and
      everything dropped was WSP. */
  function TrimEndWsp(s: string): (r: string)
    ensures |r| <= |s| && r == s[..|r|]
    ensures r == "" || !IsWsp(r[|r| - 1])
    ensures forall k :: |r| <= k < |s| ==> IsWsp(s[k])
    ensures s == "" || !IsWsp(s[|s| - 1]) ==> r == s
    decreases |s|
  {
    if |s| > 0 && IsWsp(s[|s| - 1]) then TrimEndWsp(s[..|s| - 1]) else s
  }

  /** `s[i..j]` with nothing but WSP outside it. */
  predicate WspAround(s: string, i: nat, j: nat) {
    && i <= j <= |s|
    && (forall k :: 0 <= k < i ==> IsWsp(s[k]))
    && (forall k :: j <= k < |s| ==> IsWsp(s[k]))
  }

  /** A suffix of `s` with only WSP before it and no WSP at its start, cut
      to a prefix with only WSP after it and no WSP at its end, is a slice of
      `s` with only WSP outside it and none at its edges. */
  lemma TrimmedSlice(s: string, a: string, r: string)
    requires |a| <= |s| && a == s[|s| - |a|..]
    requires forall k :: 0 <= k < |s| - |a| ==> IsWsp(s[k])
    requires a == "" || !IsWsp(a[0])
    requires |r| <= |a| && r == a[..|r|]
    requires forall k :: |r| <= k < |a| ==> IsWsp(a[k])
    requires r == "" || !IsWsp(r[|r| - 1])
    ensures NoEdgeWsp(r)
    ensures WspAround(s, |s| - |a|, |s| - |a| + |r|)
    ensures r == s[|s| - |a|..|s| - |a| + |r|]
    ensures forall ch :: ch in r ==> ch in s
  {
    var i := |s| - |a|;
    assert r != "" ==> r[0] == a[0];
    forall k | i + |r| <= k < |s|
      ensures IsWsp(s[k])
    {
      assert s[k] == a[k - i];
    }
    forall ch | ch in r
      ensures ch in s
    {
      var k :| 0 <= k < |r| && r[k] == ch;
      assert s[i + k] == ch;
    }
  }

  /** Strip leading and trailing WSP: the result is a slice of `s` with only
      WSP outside it and no WSP at either end, so exactly the WSP at the
      edges is removed; it holds only characters of `s`, and text already
      trimmed is kept. */
  function TrimWsp(s: string): (r: string)
    ensures NoEdgeWsp(r)
    ensures exists i: nat, j: nat :: WspAround(s, i, j) && r == s[i..j]
    ensures forall ch :: ch in r ==> ch in s
    ensures NoEdgeWsp(s) ==> r == s
  {
    var a := TrimStartWsp(s);
    var r := TrimEndWsp(a);
    TrimmedSlice(s, a, r);
    var i := |s| - |a|;
    assert WspAround(s, i, i + |r|);
    r
  }

  /** The characters of `s` before the first `c` (all of `s` if there is none). */
  function TakeUntil(s: string, c: char): (r: string)
    ensures r <= s && c !in r
    ensures |r| < |s| ==> s[|r|] == c
    decreases |s|
  {
    if s == [] || s[0] == c then "" else [s[0]] + TakeUntil(s[1..], c)
  }

  /** Text before the first `c` is unaffected by what follows a part free of `c`. */
  lemma {:induction false} TakeUntilAppend(a: string, b: string, c: char)
    requires c !in a
    ensures TakeUntil(a + b, c) == a + TakeUntil(b, c)
    decreases |a|
  {
    if a != [] {
      assert (a + b)[1..] == a[1..] + b;
      TakeUntilAppend(a[1..], b, c);
    } else {
      assert a + b == b;
    }
  }

  predicate IsDigit(c: char) {
    '0' <= c <= '9'
  }

  /** A natural number written in decimal, as `'' + n` renders an integral
      JavaScript number below 10^21: at least one digit and nothing else. */
  function DecimalString(n: nat): (r: string)
    ensures |r| > 0
    ensures forall k :: 0 <= k < |r| ==> IsDigit(r[k])
  {
    var d := ['0' + (n % 10) as char];
    if n < 10 then d else DecimalString(n / 10) + d
  }

  /** `s.length` in JavaScript: UTF-16 code units, so a character outside
      the Basic Multilingual Plane counts twice. */
  function Utf16Length(s: string): nat
  {
    if s == [] then 0 else (if s[0] as int > 0xFFFF then 2 else 1) + Utf16Length(s[1..])
  }

  /** Every character is one or two UTF-16 code units. */
  lemma {:induction false} Utf16LengthBounds(s: string)
    ensures |s| <= Utf16Length(s) <= 2 * |s|
  {
    if s != [] {
      Utf16LengthBounds(s[1..]);
    }
  }
}
