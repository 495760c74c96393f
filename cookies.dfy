/** The browser cookie jar as `document.cookie` exposes it to page scripts.

    The jar is the ordered list of cookies a script can see. Reading
    `document.cookie` joins them as `name=value` pairs with "; " (section
    5.4 of RFC 6265). Assigning a line to `document.cookie` stores the
    cookie its name-value pair describes (section 5.2 of RFC 6265),
    replacing a cookie of the same name in place, or removes that cookie
    when the line's expiry is already past. */
module Cookies {
  import opened Wrappers
  import opened Strings

  datatype Cookie = Cookie(name: string, value: string)

  function Pair(c: Cookie): string {
    c.name + "=" + c.value
  }

  /** Reading `document.cookie`. */
  function CookieString(jar: seq<Cookie>): string {
    if jar == [] then "" else Pair(jar[0]) + CookieTail(jar[1..])
  }

  /** "; name=value" for each cookie after the first. */
  function CookieTail(jar: seq<Cookie>): string {
    if jar == [] then "" else "; " + Pair(jar[0]) + CookieTail(jar[1..])
  }

  /** The first cookie of that name, if any. */
  function Lookup(jar: seq<Cookie>, name: string): Option<string> {
    if jar == [] then None
    else if jar[0].name == name then Some(jar[0].value)
    else Lookup(jar[1..], name)
  }

  // ---------------------------------------------------------------------
  // getCookie's scan of the cookie string (src/lib/auth.ts:20-27)
  // ---------------------------------------------------------------------

  /** A segment matches when, after its leading spaces are dropped, it
      starts with `prefix` (where `indexOf(prefix)` is 0, see IndexOfZero). */
  predicate Matches(segment: string, prefix: string) {
    prefix <= TrimLeadingSpaces(segment)
  }

  /** The loop of getCookie over the `;`-separated segments: the text after
      `prefix` in the first matching segment. */
  function FirstMatch(segments: seq<string>, prefix: string): Option<string> {
    if segments == [] then None
    else if Matches(segments[0], prefix) then Some(TrimLeadingSpaces(segments[0])[|prefix|..])
    else FirstMatch(segments[1..], prefix)
  }

  /** One step of the scan from segment `i`: that segment's answer when it
      matches, otherwise the scan of the segments after it. */
  lemma FirstMatchUnroll(segments: seq<string>, i: nat, prefix: string)
    requires i < |segments|
    ensures FirstMatch(segments[i..], prefix) ==
              if Matches(segments[i], prefix) then Some(TrimLeadingSpaces(segments[i])[|prefix|..])
              else FirstMatch(segments[i + 1..], prefix)
  {
    assert segments[i..][0] == segments[i] && segments[i..][1..] == segments[i + 1..];
  }

  /** What `getCookie(name)` returns for a given `document.cookie` text. */
  function FindCookie(cookieString: string, name: string): Option<string> {
    FirstMatch(Split(cookieString, ';'), name + "=")
  }

  /** No answer exactly when no segment matches. */
  lemma {:induction false} FirstMatchNone(segments: seq<string>, prefix: string)
    ensures FirstMatch(segments, prefix).None? <==>
              forall k :: 0 <= k < |segments| ==> !Matches(segments[k], prefix)
  {
    if segments != [] {
      FirstMatchNone(segments[1..], prefix);
      assert forall k :: 1 <= k < |segments| ==> segments[k] == segments[1..][k - 1];
    }
  }

  /** Segment `k` is the first to match `prefix`, and `v` follows the
      prefix at the start of it once its leading spaces are stripped. */
  predicate FirstMatchAt(segments: seq<string>, prefix: string, k: nat, v: string) {
    && k < |segments|
    && TrimLeadingSpaces(segments[k]) == prefix + v
    && forall j :: 0 <= j < k ==> !Matches(segments[j], prefix)
  }

  /** An answer comes from a matching segment with no match before it, and
      is the text following `prefix` at the start of that segment. */
  lemma {:induction false} FirstMatchSome(segments: seq<string>, prefix: string)
    requires FirstMatch(segments, prefix).Some?
    ensures exists k: nat :: FirstMatchAt(segments, prefix, k, FirstMatch(segments, prefix).value)
  {
    var v := FirstMatch(segments, prefix).value;
    if Matches(segments[0], prefix) {
      assert FirstMatchAt(segments, prefix, 0, v);
    } else {
      FirstMatchSome(segments[1..], prefix);
      var k: nat :| FirstMatchAt(segments[1..], prefix, k, v);
      forall j | 0 <= j < k + 1 ensures !Matches(segments[j], prefix) {
        if j > 0 {
          assert segments[j] == segments[1..][j - 1];
        }
      }
      assert segments[k + 1] == segments[1..][k];
      assert FirstMatchAt(segments, prefix, k + 1, v);
    }
  }

  /** Later segments only matter when earlier ones do not match. */
  lemma {:induction false} FirstMatchAppend(a: seq<string>, b: seq<string>, prefix: string)
    ensures FirstMatch(a + b, prefix) ==
              if FirstMatch(a, prefix).Some? then FirstMatch(a, prefix) else FirstMatch(b, prefix)
  {
    if a == [] {
      assert a + b == b;
    } else {
      assert (a + b)[0] == a[0] && (a + b)[1..] == a[1..] + b;
      FirstMatchAppend(a[1..], b, prefix);
    }
  }

  /** Splitting at a separator splits the parts on either side of it. */
  lemma {:induction false} SplitConcat(a: string, b: string, sep: char)
    ensures Split(a + [sep] + b, sep) == Split(a, sep) + Split(b, sep)
    decreases |a|
  {
    if a == [] {
      assert a + [sep] + b == [sep] + b;
      assert ([sep] + b)[1..] == b;
    } else {
      assert (a + [sep] + b)[1..] == a[1..] + [sep] + b;
      SplitConcat(a[1..], b, sep);
    }
  }

  /** getCookie on a cookie string made of two parts joined by `;`: the first
      part wins, so a later cookie of the same name is ignored. */
  lemma FindCookieFirstWins(a: string, b: string, name: string)
    ensures FindCookie(a + ";" + b, name) ==
              if FindCookie(a, name).Some? then FindCookie(a, name) else FindCookie(b, name)
  {
    SplitConcat(a, b, ';');
    FirstMatchAppend(Split(a, ';'), Split(b, ';'), name + "=");
  }

  /** A segment whose name merely ends with the cookie name does not
      match it ("xauthToken=v" is not "authToken"): the match is anchored at
      the start of the segment. */
  lemma FindCookieAnchored(x: string, name: string, v: string)
    requires x != [] && x[0] != ' '
    requires ';' !in x + name + v && '=' !in x + name
    ensures FindCookie(x + name + "=" + v, name) == None
  {
    var seg := x + name + "=" + v;
    assert ';' !in seg by {
      assert forall k :: 0 <= k < |seg| ==> seg[k] in x + name + v || seg[k] == '=';
    }
    SplitNoSep(seg, ';');
    assert TrimLeadingSpaces(seg) == seg;
    assert seg[|name|] == (x + name)[|name|] != '=';
    assert !Matches(seg, name + "=");
    assert [seg][1..] == [];
    assert FirstMatch([seg], name + "=") == None;
  }

  lemma SplitNoSep(s: string, sep: char)
    requires sep !in s
    ensures Split(s, sep) == [s]
  {
    SplitAppend(s, "", sep);
  }

  // ---------------------------------------------------------------------
  // The jar a page script can build, and how getCookie reads it
  // ---------------------------------------------------------------------

  /** A cookie name as section 5.2 of RFC 6265 leaves it: not empty, no
      `;` and no `=` in it, no WSP at either end. */
  predicate ValidName(n: string) {
    n != "" && ';' !in n && '=' !in n && NoEdgeWsp(n)
  }

  /** A cookie value as section 5.2 of RFC 6265 leaves it. */
  predicate ValidValue(v: string) {
    ';' !in v && NoEdgeWsp(v)
  }

  /** No name occurs twice. */
  predicate UniqueNames(jar: seq<Cookie>) {
    jar == [] || (Lookup(jar[1..], jar[0].name).None? && UniqueNames(jar[1..]))
  }

  /** A jar that reads of document.cookie split back into its cookies: every
      name and value as section 5.2 of RFC 6265 leaves them, one cookie per name. */
  predicate WellFormedJar(jar: seq<Cookie>) {
    && (forall k :: 0 <= k < |jar| ==> ValidName(jar[k].name) && ValidValue(jar[k].value))
    && UniqueNames(jar)
  }

  /** The segments `document.cookie.split(';')` yields after the first one. */
  function TailSegments(jar: seq<Cookie>): seq<string> {
    if jar == [] then [] else [" " + Pair(jar[0])] + TailSegments(jar[1..])
  }

  lemma {:induction false} SplitTail(x: string, jar: seq<Cookie>)
    requires ';' !in x
    requires forall k :: 0 <= k < |jar| ==> ';' !in Pair(jar[k])
    ensures Split(x + CookieTail(jar), ';') == [x] + TailSegments(jar)
    decreases |jar|
  {
    if jar == [] {
      assert x + CookieTail(jar) == x;
      SplitNoSep(x, ';');
    } else {
      var y := " " + Pair(jar[0]);
      assert x + CookieTail(jar) == x + [';'] + (y + CookieTail(jar[1..]));
      SplitConcat(x, y + CookieTail(jar[1..]), ';');
      SplitNoSep(x, ';');
      assert ';' !in y;
      SplitTail(y, jar[1..]);
    }
  }

  /** A well-formed cookie's pair starts with `name=` exactly when the
      cookie has that name, as long as `name` holds no `=`. */
  lemma PairMatches(c: Cookie, name: string)
    requires ValidName(c.name) && '=' !in name
    ensures name + "=" <= Pair(c) <==> c.name == name
    ensures c.name == name ==> Pair(c)[|name + "="|..] == c.value
  {
    var p, s := name + "=", Pair(c);
    if |name| < |c.name| {
      assert s[|name|] == c.name[|name|] != '=' == p[|name|];
    } else if |name| > |c.name| {
      assert s[|c.name|] == '=' != name[|c.name|] == p[|c.name|];
    } else {
      assert s[..|c.name|] == c.name && p[..|name|] == name;
    }
  }

  lemma SegmentMatches(c: Cookie, name: string, spaced: bool)
    requires ValidName(c.name) && '=' !in name
    ensures var seg := if spaced then " " + Pair(c) else Pair(c);
            && TrimLeadingSpaces(seg) == Pair(c)
            && (Matches(seg, name + "=") <==> c.name == name)
  {
    var seg := if spaced then " " + Pair(c) else Pair(c);
    assert Pair(c)[0] == c.name[0] != ' ';
    if spaced {
      assert seg[1..] == Pair(c);
    }
    PairMatches(c, name);
  }

  lemma {:induction false} TailLookup(jar: seq<Cookie>, name: string)
    requires forall k :: 0 <= k < |jar| ==> ValidName(jar[k].name)
    requires '=' !in name
    ensures FirstMatch(TailSegments(jar), name + "=") == Lookup(jar, name)
    decreases |jar|
  {
    if jar != [] {
      SegmentMatches(jar[0], name, true);
      PairMatches(jar[0], name);
      TailLookup(jar[1..], name);
    }
  }

  /** getCookie's scan of the cookie string agrees with looking the name up
      in the jar itself, for every name without `=` in it. */
  lemma GetCookieReadsJar(jar: seq<Cookie>, name: string)
    requires WellFormedJar(jar)
    requires '=' !in name
    ensures FindCookie(CookieString(jar), name) == Lookup(jar, name)
  {
    var p := name + "=";
    if jar == [] {
      SplitNoSep("", ';');
      assert TrimLeadingSpaces("") == "";
      assert Split(CookieString(jar), ';') == [""];
      assert CookieString(jar) == "";
      assert !Matches("", p);
      assert [""][1..] == [];
      assert FirstMatch([""], p) == None;
    } else {
      assert forall k :: 0 <= k < |jar| ==> ';' !in Pair(jar[k]) by {
        forall k | 0 <= k < |jar| ensures ';' !in Pair(jar[k]) {
          assert ValidName(jar[k].name) && ValidValue(jar[k].value);
        }
      }
      SplitTail(Pair(jar[0]), jar[1..]);
      SegmentMatches(jar[0], name, false);
      PairMatches(jar[0], name);
      TailLookup(jar[1..], name);
    }
  }

  // ---------------------------------------------------------------------
  // Assigning a line to document.cookie (section 5.2 of RFC 6265)
  // ---------------------------------------------------------------------

  /** The name-value pair: the line up to its first `;`. */
  function NameValuePair(line: string): string {
    TakeUntil(line, ';')
  }

  /** The cookie a name-value pair describes: split at the first `=`, WSP
      trimmed from both halves; no cookie without `=` or with an empty name. */
  function ParseCookie(pair: string): Option<Cookie> {
    var n := TakeUntil(pair, '=');
    if |n| == |pair| then None
    else
      var name := TrimWsp(n);
      if name == "" then None else Some(Cookie(name, TrimWsp(pair[|n| + 1..])))
  }

  /** The cookie of that name replaced in place, or added at the end. */
  function Upsert(jar: seq<Cookie>, c: Cookie): seq<Cookie> {
    if jar == [] then [c]
    else if jar[0].name == c.name then [c] + jar[1..]
    else [jar[0]] + Upsert(jar[1..], c)
  }

  /** Every cookie of that name removed. */
  function Remove(jar: seq<Cookie>, name: string): seq<Cookie> {
    if jar == [] then []
    else if jar[0].name == name then Remove(jar[1..], name)
    else [jar[0]] + Remove(jar[1..], name)
  }

  /** `document.cookie = line`, where `live` says whether the line's expiry
      is still ahead. A line that describes no cookie changes nothing. */
  function Assign(jar: seq<Cookie>, line: string, live: bool): seq<Cookie> {
    match ParseCookie(NameValuePair(line))
    case None => jar
    case Some(c) => if live then Upsert(jar, c) else Remove(jar, c.name)
  }

  /** The line `setCookie(name, value)` assigns (src/lib/auth.ts:13);
      `expires` is the clock-derived date text. */
  function SetLine(name: string, value: string, expires: string): string {
    name + "=" + value + ";expires=" + expires + ";path=/"
  }

  /** The expiry deleteCookie writes: the start of 1970, long past. */
  const Epoch := "Thu, 01 Jan 1970 00:00:00 UTC"

  /** The line `deleteCookie(name)` assigns (src/lib/auth.ts:32). */
  function DeleteLine(name: string): string {
    name + "=;expires=" + Epoch + ";path=/;"
  }

  /** The value a cookie ends up with when `value` is written unencoded:
      cut at its first `;`, then WSP-trimmed. */
  function StoredValue(value: string): string {
    TrimWsp(TakeUntil(value, ';'))
  }

  lemma {:induction false} TakeUntilAt(a: string, b: string, c: char)
    ensures TakeUntil(a + [c] + b, c) == TakeUntil(a, c)
    decreases |a|
  {
    if a == [] {
      assert (a + [c] + b)[0] == c;
    } else {
      assert (a + [c] + b)[1..] == a[1..] + [c] + b;
      TakeUntilAt(a[1..], b, c);
    }
  }

  /** The pair `name=value` written before the first `;` of a line. */
  lemma PairOfLine(name: string, value: string, attributes: string)
    requires ValidName(name)
    requires attributes != [] && attributes[0] == ';'
    ensures NameValuePair(name + "=" + value + attributes) == name + "=" + TakeUntil(value, ';')
    ensures ParseCookie(name + "=" + TakeUntil(value, ';')) == Some(Cookie(name, StoredValue(value)))
  {
    PairOfLineText(name, value, attributes);
    ParsePairText(name, TakeUntil(value, ';'));
  }

  lemma PairOfLineText(name: string, value: string, attributes: string)
    requires ';' !in name
    requires attributes != [] && attributes[0] == ';'
    ensures NameValuePair(name + "=" + value + attributes) == name + "=" + TakeUntil(value, ';')
  {
    var line := name + "=" + value + attributes;
    assert line == (name + "=") + (value + [';'] + attributes[1..]);
    TakeUntilAppend(name + "=", value + [';'] + attributes[1..], ';');
    TakeUntilAt(value, attributes[1..], ';');
  }

  lemma ParsePairText(name: string, v: string)
    requires ValidName(name)
    ensures ParseCookie(name + "=" + v) == Some(Cookie(name, TrimWsp(v)))
  {
    var pair := name + "=" + v;
    assert TakeUntil(pair, '=') == name && pair[|name| + 1..] == v by {
      assert pair == name + ("=" + v);
      TakeUntilAppend(name, "=" + v, '=');
    }
    assert TrimWsp(name) == name;
  }

  /** setCookie stores the cookie under its name with the stored form of the
      value: the value itself when it is a valid cookie value. */
  lemma SetLineStores(name: string, value: string, expires: string)
    requires ValidName(name)
    ensures ParseCookie(NameValuePair(SetLine(name, value, expires))) == Some(Cookie(name, StoredValue(value)))
    ensures ValidValue(value) ==> StoredValue(value) == value
  {
    var attributes := ";expires=" + expires + ";path=/";
    assert SetLine(name, value, expires) == name + "=" + value + attributes;
    PairOfLine(name, value, attributes);
    if ValidValue(value) {
      assert TakeUntil(value, ';') == value;
    }
  }

  lemma DeleteLineNames(name: string)
    requires ValidName(name)
    ensures ParseCookie(NameValuePair(DeleteLine(name))) == Some(Cookie(name, ""))
  {
    var attributes := ";expires=" + Epoch + ";path=/;";
    assert DeleteLine(name) == name + "=" + "" + attributes;
    PairOfLine(name, "", attributes);
    assert TakeUntil("", ';') == "";
  }

  /** A value starting with `;` is stored as the empty text. */
  lemma StoredValueEmpty(value: string)
    requires value != "" && value[0] == ';'
    ensures StoredValue(value) == ""
  {
  }

  /** A value holding `;` is cut short: "a;b@c.d" is stored as "a". */
  lemma StoredValueCut()
    ensures StoredValue("a;b@c.d") == "a"
  {
    assert TakeUntil("a;b@c.d", ';') == "a" by {
      TakeUntilAt("a", "b@c.d", ';');
      assert "a" + [';'] + "b@c.d" == "a;b@c.d";
    }
  }

  lemma {:induction false} LookupUpsert(jar: seq<Cookie>, c: Cookie, name: string)
    ensures Lookup(Upsert(jar, c), name) == if name == c.name then Some(c.value) else Lookup(jar, name)
  {
    if jar != [] && jar[0].name != c.name {
      LookupUpsert(jar[1..], c, name);
    }
  }

  lemma {:induction false} LookupRemove(jar: seq<Cookie>, gone: string, name: string)
    ensures Lookup(Remove(jar, gone), name) == if name == gone then None else Lookup(jar, name)
  {
    if jar != [] {
      LookupRemove(jar[1..], gone, name);
    }
  }

  /** After setCookie, getCookie-by-jar answers the stored value for that
      name and the old answer for every other name. */
  lemma SetThenLookup(jar: seq<Cookie>, name: string, value: string, expires: string, other: string)
    requires ValidName(name)
    ensures Lookup(Assign(jar, SetLine(name, value, expires), true), other) ==
              if other == name then Some(StoredValue(value)) else Lookup(jar, other)
  {
    SetLineStores(name, value, expires);
    LookupUpsert(jar, Cookie(name, StoredValue(value)), other);
  }

  /** After deleteCookie, the name is gone and every other name is untouched. */
  lemma DeleteThenLookup(jar: seq<Cookie>, name: string, other: string)
    requires ValidName(name)
    ensures Assign(jar, DeleteLine(name), false) == Remove(jar, name)
    ensures Lookup(Assign(jar, DeleteLine(name), false), other) ==
              if other == name then None else Lookup(jar, other)
  {
    DeleteLineNames(name);
    LookupRemove(jar, name, other);
  }

  /** Two deleteCookie calls remove both names. */
  lemma DeleteBoth(jar: seq<Cookie>, a: string, b: string)
    requires ValidName(a) && ValidName(b)
    ensures Assign(Assign(jar, DeleteLine(a), false), DeleteLine(b), false) == Remove(Remove(jar, a), b)
  {
    DeleteThenLookup(jar, a, a);
    DeleteThenLookup(Remove(jar, a), b, b);
  }

  /** Deleting twice is deleting once. */
  lemma {:induction false} RemoveIdempotent(jar: seq<Cookie>, name: string)
    ensures Remove(Remove(jar, name), name) == Remove(jar, name)
  {
    if jar != [] {
      RemoveIdempotent(jar[1..], name);
    }
  }

  /** Removing two names commutes. */
  lemma {:induction false} RemoveCommutes(jar: seq<Cookie>, a: string, b: string)
    ensures Remove(Remove(jar, a), b) == Remove(Remove(jar, b), a)
  {
    if jar != [] {
      RemoveCommutes(jar[1..], a, b);
    }
  }

  lemma ParsedCookieValid(line: string)
    ensures ParseCookie(NameValuePair(line)).Some? ==>
              ValidName(ParseCookie(NameValuePair(line)).value.name)
              && ValidValue(ParseCookie(NameValuePair(line)).value.value)
  {
    var pair := NameValuePair(line);
    var n := TakeUntil(pair, '=');
    if |n| < |pair| {
      assert forall ch :: ch in n ==> ch in pair;
      assert forall ch :: ch in pair[|n| + 1..] ==> ch in pair;
    }
  }

  lemma {:induction false} UpsertElements(jar: seq<Cookie>, c: Cookie)
    ensures forall d :: d in Upsert(jar, c) ==> d == c || d in jar
  {
    if jar != [] && jar[0].name != c.name {
      UpsertElements(jar[1..], c);
    }
  }

  lemma {:induction false} UpsertUnique(jar: seq<Cookie>, c: Cookie)
    requires UniqueNames(jar)
    ensures UniqueNames(Upsert(jar, c))
  {
    if jar != [] {
      if jar[0].name == c.name {
        assert ([c] + jar[1..])[1..] == jar[1..];
      } else {
        UpsertUnique(jar[1..], c);
        LookupUpsert(jar[1..], c, jar[0].name);
        assert ([jar[0]] + Upsert(jar[1..], c))[1..] == Upsert(jar[1..], c);
      }
    }
  }

  lemma UpsertWellFormed(jar: seq<Cookie>, c: Cookie)
    requires WellFormedJar(jar)
    requires ValidName(c.name) && ValidValue(c.value)
    ensures WellFormedJar(Upsert(jar, c))
  {
    UpsertElements(jar, c);
    UpsertUnique(jar, c);
    var u := Upsert(jar, c);
    forall k | 0 <= k < |u| ensures ValidName(u[k].name) && ValidValue(u[k].value) {
      assert u[k] in u;
    }
  }

  lemma {:induction false} RemoveElements(jar: seq<Cookie>, name: string)
    ensures forall d :: d in Remove(jar, name) ==> d in jar
  {
    if jar != [] {
      RemoveElements(jar[1..], name);
    }
  }

  lemma {:induction false} RemoveUnique(jar: seq<Cookie>, name: string)
    requires UniqueNames(jar)
    ensures UniqueNames(Remove(jar, name))
  {
    if jar != [] {
      RemoveUnique(jar[1..], name);
      if jar[0].name != name {
        LookupRemove(jar[1..], name, jar[0].name);
        assert ([jar[0]] + Remove(jar[1..], name))[1..] == Remove(jar[1..], name);
      }
    }
  }

  lemma RemoveWellFormed(jar: seq<Cookie>, name: string)
    requires WellFormedJar(jar)
    ensures WellFormedJar(Remove(jar, name))
  {
    RemoveElements(jar, name);
    RemoveUnique(jar, name);
    var r := Remove(jar, name);
    forall k | 0 <= k < |r| ensures ValidName(r[k].name) && ValidValue(r[k].value) {
      assert r[k] in r;
    }
  }

  /** Whatever line a script assigns, the jar stays well formed. */
  lemma AssignWellFormed(jar: seq<Cookie>, line: string, live: bool)
    requires WellFormedJar(jar)
    ensures WellFormedJar(Assign(jar, line, live))
  {
    ParsedCookieValid(line);
    match ParseCookie(NameValuePair(line))
    case None =>
    case Some(c) =>
      if live {
        UpsertWellFormed(jar, c);
      } else {
        RemoveWellFormed(jar, c.name);
      }
  }
}
