/** The authentication utilities of src/lib/auth.ts: cookie access, the
    current-user lookup, clearing the session, and the two credential
    validators.

    The browser is a `Browser` object: the cookie jar behind
    `document.cookie`, the `localStorage` entries, and whether the code runs
    in a page at all (`typeof document/window !== 'undefined'`). Off the
    page every cookie read answers null and every cookie write does nothing. */
module Auth {
  import opened Wrappers
  import opened Strings
  import opened Cookies

  datatype User = User(username: string, email: string)

  /** What `localStorage` holds under a key. `Json(u)` is the text
      `JSON.stringify(u)` gives for a profile; `Text(raw)` is any other
      text, on which `JSON.parse` throws. */
  datatype Stored = Json(profile: User) | Text(raw: string)

  /** `if (registeredUser)` on the stored string: only the empty string is
      falsy, and the JSON text of a profile is never empty. */
  predicate Truthy(v: Stored) {
    v.Json? || v.raw != ""
  }

  /** `JSON.parse` of a stored entry: the profile, or None where it throws. */
  function ParseProfile(v: Stored): Option<User> {
    if v.Json? then Some(v.profile) else None
  }

  const AuthTokenCookie := "authToken"
  const UserEmailCookie := "userEmail"
  const RegisteredUserKey := "registeredUser"

  /** The name given to a profile that was never registered. */
  const PlaceholderName := "User"

  /** `getCookie(name)`: null off the page, otherwise the scan of
      `document.cookie`, which on a well-formed jar reads the jar's own value
      for every name without `=`. */
  function ReadCookie(client: bool, jar: seq<Cookie>, name: string): (r: Option<string>)
    ensures !client ==> r.None?
    ensures client && WellFormedJar(jar) && '=' !in name ==> r == Lookup(jar, name)
  {
    if !client then None
    else
      var r := FindCookie(CookieString(jar), name);
      assert WellFormedJar(jar) && '=' !in name ==> r == Lookup(jar, name) by {
        if WellFormedJar(jar) && '=' !in name {
          GetCookieReadsJar(jar, name);
        }
      }
      r
  }

  /** `localStorage.getItem(key)`. */
  function GetItem(local: map<string, Stored>, key: string): Option<Stored> {
    if key in local then Some(local[key]) else None
  }

  /** `getCurrentUser()` (src/lib/auth.ts:43-62). There is a user exactly
      when a page holds a non-empty `userEmail` cookie, and the user is
      either the stored profile or the placeholder carrying that cookie. */
  function ResolveUser(client: bool, jar: seq<Cookie>, local: map<string, Stored>): (r: Option<User>)
    ensures r.Some? <==> client && Present(ReadCookie(client, jar, UserEmailCookie))
    ensures r.Some? ==>
              || GetItem(local, RegisteredUserKey) == Some(Json(r.value))
              || r.value == User(PlaceholderName, ReadCookie(client, jar, UserEmailCookie).value)
  {
    if !client then None
    else
      var email := ReadCookie(client, jar, UserEmailCookie);
      var stored := GetItem(local, RegisteredUserKey);
      if !Present(email) then None
      else if stored.Some? && Truthy(stored.value) && ParseProfile(stored.value).Some? then
        ParseProfile(stored.value)
      else Some(User(PlaceholderName, email.value))
  }

  lemma CookieNamesValid()
    ensures ValidName(AuthTokenCookie) && ValidName(UserEmailCookie)
    ensures '=' !in AuthTokenCookie && '=' !in UserEmailCookie
  {
  }

  /** getCurrentUser in terms of the jar and the stored entry: null off the
      page or without a non-empty `userEmail` cookie; otherwise the stored
      profile when there is one that parses, else the placeholder profile
      carrying the cookie's email. */
  lemma ResolveUserCases(client: bool, jar: seq<Cookie>, local: map<string, Stored>)
    requires WellFormedJar(jar)
    ensures ResolveUser(client, jar, local).None? <==> !client || !Present(Lookup(jar, UserEmailCookie))
    ensures client && Present(Lookup(jar, UserEmailCookie)) ==>
              ResolveUser(client, jar, local) ==
                if RegisteredUserKey in local && local[RegisteredUserKey].Json?
                then Some(local[RegisteredUserKey].profile)
                else Some(User(PlaceholderName, Lookup(jar, UserEmailCookie).value))
  {
    if client {
      CookieNamesValid();
      GetCookieReadsJar(jar, UserEmailCookie);
      var email := Lookup(jar, UserEmailCookie);
      assert ReadCookie(client, jar, UserEmailCookie) == email;
      if Present(email) {
        var stored := GetItem(local, RegisteredUserKey);
        assert stored.Some? <==> RegisteredUserKey in local;
      }
    }
  }

  /** What `clearAuth()` leaves of the jar: both session cookies deleted. */
  function ClearedJar(jar: seq<Cookie>): seq<Cookie> {
    Assign(Assign(jar, DeleteLine(AuthTokenCookie), false), DeleteLine(UserEmailCookie), false)
  }

  /** What `clearAuth()` leaves of `localStorage`. */
  function ClearedLocal(local: map<string, Stored>): map<string, Stored> {
    local - {RegisteredUserKey}
  }

  /** clearAuth leaves the two cookies and the stored profile absent and
      every other cookie and entry as it was. */
  lemma ClearAuthRemoves(jar: seq<Cookie>, local: map<string, Stored>, name: string, key: string)
    ensures ClearedJar(jar) == Remove(Remove(jar, AuthTokenCookie), UserEmailCookie)
    ensures Lookup(ClearedJar(jar), name) ==
              if name == AuthTokenCookie || name == UserEmailCookie then None else Lookup(jar, name)
    ensures RegisteredUserKey !in ClearedLocal(local)
    ensures key != RegisteredUserKey ==> GetItem(ClearedLocal(local), key) == GetItem(local, key)
  {
    CookieNamesValid();
    DeleteBoth(jar, AuthTokenCookie, UserEmailCookie);
    LookupRemove(jar, AuthTokenCookie, name);
    LookupRemove(Remove(jar, AuthTokenCookie), UserEmailCookie, name);
  }

  /** Clearing twice is clearing once. */
  lemma ClearAuthIdempotent(jar: seq<Cookie>, local: map<string, Stored>)
    ensures ClearedJar(ClearedJar(jar)) == ClearedJar(jar)
    ensures ClearedLocal(ClearedLocal(local)) == ClearedLocal(local)
  {
    CookieNamesValid();
    DeleteThenLookup(jar, AuthTokenCookie, "");
    DeleteThenLookup(Remove(jar, AuthTokenCookie), UserEmailCookie, "");
    var once := ClearedJar(jar);
    DeleteThenLookup(once, AuthTokenCookie, "");
    DeleteThenLookup(Remove(once, AuthTokenCookie), UserEmailCookie, "");
    var a, e := AuthTokenCookie, UserEmailCookie;
    calc {
      ClearedJar(once);
      Remove(Remove(Remove(Remove(jar, a), e), a), e);
      { RemoveCommutes(Remove(jar, a), e, a); }
      Remove(Remove(Remove(Remove(jar, a), a), e), e);
      { RemoveIdempotent(jar, a); }
      Remove(Remove(Remove(jar, a), e), e);
      { RemoveIdempotent(Remove(jar, a), e); }
      once;
    }
  }

  /** After clearAuth on a page nobody is signed in: neither the token nor
      the current user can be read back. */
  lemma ClearAuthSignsOut(jar: seq<Cookie>, local: map<string, Stored>)
    requires WellFormedJar(jar)
    ensures ReadCookie(true, ClearedJar(jar), AuthTokenCookie) == None
    ensures ResolveUser(true, ClearedJar(jar), ClearedLocal(local)) == None
  {
    CookieNamesValid();
    ClearAuthRemoves(jar, local, AuthTokenCookie, "");
    ClearAuthRemoves(jar, local, UserEmailCookie, "");
    AssignWellFormed(jar, DeleteLine(AuthTokenCookie), false);
    AssignWellFormed(Assign(jar, DeleteLine(AuthTokenCookie), false), DeleteLine(UserEmailCookie), false);
    GetCookieReadsJar(ClearedJar(jar), AuthTokenCookie);
    ResolveUserCases(true, ClearedJar(jar), ClearedLocal(local));
  }

  /** isAuthenticated() reads the `authToken` cookie of the jar. */
  lemma IsAuthenticatedReadsJar(client: bool, jar: seq<Cookie>)
    requires WellFormedJar(jar)
    ensures Present(ReadCookie(client, jar, AuthTokenCookie)) <==> client && Present(Lookup(jar, AuthTokenCookie))
  {
    CookieNamesValid();
    GetCookieReadsJar(jar, AuthTokenCookie);
  }

  /** The browser state the utilities read and write. */
  class Browser {
    /** Whether a page is present (`typeof document !== 'undefined'`). */
    const client: bool
    /** The cookies `document.cookie` shows. */
    var jar: seq<Cookie>
    /** The `localStorage` entries. */
    var local: map<string, Stored>

    ghost predicate Valid()
      reads this
    {
      WellFormedJar(jar)
    }

    constructor (client: bool, jar: seq<Cookie>, local: map<string, Stored>)
      requires WellFormedJar(jar)
      ensures Valid()
      ensures this.client == client && this.jar == jar && this.local == local
    {
      this.client := client;
      this.jar := jar;
      this.local := local;
    }

    /** `setCookie(name, value, days)` (src/lib/auth.ts:9-15); `expires` is
        the date text for now plus `days`. */
    method SetCookie(name: string, value: string, expires: string)
      requires Valid()
      modifies this
      ensures Valid()
      ensures jar == if client then Assign(old(jar), SetLine(name, value, expires), true) else old(jar)
      ensures local == old(local)
    {
      if client {
        AssignWellFormed(jar, SetLine(name, value, expires), true);
        jar := Assign(jar, SetLine(name, value, expires), true);
      }
    }

    /** `deleteCookie(name)` (src/lib/auth.ts:30-34). */
    method DeleteCookie(name: string)
      requires Valid()
      modifies this
      ensures Valid()
      ensures jar == if client then Assign(old(jar), DeleteLine(name), false) else old(jar)
      ensures local == old(local)
    {
      if client {
        AssignWellFormed(jar, DeleteLine(name), false);
        jar := Assign(jar, DeleteLine(name), false);
      }
    }

    /** `getCookie(name)` (src/lib/auth.ts:17-28): split `document.cookie`
        at `;`, strip each segment's leading spaces, and answer the rest of
        the first segment that starts with `name=`. */
    method GetCookie(name: string) returns (r: Option<string>)
      ensures r == ReadCookie(client, jar, name)
    {
      if !client {
        return None;
      }
      var nameEQ := name + "=";
      var ca := Split(CookieString(jar), ';');
      ghost var spec := ReadCookie(client, jar, name);
      assert spec == FirstMatch(ca, nameEQ);
      var i := 0;
      while i < |ca|
        invariant 0 <= i <= |ca|
        invariant spec == FirstMatch(ca[i..], nameEQ)
      {
        var c := ca[i];
        while |c| > 0 && c[0] == ' '
          invariant TrimLeadingSpaces(c) == TrimLeadingSpaces(ca[i])
        {
          c := c[1..];
        }
        assert c == TrimLeadingSpaces(ca[i]);
        FirstMatchUnroll(ca, i, nameEQ);
        IndexOfZero(c, nameEQ);
        if IndexOf(c, nameEQ) == Some(0) {
          return Some(c[|nameEQ|..]);
        }
        i := i + 1;
      }
      return None;
    }

    /** `isAuthenticated()` (src/lib/auth.ts:37-40). */
    method IsAuthenticated() returns (b: bool)
      ensures b <==> Present(ReadCookie(client, jar, AuthTokenCookie))
    {
      var token := GetCookie(AuthTokenCookie);
      b := token.Some? && token.value != "";
    }

    /** `getCurrentUser()` (src/lib/auth.ts:43-62). Takes the same branches
        as the function `ResolveUser`, which its postcondition names. */
    method GetCurrentUser() returns (u: Option<User>)
      ensures u == ResolveUser(client, jar, local)
    {
      if !client {
        return None;
      }
      var userEmail := GetCookie(UserEmailCookie);
      var registeredUser := GetItem(local, RegisteredUserKey);
      if Present(userEmail) {
        if registeredUser.Some? && Truthy(registeredUser.value) {
          match ParseProfile(registeredUser.value)
          case Some(profile) => return Some(profile);
          case None => return Some(User(PlaceholderName, userEmail.value));
        } else {
          return Some(User(PlaceholderName, userEmail.value));
        }
      }
      return None;
    }

    /** `localStorage.setItem(key, value)`; there is no `localStorage` off the page. */
    method SetItem(key: string, value: Stored)
      requires client
      modifies this
      ensures local == old(local)[key := value]
      ensures jar == old(jar)
    {
      local := local[key := value];
    }

    /** `localStorage.removeItem(key)`. */
    method RemoveItem(key: string)
      requires client
      modifies this
      ensures local == old(local) - {key}
      ensures jar == old(jar)
    {
      local := local - {key};
    }

    /** `clearAuth()` (src/lib/auth.ts:65-71). */
    method ClearAuth()
      requires Valid()
      modifies this
      ensures Valid()
      ensures jar == if client then ClearedJar(old(jar)) else old(jar)
      ensures local == if client then ClearedLocal(old(local)) else old(local)
    {
      DeleteCookie(AuthTokenCookie);
      DeleteCookie(UserEmailCookie);
      if client {
        RemoveItem(RegisteredUserKey);
      }
    }
  }

  // ---------------------------------------------------------------------
  // Credential validators (src/lib/auth.ts:73-85)
  // ---------------------------------------------------------------------

  /** `\s` of ECMAScript regular expressions: the WhiteSpace and
      LineTerminator code points. */
  predicate IsJsSpace(c: char) {
    || c == '\t' || c == '\n' || c == '\U{000B}' || c == '\U{000C}' || c == '\r' || c == ' '
    || c == '\U{00A0}' || c == '\U{1680}' || ('\U{2000}' <= c <= '\U{200A}')
    || c == '\U{2028}' || c == '\U{2029}' || c == '\U{202F}' || c == '\U{205F}'
    || c == '\U{3000}' || c == '\U{FEFF}'
  }

  /** `[^\s@]+`: one or more characters, none of them whitespace or `@`. */
  predicate Atom(s: string) {
    |s| > 0 && forall k :: 0 <= k < |s| ==> !IsJsSpace(s[k]) && s[k] != '@'
  }

  /** `email` splits as atom, `@` at `i`, atom, `.` at `j`, atom. */
  predicate EmailAt(email: string, i: nat, j: nat) {
    && i < j < |email|
    && Atom(email[..i]) && email[i] == '@'
    && Atom(email[i + 1..j]) && email[j] == '.'
    && Atom(email[j + 1..])
  }

  /** `isValidEmail(email)`: the whole of `email` matches
      `^[^\s@]+@[^\s@]+\.[^\s@]+$`. The middle atom may itself hold dots,
      so any dot of the domain with an atom on each side will do. */
  predicate IsValidEmail(email: string) {
    exists i, j | 0 <= i < j < |email| :: EmailAt(email, i, j)
  }

  lemma EmailFromParts(l: string, a: string, b: string)
    requires Atom(l) && Atom(a) && Atom(b)
    ensures EmailAt(l + "@" + a + "." + b, |l|, |l| + 1 + |a|)
  {
    var e, i, j := l + "@" + a + "." + b, |l|, |l| + 1 + |a|;
    assert e[..i] == l && e[i + 1..j] == a && e[j + 1..] == b;
  }

  lemma EmailToParts(email: string, i: nat, j: nat)
    requires EmailAt(email, i, j)
    ensures email == email[..i] + "@" + email[i + 1..j] + "." + email[j + 1..]
  {
  }

  /** `email` is `l@a.b` with three atoms. */
  predicate EmailParts(email: string, l: string, a: string, b: string) {
    email == l + "@" + a + "." + b && Atom(l) && Atom(a) && Atom(b)
  }

  /** isValidEmail holds exactly of `local@A.B` with three atoms. */
  lemma IsValidEmailIff(email: string)
    ensures IsValidEmail(email) <==> exists l, a, b :: EmailParts(email, l, a, b)
  {
    if IsValidEmail(email) {
      var i, j :| 0 <= i < j < |email| && EmailAt(email, i, j);
      EmailToParts(email, i, j);
      assert EmailParts(email, email[..i], email[i + 1..j], email[j + 1..]);
    }
    if exists l, a, b :: EmailParts(email, l, a, b) {
      var l, a, b :| EmailParts(email, l, a, b);
      EmailFromParts(l, a, b);
    }
  }

  /** In a valid email the only `@` is the one at `i`, and nothing is whitespace. */
  lemma EmailChars(email: string, i: nat, j: nat)
    requires EmailAt(email, i, j)
    ensures forall k :: 0 <= k < |email| ==> !IsJsSpace(email[k])
    ensures forall k :: 0 <= k < |email| && email[k] == '@' ==> k == i
  {
    forall k | 0 <= k < |email| ensures !IsJsSpace(email[k]) && (email[k] == '@' ==> k == i) {
      if k < i {
        assert email[k] == email[..i][k];
      } else if i < k < j {
        assert email[k] == email[i + 1..j][k - i - 1];
      } else if j < k {
        assert email[k] == email[j + 1..][k - j - 1];
      }
    }
  }

  lemma CountOnce(s: string, c: char, i: nat)
    requires i < |s| && s[i] == c
    requires forall k :: 0 <= k < |s| && s[k] == c ==> k == i
    ensures Count(s, c) == 1
  {
    assert s == s[..i] + ([s[i]] + s[i + 1..]);
    assert c !in s[..i] by {
      forall k | 0 <= k < i ensures s[..i][k] != c {
        assert s[..i][k] == s[k];
      }
    }
    assert c !in s[i + 1..] by {
      forall k | i + 1 <= k < |s| ensures s[k] != c {
      }
    }
    CountAbsent(s[..i], c);
    CountAbsent(s[i + 1..], c);
    CountAppend(s[..i], [s[i]] + s[i + 1..], c);
    CountAppend([s[i]], s[i + 1..], c);
  }

  /** The shapes isValidEmail rejects: anything with no `@` or with two or
      more, anything holding whitespace, and anything without a dot after its
      `@`. */
  lemma IsValidEmailRejects(email: string)
    ensures Count(email, '@') != 1 ==> !IsValidEmail(email)
    ensures (exists k :: 0 <= k < |email| && IsJsSpace(email[k])) ==> !IsValidEmail(email)
    ensures forall i :: 0 <= i < |email| && email[i] == '@' && '.' !in email[i + 1..] ==> !IsValidEmail(email)
  {
    if IsValidEmail(email) {
      var i, j :| 0 <= i < j < |email| && EmailAt(email, i, j);
      EmailChars(email, i, j);
      CountOnce(email, '@', i);
      assert email[i + 1..][j - i - 1] == '.';
    }
  }

  lemma IsValidEmailExample()
    ensures IsValidEmail("a@b.c")
  {
    EmailFromParts("a", "b", "c");
    assert "a" + "@" + "b" + "." + "c" == "a@b.c";
  }

  datatype PasswordCheck = PasswordCheck(isValid: bool, message: string)

  /** The message for a short password ("the password needs at least 6 characters"). */
  const PasswordTooShort := "密码至少需要6个字符"

  /** `validatePassword(password)` (src/lib/auth.ts:80-85): valid exactly
      when `password.length` (UTF-16 code units) is at least 6, and the
      message is empty exactly when the password is valid. */
  function ValidatePassword(password: string): (r: PasswordCheck)
    ensures r.isValid <==> Utf16Length(password) >= 6
    ensures r.message == "" <==> r.isValid
  {
    if Utf16Length(password) < 6 then PasswordCheck(false, PasswordTooShort)
    else PasswordCheck(true, "")
  }

  lemma {:induction false} Utf16LengthBmp(s: string)
    requires forall k :: 0 <= k < |s| ==> s[k] as int <= 0xFFFF
    ensures Utf16Length(s) == |s|
  {
    if s != [] {
      Utf16LengthBmp(s[1..]);
    }
  }

  /** In characters: six or more always pass, fewer than three never do, and
      for text of the Basic Multilingual Plane the bar is exactly six. */
  lemma ValidatePasswordCharacters(password: string)
    ensures |password| >= 6 ==> ValidatePassword(password).isValid
    ensures |password| < 3 ==> !ValidatePassword(password).isValid
    ensures (forall k :: 0 <= k < |password| ==> password[k] as int <= 0xFFFF) ==>
              (ValidatePassword(password).isValid <==> |password| >= 6)
  {
    Utf16LengthBounds(password);
    if forall k :: 0 <= k < |password| ==> password[k] as int <= 0xFFFF {
      Utf16LengthBmp(password);
    }
  }
}
