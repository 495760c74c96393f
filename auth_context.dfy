/** The React authentication context of src/contexts/AuthContext.tsx: the
    provider's state (the signed-in user and the loading flag) over the
    browser's cookies and `localStorage`, with the mount-time status check,
    login, registration and logout. */
module AuthContext {
  import opened Wrappers
  import opened Strings
  import opened Cookies
  import opened Auth

  const TokenPrefix := "mock-jwt-token-"

  /** `'mock-jwt-token-' + Date.now()`, for the clock reading `now`. The
      token is a cookie value that survives the jar intact: no `;` and no
      WSP at either end. */
  function MockToken(now: nat): (t: string)
    ensures TokenPrefix <= t && |t| > |TokenPrefix|
    ensures forall k :: |TokenPrefix| <= k < |t| ==> IsDigit(t[k])
    ensures ValidValue(t)
  {
    var digits := DecimalString(now);
    var t := TokenPrefix + digits;
    assert forall k :: 0 <= k < |TokenPrefix| ==> t[k] == TokenPrefix[k] != ';';
    assert forall k :: |TokenPrefix| <= k < |t| ==> t[k] == digits[k - |TokenPrefix|];
    t
  }

  /** The jar after login's two `setCookie` calls. */
  function SessionJar(jar: seq<Cookie>, email: string, now: nat, expires: string): seq<Cookie> {
    var withToken := Assign(jar, SetLine(AuthTokenCookie, MockToken(now), expires), true);
    Assign(withToken, SetLine(UserEmailCookie, email, expires), true)
  }

  /** Login's profile step over `localStorage`: None where `JSON.parse`
      throws on the stored entry (the catch then answers false), otherwise
      the profile signed in as: the registered one when there is a
      non-empty entry, else the placeholder carrying the email typed in.
      So it fails only with an entry stored, and a user it answers is the
      stored profile or the placeholder. */
  function SignIn(local: map<string, Stored>, email: string): (r: Option<User>)
    ensures r.None? ==> RegisteredUserKey in local
    ensures r.Some? ==>
              GetItem(local, RegisteredUserKey) == Some(Json(r.value)) || r.value == User(PlaceholderName, email)
  {
    var stored := GetItem(local, RegisteredUserKey);
    if stored.Some? && Truthy(stored.value) then ParseProfile(stored.value)
    else Some(User(PlaceholderName, email))
  }

  /** Both credential checks login and register make. */
  predicate Acceptable(email: string, password: string) {
    IsValidEmail(email) && ValidatePassword(password).isValid
  }

  /** Login leaves exactly the two session cookies changed: the token as
      minted and the email as the jar keeps it (whole when it holds no `;`),
      and the jar stays well formed. */
  lemma SessionJarCookies(jar: seq<Cookie>, email: string, now: nat, expires: string, name: string)
    requires WellFormedJar(jar)
    requires IsValidEmail(email)
    ensures WellFormedJar(SessionJar(jar, email, now, expires))
    ensures Lookup(SessionJar(jar, email, now, expires), AuthTokenCookie) == Some(MockToken(now))
    ensures Lookup(SessionJar(jar, email, now, expires), UserEmailCookie) == Some(StoredValue(email))
    ensures ';' !in email ==> StoredValue(email) == email
    ensures name != AuthTokenCookie && name != UserEmailCookie ==>
              Lookup(SessionJar(jar, email, now, expires), name) == Lookup(jar, name)
  {
    CookieNamesValid();
    var token := MockToken(now);
    var withToken := Assign(jar, SetLine(AuthTokenCookie, token, expires), true);
    AssignWellFormed(jar, SetLine(AuthTokenCookie, token, expires), true);
    AssignWellFormed(withToken, SetLine(UserEmailCookie, email, expires), true);
    SetThenLookup(jar, AuthTokenCookie, token, expires, AuthTokenCookie);
    SetThenLookup(withToken, UserEmailCookie, email, expires, AuthTokenCookie);
    SetThenLookup(jar, AuthTokenCookie, token, expires, name);
    SetThenLookup(withToken, UserEmailCookie, email, expires, name);
    SetThenLookup(withToken, UserEmailCookie, email, expires, UserEmailCookie);
    SetLineStores(AuthTokenCookie, token, expires);
    SetLineStores(UserEmailCookie, email, expires);
    ValidEmailIsValue(email);
  }

  /** An email the validator accepts has no whitespace, so with no `;` it
      is a cookie value kept whole. */
  lemma ValidEmailIsValue(email: string)
    requires IsValidEmail(email)
    ensures email != ""
    ensures ';' !in email ==> ValidValue(email)
  {
    var i, j :| 0 <= i < j < |email| && EmailAt(email, i, j);
    EmailChars(email, i, j);
    assert !IsJsSpace(email[0]) && !IsJsSpace(email[|email| - 1]);
  }

  /** The email cookie keeps an accepted email up to its first `;`: the
      validator admits no whitespace, so nothing is trimmed. The kept text is
      empty exactly when the email starts with `;`, the whole email when it
      holds no `;`, and shorter than the email otherwise. */
  lemma EmailStored(email: string)
    requires IsValidEmail(email)
    ensures StoredValue(email) == TakeUntil(email, ';')
    ensures StoredValue(email) == "" <==> ";" <= email
    ensures ';' !in email ==> StoredValue(email) == email
    ensures ';' in email ==> |StoredValue(email)| < |email|
  {
    var i, j :| 0 <= i < j < |email| && EmailAt(email, i, j);
    EmailChars(email, i, j);
    StoredWithoutWsp(email);
  }

  /** The same for any non-empty text without whitespace. */
  lemma StoredWithoutWsp(s: string)
    requires s != ""
    requires forall k :: 0 <= k < |s| ==> !IsJsSpace(s[k])
    ensures StoredValue(s) == TakeUntil(s, ';')
    ensures StoredValue(s) == "" <==> ";" <= s
    ensures ';' !in s ==> StoredValue(s) == s
    ensures ';' in s ==> |StoredValue(s)| < |s|
  {
    var t := TakeUntil(s, ';');
    if t != "" {
      assert t[0] == s[0] && t[|t| - 1] == s[|t| - 1];
      assert !IsJsSpace(s[0]) && !IsJsSpace(s[|t| - 1]);
    }
    assert NoEdgeWsp(t);
    if ';' !in s {
      assert t == s;
    }
  }

  /** What a reload finds after login's two cookie writes, for every
      accepted email: the minted token, and as user nobody when the email
      starts with `;`, else the registered profile when one parses, else the
      placeholder carrying the email up to its first `;`. */
  lemma ReloadAfterLogin(jar: seq<Cookie>, local: map<string, Stored>, email: string, now: nat, expires: string)
    requires WellFormedJar(jar)
    requires IsValidEmail(email)
    ensures ReadCookie(true, SessionJar(jar, email, now, expires), AuthTokenCookie) == Some(MockToken(now))
    ensures ResolveUser(true, SessionJar(jar, email, now, expires), local) ==
              if ";" <= email then None
              else if RegisteredUserKey in local && local[RegisteredUserKey].Json? then Some(local[RegisteredUserKey].profile)
              else Some(User(PlaceholderName, TakeUntil(email, ';')))
  {
    var session := SessionJar(jar, email, now, expires);
    SessionJarCookies(jar, email, now, expires, "");
    EmailStored(email);
    CookieNamesValid();
    GetCookieReadsJar(session, AuthTokenCookie);
    ResolveUserCases(true, session, local);
  }

  /** After a successful login, reading the session back the way the mount
      check does (getCurrentUser) finds the same profile login set, as long
      as the email holds no `;`. */
  lemma LoginAgreesWithReload(jar: seq<Cookie>, local: map<string, Stored>, email: string, now: nat, expires: string)
    requires WellFormedJar(jar)
    requires IsValidEmail(email) && ';' !in email
    requires SignIn(local, email).Some?
    ensures ReadCookie(true, SessionJar(jar, email, now, expires), AuthTokenCookie) == Some(MockToken(now))
    ensures ResolveUser(true, SessionJar(jar, email, now, expires), local) == SignIn(local, email)
  {
    ReloadAfterLogin(jar, local, email, now, expires);
    EmailStored(email);
  }

  /** When the stored entry does not parse, login answers false, but the
      session cookies are already written: a reload then signs in with the
      placeholder profile, as getCurrentUser falls back where login gave up,
      carrying the email up to its first `;`, or finds nobody when the email
      starts with `;`. */
  lemma FailedLoginLeavesSession(jar: seq<Cookie>, local: map<string, Stored>, email: string, now: nat, expires: string)
    requires WellFormedJar(jar)
    requires IsValidEmail(email)
    requires SignIn(local, email).None?
    ensures ReadCookie(true, SessionJar(jar, email, now, expires), AuthTokenCookie) == Some(MockToken(now))
    ensures ResolveUser(true, SessionJar(jar, email, now, expires), local) ==
              if ";" <= email then None else Some(User(PlaceholderName, TakeUntil(email, ';')))
    ensures ';' !in email ==>
              ResolveUser(true, SessionJar(jar, email, now, expires), local) == Some(User(PlaceholderName, email))
  {
    ReloadAfterLogin(jar, local, email, now, expires);
    EmailStored(email);
  }

  /** The email cookie is written without encoding, so an accepted email
      holding `;` after its first character reads back cut short after a
      reload when no registered profile parses: "a;b@c.d" comes back as "a". */
  lemma ReloadCutsEmail(jar: seq<Cookie>, local: map<string, Stored>, email: string, now: nat, expires: string)
    requires WellFormedJar(jar)
    requires ';' in email && !(";" <= email) && IsValidEmail(email)
    requires !(RegisteredUserKey in local && local[RegisteredUserKey].Json?)
    ensures ResolveUser(true, SessionJar(jar, email, now, expires), local) ==
              Some(User(PlaceholderName, TakeUntil(email, ';')))
    ensures 0 < |TakeUntil(email, ';')| < |email|
  {
    ReloadAfterLogin(jar, local, email, now, expires);
    EmailStored(email);
  }

  /** An email the validator accepts may start with `;`: ";x@y.z" is one,
      and the email cookie keeps it as the empty text. */
  lemma LeadingSemicolonEmail()
    ensures IsValidEmail(";x@y.z") && StoredValue(";x@y.z") == ""
  {
    EmailFromParts(";x", "y", "z");
    assert ";x" + "@" + "y" + "." + "z" == ";x@y.z";
    StoredValueEmpty(";x@y.z");
  }

  /** Such an email is stored as the empty text, so after a reload nobody
      is signed in although the token is still set. */
  lemma ReloadLosesUser(jar: seq<Cookie>, local: map<string, Stored>, email: string, now: nat, expires: string)
    requires WellFormedJar(jar)
    requires email != "" && email[0] == ';' && IsValidEmail(email)
    ensures ReadCookie(true, SessionJar(jar, email, now, expires), AuthTokenCookie) == Some(MockToken(now))
    ensures ResolveUser(true, SessionJar(jar, email, now, expires), local) == None
  {
    ReloadAfterLogin(jar, local, email, now, expires);
  }

  /** Once registered, every later login answers with the registered
      profile, whatever email it is given. */
  lemma RegisteredProfileWins(local: map<string, Stored>, profile: User, email: string)
    ensures SignIn(local[RegisteredUserKey := Json(profile)], email) == Some(profile)
  {
  }

  /** Login fails after the credential checks only when the stored entry is
      non-empty text that is not a profile. */
  lemma SignInFails(local: map<string, Stored>, email: string)
    ensures SignIn(local, email).None? <==>
              RegisteredUserKey in local && local[RegisteredUserKey].Text? && local[RegisteredUserKey].raw != ""
    ensures RegisteredUserKey !in local ==> SignIn(local, email) == Some(User(PlaceholderName, email))
  {
  }

  /** The provider: its state `user` and `isLoading`, and the browser it
      reads and writes. It is a client component, so the browser is always
      a page. */
  class AuthProvider {
    var user: Option<User>
    var isLoading: bool
    const store: Browser

    /** The browser is a page with a well-formed jar, and the context never
        holds a user without an `authToken` cookie beside it. */
    ghost predicate Valid()
      reads this, store
    {
      && store.Valid()
      && store.client
      && (user.Some? ==> Present(Lookup(store.jar, AuthTokenCookie)))
    }

    /** `useState(null)` and `useState(true)` (src/contexts/AuthContext.tsx:38-39). */
    constructor (store: Browser)
      requires store.Valid() && store.client
      ensures Valid()
      ensures this.store == store && user == None && isLoading
    {
      this.store := store;
      user := None;
      isLoading := true;
    }

    /** `isAuthenticated: !!user`: a signed-in context always has a token
        cookie that `getCookie('authToken')` finds. */
    function IsAuthenticated(): (b: bool)
      reads this, store
      requires Valid()
      ensures b <==> user.Some?
      ensures b ==> Present(ReadCookie(store.client, store.jar, AuthTokenCookie))
    {
      IsAuthenticatedReadsJar(store.client, store.jar);
      user.Some?
    }

    /** The mount effect `checkAuthStatus` (src/contexts/AuthContext.tsx:41-53):
        with a non-empty token the user becomes getCurrentUser(); loading ends
        either way. */
    method CheckAuthStatus()
      requires Valid()
      modifies this
      ensures Valid()
      ensures !isLoading
      ensures user == if Present(ReadCookie(true, store.jar, AuthTokenCookie))
                      then ResolveUser(true, store.jar, store.local)
                      else old(user)
    {
      var token := store.GetCookie(AuthTokenCookie);
      if Present(token) {
        IsAuthenticatedReadsJar(true, store.jar);
        var currentUser := store.GetCurrentUser();
        user := currentUser;
      }
      isLoading := false;
    }

    /** `login(email, password)` (src/contexts/AuthContext.tsx:55-91), with
        the clock reading `now` and the expiry date text `expires` seven days
        on. Rejected credentials change nothing. Accepted ones write both
        session cookies; then the answer is true and the user is set unless
        the stored entry fails to parse. The profile step follows the
        function `SignIn`. */
    method Login(email: string, password: string, now: nat, expires: string) returns (ok: bool)
      requires Valid()
      modifies this, store
      ensures Valid()
      ensures isLoading == old(isLoading)
      ensures store.local == old(store.local)
      ensures !Acceptable(email, password) ==> !ok && user == old(user) && store.jar == old(store.jar)
      ensures Acceptable(email, password) ==>
                && store.jar == SessionJar(old(store.jar), email, now, expires)
                && (ok <==> SignIn(store.local, email).Some?)
                && user == (if ok then SignIn(store.local, email) else old(user))
    {
      if !IsValidEmail(email) {
        return false;
      }
      var passwordValidation := ValidatePassword(password);
      if !passwordValidation.isValid {
        return false;
      }
      ghost var jar0 := store.jar;
      var token := MockToken(now);
      store.SetCookie(AuthTokenCookie, token, expires);
      store.SetCookie(UserEmailCookie, email, expires);
      assert store.jar == SessionJar(jar0, email, now, expires);
      SessionJarCookies(jar0, email, now, expires, "");
      assert Present(Lookup(store.jar, AuthTokenCookie));
      assert store.local == old(store.local) && isLoading == old(isLoading);
      var registeredUser := GetItem(store.local, RegisteredUserKey);
      if registeredUser.Some? && Truthy(registeredUser.value) {
        match ParseProfile(registeredUser.value)
        case None =>
          return false;
        case Some(userData) =>
          user := Some(userData);
      } else {
        user := Some(User(PlaceholderName, email));
      }
      return true;
    }

    /** `register(username, email, password)` (src/contexts/AuthContext.tsx:93-118):
        with accepted credentials the profile is stored under
        `registeredUser`; nothing else changes. */
    method Register(username: string, email: string, password: string) returns (ok: bool)
      requires Valid()
      modifies store
      ensures Valid()
      ensures ok <==> Acceptable(email, password)
      ensures store.local == if ok then old(store.local)[RegisteredUserKey := Json(User(username, email))]
                             else old(store.local)
      ensures store.jar == old(store.jar)
    {
      if !IsValidEmail(email) {
        return false;
      }
      var passwordValidation := ValidatePassword(password);
      if !passwordValidation.isValid {
        return false;
      }
      store.SetItem(RegisteredUserKey, Json(User(username, email)));
      return true;
    }

    /** `logout()` (src/contexts/AuthContext.tsx:120-123): clearAuth, then no user. */
    method Logout()
      requires Valid()
      modifies this, store
      ensures Valid()
      ensures user == None && isLoading == old(isLoading)
      ensures store.jar == ClearedJar(old(store.jar))
      ensures store.local == ClearedLocal(old(store.local))
    {
      store.ClearAuth();
      user := None;
    }
  }

  /** Register, then log in: the context holds the registered profile, and
      a fresh mount over the same browser restores it, unless the email
      starts with `;` and its cookie is left empty. The login password
      need only pass the length check: login never compares it with the one
      given at registration. */
  method RegisterThenLogin(provider: AuthProvider, username: string, email: string,
                           password: string, loginPassword: string, now: nat, expires: string)
    requires provider.Valid()
    requires Acceptable(email, password)
    requires ValidatePassword(loginPassword).isValid
    modifies provider, provider.store
    ensures provider.Valid()
    ensures provider.user == Some(User(username, email))
    ensures ResolveUser(true, provider.store.jar, provider.store.local) ==
              if ";" <= email then None else Some(User(username, email))
  {
    var registered := provider.Register(username, email, password);
    var jar0 := provider.store.jar;
    var loggedIn := provider.Login(email, loginPassword, now, expires);
    RegisteredProfileWins(provider.store.local, User(username, email), email);
    ReloadAfterLogin(jar0, provider.store.local, email, now, expires);
  }

  /** Log out: nobody is signed in, a fresh mount finds nobody, and logging
      out again changes nothing: two logouts leave what one leaves. */
  method LogoutTwice(provider: AuthProvider)
    requires provider.Valid()
    modifies provider, provider.store
    ensures provider.Valid() && provider.user == None
    ensures provider.store.jar == ClearedJar(old(provider.store.jar))
    ensures provider.store.local == ClearedLocal(old(provider.store.local))
    ensures ReadCookie(true, provider.store.jar, AuthTokenCookie) == None
    ensures ResolveUser(true, provider.store.jar, provider.store.local) == None
  {
    var jar0, local0 := provider.store.jar, provider.store.local;
    provider.Logout();
    var jar1, local1 := provider.store.jar, provider.store.local;
    provider.Logout();
    ClearAuthIdempotent(jar0, local0);
    assert provider.store.jar == jar1 && provider.store.local == local1;
    ClearAuthSignsOut(jar0, local0);
  }
}
