# Mock authentication layer of the cheatsheets site, in Dafny

This project models the small client-side authentication layer of the
cheatsheets web site and proves properties of it. The layer has three parts:

- the browser utilities of `src/lib/auth.ts`:
  - reading, writing and deleting cookies through `document.cookie`;
  - `isAuthenticated` and `getCurrentUser`;
  - `clearAuth`;
  - the email and password validators;
- the route guard of `src/middleware.ts`, a stateless decision per request;
- the `AuthProvider` of `src/contexts/AuthContext.tsx`, which holds the
  signed-in user and a loading flag over the browser's storage.

Files:

- `wrappers.dfy`: `Option`, standing for the nullable results.
- `strings.dfy`: the JavaScript string operations the code relies on:
  - `indexOf`, `replace` (first occurrence only) and `split`;
  - the space-stripping loop;
  - number-to-text conversion;
  - `.length` counted in UTF-16 code units.
- `cookies.dfy`: the cookie jar as a sequence of name/value pairs.
  - `document.cookie` reads it as `name=value` pairs joined by `"; "`, as
    section 5.4 of RFC 6265 describes.
  - A line written to `document.cookie` is parsed as section 5.2 of RFC 6265
    describes: the name-value pair is the text before the first `;`, split at
    the first `=`, with WSP trimmed.
  - A live line replaces or adds its cookie. An expired one removes it.
  - This file also holds the specification of the `getCookie` scan and the
    proof that the scan reads the jar.
- `auth.dfy`: the utilities.
  - A `Browser` class holds the jar, the `localStorage` entries and whether the
    code runs in a page. Its methods are `setCookie`, `deleteCookie`, the
    `getCookie` loop, `isAuthenticated`, `getCurrentUser` and `clearAuth`.
  - The validators are pure functions.
- `middleware.dfy`: the route guard as a total function to a result type,
  plus a table-driven reference classifier.
- `auth_context.dfy`: the `AuthProvider` class with the mount check, `login`,
  `register`, `logout` and the derived `isAuthenticated`.

Abstractions:

- **Clock.** Two values come from the caller as parameters:
  - `Date.now()`, as `now`;
  - the expiry date text, as `expires`.
- **Page.** Whether the code runs in a page (`typeof document` and
  `typeof window` are defined) is the constant field `client` of a
  `Browser` object, fixed when the object is made.
- **Stored profiles.** A `localStorage` value is either the JSON text of a
  profile (`Json`) or other text on which `JSON.parse` throws (`Text`).
- **Provider invariant.** The `AuthProvider` keeps this class invariant: it
  never holds a user without a non-empty `authToken` cookie.

## Model

| member | source | states |
|---|---|---|
| Strings.IndexFrom | src/lib/auth.ts:25 | the answer is the first position at or after `from` where the pattern occurs, and None means it occurs nowhere there |
| Strings.IndexOfZero | src/lib/auth.ts:25 | `indexOf(p) === 0` holds exactly when `p` is a prefix |
| Strings.ReplaceFirst | src/middleware.ts:14 | `replace` with a string pattern: the text is unchanged when the pattern does not occur; otherwise the text before and the text after the first occurrence are kept around the replacement, so putting the pattern back rebuilds the text, and the length changes by the replacement's length less the pattern's |
| Strings.ReplaceFirstRemoves | src/middleware.ts:14 | removing the first `Bearer `: the text is unchanged when it does not occur, a leading one is cut off, and putting the pattern back at the first occurrence rebuilds the text |
| Strings.Split | src/lib/auth.ts:21 | `split(';')` yields one more part than there are separators, no part holds one, and joining the parts with the separator gives the text back |
| Strings.TrimLeadingSpaces | src/lib/auth.ts:24 | the inner loop's result is a suffix not starting with a space, and only spaces were dropped |
| Strings.TrimWsp | src/lib/auth.ts:13 | the parser's trim removes exactly the WSP at either end: the result is a slice of the text with only WSP outside it and none at its edges, so it adds no character, and text that is already trimmed is kept |
| Strings.TakeUntil | src/lib/auth.ts:13 | the cookie line's name-value pair is a prefix without `;` that ends at the first `;` |
| Strings.DecimalString | src/contexts/AuthContext.tsx:71 | `Date.now()` renders as a non-empty run of decimal digits |
| Strings.Utf16LengthBounds | src/lib/auth.ts:81 | `.length` counts between one and two units per character |
| Cookies.FirstMatchNone | src/lib/auth.ts:20-27 | the scan (`FirstMatch`, which `FindCookie` runs over `document.cookie` split at `;`) answers null exactly when no segment, after its leading spaces are stripped, begins with `name=` |
| Cookies.FirstMatchSome | src/lib/auth.ts:22-25 | a non-null answer is the text after `name=` in a matching segment, and no earlier segment matches |
| Cookies.FindCookieFirstWins | src/lib/auth.ts:22-25 | in `a;b` a match in `a` wins and later segments with the same name are ignored |
| Cookies.FindCookieAnchored | src/lib/auth.ts:24-25 | `name=` must sit at the start of a segment: `xauthToken=v` never matches `authToken` |
| Cookies.GetCookieReadsJar | src/lib/auth.ts:17-28 | on a well-formed jar the scan of `document.cookie` finds exactly the jar's value for the name |
| Cookies.SetLineStores | src/lib/auth.ts:13 | the line setCookie writes (`SetLine`) stores the cookie `name` with the value cut at its first `;` and trimmed, which is the value itself when it is a plain cookie value |
| Cookies.DeleteLineNames | src/lib/auth.ts:32 | the line deleteCookie writes (`DeleteLine`) names the cookie with an empty value |
| Cookies.StoredValueEmpty | src/lib/auth.ts:13 | a value starting with `;` is stored as the empty text |
| Cookies.StoredValueCut | src/lib/auth.ts:13 | a value holding `;` such as "a;b@c.d" is stored cut short as "a" |
| Cookies.SetThenLookup | src/lib/auth.ts:9-15 | after setCookie the name reads back the stored value, and every other name reads as before |
| Cookies.DeleteThenLookup | src/lib/auth.ts:30-34 | deleteCookie removes the name, so it reads back as absent, and every other name reads as before |
| Cookies.RemoveIdempotent | src/lib/auth.ts:30-34 | deleting a cookie twice is deleting it once |
| Cookies.RemoveCommutes | src/lib/auth.ts:66-67 | the two deletions of clearAuth may happen in either order |
| Cookies.LookupUpsert | src/lib/auth.ts:13 | writing a live cookie changes the reading of its name only |
| Cookies.LookupRemove | src/lib/auth.ts:32 | removing a cookie changes the reading of its name only |
| Cookies.ParsedCookieValid | src/lib/auth.ts:13 | every cookie a written line yields has a valid name and value |
| Cookies.AssignWellFormed | src/lib/auth.ts:13 | assigning any line to `document.cookie` keeps the jar well formed: valid names and values, one cookie per name |
| Auth.ReadCookie | src/lib/auth.ts:17-28 | `getCookie(name)` as a function: null off the page, and on a page with a well-formed jar exactly the jar's value for every name without `=` |
| Auth.Browser.SetCookie | src/lib/auth.ts:9-15 | on a page the jar becomes the jar with the set line assigned, off the page nothing changes, and `localStorage` is untouched |
| Auth.Browser.DeleteCookie | src/lib/auth.ts:30-34 | on a page the jar becomes the jar with the expired line assigned, off the page nothing changes |
| Auth.Browser.GetCookie | src/lib/auth.ts:17-28 | the loop answers the scan specification: null off the page, otherwise the first segment match |
| Auth.Browser.IsAuthenticated | src/lib/auth.ts:37-40 | true exactly when `getCookie('authToken')` is non-null and non-empty |
| Auth.IsAuthenticatedReadsJar | src/lib/auth.ts:37-40 | isAuthenticated holds exactly when on a page the jar holds a non-empty `authToken` |
| Auth.ResolveUser | src/lib/auth.ts:43-62 | `getCurrentUser()` as a function: a user exactly when a page holds a non-empty `userEmail` cookie, and that user is the stored profile or `{username: "User", email}` with the cookie's email |
| Auth.Browser.GetCurrentUser | src/lib/auth.ts:43-62 | the method answers `ResolveUser` over the browser's state |
| Auth.ResolveUserCases | src/lib/auth.ts:43-62 | null exactly off the page or without a non-empty `userEmail` cookie; otherwise the stored profile when it parses, else `{username: "User", email}` from the cookie |
| Auth.Browser.SetItem | src/contexts/AuthContext.tsx:111 | `localStorage.setItem`: the entry under the key becomes the value, every other entry and the jar stay as they were |
| Auth.Browser.RemoveItem | src/lib/auth.ts:69 | `localStorage.removeItem`: the key is gone, every other entry and the jar stay as they were |
| Auth.Browser.ClearAuth | src/lib/auth.ts:65-71 | on a page both session cookies are deleted and `registeredUser` is removed; off the page nothing changes |
| Auth.ClearAuthRemoves | src/lib/auth.ts:65-71 | clearing leaves `authToken`, `userEmail` and `registeredUser` absent and every other cookie and entry unchanged |
| Auth.ClearAuthIdempotent | src/lib/auth.ts:65-71 | clearing twice equals clearing once |
| Auth.ClearAuthSignsOut | src/lib/auth.ts:65-71 | after clearing, no token can be read and getCurrentUser answers null |
| Auth.IsValidEmailIff | src/lib/auth.ts:74-77 | the regex (`IsValidEmail`) accepts exactly `local@A.B` with all three parts non-empty and free of whitespace and `@`, where `A` may contain dots |
| Auth.IsValidEmailRejects | src/lib/auth.ts:74-77 | text with zero or several `@`, with any whitespace, or with no `.` after its `@` is rejected |
| Auth.IsValidEmailExample | src/lib/auth.ts:74-77 | "a@b.c" is accepted |
| Auth.ValidatePassword | src/lib/auth.ts:80-85 | valid exactly when `.length` is at least 6, and the message is empty exactly when valid |
| Auth.ValidatePasswordCharacters | src/lib/auth.ts:80-85 | six characters always suffice and fewer than three never do; for text inside the Basic Multilingual Plane, valid exactly when it has at least six characters |
| Middleware.SomePrefixIff | src/middleware.ts:17-20 | `some(startsWith)` holds exactly when some route is a prefix of the path |
| Middleware.ProtectedRouteIff | src/middleware.ts:17 | a path is protected exactly when it starts with `/dashboard`, `/profile` or `/settings` |
| Middleware.AuthRouteIff | src/middleware.ts:20 | a path is an auth route exactly when it starts with `/sign-in` or `/sign-up` |
| Middleware.RoutesDisjoint | src/middleware.ts:5-7 | no path is both protected and an auth route |
| Middleware.ClassByPrefix | src/middleware.ts:17-20 | a path extended with any text keeps its class |
| Middleware.Middleware | src/middleware.ts:9-42 | the guard: a protected page is reached exactly when there is a token, a path that is neither protected nor an auth route always passes without a header, and no redirect points at the requested path itself |
| Middleware.MiddlewareRules | src/middleware.ts:23-41 | each of the four outcomes happens exactly under its rule's condition: the sign-in redirect, the dashboard redirect, the pass with the `Bearer` header, and the plain pass |
| Middleware.ClassifyRouteTable | src/middleware.ts:5-7 | a first-match table of prefixes classifies exactly as the two route lists do |
| Middleware.MiddlewareByClass | src/middleware.ts:9-42 | the guard equals a lookup of the path's class followed by one rule per class, so the order of the rules does not matter |
| Middleware.Token | src/middleware.ts:13-14 | no token exactly when there is neither a non-empty cookie nor a header; a non-empty cookie wins; otherwise the header, whole or shorter by exactly one `Bearer ` |
| Middleware.TokenSource | src/middleware.ts:13-14 | a non-empty cookie wins; otherwise the header, with a leading `Bearer ` removed or unchanged when it has none, and in general with its first `Bearer ` removed so that putting it back rebuilds the header; no cookie and no header gives no token |
| Middleware.BearerHeaderOnResponse | src/middleware.ts:35-39 | a protected request carrying `Bearer t` and no cookie passes, and the response carries that same header |
| Middleware.NoRedirectLoop | src/middleware.ts:23-32 | following either redirect with the same cookie and header, the guard lets the request through, so redirects never chain |
| Middleware.RootPasses | src/middleware.ts:41 | `/` passes unchanged whatever the token |
| Middleware.RedirectExamples | src/middleware.ts:23-32 | `/dashboard` without a token goes to `/sign-in` with `redirect` set to `/dashboard`, and `/sign-in` with a token goes to `/dashboard` |
| Middleware.PrefixExamples | src/middleware.ts:17-20 | `/dashboardX` is protected and `/sign-up/extra` is an auth route |
| AuthContext.MockToken | src/contexts/AuthContext.tsx:71 | the token is `mock-jwt-token-` followed by digits, and is a cookie value kept intact |
| AuthContext.SessionJarCookies | src/contexts/AuthContext.tsx:74-75 | login's two writes (`SessionJar`) set `authToken` to the token and `userEmail` to the email, whole when it has no `;`; other cookies are untouched and the jar stays well formed |
| AuthContext.EmailStored | src/contexts/AuthContext.tsx:75 | the email cookie keeps an accepted email up to its first `;`: empty exactly when the email starts with `;`, the whole email when it holds no `;`, and shorter than the email otherwise |
| AuthContext.ReloadAfterLogin | src/contexts/AuthContext.tsx:71-86 | for every accepted email, a reload after login's cookie writes finds the minted token, and as user nobody when the email starts with `;`, else the registered profile when one parses, else the placeholder carrying the email up to its first `;` |
| AuthContext.LoginAgreesWithReload | src/contexts/AuthContext.tsx:71-86 | after a successful login, the mount check reading the browser finds the token and the same user that login set |
| AuthContext.FailedLoginLeavesSession | src/contexts/AuthContext.tsx:74-80 | when the stored profile does not parse, login has already written the token, so a reload signs in with the placeholder profile carrying the email up to its first `;` (the whole email when it holds no `;`), or finds nobody when the email starts with `;` |
| AuthContext.ReloadCutsEmail | src/contexts/AuthContext.tsx:75 | when no registered profile parses, every accepted email holding `;` after its first character comes back after a reload cut at its first `;`, non-empty and shorter than the email |
| AuthContext.LeadingSemicolonEmail | src/lib/auth.ts:74-77 | the validator accepts an email starting with `;`, such as ";x@y.z", which the email cookie keeps as the empty text |
| AuthContext.ReloadLosesUser | src/contexts/AuthContext.tsx:75 | after a login with an accepted email starting with `;`, the token is set but a reload finds nobody signed in |
| AuthContext.SignIn | src/contexts/AuthContext.tsx:77-90 | login's profile step: it fails only with an entry stored under `registeredUser`, and a user it answers is the stored profile or the placeholder with the email typed in |
| AuthContext.RegisteredProfileWins | src/contexts/AuthContext.tsx:78-81 | once a profile is registered, login answers it whatever email is typed in |
| AuthContext.SignInFails | src/contexts/AuthContext.tsx:78-90 | after the checks pass, login fails exactly when the stored entry is non-empty text that is not a profile; with nothing stored the placeholder profile is used |
| AuthContext.AuthProvider.constructor | src/contexts/AuthContext.tsx:38-39 | the provider starts with no user and loading |
| AuthContext.AuthProvider.IsAuthenticated | src/contexts/AuthContext.tsx:127 | true exactly when there is a user, and then the `authToken` cookie reads as non-empty |
| AuthContext.AuthProvider.CheckAuthStatus | src/contexts/AuthContext.tsx:41-53 | loading ends; with a non-empty token the user becomes getCurrentUser(), otherwise it stays as it was |
| AuthContext.AuthProvider.Login | src/contexts/AuthContext.tsx:55-91 | rejected credentials return false and change nothing; accepted ones write both cookies, then return true and set the user, or return false with the user unchanged when the stored entry fails to parse; `localStorage` is untouched |
| AuthContext.AuthProvider.Register | src/contexts/AuthContext.tsx:93-118 | true exactly for accepted credentials, and then `registeredUser` holds `{username, email}`; cookies and user are untouched |
| AuthContext.AuthProvider.Logout | src/contexts/AuthContext.tsx:120-123 | the storage is cleared as clearAuth clears it and the user becomes null |
| AuthContext.RegisterThenLogin | src/contexts/AuthContext.tsx:93-118 | registering and then logging in with the same email and any password long enough leaves the registered profile as user, and a reload restores it unless the email starts with `;`, when it finds nobody; login never compares the password with the registered one |
| AuthContext.LogoutTwice | src/contexts/AuthContext.tsx:120-123 | two logouts leave exactly the jar and storage one logout leaves (both session cookies and the profile removed, everything else kept); nobody is signed in and a reload finds nobody |

## Left out

- Delays: the one-second and 1.5-second waits in `login` and `register` are left out. Each operation is one atomic step.
- Clock: `Date.now()` and the expiry date arithmetic are parameters. Cookie expiry over time is not modelled. Every `setCookie` line counts as live and the epoch-dated `deleteCookie` line as expired.
- Cookie attributes: the domain and path of a cookie are not modelled. The jar is keyed by name alone, and `path=/` is the only path the code uses.
- Cookie storage limits: the jar keeps every line section 5.2 of RFC 6265 accepts. The later cookie draft (RFC 6265bis) also ignores a line whose name or value holds a control character, or whose name and value together exceed 4096 bytes. The model does not apply those rules, so an accepted email such as "a\u0001@b.c" is stored whole here.
- Attribute injection: a `;` in a written value starts the line's attributes (RFC 6265, section 5.2). The model keeps only the value before it and does not model what those attributes would do.
- AuthContext.ReloadAfterLogin, AuthContext.FailedLoginLeavesSession and AuthContext.ReloadCutsEmail: for an accepted email whose text after a `;` is itself a cookie attribute, a browser acts on that attribute, which these lemmas do not model. For "a;max-age=0;@b.c" the `Max-Age=0` takes precedence over the line's `expires` (RFC 6265, section 5.3), so the `userEmail` cookie is removed and a reload finds nobody, where these lemmas give the placeholder with "a". For "a;domain=x@y.z" the browser ignores the whole line.
- Nameless cookies: `document.cookie` can show a cookie with an empty name. The jar here holds only named cookies, since the code never writes any other kind.
- JSON: the text `JSON.stringify` produces and `JSON.parse` reads is abstract. A stored entry is either a profile or text that fails to parse. Valid JSON that is not a profile object (for example `42`) is not modelled.
- `localStorage` quota errors and other exceptions from the storage API are not modelled.
- Middleware responses: the `NextResponse` and `URL` objects are not modelled, and neither is the percent-encoding of the `redirect` parameter. The model returns the target path and the raw parameter value.
- `config.matcher` (src/middleware.ts:45-56) is framework routing configuration and is not modelled.
- React plumbing is not modelled: context creation, `useAuth`, re-rendering, and the effect running once.
- `AuthProvider` server rendering: `AuthProvider` is a client component, so its model requires a page. The utilities themselves still model the off-page case.
- Pages: the presentation pages are not part of this model.
- AuthContext.LoginAgreesWithReload: stated only for emails without `;`. AuthContext.ReloadAfterLogin gives the reload for every accepted email. With a `;` after the first character and no registered profile, the reload reads a shortened email (AuthContext.ReloadCutsEmail). An accepted email that starts with `;` (such as ";x@y.z") is stored as the empty text, so after a reload `getCurrentUser` answers null while the token is still set (AuthContext.ReloadLosesUser).
- Other writers of the jar, such as other tabs or page scripts, are not modelled. The provider's invariant (a user is set only while a token is present) assumes the provider is the only writer.
- Auth.IsValidEmailIff: the regex's `\s` is the ECMAScript whitespace set, listed character by character. Regex matching itself is not modelled.

Behaviour of the code worth knowing:

- `login` does not always succeed for valid input. It returns false when the stored profile does not parse, even though the cookies have already been written (AuthContext.FailedLoginLeavesSession).
- The password length is JavaScript's `.length`, which counts UTF-16 code units, not characters.
- The guard's classification runs two independent prefix tests, not a first-match table. The two are proved to agree (Middleware.MiddlewareByClass).
