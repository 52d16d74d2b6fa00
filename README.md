# acorn-jwt: the token resolver and the REST API, modelled in Dafny

The plugin issues and validates JSON Web Tokens for the WordPress REST API.
Two PHP classes hold its decision logic, and this project models both:

- `TokenResolver` builds the registered claims of a new token (`iss`, `iat`, `nbf`, `exp`, section 4.1 of RFC 7519).
  It also picks the Authorization header, extracts the Bearer token with `sscanf('Bearer %s')`, checks what the JWT library decoded, and decides the current user of each REST request.
  It records the error codes of failed validations in its `errors` collection.
- `API` answers the `token` route and the `token/validate` route.
  It also turns recorded errors into an early response before dispatch, and stores the CORS header line.

Files:

- `php.dfy` (module `Php`) gives the PHP built-ins the code relies on, with PHP's meaning:
  - string truthiness (`""` and `"0"` are falsy);
  - loose `==` of a decoded null, boolean or string against a string;
  - `strpos` (first occurrence, or false);
  - the C `isspace` classes that `sscanf` uses.
- `tokens.dfy` (module `Tokens`) holds the `TokenResolver` class, its pure operations as functions, and the lemmas about them.
- `rest.dfy` (module `Rest`) holds the `Api` class.

The JWT library's decoder, `wp_authenticate`, `get_bloginfo('url')`, `rest_get_url_prefix()`, `$_SERVER`, `time()` and `header()` are all inputs here:

- the decoder is a function from the call's arguments (`DecodeCall`) to the decoded claims, where None means it threw;
- `wp_authenticate` is a function from the credentials to a user or an error code;
- the site URL, the REST prefix, the server values and the time are plain parameters;
- the argument `header()` would receive is part of `PreDispatch`'s result.

Behaviour of the code that the model keeps, where it may surprise a reader:

- `sscanf('Bearer %s')` matches `Bearer` case-sensitively.
- The whitespace that follows may be any amount, even none (`Bearerabc` yields `abc`).
- Only the first word is taken (`Bearer a b` yields `a`).
- A token of `0` is refused because it is falsy.
- The issuer is compared with the site URL at the time of the check, not with a fixed setting.
  A token therefore stops validating once the site URL changes (`Tokens.IssuerDriftRefuses`).
- A token refused by the checks after decoding (wrong issuer, or no user id) makes `validateToken` return `false`.
  `setCurrentUser` then reads `data->user->id` of `false`, which is null. So the request resolves to no user, the incoming user is dropped, and no error is recorded.
- The checks after decoding never produce a `WP_Error`. So the `jwt_no_auth_header` branch of `setCurrentUser` and its error recording are never reached from `validateToken`, and `preDispatch` never short-circuits on them (`Tokens.CheckedValidationRecordsNothing`).
  A request with no Authorization header hands the decoder `false` as its token (`Tokens.MissingHeaderGivesNoToken`).
- The issuer check is PHP's loose `!=`. A decoded boolean `true` issuer passes against every truthy site URL (`Tokens.TrueIssuerPasses`).
- The header line `cors` stores is `Access-Control-Allow-Headers, Content-Type, Authorization`, exactly as the code spells it.

## Model

| member | source | states |
|---|---|---|
| `Php.StrPos` | src/TokenResolver.php:100-104 | `strpos`: Some(i) is a match with no earlier match; None exactly when the needle does not occur |
| `Php.LooseEquals` | src/TokenResolver.php:170 | PHP's loose `==` of a decoded issuer against a string: null equals only `""`, a boolean equals exactly the strings of the same truthiness, a string equals only itself; loosely equal values always have the same truthiness |
| `Tokens.ValidateHeaders` | src/TokenResolver.php:142-155 | the primary value when it is truthy, else the redirect value when that is truthy, else false; a returned value is truthy; false exactly when neither is truthy |
| `Tokens.ScanBearer` | src/TokenResolver.php:128 | the first element of `sscanf($authHeader, 'Bearer %s')`: null for a false header or when the literal `Bearer` does not match; a scanned word is non-empty, has no whitespace, and is the word that follows `Bearer` and optional whitespace |
| `Tokens.ValidateTokenFormat` | src/TokenResolver.php:126-135 | a returned token is truthy and contains no whitespace; a false header yields false |
| `Tokens.ValidateTokenFormatIff` | src/TokenResolver.php:128-134 | both directions: the result is Some(t) exactly when the header is `Bearer`, then optional whitespace, then the truthy maximal word t, then the end or whitespace |
| `Tokens.TokenIgnoresLaterWords` | src/TokenResolver.php:128 | `Bearer <t> <rest>` yields t whatever follows |
| `Tokens.SchemeIsCaseSensitive` | src/TokenResolver.php:128-132 | a header not starting with the exact bytes `Bearer` yields false |
| `Tokens.CheckDecoded` | src/TokenResolver.php:162-182 | Valid exactly when the decoder returned claims whose `iss` (null, boolean or string) loosely equals the site URL and whose `data.user.id` is set; the decoded object is returned unchanged; a decoder failure is the only Thrown; never a `WP_Error` |
| `Tokens.SkipsRequest` | src/TokenResolver.php:100-106 | a request is skipped exactly when the REST prefix does not occur or starts the URI, or `token/validate` occurs but does not start it |
| `Tokens.Outcome` | src/TokenResolver.php:110-118 | a `WP_Error` keeps the incoming user; a decoder exception passes through; decoded claims with a user id resolve to that id; a refused token (`false`), or claims without an id, resolve to no user |
| `Tokens.ErrorsAfter` | src/TokenResolver.php:110-113 | a `WP_Error` code other than `jwt_no_auth_header` ends up recorded; every other outcome leaves the errors as they were; a code already recorded leaves them unchanged; the old errors stay a prefix, and anything added is only that code, and only if it is new |
| `Tokens.PutCode` | src/TokenResolver.php:112 | the code is in the result; the old errors are a prefix of it; at most one element is added, and that element is the code |
| `Tokens.PutCodeKeepsDistinct` | src/TokenResolver.php:112 | recording a code keeps the codes in the collection distinct |
| `Tokens.TokenResolver.constructor` | src/TokenResolver.php:39-71 | the secret key, CORS flag and issuer (the site URL) are the arguments; the algorithm is `HS256`; the lifetime is 604800 seconds (seven days); the error collection is empty |
| `Tokens.TokenResolver.GenerateToken` | src/TokenResolver.php:80-89 | `iat == nbf == issued`; `exp - iat == validFor`; `iss` is the captured site URL; `data.user.id` is the user |
| `Tokens.TokenResolver.GenerateTokenAsWritten` | src/TokenResolver.php:80-89 | as written, the timing and issuer claims are the same, but `data.user.id` is null |
| `Tokens.TokenResolver.SetCurrentUser` | src/TokenResolver.php:98-119 | skipped requests keep the user and the errors; otherwise the result is `Outcome` and the errors are `ErrorsAfter` (only the `WP_Error`'s code, and only if it is new); the old errors stay a prefix; codes stay distinct |
| `Tokens.IssuedTokenResolvesToUser` | src/TokenResolver.php:83-87 | a generated token, decoded and checked against the same site URL, is Valid and resolves a request to its user id |
| `Tokens.IssuerDriftRefuses` | src/TokenResolver.php:170-172 | a generated token is refused once the site URL differs from the issuer captured at construction |
| `Tokens.AsWrittenTokenIsRefused` | src/TokenResolver.php:87 | as written, every generated token fails the `data.user.id` check and resolves to no user |
| `Tokens.TrueIssuerPasses` | src/TokenResolver.php:170-172 | a decoded issuer of boolean `true` passes the loose issuer check against any truthy site URL |
| `Tokens.CheckedValidationRecordsNothing` | src/TokenResolver.php:110-113 | for every decoder result and site URL, the outcome of the checks after decoding leaves the error collection unchanged |
| `Tokens.MissingHeaderGivesNoToken` | src/TokenResolver.php:128-132 | with neither Authorization header set, the token handed to the decoder is false |
| `Tokens.ExtractsToken` | src/TokenResolver.php:128 | `Bearer abc123` yields `abc123` |
| `Tokens.LowerCaseSchemeRefused` | src/TokenResolver.php:128-132 | `bearer abc123` yields false |
| `Tokens.BareSchemeRefused` | src/TokenResolver.php:128-132 | `Bearer` alone yields false |
| `Tokens.ZeroTokenRefused` | src/TokenResolver.php:130-132 | `Bearer 0` yields false |
| `Tokens.SecondWordIgnored` | src/TokenResolver.php:128 | `Bearer a b` yields `a` |
| `Tokens.NoSeparatorNeeded` | src/TokenResolver.php:128 | `Bearerabc` yields `abc` |
| `Tokens.OtherPathSkipped` | src/TokenResolver.php:100-102 | a path without the REST prefix is skipped |
| `Tokens.ValidateRouteSkipped` | src/TokenResolver.php:104-106 | the validate route under the REST prefix is skipped |
| `Tokens.ApiRequestIsResolved` | src/TokenResolver.php:100-106 | a path with the REST prefix past its start and no validate route is not skipped |
| `Rest.Api.Init` | src/API.php:29-34 | stores the resolver and the configured namespace and version |
| `Rest.Api.RequestToken` | src/API.php:66-87 | false when the secret key is falsy, whatever the credentials; otherwise Some exactly when authentication succeeds; the response carries claims for the authenticated user's id (built with the corrected `GenerateToken`; as written `data.user.id` would be null, see Findings), issued at `now` and expiring `validFor` later, plus the user's email, nicename and display name |
| `Rest.Api.ValidateToken` | src/API.php:96-102 | header lookup, then Bearer extraction of that header, then one decode call pinned to `[encryptionType]` with the secret key, then the post-decode checks; never a `WP_Error` |
| `Rest.Api.Cors` | src/API.php:109-114 | stores the CORS header line when the flag is set; otherwise `headers` is unchanged |
| `Rest.Api.HasErrors` | src/API.php:141-148 | false exactly when the incoming list and the resolver's errors are both empty; otherwise the incoming list followed by the recorded codes in order |
| `Rest.Api.PreDispatch` | src/API.php:123-132 | with recorded errors, answers with them and emits no header; otherwise passes the request through unchanged with a `header()` call |
| `Rest.IssuedTokenValidates` | src/API.php:81-86 | a token the token route issues, once decoded, passes the checks against the unchanged site URL, resolves to the authenticated user, and lives exactly `validFor` seconds |

## Left out

- The JWT library's `JWT::decode` (base64url, JSON, HMAC and RSA signatures, its own `exp`, `nbf` and `iat` checks) is code outside the plugin.
  It is a parameter that maps the call's arguments to decoded claims or to an exception.
- No token is signed. The token route returns the claim array itself as `token` (src/API.php:82), and the model keeps that.
- WordPress calls are parameters or datatype cases. This covers `wp_authenticate`, `get_bloginfo('url')`, `rest_get_url_prefix()` and `is_wp_error`.
- `wp_authenticate` is treated as a pure function. So "authentication is not attempted when the secret key is falsy" is modelled as "the result does not depend on the authenticator".
- `routes` (`register_rest_route`) is host wiring and is not modelled. It also reads an `apiNamespace` that `init` never sets.
- `src/JWTManager.php` and `src/Providers/JWTServiceProvider.php` only register hooks and container bindings, so they are not part of this model.
- Of `publishes/config/auth.php`, only its constants are modelled: `jwt-auth`, `v1`, `HS256` and seven days.
- `setCurrentUser` calls `$this->validateToken(false)`, which the resolver does not have (it is on `API`). The value that call comes back with is a parameter of `Tokens.TokenResolver.SetCurrentUser`.
- `API::validateToken` stores `authHeader` and `token` on the API object, but the resolver reads them from itself. `Rest.Api.ValidateToken` stores them on the API object, as written, and hands them to the resolver's operations explicitly.
- `decryptToken` tests an undefined `$output`, which is null. So it always returns the decoded object, and the `jwt_valid_token` array is never returned. The `$output` parameter of `API::validateToken` is unused.
- Illuminate's `Collection::put($key, $value)` is called with one argument at src/TokenResolver.php:112. From PHP 7.1 on, a call with too few arguments to a user-defined method throws an `ArgumentCountError`, so as written that line would throw rather than record anything.
  The model records the code instead, as a put keyed by the code that appends it if it is new. The branch is never reached from the visible code anyway, because the checks after decoding never give a `WP_Error` (`Tokens.CheckedValidationRecordsNothing`).
- `Tokens.ValidateTokenFormat`: the C scanner behind `sscanf` stops at a NUL byte. The model treats NUL as an ordinary non-whitespace character.
- `Tokens.CheckDecoded`: a decoded `iss` is null, a boolean or a string. A JSON number, array or object issuer is not modelled. PHP 8 also compares two numeric strings numerically under `!=`, but the model compares string issuers as plain strings.
- `data.user.id` is modelled as an integer. The decoder could yield any JSON scalar.
- The `JWT $jwt` constructor argument and the `$this->JWT` class-name field only name the decoder, which is a parameter here.
- The resolver's `cors` and `headers` fields are kept, but nothing in the core reads them. The API's own `cors` flag is assigned nowhere in the plugin, so it starts false.
- State shared across requests by the singleton objects, and concurrency in general, are not modelled.

## Findings

| source | as written | input that shows it | evidently intended | confidence | as-written member | corrected member |
|---|---|---|---|---|---|---|
| src/TokenResolver.php:87 | `generateToken` reads `$user->data->ID`, but `$user` is not defined there, so `data.user.id` is null | any call, for instance `generateToken(0)`: the claims it builds fail the `isset($decryptedToken->data->user->id)` check of src/TokenResolver.php:174, so the token never validates and never resolves a user | `data.user.id` is the id of the user being issued the token | high, not executed | `Tokens.AsWrittenTokenIsRefused` | `Tokens.IssuedTokenResolvesToUser` |
