/**
 * The token side of the plugin: the `TokenResolver` object, which builds
 * the registered claims of a new token (section 4.1 of RFC 7519), picks the
 * Authorization header, extracts the Bearer token, checks what the JWT
 * library decoded, and decides the current user of a REST request.
 */
module Tokens {
  import opened Php

  const DAY_IN_SECONDS := 86400
  /** Default lifetime of an issued token: seven days. */
  const DEFAULT_VALID_FOR := DAY_IN_SECONDS * 7
  /** The single algorithm the decoder is allowed to accept by default. */
  const DEFAULT_ENCRYPTION_TYPE := "HS256"
  /** The scheme keyword that `sscanf` matches literally. */
  const BEARER := "Bearer"
  /** The error code that is not an error: the request carries no header. */
  const NO_AUTH_HEADER_CODE := "jwt_no_auth_header"
  /** The route whose requests are never resolved to a user here. */
  const VALIDATE_ROUTE := "token/validate"

  /**
   * A claim set: the array `generateToken` builds, and the object the JWT
   * library gives back when it decodes a token. In a decoded object `iss`
   * may be any JSON scalar or missing (null), and `data.user.id` may be
   * missing.
   */
  datatype Claims = Claims(iss: Scalar, iat: int, nbf: int, exp: int, userId: Option<int>)

  /** The request values read from `$_SERVER`; an absent key is None. */
  datatype ServerVars = ServerVars(
    requestUri: string,
    httpAuthorization: Option<string>,
    redirectHttpAuthorization: Option<string>)

  /** The arguments of one `JWT::decode` call. */
  datatype DecodeCall = DecodeCall(token: Option<string>, key: string, allowedAlgs: seq<string>)

  /**
   * What a call to `validateToken` comes back with: the decoded claims,
   * `false` (Refused), a `WP_Error` with its code, or an exception thrown
   * by the decoder (Thrown).
   */
  datatype Validation = Valid(claims: Claims) | Refused | WpError(code: string) | Thrown

  /** The `$user` of WordPress's determine_current_user filter: an id, or none (false/null). */
  datatype CurrentUser = NoUser | User(id: int)

  /** How `setCurrentUser` ends: it returns a user, or an exception passes through it. */
  datatype Resolution = Returns(user: CurrentUser) | Throws

  /**
   * `validateHeaders`: the primary `HTTP_AUTHORIZATION` value when it is set
   * and truthy, else `REDIRECT_HTTP_AUTHORIZATION` when that is truthy, else
   * false. "" and "0" count as absent.
   */
  function ValidateHeaders(server: ServerVars): (r: Option<string>)
    ensures r.Some? ==> Truthy(r.value)
    ensures TruthyOpt(server.httpAuthorization) ==> r == server.httpAuthorization
    ensures !TruthyOpt(server.httpAuthorization) ==>
      r == (if TruthyOpt(server.redirectHttpAuthorization) then server.redirectHttpAuthorization else None)
    ensures r.None? <==> !TruthyOpt(server.httpAuthorization) && !TruthyOpt(server.redirectHttpAuthorization)
  {
    var auth := if server.httpAuthorization.Some? then server.httpAuthorization else None;
    var auth := if !TruthyOpt(auth) then
                  (if server.redirectHttpAuthorization.Some? then server.redirectHttpAuthorization else None)
                else auth;
    if TruthyOpt(auth) then auth else None
  }

  /**
   * The first element of `sscanf($header, 'Bearer %s')`: the literal
   * `Bearer`, then any whitespace, then the maximal run of non-whitespace
   * that follows. None stands for the null PHP yields when the literal does
   * not match or the input ends before a word. A header of `false` is
   * scanned as "".
   */
  function ScanBearer(header: Option<string>): (r: Option<string>)
    ensures header.None? ==> r.None?
    ensures header.Some? && !(|BEARER| <= |header.value| && header.value[..|BEARER|] == BEARER) ==> r.None?
    ensures r.Some? ==> header.Some? && BearerSplit(header.value, r.value)
    ensures r.Some? ==> r.value != "" && forall k :: 0 <= k < |r.value| ==> !IsSpace(r.value[k])
  {
    var h := if header.Some? then header.value else "";
    if |h| >= |BEARER| && h[..|BEARER|] == BEARER then
      var i := SpanSpace(h, |BEARER|);
      if i == |h| then None
      else
        var j := SpanWord(h, i);
        assert BearerSplitAt(h, h[i..j], i, j);
        Some(h[i..j])
    else None
  }

  /**
   * `validateTokenFormat`: the scanned token when it is truthy, else false.
   * A returned token is a non-empty run of non-whitespace other than "0".
   */
  function ValidateTokenFormat(authHeader: Option<string>): (r: Option<string>)
    ensures r.Some? ==> Truthy(r.value) && forall k :: 0 <= k < |r.value| ==> !IsSpace(r.value[k])
    ensures authHeader.None? ==> r.None?
  {
    var token := ScanBearer(authHeader);
    if !TruthyOpt(token) then None else token
  }

  /** `h` is `Bearer`, whitespace, the word `t` and then the end or whitespace; split at `i`, `j`. */
  predicate BearerSplitAt(h: string, t: string, i: int, j: int) {
    |BEARER| <= i < j <= |h| && h[..|BEARER|] == BEARER
    && (forall k :: |BEARER| <= k < i ==> IsSpace(h[k]))
    && (forall k :: i <= k < j ==> !IsSpace(h[k]))
    && (j == |h| || IsSpace(h[j]))
    && t == h[i..j]
  }

  ghost predicate BearerSplit(h: string, t: string) {
    exists i, j :: BearerSplitAt(h, t, i, j)
  }

  /**
   * Bearer extraction in both directions: the token returned for header `h`
   * is exactly the truthy word that follows `Bearer` and optional whitespace.
   */
  lemma {:induction false} ValidateTokenFormatIff(h: string, t: string)
    ensures ValidateTokenFormat(Some(h)) == Some(t) <==> BearerSplit(h, t) && Truthy(t)
  {
    if |h| >= |BEARER| && h[..|BEARER|] == BEARER {
      var i := SpanSpace(h, |BEARER|);
      if i < |h| {
        var j := SpanWord(h, i);
        assert BearerSplitAt(h, h[i..j], i, j);
      }
      if BearerSplit(h, t) {
        var i', j' :| BearerSplitAt(h, t, i', j');
        assert !IsSpace(h[i']);
        assert i <= i' && !IsSpace(h[i]);
        assert i' == i;
        var j := SpanWord(h, i);
        assert j' == |h| || IsSpace(h[j']);
        assert j == |h| || IsSpace(h[j]);
        assert j' == j;
      }
    }
  }

  /** Words after the token are ignored: `Bearer <t> <rest>` yields `t`. */
  lemma TokenIgnoresLaterWords(t: string, rest: string)
    requires Truthy(t) && forall k :: 0 <= k < |t| ==> !IsSpace(t[k])
    ensures ValidateTokenFormat(Some(BEARER + " " + t + " " + rest)) == Some(t)
  {
    var h := BEARER + " " + t + " " + rest;
    var i, j := |BEARER| + 1, |BEARER| + 1 + |t|;
    assert h[..|BEARER|] == BEARER;
    assert h[i..j] == t;
    assert BearerSplitAt(h, t, i, j);
    ValidateTokenFormatIff(h, t);
  }

  /** The scheme keyword is matched case-sensitively: any other first six characters yield false. */
  lemma SchemeIsCaseSensitive(h: string)
    requires |h| < |BEARER| || h[..|BEARER|] != BEARER
    ensures ValidateTokenFormat(Some(h)).None?
  {
  }

  /**
   * The checks after decoding: a missing decode result is the library's
   * exception; the issuer must loosely equal the site URL and
   * `data.user.id` must be set; then the decoded object is returned.
   */
  function CheckDecoded(decoded: Option<Claims>, siteUrl: string): (v: Validation)
    ensures v.Thrown? <==> decoded.None?
    ensures v.Valid? <==> decoded.Some? && LooseEquals(decoded.value.iss, siteUrl) && decoded.value.userId.Some?
    ensures v.Valid? ==> v.claims == decoded.value
    ensures !v.WpError?
  {
    match decoded
    case None => Thrown
    case Some(c) =>
      if !LooseEquals(c.iss, siteUrl) then Refused
      else if c.userId.None? then Refused
      else Valid(c)
  }

  /**
   * `setCurrentUser` leaves the request alone when the REST prefix is not
   * found past the start of the URI, or when the validate route is found
   * past the start.
   */
  predicate SkipsRequest(uri: string, restPrefix: string): (r: bool)
    ensures r <==>
      !Occurs(uri, restPrefix) || MatchAt(uri, restPrefix, 0)
      || (Occurs(uri, VALIDATE_ROUTE) && !MatchAt(uri, VALIDATE_ROUTE, 0))
  {
    var prefixAt := StrPos(uri, restPrefix);
    var validateAt := StrPos(uri, VALIDATE_ROUTE);
    prefixAt.None? || prefixAt == Some(0) || (validateAt.Some? && validateAt.value > 0)
  }

  /** The user a non-skipped request resolves to, given what validation came back with. */
  function Outcome(user: CurrentUser, validation: Validation): (r: Resolution)
    ensures validation.WpError? ==> r == Returns(user)
    ensures validation.Thrown? <==> r.Throws?
    ensures validation.Valid? && validation.claims.userId.Some? ==> r == Returns(User(validation.claims.userId.value))
    ensures validation.Valid? && validation.claims.userId.None? ==> r == Returns(NoUser)
    ensures validation.Refused? ==> r == Returns(NoUser)
  {
    match validation
    case WpError(_) => Returns(user)
    case Thrown => Throws
    // Reading `data->user->id` of `false`, or an unset id, gives null.
    case Refused => Returns(NoUser)
    case Valid(c) => Returns(if c.userId.Some? then User(c.userId.value) else NoUser)
  }

  /** `Collection::put` keyed by the code itself: the code is recorded once, at the end if it is new. */
  function PutCode(errors: seq<string>, code: string): (r: seq<string>)
    ensures code in r
    ensures errors <= r && |r| <= |errors| + 1
    ensures forall e :: e in r ==> e in errors || e == code
  {
    if code in errors then errors else errors + [code]
  }

  /** The error collection after a non-skipped request: every code but `jwt_no_auth_header` is recorded. */
  function ErrorsAfter(errors: seq<string>, validation: Validation): (r: seq<string>)
    ensures validation.WpError? && validation.code != NO_AUTH_HEADER_CODE ==> validation.code in r
    ensures !(validation.WpError? && validation.code != NO_AUTH_HEADER_CODE) ==> r == errors
    ensures errors <= r && |r| <= |errors| + 1
    ensures validation.WpError? && validation.code in errors ==> r == errors
    ensures |r| > |errors| ==> validation.WpError? && r == errors + [validation.code]
  {
    if validation.WpError? && validation.code != NO_AUTH_HEADER_CODE then PutCode(errors, validation.code) else errors
  }

  /** Codes in the collection are distinct: it is keyed by code. */
  predicate Distinct(errors: seq<string>) {
    forall i, j :: 0 <= i < j < |errors| ==> errors[i] != errors[j]
  }

  lemma PutCodeKeepsDistinct(errors: seq<string>, code: string)
    requires Distinct(errors)
    ensures Distinct(PutCode(errors, code))
  {
  }

  class TokenResolver {
    var cors: bool
    var secretKey: string
    var headers: Option<string>
    var encryptionType: string
    var validFor: int
    /** The site URL captured when the resolver was built: the issuer of every token it generates. */
    var iss: string
    /** The error codes recorded while resolving the current request, in insertion order. */
    var errors: seq<string>

    ghost predicate Valid()
      reads this
    {
      Distinct(errors)
    }

    constructor (secretKey: string, corsEnabled: bool, siteUrl: string)
      ensures Valid()
      ensures this.secretKey == secretKey && cors == corsEnabled && iss == siteUrl
      ensures encryptionType == DEFAULT_ENCRYPTION_TYPE && validFor == 604800
      ensures errors == [] && headers == None
    {
      this.secretKey := secretKey;
      cors := corsEnabled;
      iss := siteUrl;
      errors := [];
      headers := None;
      encryptionType := DEFAULT_ENCRYPTION_TYPE;
      validFor := DEFAULT_VALID_FOR;
    }

    /**
     * `generateToken` with the user id it evidently means: issued, not-before
     * and issued-at coincide, expiry is `validFor` later, the issuer is the
     * captured site URL and `data.user.id` carries the user.
     */
    function GenerateToken(issued: int, userId: int): (c: Claims)
      reads this
      ensures c.iat == issued && c.nbf == issued && c.exp - c.iat == validFor
      ensures c.iss == Str(iss) && c.userId == Some(userId)
    {
      Claims(Str(iss), issued, issued, validFor + issued, Some(userId))
    }

    /**
     * `generateToken` as written: `$user` is not defined in it, so
     * `$user->data->ID` reads as null and `data.user.id` is null.
     */
    function GenerateTokenAsWritten(issued: int): (c: Claims)
      reads this
      ensures c.iat == issued && c.nbf == issued && c.exp - c.iat == validFor
      ensures c.iss == Str(iss) && c.userId.None?
    {
      Claims(Str(iss), issued, issued, validFor + issued, None)
    }

    /**
     * `setCurrentUser`, with the value its `validateToken` call comes back
     * with passed in. Skipped requests keep the user and the errors; on a
     * `WP_Error` the user is kept and the code is recorded unless it is
     * `jwt_no_auth_header`; decoded claims resolve to their user id.
     */
    method SetCurrentUser(uri: string, restPrefix: string, user: CurrentUser, validation: Validation)
      returns (r: Resolution)
      requires Valid()
      modifies this`errors
      ensures Valid()
      ensures old(errors) <= errors && |errors| <= |old(errors)| + 1
      ensures SkipsRequest(uri, restPrefix) ==> r == Returns(user) && errors == old(errors)
      ensures !SkipsRequest(uri, restPrefix) ==> r == Outcome(user, validation)
      ensures !SkipsRequest(uri, restPrefix) ==> errors == ErrorsAfter(old(errors), validation)
    {
      var validUri := StrPos(uri, restPrefix);
      if validUri.None? || validUri.value == 0 {
        return Returns(user);
      }
      var validateAt := StrPos(uri, VALIDATE_ROUTE);
      if validateAt.Some? && validateAt.value > 0 {
        return Returns(user);
      }
      match validation {
        case WpError(code) =>
          if code != NO_AUTH_HEADER_CODE {
            PutCodeKeepsDistinct(errors, code);
            errors := PutCode(errors, code);
          }
          return Returns(user);
        case Thrown =>
          return Throws;
        case Refused =>
          return Returns(NoUser);
        case Valid(c) =>
          return Returns(if c.userId.Some? then User(c.userId.value) else NoUser);
      }
    }
  }

  /**
   * A token generated by a resolver, once decoded, passes the checks against
   * the same site URL and resolves any non-skipped request to its user.
   */
  lemma IssuedTokenResolvesToUser(t: TokenResolver, issued: int, userId: int, user: CurrentUser)
    ensures CheckDecoded(Some(t.GenerateToken(issued, userId)), t.iss) == Valid(t.GenerateToken(issued, userId))
    ensures Outcome(user, CheckDecoded(Some(t.GenerateToken(issued, userId)), t.iss)) == Returns(User(userId))
  {
  }

  /** The issuer is checked against the site URL at decode time: if the URL changed, the token is refused. */
  lemma IssuerDriftRefuses(t: TokenResolver, issued: int, userId: int, siteUrl: string)
    requires siteUrl != t.iss
    ensures CheckDecoded(Some(t.GenerateToken(issued, userId)), siteUrl) == Refused
  {
  }

  /** As written, no token `generateToken` issues passes the `data.user.id` check. */
  lemma AsWrittenTokenIsRefused(t: TokenResolver, issued: int, siteUrl: string, user: CurrentUser)
    ensures CheckDecoded(Some(t.GenerateTokenAsWritten(issued)), siteUrl) == Refused
    ensures Outcome(user, CheckDecoded(Some(t.GenerateTokenAsWritten(issued)), siteUrl)) == Returns(NoUser)
  {
  }

  /**
   * The issuer check is PHP's loose `!=`: a decoded boolean `true` issuer
   * passes against every truthy site URL.
   */
  lemma TrueIssuerPasses(c: Claims, siteUrl: string)
    requires c.iss == Bool(true) && Truthy(siteUrl) && c.userId.Some?
    ensures CheckDecoded(Some(c), siteUrl) == Valid(c)
  {
  }

  /**
   * Whatever the decoder does, the checks after decoding never yield a
   * `WP_Error`, so a non-skipped request fed by them records no code.
   */
  lemma CheckedValidationRecordsNothing(errors: seq<string>, decoded: Option<Claims>, siteUrl: string)
    ensures ErrorsAfter(errors, CheckDecoded(decoded, siteUrl)) == errors
  {
  }

  /** With neither Authorization header set, the decoder is handed no token (false). */
  lemma MissingHeaderGivesNoToken(server: ServerVars)
    requires server.httpAuthorization.None? && server.redirectHttpAuthorization.None?
    ensures ValidateTokenFormat(ValidateHeaders(server)).None?
  {
  }

  // Worked examples of the Bearer extraction and skip rules, each as its
  // own small lemma.

  lemma ExtractsToken()
    ensures ValidateTokenFormat(Some("Bearer abc123")) == Some("abc123")
  {
    var h := "Bearer abc123";
    assert h[..6] == BEARER && h[7..13] == "abc123";
    assert BearerSplitAt(h, "abc123", 7, 13);
    ValidateTokenFormatIff(h, "abc123");
  }
  lemma LowerCaseSchemeRefused()
    ensures ValidateTokenFormat(Some("bearer abc123")) == None
  {
    assert "bearer abc123"[0] != BEARER[0];
    SchemeIsCaseSensitive("bearer abc123");
  }
  lemma BareSchemeRefused()
    ensures ValidateTokenFormat(Some("Bearer")) == None
  {
  }
  lemma ZeroTokenRefused()
    ensures ValidateTokenFormat(Some("Bearer 0")) == None
  {
  }
  lemma SecondWordIgnored()
    ensures ValidateTokenFormat(Some("Bearer a b")) == Some("a")
  {
    assert BEARER + " " + "a" + " " + "b" == "Bearer a b";
    TokenIgnoresLaterWords("a", "b");
  }
  lemma NoSeparatorNeeded()
    ensures ValidateTokenFormat(Some("Bearerabc")) == Some("abc")
  {
    var h := "Bearerabc";
    assert h[..6] == BEARER && h[6..9] == "abc";
    assert BearerSplitAt(h, "abc", 6, 9);
    ValidateTokenFormatIff(h, "abc");
  }
  lemma OtherPathSkipped()
    ensures SkipsRequest("/other", "wp-json")
  {
  }
  lemma ValidateRouteSkipped()
    ensures SkipsRequest("/wp-json/jwt-auth/v1/token/validate", "wp-json")
  {
    var uri := "/wp-json/jwt-auth/v1/token/validate";
    assert MatchAt(uri, VALIDATE_ROUTE, 21);
    assert uri[0] != VALIDATE_ROUTE[0];
  }
  lemma ApiRequestIsResolved()
    ensures !SkipsRequest("/wp-json/x", "wp-json")
  {
    var uri := "/wp-json/x";
    assert MatchAt(uri, "wp-json", 1);
    assert uri[0] != "wp-json"[0];
    assert !Occurs(uri, VALIDATE_ROUTE);
  }
}
