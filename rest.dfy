/**
 * The REST side of the plugin: the `API` object behind the `token` and
 * `token/validate` routes and the pre-dispatch hook. WordPress's
 * `wp_authenticate`, the clock and the JWT library's decoder come in as
 * parameters.
 */
module Rest {
  import opened Php
  import opened Tokens

  /** The header line `cors` stores, as the code spells it. */
  const CORS_HEADERS := "Access-Control-Allow-Headers, Content-Type, Authorization"

  /** The `api` part of the plugin configuration. */
  datatype ApiConfig = ApiConfig(namespace: string, version: string)

  /** The parts of a `WP_User` that the token route reads. */
  datatype WpUser = WpUser(id: int, userEmail: string, userNicename: string, displayName: string)

  /** What `wp_authenticate` returns: a user, or a `WP_Error` with its code. */
  datatype AuthResult = Authenticated(user: WpUser) | AuthFailed(code: string)

  /** The array the token route answers with on success: exactly these four keys. */
  datatype TokenResponse = TokenResponse(token: Claims, userEmail: string, userNicename: string, userDisplayName: string)

  /**
   * What `preDispatch` does with a request: answer with the error list, or
   * let the request through after a `header()` call with the given argument.
   */
  datatype Dispatch<R> = ErrorResponse(errors: seq<string>) | Proceed(request: R, header: Option<string>)

  class Api {
    var resolver: TokenResolver?
    var namespace: Option<string>
    var version: Option<string>
    /** Nothing in the plugin assigns this flag on the API object, so it stays falsy. */
    var cors: bool
    var headers: Option<string>
    var authHeader: Option<string>
    var token: Option<string>

    constructor ()
      ensures resolver == null && namespace == None && version == None
      ensures !cors && headers == None && authHeader == None && token == None
    {
      resolver := null;
      namespace := None;
      version := None;
      cors := false;
      headers := None;
      authHeader := None;
      token := None;
    }

    /** `init`: keeps the resolver and the route namespace and version from the configuration. */
    method Init(resolver: TokenResolver, config: ApiConfig)
      modifies this`resolver, this`namespace, this`version
      ensures this.resolver == resolver
      ensures namespace == Some(config.namespace) && version == Some(config.version)
    {
      this.resolver := resolver;
      namespace := Some(config.namespace);
      version := Some(config.version);
    }

    /**
     * `requestToken`: false when the secret key is falsy, whatever the
     * credentials; false when authentication fails; otherwise the claims of
     * a token issued `now` for the authenticated user and that user's email,
     * nicename and display name.
     */
    function RequestToken(username: string, password: string, authenticate: (string, string) -> AuthResult, now: int)
      : (r: Option<TokenResponse>)
      requires resolver != null
      reads this, resolver
      ensures !Truthy(resolver.secretKey) ==> r.None?
      ensures r.Some? <==> Truthy(resolver.secretKey) && authenticate(username, password).Authenticated?
      ensures r.Some? ==>
        var user := authenticate(username, password).user;
        && r.value.token.userId == Some(user.id)
        && r.value.token.iat == r.value.token.nbf == now
        && r.value.token.exp == now + resolver.validFor
        && r.value.token.iss == Str(resolver.iss)
        && r.value.userEmail == user.userEmail
        && r.value.userNicename == user.userNicename
        && r.value.userDisplayName == user.displayName
    {
      if !Truthy(resolver.secretKey) then None
      else
        match authenticate(username, password)
        case AuthFailed(_) => None
        case Authenticated(user) =>
          Some(TokenResponse(resolver.GenerateToken(now, user.id), user.userEmail, user.userNicename, user.displayName))
    }

    /**
     * `validateToken`: looks up the header, then extracts the Bearer token,
     * then decodes it with the one configured algorithm and checks the
     * result. It never comes back with a `WP_Error`.
     */
    method ValidateToken(server: ServerVars, siteUrl: string, decode: DecodeCall -> Option<Claims>)
      returns (v: Validation)
      requires resolver != null
      modifies this`authHeader, this`token
      ensures authHeader == ValidateHeaders(server)
      ensures token == ValidateTokenFormat(authHeader)
      ensures v == CheckDecoded(decode(DecodeCall(token, resolver.secretKey, [resolver.encryptionType])), siteUrl)
      ensures !v.WpError?
    {
      authHeader := ValidateHeaders(server);
      token := ValidateTokenFormat(authHeader);
      var decoded := decode(DecodeCall(token, resolver.secretKey, [resolver.encryptionType]));
      v := CheckDecoded(decoded, siteUrl);
    }

    /** `cors`: stores the header line when the flag is set, and changes nothing otherwise. */
    method Cors()
      modifies this`headers
      ensures cors ==> headers == Some(CORS_HEADERS)
      ensures !cors ==> headers == old(headers)
    {
      if cors {
        headers := Some(CORS_HEADERS);
      }
    }

    /**
     * `hasErrors`: the incoming list followed by the resolver's recorded
     * codes in order, or false when that list is empty.
     */
    method HasErrors(incoming: seq<string>) returns (r: Option<seq<string>>)
      requires resolver != null
      ensures r.None? <==> incoming == [] && resolver.errors == []
      ensures r.Some? ==> r.value == incoming + resolver.errors
    {
      var errors := incoming;
      var all := resolver.errors;
      var i := 0;
      while i < |all|
        invariant 0 <= i <= |all|
        invariant errors == incoming + all[..i]
      {
        errors := errors + [all[i]];
        i := i + 1;
      }
      assert all[..i] == all;
      r := if errors == [] then None else Some(errors);
    }

    /**
     * `preDispatch`: when errors were recorded, answers with them and emits
     * no header; otherwise passes the request through unchanged.
     */
    method PreDispatch<R>(request: R) returns (d: Dispatch<R>)
      requires resolver != null
      ensures resolver.errors != [] ==> d == ErrorResponse(resolver.errors)
      ensures resolver.errors == [] ==> d == Proceed(request, headers)
    {
      var err := HasErrors([]);
      if err.Some? {
        return ErrorResponse(err.value);
      }
      return Proceed(request, headers);
    }
  }

  /**
   * Issue then validate: a token the token route issues, once decoded, passes
   * the checks against the unchanged site URL, resolves a request to the
   * authenticated user, and lives exactly `validFor` seconds.
   */
  lemma IssuedTokenValidates(api: Api, username: string, password: string,
                             authenticate: (string, string) -> AuthResult, now: int, user: CurrentUser)
    requires api.resolver != null
    requires api.RequestToken(username, password, authenticate, now).Some?
    ensures var claims := api.RequestToken(username, password, authenticate, now).value.token;
      && CheckDecoded(Some(claims), api.resolver.iss) == Valid(claims)
      && Outcome(user, CheckDecoded(Some(claims), api.resolver.iss))
         == Returns(User(authenticate(username, password).user.id))
      && claims.exp - claims.iat == api.resolver.validFor
  {
  }
}
