/**
 * Admin authorisation of server.js: `getToken`, which reads a bearer token
 * from the `Authorization` header (the scheme of section 2.1 of RFC 6750) or
 * else from the `token` query parameter, and `requireAdmin`, which admits a
 * request whose token is a live session.
 */
module Auth {
  import opened Text
  import opened Json

  /** What a route handler reads of an HTTP request: the `Authorization`
      header (absent or its text), the parsed query string and the parsed
      JSON body. */
  datatype Request = Request(authorization: Option<string>, query: map<string, Value>, body: Value)

  const Bearer := "bearer"

  /** `/^Bearer$/i.test(p)`: the scheme name in any mix of letter case. */
  predicate IsBearer(p: string) {
    |p| == 6 && forall i :: 0 <= i < 6 ==> AsciiLower(p[i]) == Bearer[i]
  }

  /** The header branch of `getToken`: the header (or `''`) split on single
      spaces must give exactly two parts, a bearer scheme and a non-empty token. */
  function HeaderToken(authorization: Option<string>): Option<string> {
    var header := if authorization.Some? then authorization.value else "";
    var parts := Split(header, ' ');
    if |parts| == 2 && IsBearer(parts[0]) && parts[1] != "" then Some(parts[1]) else None
  }

  /** The fallback branch of `getToken`: a string `token` query value that is
      not blank, trimmed. */
  function QueryToken(query: map<string, Value>): Option<string> {
    var v := Get(Obj(query), "token");
    if v.Str? && Trim(v.s) != "" then Some(Trim(v.s)) else None
  }

  /** `getToken(req)`: the header token when the header has the bearer form,
      else the query token, else nothing. Never an empty token. */
  function GetToken(req: Request): (token: Option<string>)
    ensures token.Some? ==> token.value != ""
    ensures token.Some? <==> HeaderToken(req.authorization).Some? || QueryToken(req.query).Some?
  {
    var fromHeader := HeaderToken(req.authorization);
    if fromHeader.Some? then fromHeader else QueryToken(req.query)
  }

  /** Exactly the headers `<scheme> <token>` with a six-letter bearer scheme,
      one space and a non-empty token without spaces yield a token, and the
      token is the text after the space. */
  lemma HeaderTokenIff(h: string, t: string)
    ensures HeaderToken(Some(h)) == Some(t) <==>
      |h| > 7 && IsBearer(h[..6]) && h[6] == ' ' && t == h[7..] && ' ' !in t
  {
    var parts := Split(h, ' ');
    if HeaderToken(Some(h)) == Some(t) {
      SplitJoin(h, ' ');
      assert JoinWith(parts, ' ') == parts[0] + [' '] + parts[1];
      assert h[..6] == parts[0];
      assert h[7..] == parts[1];
    }
    if |h| > 7 && IsBearer(h[..6]) && h[6] == ' ' && t == h[7..] && ' ' !in t {
      assert ' ' !in h[..6] by {
        forall i | 0 <= i < 6 ensures h[..6][i] != ' ' {
          assert AsciiLower(h[..6][i]) == Bearer[i];
        }
      }
      assert h == h[..6] + [' '] + t;
      SplitAfterSep(h[..6], ' ', t);
      SplitJoin(t, ' ');
      assert Split(t, ' ') == [t];
    }
  }

  /** A well-formed bearer header wins over any query token. */
  lemma HeaderTakesPrecedence(scheme: string, t: string, query: map<string, Value>, body: Value)
    requires IsBearer(scheme) && t != "" && ' ' !in t
    ensures GetToken(Request(Some(scheme + [' '] + t), query, body)) == Some(t)
  {
    var h := scheme + [' '] + t;
    assert h[..6] == scheme && h[6] == ' ' && h[7..] == t;
    HeaderTokenIff(h, t);
  }

  lemma CanonicalScheme()
    ensures IsBearer("Bearer")
  {
    assert AsciiLower('B') == 'b';
  }

  /** When the header is absent or not of the bearer form (another scheme,
      a doubled space, an empty token), the `token` query value is used: a
      string that is not blank, trimmed; anything else gives no token. */
  lemma QueryFallback(req: Request)
    requires HeaderToken(req.authorization).None?
    ensures var v := Get(Obj(req.query), "token");
      GetToken(req) == if v.Str? && !AllWhite(v.s) then Some(Trim(v.s)) else None
  {
    var v := Get(Obj(req.query), "token");
    if v.Str? {
      TrimEmptyIff(v.s);
    }
  }

  /** No `Authorization` header at all gives no header token. */
  lemma NoHeaderNoToken()
    ensures HeaderToken(None).None?
  {
    assert Split("", ' ') == [""];
  }

  /** `requireAdmin` as it is meant to behave: the token names a live session. */
  predicate Authorized(req: Request, sessions: set<string>) {
    GetToken(req).Some? && GetToken(req).value in sessions
  }

  /** A token issued to the session store authorises a request that presents
      it as `Bearer <token>`. */
  lemma IssuedTokenAuthorizes(t: string, sessions: set<string>, query: map<string, Value>, body: Value)
    requires t in sessions && t != "" && ' ' !in t
    ensures Authorized(Request(Some("Bearer " + t), query, body), sessions)
  {
    BearerToken(t, query, body);
  }

  /** The header `Bearer <token>`, as login's client sends it, yields the token. */
  lemma BearerToken(t: string, query: map<string, Value>, body: Value)
    requires t != "" && ' ' !in t
    ensures GetToken(Request(Some("Bearer " + t), query, body)) == Some(t)
  {
    CanonicalScheme();
    HeaderTakesPrecedence("Bearer", t, query, body);
    assert "Bearer" + [' '] + t == "Bearer " + t;
  }

  // ------------------------------------------------------- as written

  /** The names a plain object `{}` inherits from `Object.prototype`; reading
      any of them gives a function or an object, which is truthy. */
  const PrototypeNames: set<string> := {
    "constructor", "__proto__", "__defineGetter__", "__defineSetter__",
    "__lookupGetter__", "__lookupSetter__", "hasOwnProperty", "isPrototypeOf",
    "propertyIsEnumerable", "toLocaleString", "toString", "valueOf"
  }

  /** `requireAdmin` as written: `!token || !sessions[token]` on a plain
      object, so an inherited name passes as if it were a session. */
  predicate AuthorizedAsWritten(req: Request, sessions: set<string>) {
    GetToken(req).Some? && (GetToken(req).value in sessions || GetToken(req).value in PrototypeNames)
  }

  /** With no session at all, `Authorization: Bearer constructor` passes the
      check as written, and not the intended one. */
  lemma PrototypeNameBypass()
    ensures var req := Request(Some("Bearer " + "constructor"), map[], Null);
      AuthorizedAsWritten(req, {}) && !Authorized(req, {})
  {
    assert ' ' !in "constructor";
    BearerToken("constructor", map[], Null);
  }

  /** The two checks differ only on tokens that are inherited names. */
  lemma AsWrittenDiffersOnlyOnPrototypeNames(req: Request, sessions: set<string>)
    ensures AuthorizedAsWritten(req, sessions) != Authorized(req, sessions) <==>
      GetToken(req).Some? && GetToken(req).value in PrototypeNames - sessions
  {
  }
}
