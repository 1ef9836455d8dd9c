/** The client-credentials grant (section 4.4 of RFC 6749), as it runs. */
module ClientCredentials {
  import opened Wrappers
  import opened ScopeText
  import opened Scopes
  import opened Claims
  import opened Numbers

  /** The claims a token carries, under the key its header names. */
  datatype Token = Token(keyId: Option<string>, claims: ClaimMap)

  datatype Request = Request(grantType: string, clientId: string, clientSecret: string, scope: Option<string>)
  datatype Response = Response(accessToken: Token, tokenType: string, scope: string, expiresIn: Option<nat>)

  // ---- merging maps entry by entry --------------------------------------------------------

  /** The entries of `m` whose names are not still to come. */
  ghost function But(m: ClaimMap, todo: set<string>): ClaimMap {
    map k | k in m && k !in todo :: m[k]
  }

  lemma ButEnds(m: ClaimMap, base: ClaimMap)
    ensures But(m, {}) == m && But(m, m.Keys) == map[] && base + map[] == base && map[] + base == base
  {
  }

  lemma OverOne(base: ClaimMap, m: ClaimMap, todo: set<string>, k: string)
    requires k in todo
    ensures base + But(m, todo - {k}) == if k in m then (base + But(m, todo))[k := m[k]] else base + But(m, todo)
  {
  }

  lemma UnderOne(base: ClaimMap, m: ClaimMap, todo: set<string>, k: string)
    requires k in todo && k in m
    ensures var now := But(m, todo) + base;
            But(m, todo - {k}) + base == if k in now then now else now[k := m[k]]
  {
  }

  // ---- the operations ---------------------------------------------------------------------

  /** A claim value that is built up in place. */
  class ClaimsBuilder {
    var value: Value

    constructor (v: Value)
      ensures value == v
    {
      value := v;
    }

    /** Stored claims override, except the reserved ones; a value that is no object stays as it is. */
    method MergeFixedClaims(fixed: ClaimMap)
      modifies this
      ensures old(value).Object? ==> value == Object(old(value).fields + Unreserved(fixed))
      ensures !old(value).Object? ==> value == old(value)
    {
      if !value.Object? {
        return;
      }
      var todo := fixed.Keys;
      ghost var base, extra := value.fields, Unreserved(fixed);
      ButEnds(extra, base);
      assert But(extra, todo) == map[];
      while todo != {}
        invariant todo <= fixed.Keys && value.Object?
        invariant value.fields == base + But(extra, todo)
        decreases |todo|
      {
        var name :| name in todo;
        OverOne(base, extra, todo, name);
        if !IsReserved(name) {
          value := Object(value.fields[name := fixed[name]]);
        }
        todo := todo - {name};
      }
    }
  }

  /** Adds the entries whose names are not taken. */
  method FillIn(base: ClaimMap, traits: ClaimMap) returns (m: ClaimMap)
    ensures m == traits + base
  {
    m := base;
    var todo := traits.Keys;
    ButEnds(traits, base);
    while todo != {}
      invariant todo <= traits.Keys && m == But(traits, todo) + base
      decreases |todo|
    {
      var k :| k in todo;
      UnderOne(base, traits, todo, k);
      if k !in m {
        m := m[k := traits[k]];
      }
      todo := todo - {k};
    }
  }

  /** Adds every entry, over what is there. */
  method Override(base: ClaimMap, extra: ClaimMap) returns (m: ClaimMap)
    ensures m == base + extra
  {
    m := base;
    var todo := extra.Keys;
    ButEnds(extra, base);
    while todo != {}
      invariant todo <= extra.Keys && m == base + But(extra, todo)
      decreases |todo|
    {
      var k :| k in todo;
      OverOne(base, extra, todo, k);
      m := m[k := extra[k]];
      todo := todo - {k};
    }
  }

  method Mint(minter: JwtMinter, identity: Identity, additional: Option<Value>, ttl: Option<nat>, now: int, jti: string)
    returns (r: Result<Token, string>)
    ensures var c := MintedClaims(minter, identity, additional, ttl, now, jti);
            r == if minter.signs(c) then Ok(Token(minter.keyId, c)) else Err("encoding JWT")
  {
    var lifetime := if ttl.Some? then ttl.value else minter.defaultTtl;
    var exp := Expiry(now, lifetime);
    var claims: ClaimMap := map[
      "iss" := Text(minter.issuer), "sub" := Text(identity.id), "iat" := Number(now), "exp" := Number(exp), "jti" := Text(jti)];
    ghost var standard := claims;
    if identity.traits.Object? {
      claims := FillIn(claims, identity.traits.fields);
    }
    assert claims == Fields(identity.traits) + standard;
    if additional.Some? && additional.value.Object? {
      claims := Override(claims, additional.value.fields);
    }
    assert claims == MintedClaims(minter, identity, additional, ttl, now, jti);
    r := if minter.signs(claims) then Ok(Token(minter.keyId, claims)) else Err("encoding JWT");
  }

  /** What a granted request is answered with. */
  function Granted(minter: JwtMinter, client: Client, granted: seq<string>, ttl: Option<nat>, now: int, jti: string): Response {
    Response(Token(minter.keyId, GrantClaims(minter, client, granted, ttl, now, jti)), "Bearer", JoinWords(granted), ttl)
  }

  /** `verified` is the client store's answer to the request's id and secret. */
  method ClientCredentialsGrant(req: Request, verified: Result<Option<Client>, string>, minter: Option<JwtMinter>,
                                ttl: Option<nat>, now: int, jti: string)
    returns (r: Result<Response, ClientCredentialsError>)
    ensures req.grantType != "client_credentials" ==> r == Err(UnsupportedGrantType(req.grantType))
    ensures req.grantType == "client_credentials" ==>
              match verified
              case Err(e) => r == Err(MintFailed(e))
              case Ok(None) => r == Err(InvalidClient)
              case Ok(Some(client)) =>
                match Restrict(req.scope, client.scopes)
                case Err(e) => r == Err(e) && e.InvalidScope?
                case Ok(granted) =>
                  if minter.None? then r == Err(MintFailed("JWT minter not configured"))
                  else if !minter.value.signs(GrantClaims(minter.value, client, granted, ttl, now, jti)) then r == Err(MintFailed("encoding JWT"))
                  else r == Ok(Granted(minter.value, client, granted, ttl, now, jti))
    ensures r.Ok? ==> r.value.tokenType == "Bearer" && r.value.expiresIn == ttl
  {
    if req.grantType != "client_credentials" {
      return Err(UnsupportedGrantType(req.grantType));
    }
    if verified.Err? {
      return Err(MintFailed(verified.error));
    }
    if verified.value.None? {
      return Err(InvalidClient);
    }
    var client := verified.value.value;
    var restricted := RestrictScopes(req.scope, client.scopes);
    if restricted.Err? {
      return Err(restricted.error);
    }
    var granted := restricted.value;
    var own := map["flint_kind" := Text("service"), "client_id" := Text(client.clientId), "scope" := Text(JoinWords(granted))];
    if client.audience.Some? {
      own := own["aud" := Text(client.audience.value)];
    }
    var additional := new ClaimsBuilder(Object(own));
    additional.MergeFixedClaims(client.claims);
    if minter.None? {
      return Err(MintFailed("JWT minter not configured"));
    }
    var token := Mint(minter.value, Identity(client.clientId, Null), Some(additional.value), ttl, now, jti);
    if token.Err? {
      return Err(MintFailed(token.error));
    }
    r := Ok(Response(token.value, "Bearer", JoinWords(granted), ttl));
  }

  /** What the response promises is what its token says: the lifetime asked for, and the scopes. */
  lemma ResponseMatchesToken(minter: JwtMinter, client: Client, granted: seq<string>, ttl: Option<nat>, now: int, jti: string)
    requires IsI64(now) && IsU64(minter.defaultTtl) && (ttl.Some? ==> IsU64(ttl.value))
    ensures var resp := Granted(minter, client, granted, ttl, now, jti);
            var c := resp.accessToken.claims;
            && resp.tokenType == "Bearer" && resp.accessToken.keyId == minter.keyId && resp.expiresIn == ttl
            && resp.scope == JoinWords(granted) && Carries(c, "scope", Text(JoinWords(granted))) && Carries(c, "iat", Number(now))
            && (resp.expiresIn.Some? && now + resp.expiresIn.value < TWO63 ==> Carries(c, "exp", Number(now + resp.expiresIn.value)))
            && (resp.expiresIn.None? && now + minter.defaultTtl < TWO63 ==> Carries(c, "exp", Number(now + minter.defaultTtl)))
  {
    GrantLifetime(minter, client, granted, ttl, now, jti);
    GatewayOwnsIdentityAndLifetime(minter, client, granted, ttl, now, jti);
    GatewayOwnsServiceMarks(minter, client, granted, ttl, now, jti);
  }

  /** The `scope` claim of any granted token is the response's, and an explicit request puts only granted words in it. */
  lemma TokenScopesAreGranted(minter: JwtMinter, client: Client, requested: string, ttl: Option<nat>, now: int, jti: string)
    requires !Blank(requested) && Restrict(Some(requested), client.scopes).Ok?
    ensures var resp := Granted(minter, client, Restrict(Some(requested), client.scopes).value, ttl, now, jti);
            && Carries(resp.accessToken.claims, "scope", Text(resp.scope))
            && (forall w :: w in Words(resp.scope) <==> w in Words(requested))
            && forall w | w in Words(resp.scope) :: w in client.scopes
  {
    GatewayOwnsServiceMarks(minter, client, Restrict(Some(requested), client.scopes).value, ttl, now, jti);
    ExplicitRequests(requested, client.scopes);
  }
}
