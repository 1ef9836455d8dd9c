/** Token claims: who owns which, and how long a token lasts. */
module Claims {
  import opened Wrappers
  import opened Numbers
  import opened ScopeText

  datatype Value =
    | Null
    | Bool(flag: bool)
    | Number(number: int)
    | Text(text: string)
    | Array(items: seq<Value>)
    | Object(fields: ClaimMap)

  type ClaimMap = map<string, Value>

  const RESERVED: seq<string> :=
    ["iss", "sub", "aud", "exp", "iat", "nbf", "jti", "client_id", "scope", "flint_kind"]

  predicate IsReserved(name: string) {
    name in RESERVED
  }

  function Unreserved(claims: ClaimMap): ClaimMap {
    map k | k in claims && !IsReserved(k) :: claims[k]
  }

  datatype Client = Client(clientId: string, scopes: seq<string>, audience: Option<string>, claims: ClaimMap)
  datatype Identity = Identity(id: string, traits: Value)
  /** `signs`: whether the claims can be encoded under the minter's key. */
  datatype JwtMinter = JwtMinter(issuer: string, defaultTtl: nat, keyId: Option<string>, signs: ClaimMap -> bool)

  // ---- lifetimes --------------------------------------------------------------------------

  /** `now + ttl as i64`: both the cast and the sum wrap. */
  function Expiry(now: int, ttl: int): int {
    Wrap64(now + Wrap64(ttl))
  }

  /** A token lives for its TTL exactly when the end fits 64 bits, and it is otherwise born expired, 2^64 s too early. */
  lemma LifetimeIsTheTtlExactly(now: int, ttl: int)
    requires IsI64(now) && IsU64(ttl)
    ensures Expiry(now, ttl) == (if now + ttl < TWO63 then now + ttl else now + ttl - TWO64)
    ensures Expiry(now, ttl) - now == ttl <==> now + ttl < TWO63
    ensures Expiry(now, ttl) > now <==> ttl > 0 && now + ttl < TWO63
  {
  }

  // ---- claim assembly ---------------------------------------------------------------------

  /** Before the stored claims are merged. */
  function ServiceClaims(client: Client, granted: seq<string>): ClaimMap {
    var own := map["flint_kind" := Text("service"), "client_id" := Text(client.clientId), "scope" := Text(JoinWords(granted))];
    if client.audience.Some? then own["aud" := Text(client.audience.value)] else own
  }

  function AdditionalClaims(client: Client, granted: seq<string>): ClaimMap {
    ServiceClaims(client, granted) + Unreserved(client.claims)
  }

  function StandardClaims(issuer: string, subject: string, now: int, ttl: int, jti: string): ClaimMap {
    map["iss" := Text(issuer), "sub" := Text(subject), "iat" := Number(now), "exp" := Number(Expiry(now, ttl)), "jti" := Text(jti)]
  }

  function Fields(v: Value): ClaimMap {
    if v.Object? then v.fields else map[]
  }

  function Ttl(minter: JwtMinter, ttl: Option<nat>): nat {
    if ttl.Some? then ttl.value else minter.defaultTtl
  }

  /** Additional claims before standard ones before the identity's traits. */
  function MintedClaims(minter: JwtMinter, identity: Identity, additional: Option<Value>, ttl: Option<nat>, now: int, jti: string): ClaimMap {
    Fields(identity.traits) + StandardClaims(minter.issuer, identity.id, now, Ttl(minter, ttl), jti)
    + (if additional.Some? then Fields(additional.value) else map[])
  }

  /** The claims of the token a grant mints. */
  function GrantClaims(minter: JwtMinter, client: Client, granted: seq<string>, ttl: Option<nat>, now: int, jti: string): ClaimMap {
    MintedClaims(minter, Identity(client.clientId, Null), Some(Object(AdditionalClaims(client, granted))), ttl, now, jti)
  }

  // ---- theorems ---------------------------------------------------------------------------

  /** What the gateway puts into a service token by itself. */
  function GatewayClaims(minter: JwtMinter, client: Client, granted: seq<string>, ttl: Option<nat>, now: int, jti: string): ClaimMap {
    StandardClaims(minter.issuer, client.clientId, now, Ttl(minter, ttl), jti) + ServiceClaims(client, granted)
  }

  lemma GatewayClaimsAreReserved(minter: JwtMinter, client: Client, granted: seq<string>, ttl: Option<nat>, now: int, jti: string)
    ensures var g := GatewayClaims(minter, client, granted, ttl, now, jti);
            forall k :: k in g <==> IsReserved(k) && k != "nbf" && (k == "aud" ==> client.audience.Some?)
  {
    var g := GatewayClaims(minter, client, granted, ttl, now, jti);
    var always := {"iss", "sub", "exp", "iat", "jti", "client_id", "scope", "flint_kind"};
    assert g.Keys == always + (if client.audience.Some? then {"aud"} else {});
    ReservedNames();
    assert "aud" !in always && "nbf" !in always;
  }

  lemma ReservedNames()
    ensures forall k :: IsReserved(k) <==> k in {"iss", "sub", "exp", "iat", "jti", "client_id", "scope", "flint_kind"} || k == "aud" || k == "nbf"
  {
    assert RESERVED[0] == "iss" && RESERVED[1] == "sub" && RESERVED[2] == "aud" && RESERVED[3] == "exp" && RESERVED[4] == "iat";
    assert RESERVED[5] == "nbf" && RESERVED[6] == "jti" && RESERVED[7] == "client_id" && RESERVED[8] == "scope" && RESERVED[9] == "flint_kind";
  }

  /** A service token is the gateway's claims and, disjoint from them, the unreserved stored ones. */
  lemma GrantClaimsSplit(minter: JwtMinter, client: Client, granted: seq<string>, ttl: Option<nat>, now: int, jti: string)
    ensures var g := GatewayClaims(minter, client, granted, ttl, now, jti);
            && GrantClaims(minter, client, granted, ttl, now, jti) == g + Unreserved(client.claims)
            && g.Keys !! Unreserved(client.claims).Keys
  {
    GatewayClaimsAreReserved(minter, client, granted, ttl, now, jti);
    assert map[] + StandardClaims(minter.issuer, client.clientId, now, Ttl(minter, ttl), jti)
           == StandardClaims(minter.issuer, client.clientId, now, Ttl(minter, ttl), jti);
    OverlayAssociates(StandardClaims(minter.issuer, client.clientId, now, Ttl(minter, ttl), jti),
                      ServiceClaims(client, granted), Unreserved(client.claims));
  }

  lemma OverlayAssociates(a: ClaimMap, b: ClaimMap, c: ClaimMap)
    ensures a + (b + c) == a + b + c
  {
  }

  /**
    Whatever a client's stored claims say: a reserved claim is in its token exactly if it is not
    `nbf`, and not `aud` without an audience; any other is there exactly if it is stored, and verbatim.
   */
  lemma ClaimOwnership(minter: JwtMinter, client: Client, granted: seq<string>, ttl: Option<nat>, now: int, jti: string, k: string)
    ensures var c := GrantClaims(minter, client, granted, ttl, now, jti);
            && (IsReserved(k) ==> (k in c <==> k != "nbf" && (k == "aud" ==> client.audience.Some?)))
            && (!IsReserved(k) ==> (k in c <==> k in client.claims) && (k in c ==> c[k] == client.claims[k]))
  {
    GrantClaimsSplit(minter, client, granted, ttl, now, jti);
    GatewayClaimsAreReserved(minter, client, granted, ttl, now, jti);
  }

  lemma StandardValues(issuer: string, subject: string, now: int, ttl: int, jti: string)
    ensures var s := StandardClaims(issuer, subject, now, ttl, jti);
            && s.Keys == {"iss", "sub", "iat", "exp", "jti"}
            && s["iss"] == Text(issuer) && s["sub"] == Text(subject) && s["jti"] == Text(jti)
            && s["iat"] == Number(now) && s["exp"] == Number(Expiry(now, ttl))
  {
  }

  lemma ServiceValues(client: Client, granted: seq<string>)
    ensures var v := ServiceClaims(client, granted);
            && v.Keys == {"flint_kind", "client_id", "scope"} + (if client.audience.Some? then {"aud"} else {})
            && v["flint_kind"] == Text("service") && v["client_id"] == Text(client.clientId)
            && v["scope"] == Text(JoinWords(granted)) && (client.audience.Some? ==> v["aud"] == Text(client.audience.value))
  {
  }

  lemma PartsSurvive(s: ClaimMap, v: ClaimMap, u: ClaimMap)
    requires s.Keys !! v.Keys && (s + v).Keys !! u.Keys
    ensures forall k | k in s :: k in s + v + u && (s + v + u)[k] == s[k]
    ensures forall k | k in v :: k in s + v + u && (s + v + u)[k] == v[k]
  {
  }

  lemma PartsAreDisjoint(issuer: string, client: Client, granted: seq<string>, now: int, ttl: int, jti: string)
    ensures StandardClaims(issuer, client.clientId, now, ttl, jti).Keys !! ServiceClaims(client, granted).Keys
  {
  }

  /** And the reserved claims are the gateway's. */
  lemma GatewayKeepsItsClaims(minter: JwtMinter, client: Client, granted: seq<string>, ttl: Option<nat>, now: int, jti: string)
    ensures var c, s := GrantClaims(minter, client, granted, ttl, now, jti),
                        StandardClaims(minter.issuer, client.clientId, now, Ttl(minter, ttl), jti);
            && (forall k | k in s :: k in c && c[k] == s[k])
            && forall k | k in ServiceClaims(client, granted) :: k in c && c[k] == ServiceClaims(client, granted)[k]
  {
    GrantClaimsSplit(minter, client, granted, ttl, now, jti);
    PartsAreDisjoint(minter.issuer, client, granted, now, Ttl(minter, ttl), jti);
    PartsSurvive(StandardClaims(minter.issuer, client.clientId, now, Ttl(minter, ttl), jti),
                 ServiceClaims(client, granted), Unreserved(client.claims));
  }

  ghost predicate Carries(c: ClaimMap, name: string, v: Value) {
    name in c && c[name] == v
  }

  /** Claim by claim, for the standard ones and for those that mark a service. */
  lemma GatewayOwnsIdentityAndLifetime(minter: JwtMinter, client: Client, granted: seq<string>, ttl: Option<nat>, now: int, jti: string)
    ensures var c := GrantClaims(minter, client, granted, ttl, now, jti);
            && Carries(c, "iss", Text(minter.issuer)) && Carries(c, "sub", Text(client.clientId)) && Carries(c, "jti", Text(jti))
            && Carries(c, "iat", Number(now)) && Carries(c, "exp", Number(Expiry(now, Ttl(minter, ttl))))
  {
    GatewayKeepsItsClaims(minter, client, granted, ttl, now, jti);
    StandardValues(minter.issuer, client.clientId, now, Ttl(minter, ttl), jti);
  }

  lemma GatewayOwnsServiceMarks(minter: JwtMinter, client: Client, granted: seq<string>, ttl: Option<nat>, now: int, jti: string)
    ensures var c := GrantClaims(minter, client, granted, ttl, now, jti);
            && Carries(c, "flint_kind", Text("service")) && Carries(c, "client_id", Text(client.clientId))
            && Carries(c, "scope", Text(JoinWords(granted)))
            && (client.audience.Some? ==> Carries(c, "aud", Text(client.audience.value)))
  {
    GatewayKeepsItsClaims(minter, client, granted, ttl, now, jti);
    ServiceValues(client, granted);
  }

  /** The lifetime asked for, or else the minter's default, decides `exp`; `IsU64` and `IsI64` are the types of the source. */
  lemma GrantLifetime(minter: JwtMinter, client: Client, granted: seq<string>, ttl: Option<nat>, now: int, jti: string)
    requires IsI64(now) && IsU64(minter.defaultTtl) && (ttl.Some? ==> IsU64(ttl.value))
    ensures var c := GrantClaims(minter, client, granted, ttl, now, jti);
            match ttl
            case Some(t) => Carries(c, "exp", Number(if now + t < TWO63 then now + t else now + t - TWO64))
            case None =>
              var d := minter.defaultTtl;
              Carries(c, "exp", Number(if now + d < TWO63 then now + d else now + d - TWO64))
  {
    GatewayOwnsIdentityAndLifetime(minter, client, granted, ttl, now, jti);
    LifetimeIsTheTtlExactly(now, if ttl.Some? then ttl.value else minter.defaultTtl);
  }

  /** The same for any token that is minted without an `exp` of the caller's. */
  lemma MintLifetime(minter: JwtMinter, identity: Identity, extra: ClaimMap, ttl: Option<nat>, now: int, jti: string)
    requires IsI64(now) && IsU64(minter.defaultTtl) && (ttl.Some? ==> IsU64(ttl.value)) && "exp" !in extra
    ensures var c := MintedClaims(minter, identity, Some(Object(extra)), ttl, now, jti);
            match ttl
            case Some(t) => Carries(c, "exp", Number(if now + t < TWO63 then now + t else now + t - TWO64))
            case None =>
              var d := minter.defaultTtl;
              Carries(c, "exp", Number(if now + d < TWO63 then now + d else now + d - TWO64))
  {
    MintLetsAdditionalClaimsWin(minter, identity, extra, ttl, now, jti, "exp");
    StandardValues(minter.issuer, identity.id, now, Ttl(minter, ttl), jti);
    LifetimeIsTheTtlExactly(now, if ttl.Some? then ttl.value else minter.defaultTtl);
  }

  /** Stored claims never reach a reserved one: two clients that differ only there get tokens that agree on all of them. */
  lemma StoredClaimsReachNoReservedClaim(minter: JwtMinter, client: Client, other: ClaimMap, granted: seq<string>,
                                         ttl: Option<nat>, now: int, jti: string, k: string)
    requires IsReserved(k)
    ensures var c, d := GrantClaims(minter, client, granted, ttl, now, jti),
                        GrantClaims(minter, client.(claims := other), granted, ttl, now, jti);
            (k in c <==> k in d) && (k in c ==> c[k] == d[k])
  {
    GrantClaimsSplit(minter, client, granted, ttl, now, jti);
    GrantClaimsSplit(minter, client.(claims := other), granted, ttl, now, jti);
    assert GatewayClaims(minter, client, granted, ttl, now, jti) == GatewayClaims(minter, client.(claims := other), granted, ttl, now, jti);
  }

  /** The minter by itself protects nothing: an additional claim of any name wins over the standard one. */
  lemma MintLetsAdditionalClaimsWin(minter: JwtMinter, identity: Identity, extra: ClaimMap, ttl: Option<nat>, now: int, jti: string, k: string)
    ensures var c := MintedClaims(minter, identity, Some(Object(extra)), ttl, now, jti);
            && (k in extra ==> k in c && c[k] == extra[k])
            && (k !in extra && k in {"iss", "sub", "iat", "exp", "jti"} ==>
                  k in c && c[k] == StandardClaims(minter.issuer, identity.id, now, Ttl(minter, ttl), jti)[k])
            && (k !in extra && k !in {"iss", "sub", "iat", "exp", "jti"} ==>
                  (k in c <==> k in Fields(identity.traits)) && (k in c ==> c[k] == Fields(identity.traits)[k]))
  {
  }

  // ---- replica tokens ---------------------------------------------------------------------

  const PROJECTION_REVISION: nat := 6

  datatype ReplicaError = UnsupportedRevision | AudienceAndTtlRequired | TtlTooLarge | GrantExpired

  datatype ReplicaGrant = ReplicaGrant(audience: string, projectionRevision: nat, expiresAt: int, maxTtl: nat)

  function ReplicaExpiry(grant: ReplicaGrant, now: int): Result<int, ReplicaError> {
    if grant.projectionRevision != PROJECTION_REVISION then Err(UnsupportedRevision)
    else if Trim(grant.audience) == "" || grant.maxTtl == 0 then Err(AudienceAndTtlRequired)
    else if grant.maxTtl >= TWO63 then Err(TtlTooLarge)
    else
      var ttlExpiry := SaturatingAdd(now, grant.maxTtl);
      var exp := if grant.expiresAt <= ttlExpiry then grant.expiresAt else ttlExpiry;
      if exp <= now then Err(GrantExpired) else Ok(exp)
  }

  /** Why a replica token is refused, in the order of the checks. */
  lemma ReplicaRefusals(grant: ReplicaGrant, now: int)
    requires IsI64(now) && IsU64(grant.maxTtl) && IsI64(grant.expiresAt)
    ensures var r := ReplicaExpiry(grant, now);
            if grant.projectionRevision != 6 then r == Err(UnsupportedRevision)
            else if Blank(grant.audience) || grant.maxTtl == 0 then r == Err(AudienceAndTtlRequired)
            else if grant.maxTtl > 0x7FFF_FFFF_FFFF_FFFF then r == Err(TtlTooLarge)
            else if grant.expiresAt <= now then r == Err(GrantExpired)
            else r.Ok?
  {
    TrimKeepsWords(grant.audience);
  }

  /**
    A replica token is minted exactly under these five conditions, and it then expires at the
    earlier of the grant's end and the TTL's, counted without any bound: saturation never shows.
   */
  lemma ReplicaTokensEndWithTheirGrant(grant: ReplicaGrant, now: int)
    requires IsI64(now) && IsU64(grant.maxTtl) && IsI64(grant.expiresAt)
    ensures ReplicaExpiry(grant, now).Ok? <==>
              && grant.projectionRevision == PROJECTION_REVISION && !Blank(grant.audience)
              && 0 < grant.maxTtl < TWO63 && now < grant.expiresAt
    ensures ReplicaExpiry(grant, now).Ok? ==>
              var exp := ReplicaExpiry(grant, now).value;
              && now < exp && IsI64(exp) && exp <= grant.expiresAt && exp <= now + grant.maxTtl
              && (exp == grant.expiresAt || exp == now + grant.maxTtl)
  {
    TrimKeepsWords(grant.audience);
  }
}
