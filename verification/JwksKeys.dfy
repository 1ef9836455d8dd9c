/** Key sets, and which key of a set may verify a token. */
module JwksKeys {
  import opened Wrappers

  /** A reading of the monotonic clock, in nanoseconds. */
  type Instant = int

  const JWKS_TTL: int := 300_000_000_000
  const MIN_REFRESH_INTERVAL: int := 5_000_000_000

  datatype Algorithm = Rsa | EllipticCurve | OctetKey | OctetKeyPair
  /** `wellFormed`: whether a verification key can be built from the material. */
  datatype Jwk = Jwk(kid: Option<string>, algorithm: Algorithm, material: string, wellFormed: bool)
  type JwkSet = seq<Jwk>
  datatype DecodingKey = DecodingKey(algorithm: Algorithm, material: string)
  datatype AuthError = ProviderError | Unauthorized

  datatype CachedJwks = CachedJwks(jwks: JwkSet, fetchedAt: Instant)

  function Find(jwks: JwkSet, kid: string): Option<Jwk> {
    if jwks == [] then None else if jwks[0].kid == Some(kid) then Some(jwks[0]) else Find(jwks[1..], kid)
  }

  function AsymmetricDecodingKey(jwk: Jwk): Result<DecodingKey, AuthError> {
    match jwk.algorithm
    case Rsa | EllipticCurve =>
      if jwk.wellFormed then Ok(DecodingKey(jwk.algorithm, jwk.material)) else Err(ProviderError)
    case OctetKey | OctetKeyPair => Err(Unauthorized)
  }

  function SelectAsymmetricKey(jwks: JwkSet, kid: Option<string>): Result<DecodingKey, AuthError> {
    match kid
    case Some(k) => (
      match Find(jwks, k)
      case None => Err(Unauthorized)
      case Some(jwk) => AsymmetricDecodingKey(jwk))
    case None => if |jwks| != 1 then Err(Unauthorized) else AsymmetricDecodingKey(jwks[0])
  }

  /** Key `i` of the set is the one a token with this `kid` names: the first that bears it, or the only key. */
  ghost predicate Names(jwks: JwkSet, kid: Option<string>, i: nat) {
    && i < |jwks|
    && match kid
       case Some(k) => jwks[i].kid == Some(k) && forall j | 0 <= j < i :: jwks[j].kid != Some(k)
       case None => |jwks| == 1
  }

  predicate Asymmetric(a: Algorithm) {
    a.Rsa? || a.EllipticCurve?
  }

  lemma {:induction false} FindFirst(jwks: JwkSet, kid: string)
    ensures Find(jwks, kid).None? <==> forall j | 0 <= j < |jwks| :: jwks[j].kid != Some(kid)
    ensures Find(jwks, kid).Some? ==> exists i: nat :: Names(jwks, Some(kid), i) && jwks[i] == Find(jwks, kid).value
  {
    if jwks != [] {
      if jwks[0].kid == Some(kid) {
        assert Names(jwks, Some(kid), 0);
      } else {
        FindFirst(jwks[1..], kid);
        assert forall j | 1 <= j < |jwks| :: jwks[j] == jwks[1..][j - 1];
        if Find(jwks, kid).Some? {
          var i: nat :| Names(jwks[1..], Some(kid), i) && jwks[1..][i] == Find(jwks, kid).value;
          assert Names(jwks, Some(kid), i + 1);
        }
      }
    }
  }

  /** A key is selected exactly when the token names one, and it is asymmetric and well formed; it is then that key. */
  lemma SelectionExactly(jwks: JwkSet, kid: Option<string>, key: DecodingKey)
    ensures SelectAsymmetricKey(jwks, kid) == Ok(key)
            <==> exists i: nat :: Names(jwks, kid, i) && Asymmetric(jwks[i].algorithm) && jwks[i].wellFormed
                                  && key == DecodingKey(jwks[i].algorithm, jwks[i].material)
  {
    if kid.Some? {
      FindFirst(jwks, kid.value);
      forall i: nat, j: nat | Names(jwks, kid, i) && Names(jwks, kid, j) ensures i == j {
      }
    } else if |jwks| == 1 {
      assert Names(jwks, kid, 0);
    }
  }

  /** What a named key comes to: symmetric ones are refused, and ones no key can be built from are the provider's fault. */
  ghost predicate ChosenKey(jwk: Jwk, r: Result<DecodingKey, AuthError>) {
    match jwk.algorithm
    case OctetKey => r == Err(Unauthorized)
    case OctetKeyPair => r == Err(Unauthorized)
    case _ => r == if jwk.wellFormed then Ok(DecodingKey(jwk.algorithm, jwk.material)) else Err(ProviderError)
  }

  /** What a key set has to say to a token with this `kid`, every refusal included. */
  ghost predicate Chosen(jwks: JwkSet, kid: Option<string>, r: Result<DecodingKey, AuthError>) {
    && (forall i: nat | Names(jwks, kid, i) :: ChosenKey(jwks[i], r))
    && ((forall i: nat :: !Names(jwks, kid, i)) ==> r == Err(Unauthorized))
  }

  /** No two keys of a set are named at once, and the outcome is that of the one that is. */
  lemma SelectionOutcome(jwks: JwkSet, kid: Option<string>)
    ensures Chosen(jwks, kid, SelectAsymmetricKey(jwks, kid))
    ensures forall i: nat, j: nat | Names(jwks, kid, i) && Names(jwks, kid, j) :: i == j
  {
    if kid.Some? {
      FindFirst(jwks, kid.value);
    } else if |jwks| == 1 {
      assert Names(jwks, kid, 0);
    }
  }

  predicate FreshAt(cache: Option<CachedJwks>, now: Instant) {
    cache.Some? && now - cache.value.fetchedAt < JWKS_TTL
  }

  /** Whether a forced refresh may start. */
  predicate GateOpen(lastForced: Option<Instant>, now: Instant) {
    lastForced.None? || now - lastForced.value >= MIN_REFRESH_INTERVAL
  }
}
