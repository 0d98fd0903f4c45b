/** Signing, decoding and verifying end to end, and the token of the auth endpoint. */
module JwtEndToEnd {
  import opened Bytes
  import opened JsonValue
  import opened Jwt
  import opened JwtVerifier
  import opened JwtRoundTrip
  import JwtBuilder

  /** A token that the builder signed is accepted by every verifier that allows its algorithm, exactly when the time
      window and the required claims hold of the signed payload. */
  lemma {:induction false} SignDecodeVerify(headerClaims: Claims, payloadClaims: Claims, alg: Algorithm,
                         algs: map<Bytes, Algorithm>, claims: Claims, default: nat, now: int)
    requires AllNumberFree(headerClaims) && AllNumberFree(payloadClaims) && ALG !in headerClaims
    requires AlgorithmName(alg) in algs && algs[AlgorithmName(alg)] == alg
    ensures var token := Signed(headerClaims, payloadClaims, alg); token.Some? ==>
      var d := DecodeToken(token.value);
      && d.Success?
      && d.value.payloadClaims == payloadClaims
      && d.value.headerClaims == headerClaims[ALG := Str(AlgorithmName(alg))]
      && (Accepts(d.value, algs, claims, default, now)
          <==> InWindow(payloadClaims, claims, default, now)
               && forall name | name in claims :: ClaimMet(payloadClaims, name, claims[name]))
  {
    hide Signed, DecodeToken, AllNumberFree, SigningInput, InWindow, ClaimMet;
    SignedTokenDecodes(headerClaims, payloadClaims, alg);
    assert HeaderObject(headerClaims, alg) == headerClaims[ALG := Str(AlgorithmName(alg))];
  }

  // ---- the auth endpoint's token ----

  const TYP: Bytes := [0x74, 0x79, 0x70] // typ
  const JWS: Bytes := [0x4A, 0x57, 0x53] // JWS
  const HS256: Bytes := [0x48, 0x53, 0x32, 0x35, 0x36] // HS256
  const USER_NAME: Bytes := [0x75, 0x73, 0x65, 0x72, 0x5F, 0x6E, 0x61, 0x6D, 0x65] // user_name
  const ISSUE_CLAIM: Bytes := [0x69, 0x73, 0x73, 0x75, 0x65, 0x5F, 0x63, 0x6C, 0x61, 0x69, 0x6D] // issue_claim
  const SUBJECT_CLAIM: Bytes :=
    [0x73, 0x75, 0x62, 0x6A, 0x65, 0x63, 0x74, 0x5F, 0x63, 0x6C, 0x61, 0x69, 0x6D] // subject_claim
  const AUDIENCE_CLAIM: Bytes :=
    [0x61, 0x75, 0x64, 0x69, 0x65, 0x6E, 0x63, 0x65, 0x5F, 0x63, 0x6C, 0x61, 0x69, 0x6D] // audience_claim

  /** A reading of the system clock. */
  type Instant = t: int | 0 <= t <= INT64_MAX

  /** `claim(date)`: whole seconds. */
  function DateClaim(t: Instant): Value {
    Int(t / TICKS)
  }

  /** The payload of the token for `user`, with the two clock readings it takes. */
  function AuthPayload(user: Bytes, notBefore: Instant, issuedAt: Instant): Claims {
    map[ISS := Str(ISSUE_CLAIM), SUB := Str(SUBJECT_CLAIM), AUD := Str(AUDIENCE_CLAIM), NBF := DateClaim(notBefore),
        IAT := DateClaim(issuedAt), USER_NAME := Str(user)]
  }

  const AUTH_HEADER: Claims := map[TYP := Str(JWS)]

  /** The token `auth::operator()` returns after a login; `mac` is the keyed hash under the signing key. */
  method IssueToken(user: Bytes, notBefore: Instant, issuedAt: Instant, mac: Bytes -> Option<Bytes>)
    returns (token: Option<Bytes>)
    ensures AllNumberFree(AUTH_HEADER) && AllNumberFree(AuthPayload(user, notBefore, issuedAt))
    ensures token == Signed(AUTH_HEADER, AuthPayload(user, notBefore, issuedAt), Hmac(HS256, mac))
  {
    hide Signed;
    var b := new JwtBuilder.Builder();
    b.SetHeaderClaim(TYP, Str(JWS));
    b.SetPayloadClaim(ISS, Str(ISSUE_CLAIM));
    b.SetPayloadClaim(SUB, Str(SUBJECT_CLAIM));
    b.SetPayloadClaim(AUD, Str(AUDIENCE_CLAIM));
    b.SetPayloadClaim(NBF, DateClaim(notBefore));
    b.SetPayloadClaim(IAT, DateClaim(issuedAt));
    b.SetPayloadClaim(USER_NAME, Str(user));
    AuthPayloadNumberFree(user, notBefore, issuedAt);
    token := b.Sign(Hmac(HS256, mac));
  }

  lemma AuthPayloadNumberFree(user: Bytes, notBefore: Instant, issuedAt: Instant)
    ensures AllNumberFree(AUTH_HEADER) && AllNumberFree(AuthPayload(user, notBefore, issuedAt))
  {
  }

  /** The user name in a token's payload, whether or not the token would be accepted. */
  function UserClaim(token: Bytes): Option<Bytes> {
    match DecodeToken(token)
    case Failure(_) => None
    case Success(d) =>
      if USER_NAME in d.payloadClaims && d.payloadClaims[USER_NAME].Str?
      then Some(d.payloadClaims[USER_NAME].s)
      else None
  }

  /** The token is accepted under the signing key by the pool's verifier, which asks for the issuer. */
  ghost predicate PoolAccepts(token: Bytes, mac: Bytes -> Option<Bytes>, now: int) {
    var d := DecodeToken(token);
    d.Success? && Accepts(d.value, map[HS256 := Hmac(HS256, mac)], map[ISS := Str(ISSUE_CLAIM)], 0, now)
  }

  /** `get_user_name_from_key`, with None where it throws. */
  method GetUserNameFromKey(token: Bytes, mac: Bytes -> Option<Bytes>, now: int) returns (user: Option<Bytes>)
    ensures user == if PoolAccepts(token, mac, now) then UserClaim(token) else None
  {
    hide DecodeToken, Accepts;
    var d := JwtBuilder.Decode(token);
    if d.Failure? {
      return None;
    }
    var v := new Verifier();
    v.AllowAlgorithm(Hmac(HS256, mac));
    v.WithClaim(ISS, Str(ISSUE_CLAIM));
    var verdict := v.Verify(d.value, now);
    if verdict.Rejected? {
      return None;
    }
    var p := d.value.payloadClaims;
    if USER_NAME !in p || !p[USER_NAME].Str? {
      return None;
    }
    user := Some(p[USER_NAME].s);
  }

  lemma AuthClaimsMet(user: Bytes, notBefore: Instant, issuedAt: Instant, now: int)
    ensures var p, claims := AuthPayload(user, notBefore, issuedAt), map[ISS := Str(ISSUE_CLAIM)];
      && (InWindow(p, claims, 0, now) <==> notBefore / TICKS * TICKS <= now && issuedAt / TICKS * TICKS <= now)
      && (forall name | name in claims :: ClaimMet(p, name, claims[name]))
      && USER_NAME in p && p[USER_NAME] == Str(user)
  {
    var p := AuthPayload(user, notBefore, issuedAt);
    assert EXP !in p;
    assert IAT in p && NBF in p;
    assert ISS in p && p[ISS] == Str(ISSUE_CLAIM);
  }

  /** The token issued for a user, whatever bytes the name is made of, names that user; and the pool accepts it from
      the second in which it was issued on, for ever. */
  lemma {:induction false} IssuedTokenNamesUser(user: Bytes, notBefore: Instant, issuedAt: Instant,
                                                mac: Bytes -> Option<Bytes>, now: int)
    ensures AllNumberFree(AUTH_HEADER) && AllNumberFree(AuthPayload(user, notBefore, issuedAt))
    ensures var token := Signed(AUTH_HEADER, AuthPayload(user, notBefore, issuedAt), Hmac(HS256, mac));
      token.Some? ==>
        && UserClaim(token.value) == Some(user)
        && (PoolAccepts(token.value, mac, now)
            <==> notBefore / TICKS * TICKS <= now && issuedAt / TICKS * TICKS <= now)
  {
    hide Signed, DecodeToken, Accepts, InWindow, ClaimMet, AuthPayload;
    AuthPayloadNumberFree(user, notBefore, issuedAt);
    hide AllNumberFree;
    var p, alg := AuthPayload(user, notBefore, issuedAt), Hmac(HS256, mac);
    if Signed(AUTH_HEADER, p, alg).Some? {
      assert ALG !in AUTH_HEADER;
      AuthClaimsMet(user, notBefore, issuedAt, now);
      SignDecodeVerify(AUTH_HEADER, p, alg, map[HS256 := alg], map[ISS := Str(ISSUE_CLAIM)], 0, now);
    }
  }
}
