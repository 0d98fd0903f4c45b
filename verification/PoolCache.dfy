/** Whose connection the pool hands out. The cache key is the token followed by the hint, with nothing between them;
    what a key stands for is told by the shape of the tokens that the verifier accepts. */
module PoolCache {
  import opened Bytes
  import opened Base64
  import Base64Laws
  import Base64Shape
  import opened Jwt
  import opened JwtRoundTrip
  import JwtVerifier
  import opened JwtEndToEnd
  import opened Pool
  import opened PoolRuns

  /** Characters in the base64url form of a 32-byte signature. */
  const SIGNATURE_LENGTH := 43

  /** Two dots, and a signature part of 43 characters. */
  predicate WellShaped(token: Bytes) {
    var parts := SplitToken(token);
    parts.Some? && |parts.value.2| == SIGNATURE_LENGTH && DOT !in parts.value.2
  }

  /** The well-shaped token that a key begins with. */
  function TokenOf(key: Bytes): Bytes {
    var first := Find(key, DOT, 0);
    if first == |key| then key else
      var second := Find(key, DOT, first + 1);
      if second + 1 + SIGNATURE_LENGTH > |key| then key else key[..second + 1 + SIGNATURE_LENGTH]
  }

  /** A well-shaped token is recovered from every key made of it. */
  lemma TokenRecovered(token: Bytes, suffix: Bytes)
    requires WellShaped(token)
    ensures TokenOf(token + suffix) == token
  {
    var key := token + suffix;
    var first := Find(token, DOT, 0);
    assert forall k | 0 <= k < |token| :: key[k] == token[k];
    FindsFirst(key, DOT, 0, first);
    var second := Find(token, DOT, first + 1);
    FindsFirst(key, DOT, first + 1, second);
    assert key[..|token|] == token;
  }

  /** Keys of well-shaped tokens are the same only for the same token and the same suffix. */
  lemma KeysInjective(token: Bytes, suffix: Bytes, token': Bytes, suffix': Bytes)
    requires WellShaped(token) && WellShaped(token') && token + suffix == token' + suffix'
    ensures token == token' && suffix == suffix'
  {
    hide WellShaped, TokenOf;
    TokenRecovered(token, suffix);
    TokenRecovered(token', suffix');
    assert (token + suffix)[|token|..] == suffix && (token' + suffix')[|token|..] == suffix';
  }

  /** The keyed hash yields 32 bytes, as SHA-256 does. */
  ghost predicate Hash32(mac: Mac) {
    forall data :: mac(data).Some? ==> |mac(data).value| == 32
  }

  /** Every token signed with a 32-byte hash is well shaped. */
  lemma {:induction false} SignedIsWellShaped(headerClaims: Claims, payloadClaims: Claims, name: Bytes, mac: Mac)
    requires AllNumberFree(headerClaims) && AllNumberFree(payloadClaims)
    requires Hash32(mac)
    ensures var token := Signed(headerClaims, payloadClaims, Hmac(name, mac));
      token.Some? ==> WellShaped(token.value)
  {
    hide AllNumberFree, ClaimsText, HeaderObject, Segment, SplitToken;
    var alg := Hmac(name, mac);
    HeaderNumberFree(headerClaims, alg);
    var h, p := Segment(ClaimsText(HeaderObject(headerClaims, alg))), Segment(ClaimsText(payloadClaims));
    var sig := mac(SigningInput(headerClaims, payloadClaims, alg));
    if sig.Some? {
      SegmentSymbols(ClaimsText(HeaderObject(headerClaims, alg)));
      SegmentSymbols(ClaimsText(payloadClaims));
      SignatureShape(sig.value);
      SplitJoined(h, p, Segment(sig.value));
    }
  }

  // ---- what is accepted is well shaped ----

  /** A signature part that decodes to 32 bytes: with the fills put back it is 43 symbols and one fill. */
  lemma PaddedSignature(s: Bytes, sig: Bytes)
    requires DecodeSegment(s) == Success(sig) && |sig| == 32
    ensures var padded := Padded(s);
      |padded| == 43 + |URL.fill| && forall k | 0 <= k < 43 :: padded[k] in URL.alphabet
  {
    VariantsUsable();
    hide Padded, Decoded, EncodeBody, DecodeBody, Base64Shape.Cleared, Distinct, Fills;
    var padded := Padded(s);
    Base64Shape.AcceptsExactly(URL, padded);
    var body, n :| Base64Laws.Shaped(URL, padded, body, n);
    Base64Shape.FillsOfDecoded(URL, padded, body, n);
    Base64Shape.Reencoded(URL, padded, body, n);
    BodySize(URL, sig);
    ClearedLength(body, n);
    assert |EncodeBody(URL, sig) + Fills(URL, 1)| == 43 + |Fills(URL, 1)|;
    assert |Base64Shape.Cleared(URL, body, n) + Fills(URL, n)| == |body| + |Fills(URL, 1)|;
    FillsLength(1);
    forall k | 0 <= k < 43 ensures padded[k] in URL.alphabet { assert padded[k] == body[k]; }
  }

  lemma ClearedLength(body: Bytes, n: nat)
    requires Usable(URL) && forall c | c in body :: c in URL.alphabet
    ensures |Base64Shape.Cleared(URL, body, n)| == |body|
  {
    hide Distinct, Base64Shape.SextetValue;
  }

  lemma FillsLength(n: nat)
    ensures |Fills(URL, n)| == |URL.fill| * n && |URL.fill| == 3
    ensures n > 0 ==> Fills(URL, n)[0] == URL.fill[0]
  {
  }

  /** So it has 43 characters, none of them a dot. */
  lemma SignaturePartShape(s: Bytes, sig: Bytes)
    requires DecodeSegment(s) == Success(sig) && |sig| == 32
    ensures |s| == SIGNATURE_LENGTH && DOT !in s
  {
    VariantsUsable();
    hide DecodeSegment, Distinct, Fills;
    PaddedSignature(s, sig);
    var padded := Padded(s);
    FillsLength(PadCount(|s|));
    assert PadCount(|s|) > 0 ==> padded[|s|] == URL.fill[0];
    forall k | 0 <= k < |s| ensures s[k] != DOT { assert s[k] == padded[k]; }
  }

  /** The verifier accepts only well-shaped tokens. */
  lemma AcceptedIsWellShaped(token: Bytes, mac: Mac, now: int)
    requires Hash32(mac)
    ensures PoolAccepts(token, mac, now) ==> WellShaped(token)
  {
    hide DecodeSegment, ParseClaims, SplitToken, JwtVerifier.InWindow, JwtVerifier.ClaimMet;
    if !PoolAccepts(token, mac, now) { return; }
    var d := DecodeToken(token).value;
    var s := SplitToken(token).value.2;
    assert |d.signature| == 32;
    SignaturePartShape(s, d.signature);
  }

  // ---- agreement ----

  /** The key begins with a well-shaped token that names the user. */
  ghost predicate KeyNames(key: Bytes, user: Bytes) {
    var token := TokenOf(key);
    WellShaped(token) && token <= key && UserClaim(token) == Some(user)
  }

  /** Every connection in the pool was made for the user that its key names. */
  ghost predicate ConnectionsAgree(s: State) {
    forall key | key in s.entries && s.entries[key].connection.Some? ::
      KeyNames(key, s.entries[key].connection.value.user)
  }

  lemma StepKeepsAgreement(mac: Mac, s: State, step: Step)
    requires Hash32(mac) && ConnectionsAgree(s) && Enabled(s, step)
    ensures ConnectionsAgree(Next(mac, s, step))
  {
    hide UserClaim, TokenOf, WellShaped, PoolAccepts, Suffix, Less, Seconds, Hash32;
    if step.Get? && PoolAccepts(step.token, mac, s.clock) {
      AcceptedIsWellShaped(step.token, mac, s.clock);
      TokenRecovered(step.token, Suffix(step.hint, step.random));
    }
  }

  /** In every reachable state, whatever tokens and hints have been presented. */
  lemma {:induction false} RunKeepsAgreement(mac: Mac, r: Run, i: nat)
    requires Hash32(mac) && IsRun(mac, r) && i <= |r.steps|
    ensures ConnectionsAgree(r.states[i])
  {
    hide Next, Enabled, Hash32;
    if i > 0 {
      RunKeepsAgreement(mac, r, i - 1);
      assert Follows(mac, r, i - 1);
      StepKeepsAgreement(mac, r.states[i - 1], r.steps[i - 1]);
    }
  }

  /** The first two dots of a beginning are those of the whole. */
  lemma DotsOfPrefix(token: Bytes, key: Bytes)
    requires token <= key && SplitToken(token).Some?
    ensures var first := Find(token, DOT, 0);
      && first < |token| && Find(key, DOT, 0) == first
      && Find(token, DOT, first + 1) < |token| && Find(key, DOT, first + 1) == Find(token, DOT, first + 1)
  {
    var first := Find(token, DOT, 0);
    assert forall k | 0 <= k < |token| :: key[k] == token[k];
    FindsFirst(key, DOT, 0, first);
    FindsFirst(key, DOT, first + 1, Find(token, DOT, first + 1));
  }

  /** Two beginnings of one text that reach past its second dot have the same header and payload. */
  lemma SamePayload(token: Bytes, key: Bytes, other: Bytes)
    requires token <= key && other <= key && SplitToken(token).Some? && SplitToken(other).Some?
    ensures SplitToken(token).value.0 == SplitToken(other).value.0
    ensures SplitToken(token).value.1 == SplitToken(other).value.1
  {
    DotsOfPrefix(token, key);
    DotsOfPrefix(other, key);
    var first := Find(key, DOT, 0);
    var second := Find(key, DOT, first + 1);
    assert token[..first] == key[..first] == other[..first];
    assert token[first + 1..second] == key[first + 1..second] == other[first + 1..second];
  }

  /** A presented token names the user of its key exactly when it decodes at all. */
  lemma PresentedNamesUser(token: Bytes, suffix: Bytes, user: Bytes)
    ensures KeyNames(token + suffix, user) ==> (UserClaim(token) == Some(user) <==> DecodeToken(token).Success?)
  {
    hide DecodeSegment, ParseClaims, TokenOf, SplitToken, WellShaped;
    var key := token + suffix;
    if KeyNames(key, user) && DecodeToken(token).Success? {
      SamePayload(token, key, TokenOf(key));
    }
  }

  /** The connection that `get` hands out, made now or cached, belongs to the user whom the presented token names,
      exactly when the presented token decodes. */
  lemma CacheAgreement(mac: Mac, r: Run, i: nat)
    requires Hash32(mac) && IsRun(mac, r) && i < |r.steps| && r.steps[i].Get?
    requires OutcomeOf(mac, r.states[i], r.steps[i]).Granted?
    ensures var s', key := r.states[i + 1], KeyOf(r.steps[i]);
      && key in s'.entries && s'.entries[key].connection.Some?
      && (UserClaim(r.steps[i].token) == Some(s'.entries[key].connection.value.user)
          <==> DecodeToken(r.steps[i].token).Success?)
  {
    hide UserClaim, KeyNames, PoolAccepts, Suffix, Seconds, DecodeToken, Hash32;
    assert Follows(mac, r, i);
    RunKeepsAgreement(mac, r, i + 1);
    var step := r.steps[i];
    var user := r.states[i + 1].entries[KeyOf(step)].connection.value.user;
    PresentedNamesUser(step.token, Suffix(step.hint, step.random), user);
  }

  /** So an issued token is served with a connection of the user it was issued for. */
  lemma {:induction false} IssuedTokenServesItsUser(mac: Mac, r: Run, i: nat, user: Bytes, notBefore: Instant,
                                                    issuedAt: Instant)
    requires Hash32(mac) && IsRun(mac, r) && i < |r.steps| && r.steps[i].Get?
    requires OutcomeOf(mac, r.states[i], r.steps[i]).Granted?
    requires AllNumberFree(AUTH_HEADER) && AllNumberFree(AuthPayload(user, notBefore, issuedAt))
    ensures Signed(AUTH_HEADER, AuthPayload(user, notBefore, issuedAt), Hmac(HS256, mac)) == Some(r.steps[i].token) ==>
      var s', key := r.states[i + 1], KeyOf(r.steps[i]);
      key in s'.entries && s'.entries[key].connection == Some(Connection(user))
  {
    hide Signed, PoolAccepts, AllNumberFree, AuthPayload, Hash32, DecodeToken;
    CacheAgreement(mac, r, i);
    IssuedTokenNamesUser(user, notBefore, issuedAt, mac, r.states[i].clock);
  }
}
