/** What an accepted token is known to say, claim by claim (section 4.1 of RFC 7519). */
module JwtAcceptance {
  import opened Bytes
  import opened JsonValue
  import opened Jwt
  import opened JwtVerifier
  import opened JwtRoundTrip
  import opened JwtEndToEnd
  import JL = JsonLayout
  import JT = JsonTexts
  import opened JsonGrammar
  import opened Base64

  lemma ClaimNames()
    ensures ISS == Ascii("iss") && SUB == Ascii("sub") && AUD == Ascii("aud")
    ensures EXP == Ascii("exp") && NBF == Ascii("nbf") && IAT == Ascii("iat")
    ensures ALG == Ascii("alg") && TYP == Ascii("typ") && USER_NAME == Ascii("user_name")
  {
  }

  lemma ClaimValues()
    ensures ISSUE_CLAIM == Ascii("issue_claim") && SUBJECT_CLAIM == Ascii("subject_claim")
    ensures AUDIENCE_CLAIM == Ascii("audience_claim") && JWS == Ascii("JWS") && HS256 == Ascii("HS256")
    ensures AlgorithmName(NoSignature) == Ascii("none")
  {
  }

  // ---- required claims ----

  ghost predicate AllStrings(v: Value) {
    v.Arr? && forall k | 0 <= k < |v.a| :: v.a[k].Str?
  }

  lemma StringSetMembers(v: Value)
    ensures StringSet(v).Some? <==> AllStrings(v)
    ensures StringSet(v).Some? ==> forall x :: x in StringSet(v).value <==> Str(x) in v.a
  {
    if StringSet(v).Some? {
      forall x ensures x in StringSet(v).value <==> Str(x) in v.a {
        if x in StringSet(v).value {
          var k :| 0 <= k < |v.a| && v.a[k].s == x;
          assert v.a[k] == Str(x);
        }
        if Str(x) in v.a {
          var k :| 0 <= k < |v.a| && v.a[k] == Str(x);
        }
      }
    }
  }

  /** A required claim that is neither a time nor the audience: the same string or date, or an array of exactly the same
      strings, whatever their order and number. */
  ghost predicate Matches(c: Value, jc: Value) {
    || ((c.Str? || c.Int?) && jc == c)
    || (AllStrings(c) && AllStrings(jc) && forall x :: Str(x) in c.a <==> Str(x) in jc.a)
  }

  /** A required audience: each of its strings is the token's audience or among it. */
  ghost predicate Addresses(c: Value, jc: Value) {
    && AllStrings(c) && (jc.Str? || AllStrings(jc))
    && forall x :: Str(x) in c.a ==> if jc.Str? then jc.s == x else Str(x) in jc.a
  }

  lemma SameClaimMatches(c: Value, jc: Value)
    ensures SameClaim(c, jc) <==> Matches(c, jc)
  {
    hide StringSet;
    StringSetMembers(c);
    StringSetMembers(jc);
    if c.Arr? && jc.Arr? && StringSet(c).Some? && StringSet(jc).Some? {
      assert StringSet(c) == StringSet(jc) <==> StringSet(c).value == StringSet(jc).value;
    }
  }

  lemma AudienceAddresses(c: Value, jc: Value)
    ensures Addresses(c, jc)
      <==> Audience(jc).Some? && StringSet(c).Some? && StringSet(c).value <= Audience(jc).value
  {
    hide StringSet;
    StringSetMembers(c);
    StringSetMembers(jc);
  }

  /** What `verify` asks of each required claim. */
  lemma ClaimMetExactly(payload: Claims, name: Bytes, c: Value)
    ensures ClaimMet(payload, name, c)
      <==> (name in [Ascii("exp"), Ascii("iat"), Ascii("nbf")]
            || (name in payload
                && if name == Ascii("aud") then Addresses(c, payload[name]) else Matches(c, payload[name])))
  {
    hide SameClaim, Matches, Addresses, StringSet, Audience;
    ClaimNames();
    if name in payload {
      SameClaimMatches(c, payload[name]);
      AudienceAddresses(c, payload[name]);
    }
  }

  // ---- times ----

  /** The leeway in seconds: a required claim of that name, else the default, an unsigned 64-bit number taken as a
      signed one. */
  ghost predicate HasLeeway(claims: Claims, name: Bytes, default: nat, leeway: int64) {
    if name in claims then claims[name] == Int(leeway) else (leeway - default) % 0x1_0000_0000_0000_0000 == 0
  }

  /** A token with times is in its window from the latest of its beginnings less the leeway up to and including its end
      plus the leeway. */
  lemma WindowExactly(payload: Claims, claims: Claims, default: nat, now: int, exp: int64, iat: int64, nbf: int64,
                      late: int64, early: int64, before: int64)
    requires default < 0x1_0000_0000_0000_0000
    requires HasLeeway(claims, Ascii("exp"), default, late) && HasLeeway(claims, Ascii("iat"), default, early)
    requires HasLeeway(claims, Ascii("nbf"), default, before)
    requires Ascii("exp") in payload ==> payload[Ascii("exp")] == Int(exp)
    requires Ascii("iat") in payload ==> payload[Ascii("iat")] == Int(iat)
    requires Ascii("nbf") in payload ==> payload[Ascii("nbf")] == Int(nbf)
    ensures InWindow(payload, claims, default, now)
      <==> && (Ascii("exp") in payload ==> now <= (exp + late) * 1_000_000_000)
           && (Ascii("iat") in payload ==> now >= (iat - early) * 1_000_000_000)
           && (Ascii("nbf") in payload ==> now >= (nbf - before) * 1_000_000_000)
  {
    ClaimNames();
    BoundExactly(payload, claims, EXP, default, now, exp, late);
    BoundExactly(payload, claims, IAT, default, now, iat, early);
    BoundExactly(payload, claims, NBF, default, now, nbf, before);
    hide NotAfter, NotBefore, LeewayOf, HasLeeway, Ascii;
  }

  /** A bound and its leeway, in seconds. */
  lemma BoundExactly(payload: Claims, claims: Claims, name: Bytes, default: nat, now: int, t: int64, leeway: int64)
    requires default < 0x1_0000_0000_0000_0000 && HasLeeway(claims, name, default, leeway)
    requires name in payload ==> payload[name] == Int(t)
    ensures NotAfter(payload, name, LeewayOf(claims, name, default), now)
      <==> (name in payload ==> now <= (t + leeway) * 1_000_000_000)
    ensures NotBefore(payload, name, LeewayOf(claims, name, default), now)
      <==> (name in payload ==> now >= (t - leeway) * 1_000_000_000)
  {
  }

  /** A time that is no integer is refused, and so is a leeway that is none when its time is there. */
  lemma TimesAreIntegers(payload: Claims, claims: Claims, default: nat, now: int, name: Bytes)
    requires InWindow(payload, claims, default, now)
    requires name in [Ascii("exp"), Ascii("iat"), Ascii("nbf")] && name in payload
    ensures payload[name].Int? && (name in claims ==> claims[name].Int?)
  {
    ClaimNames();
  }

  // ---- accepted tokens ----

  /** An accepted token carries every required string and date with its value, and every required set of strings. */
  lemma AcceptedMatches(d: DecodedJwt, algs: map<Bytes, Algorithm>, claims: Claims, default: nat, now: int, name: Bytes)
    requires Accepts(d, algs, claims, default, now)
    requires name in claims && name !in [Ascii("exp"), Ascii("iat"), Ascii("nbf"), Ascii("aud")]
    ensures name in d.payloadClaims && Matches(claims[name], d.payloadClaims[name])
    ensures claims[name].Str? || claims[name].Int? ==> d.payloadClaims[name] == claims[name]
  {
    hide SignatureMet, InWindow, ClaimMet;
    ClaimMetExactly(d.payloadClaims, name, claims[name]);
  }

  /** An accepted token was signed: with the algorithm that its header names, over its first two parts. */
  lemma AcceptedIsSigned(d: DecodedJwt, algs: map<Bytes, Algorithm>, claims: Claims, default: nat, now: int)
    requires Accepts(d, algs, claims, default, now)
    ensures Ascii("alg") in d.headerClaims && d.headerClaims[Ascii("alg")].Str?
    ensures var name := d.headerClaims[Ascii("alg")].s;
      && name in algs
      && (algs[name].NoSignature? ==> d.signature == [])
      && (algs[name].Hmac? ==> algs[name].mac(d.headerBase64 + Ascii(".") + d.payloadBase64) == Some(d.signature))
  {
    hide InWindow, ClaimMet;
    ClaimNames();
    assert Ascii(".") == [DOT];
  }

  /** A token that the pool accepts is from the issuer, and was signed under the key. */
  lemma PoolAcceptsIssuer(token: Bytes, mac: Bytes -> Option<Bytes>, now: int)
    ensures PoolAccepts(token, mac, now) ==>
      var d := DecodeToken(token).value;
      && Ascii("iss") in d.payloadClaims && d.payloadClaims[Ascii("iss")] == Str(Ascii("issue_claim"))
      && Ascii("alg") in d.headerClaims && d.headerClaims[Ascii("alg")] == Str(Ascii("HS256"))
      && mac(d.headerBase64 + Ascii(".") + d.payloadBase64) == Some(d.signature)
  {
    hide DecodeToken, Accepts;
    if PoolAccepts(token, mac, now) {
      var d, algs, claims := DecodeToken(token).value, map[HS256 := Hmac(HS256, mac)], map[ISS := Str(ISSUE_CLAIM)];
      ClaimNames();
      ClaimValues();
      assert ISS !in [EXP, IAT, NBF, AUD];
      AcceptedMatches(d, algs, claims, 0, now, ISS);
      AcceptedIsSigned(d, algs, claims, 0, now);
    }
  }

  /** So a token of another issuer, or of none, is refused even when it is signed under the key. */
  lemma OtherIssuerRefused(h: Claims, p: Claims, mac: Bytes -> Option<Bytes>, now: int)
    requires AllNumberFree(h) && AllNumberFree(p)
    requires Ascii("iss") in p ==> p[Ascii("iss")] != Str(Ascii("issue_claim"))
    ensures var token := Signed(h, p, Hmac(HS256, mac)); token.Some? ==> !PoolAccepts(token.value, mac, now)
  {
    hide Signed, DecodeToken, PoolAccepts, AllNumberFree, SigningInput, HeaderObject;
    var token := Signed(h, p, Hmac(HS256, mac));
    SignedTokenDecodes(h, p, Hmac(HS256, mac));
    if token.Some? { PoolAcceptsIssuer(token.value, mac, now); }
  }

  // ---- what is decoded ----

  /** The claims in a text are exactly the object that it begins with. */
  lemma ClaimsExactly(text: Bytes, claims: Claims)
    ensures ParseClaims(text) == Success(claims) <==> exists j :: JT.Reads(text, 0, j, Obj(claims))
    ensures ParseClaims(text) == Failure(NotAnObject) <==> exists j, v: Value :: !v.Obj? && JT.Reads(text, 0, j, v)
  {
    hide ParseValue, JT.Reads;
    forall j, v ensures ParseValue(Building, text, 0) == Ok(v, j) <==> JT.Reads(text, 0, j, v) {
      JT.ParsesExactly(text, 0, j, v);
    }
    var r := ParseValue(Building, text, 0);
    if r.Ok? { assert JT.Reads(text, 0, r.next, r.value); }
  }

  /** A token is in three parts exactly when it has two dots. */
  lemma TokenNeedsDots(token: Bytes)
    ensures DecodeToken(token) == Failure(InvalidToken) <==> SplitToken(token).None?
    ensures SplitToken(token).Some?
      <==> exists i, k :: 0 <= i < k < |token| && token[i] == token[k] == '.' as int
  {
    hide DecodeSegment, ParseClaims;
    PartsFail(token);
    var first := Find(token, DOT, 0);
    if i, k :| 0 <= i < k < |token| && token[i] == token[k] == DOT {
      assert first <= i;
      assert Find(token, DOT, first + 1) <= k;
    }
  }

  /** The failures of a part are not that of a token without dots. */
  lemma PartsFail(token: Bytes)
    ensures forall s :: DecodeSegment(s) != Failure(InvalidToken) && ParseClaims(s) != Failure(InvalidToken)
  {
    hide Decoded, Padded, ParseValue;
  }

  /** A token names a user exactly when it decodes and its payload has that string. */
  lemma UserClaimExactly(token: Bytes, user: Bytes)
    ensures UserClaim(token) == Some(user)
      <==> (DecodeToken(token).Success?
            && Ascii("user_name") in DecodeToken(token).value.payloadClaims
            && DecodeToken(token).value.payloadClaims[Ascii("user_name")] == Str(user))
  {
    hide DecodeToken;
    ClaimNames();
  }

  // ---- what is signed ----

  /** A token is its three segments with dots between them. */
  lemma SignedText(h: Claims, p: Claims, alg: Algorithm)
    requires AllNumberFree(h) && AllNumberFree(p)
    ensures var token, input := Signed(h, p, alg), SigningInput(h, p, alg);
      && (token.Some? <==> SignatureOf(alg, input).Some?)
      && (token.Some? ==> token.value == input + Ascii(".") + Segment(SignatureOf(alg, input).value))
      && input == Segment(ClaimsText(HeaderObject(h, alg))) + Ascii(".") + Segment(ClaimsText(p))
  {
    hide Segment, ClaimsText, HeaderObject, AllNumberFree;
    Signs();
  }

  predicate Alphanumeric(c: byte) {
    '0' as int <= c <= '9' as int || 'A' as int <= c <= 'Z' as int || 'a' as int <= c <= 'z' as int
  }

  /** A string of letters and digits is written as it is, between quotes. */
  lemma {:induction false} PlainText(s: Bytes)
    requires forall k | 0 <= k < |s| :: Alphanumeric(s[k])
    ensures EscapedText(s) == s && QuotedText(s) == Ascii("\"") + s + Ascii("\"")
  {
    JL.StringText(s, []);
    if s != [] {
      PlainText(s[1..]);
      assert s == [s[0]] + s[1..];
    }
  }

  /** A signed header has the header claims, and the algorithm's name unless they give one. */
  lemma SignedHeader(h: Claims, p: Claims, alg: Algorithm)
    requires AllNumberFree(h) && AllNumberFree(p)
    ensures var token := Signed(h, p, alg); token.Some? ==>
      var d := DecodeToken(token.value);
      && d.Success? && d.value.headerClaims.Keys == h.Keys + {Ascii("alg")}
      && (forall name | name in h :: d.value.headerClaims[name] == h[name])
      && (Ascii("alg") !in h ==> d.value.headerClaims[Ascii("alg")] == Str(AlgorithmName(alg)))
  {
    hide Signed, DecodeToken, AllNumberFree, SigningInput;
    ClaimNames();
    SignedTokenDecodes(h, p, alg);
  }

  /** One member of a compact object of strings. */
  lemma StringMember(key: Bytes, text: Bytes)
    requires forall k | 0 <= k < |key| :: Alphanumeric(key[k])
    requires forall k | 0 <= k < |text| :: Alphanumeric(text[k])
    ensures JL.KeyPart(key, -1) + Body(Str(text), -1)
      == Ascii("\"") + key + Ascii("\":\"") + text + Ascii("\"")
  {
    hide QuotedText;
    PlainText(key);
    PlainText(text);
    assert Ascii("\":\"") == Ascii("\"") + Ascii(":") + Ascii("\"");
  }

  lemma HeaderMembers()
    ensures JL.KeyPart(Ascii("alg"), -1) + Body(Str(Ascii("HS256")), -1) == Ascii("\"alg\":\"HS256\"")
    ensures JL.KeyPart(Ascii("typ"), -1) + Body(Str(Ascii("JWS")), -1) == Ascii("\"typ\":\"JWS\"")
  {
    hide JL.KeyPart, Body;
    StringMember(Ascii("alg"), Ascii("HS256"));
    StringMember(Ascii("typ"), Ascii("JWS"));
  }

  lemma TwoMembers(v: Value, a: Bytes, b: Bytes, x: Bytes, y: Bytes)
    requires a != b && v == Obj(map[a := Str(x), b := Str(y)])
    ensures NumberFree(v) && AreKeys(v.o, [a, b])
    ensures JL.Join(JL.MemberTexts(v, [a, b], -1))
      == (JL.KeyPart(a, -1) + Body(Str(x), -1)) + (Ascii(",") + (JL.KeyPart(b, -1) + Body(Str(y), -1)))
  {
    hide JL.KeyPart, Body, Ascii;
    assert forall k | k in v.o :: v.o[k].Str?;
    var m := JL.MemberTexts(v, [a, b], -1);
    var first, second := JL.KeyPart(a, -1) + Body(Str(x), -1), JL.KeyPart(b, -1) + Body(Str(y), -1);
    assert [] + first == first && [] + second == second;
    assert m == [first, second];
    assert m[1..] == [second];
  }

  lemma PairInOrder(a: Bytes, b: Bytes, k: nat)
    requires DecidedAt(a, b, k)
    ensures JL.InOrder([a, b])
  {
    assert Before(a, b);
  }

  /** The compact text of an object of two strings: the smaller key first. */
  lemma TwoStrings(a: Bytes, b: Bytes, x: Bytes, y: Bytes, k: nat)
    requires a != b && DecidedAt(a, b, k)
    ensures var v := Obj(map[a := Str(x), b := Str(y)]);
      NumberFree(v) && Serialized(v, false) == Ascii("{")
        + ((JL.KeyPart(a, -1) + Body(Str(x), -1)) + (Ascii(",") + (JL.KeyPart(b, -1) + Body(Str(y), -1)))
           + [] + Ascii("}"))
  {
    hide JL.KeyPart, Body, Ascii, DecidedAt, Serialized, JL.Join, JL.MemberTexts, JL.InOrder;
    var v, keys := Obj(map[a := Str(x), b := Str(y)]), [a, b];
    TwoMembers(v, a, b, x, y);
    JL.SerializedLayout(v);
    PairInOrder(a, b, k);
    assert v.o.Keys == {a, b} && |v.o| == |v.o.Keys| == 2;
    JL.ObjectLayout(v, keys, -1);
  }

  /** The header of every issued token, character by character. */
  lemma IssuedHeaderText(mac: Bytes -> Option<Bytes>)
    ensures var header := HeaderObject(AUTH_HEADER, Hmac(HS256, mac));
      AllNumberFree(header) && ClaimsText(header) == Ascii("{\"alg\":\"HS256\",\"typ\":\"JWS\"}")
  {
    var header := HeaderObject(AUTH_HEADER, Hmac(HS256, mac));
    HeaderIs(mac);
    AlgBeforeTyp();
    HeaderMembers();
    hide Ascii, JL.KeyPart, Body, Serialized;
    TwoStrings(Ascii("alg"), Ascii("typ"), Ascii("HS256"), Ascii("JWS"), 0);
    HeaderPieces();
  }

  lemma HeaderIs(mac: Bytes -> Option<Bytes>)
    ensures HeaderObject(AUTH_HEADER, Hmac(HS256, mac))
      == map[Ascii("alg") := Str(Ascii("HS256")), Ascii("typ") := Str(Ascii("JWS"))]
    ensures AllNumberFree(HeaderObject(AUTH_HEADER, Hmac(HS256, mac)))
  {
    ClaimNames();
    ClaimValues();
  }

  lemma AlgBeforeTyp()
    ensures DecidedAt(Ascii("alg"), Ascii("typ"), 0) && Ascii("alg") != Ascii("typ")
  {
    assert Ascii("alg")[0] != Ascii("typ")[0];
  }

  lemma HeaderPieces()
    ensures Ascii("{")
        + (Ascii("\"alg\":\"HS256\"") + (Ascii(",") + Ascii("\"typ\":\"JWS\"")) + [] + Ascii("}"))
      == Ascii("{\"alg\":\"HS256\",\"typ\":\"JWS\"}")
  {
  }

  /** Exactly these claims are in the token that the auth endpoint issues. */
  lemma IssuedClaims(user: Bytes, notBefore: Instant, issuedAt: Instant, mac: Bytes -> Option<Bytes>)
    ensures AllNumberFree(AUTH_HEADER) && AllNumberFree(AuthPayload(user, notBefore, issuedAt))
    ensures var token := Signed(AUTH_HEADER, AuthPayload(user, notBefore, issuedAt), Hmac(HS256, mac)); token.Some? ==>
      var d := DecodeToken(token.value);
      && d.Success?
      && d.value.headerClaims == map[Ascii("alg") := Str(Ascii("HS256")), Ascii("typ") := Str(Ascii("JWS"))]
      && d.value.payloadClaims == map[
           Ascii("iss") := Str(Ascii("issue_claim")),
           Ascii("sub") := Str(Ascii("subject_claim")),
           Ascii("aud") := Str(Ascii("audience_claim")),
           Ascii("nbf") := Int(notBefore / 1_000_000_000),
           Ascii("iat") := Int(issuedAt / 1_000_000_000),
           Ascii("user_name") := Str(user)]
  {
    AuthPayloadNumberFree(user, notBefore, issuedAt);
    hide Signed, DecodeToken, AllNumberFree, SigningInput;
    ClaimNames();
    ClaimValues();
    SignedTokenDecodes(AUTH_HEADER, AuthPayload(user, notBefore, issuedAt), Hmac(HS256, mac));
  }
}
