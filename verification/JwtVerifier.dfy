/** `jwt::verifier`: which decoded tokens are accepted (section 4.1 of RFC 7519). */
module JwtVerifier {
  import opened Bytes
  import opened JsonValue
  import opened Jwt

  const ISS: Bytes := [0x69, 0x73, 0x73] // iss
  const SUB: Bytes := [0x73, 0x75, 0x62] // sub
  const AUD: Bytes := [0x61, 0x75, 0x64] // aud
  const EXP: Bytes := [0x65, 0x78, 0x70] // exp
  const NBF: Bytes := [0x6E, 0x62, 0x66] // nbf
  const IAT: Bytes := [0x69, 0x61, 0x74] // iat

  /** Ticks of the system clock in a second. */
  const TICKS := 1_000_000_000

  // ---- what is accepted ----

  /** `as_set`: the strings of an array, or None where it throws. */
  function StringSet(v: Value): Option<set<Bytes>> {
    if v.Arr? && forall k | 0 <= k < |v.a| :: v.a[k].Str?
    then Some(set k | 0 <= k < |v.a| :: v.a[k].s)
    else None
  }

  /** `get_audience`: a single string is an audience of one. */
  function Audience(v: Value): Option<set<Bytes>> {
    if v.Str? then Some({v.s}) else StringSet(v)
  }

  /** A `size_t` converted to the signed representation of `std::chrono::seconds`. */
  function AsSeconds(x: nat): int {
    if x < 0x8000_0000_0000_0000 then x else x - 0x1_0000_0000_0000_0000
  }

  /** The leeway of a time claim: a required claim of that name, or the default. */
  function LeewayOf(claims: Claims, name: Bytes, default: nat): Option<int> {
    if name !in claims then Some(AsSeconds(default))
    else if claims[name].Int? then Some(claims[name].i)
    else None
  }

  ghost predicate NotAfter(payload: Claims, name: Bytes, leeway: Option<int>, now: int) {
    name in payload ==> payload[name].Int? && leeway.Some? && now <= (payload[name].i + leeway.value) * TICKS
  }

  ghost predicate NotBefore(payload: Claims, name: Bytes, leeway: Option<int>, now: int) {
    name in payload ==> payload[name].Int? && leeway.Some? && (payload[name].i - leeway.value) * TICKS <= now
  }

  /** The clock lies within the token's times, widened by their leeways. */
  ghost predicate InWindow(payload: Claims, claims: Claims, default: nat, now: int) {
    && NotAfter(payload, EXP, LeewayOf(claims, EXP, default), now)
    && NotBefore(payload, IAT, LeewayOf(claims, IAT, default), now)
    && NotBefore(payload, NBF, LeewayOf(claims, NBF, default), now)
  }

  predicate IsTimeClaim(name: Bytes) {
    name == EXP || name == IAT || name == NBF
  }

  /** A required claim is matched by one of the same type and value; only dates, sets of strings and strings can be
      required. */
  ghost predicate SameClaim(c: Value, jc: Value) {
    || (c.Int? && jc.Int? && c.i == jc.i)
    || (c.Str? && jc.Str? && c.s == jc.s)
    || (c.Arr? && jc.Arr? && StringSet(c).Some? && StringSet(c) == StringSet(jc))
  }

  ghost predicate ClaimMet(payload: Claims, name: Bytes, c: Value) {
    if IsTimeClaim(name) then true
    else if name == AUD then
      && AUD in payload && Audience(payload[AUD]).Some? && StringSet(c).Some?
      && StringSet(c).value <= Audience(payload[AUD]).value
    else name in payload && SameClaim(c, payload[name])
  }

  /** The signature is the one an allowed algorithm computes. */
  ghost predicate SignatureMet(jwt: DecodedJwt, algs: map<Bytes, Algorithm>) {
    && ALG in jwt.headerClaims && jwt.headerClaims[ALG].Str?
    && jwt.headerClaims[ALG].s in algs
    && SignatureOf(algs[jwt.headerClaims[ALG].s], jwt.headerBase64 + [DOT] + jwt.payloadBase64) == Some(jwt.signature)
  }

  ghost predicate Accepts(jwt: DecodedJwt, algs: map<Bytes, Algorithm>, claims: Claims, default: nat, now: int) {
    && SignatureMet(jwt, algs)
    && InWindow(jwt.payloadClaims, claims, default, now)
    && forall name | name in claims :: ClaimMet(jwt.payloadClaims, name, claims[name])
  }

  // ---- how it is checked ----

  /** Why `verify` throws. */
  datatype Reason =
    | ClaimNotFound | BadCast | WrongAlgorithm | WrongSignature | OutOfTime | MissingClaim | TypeMismatch
    | ValueMismatch | WrongAudience | InternalError

  datatype Verdict = Accepted | Rejected(reason: Reason)

  /** `hmacsha::verify` and `none::verify`. The hash comparison looks at every byte before it decides. */
  method CheckSignature(alg: Algorithm, data: Bytes, signature: Bytes) returns (ok: bool)
    ensures ok <==> SignatureOf(alg, data) == Some(signature)
  {
    if alg.NoSignature? {
      return signature == [];
    }
    var r := SignatureOf(alg, data);
    if r.None? {
      return false;
    }
    var res := r.value;
    ok := true;
    var n := if |res| < |signature| then |res| else |signature|;
    for i := 0 to n
      invariant ok <==> res[..i] == signature[..i]
    {
      assert res[..i + 1] == res[..i] + [res[i]] && signature[..i + 1] == signature[..i] + [signature[i]];
      if res[i] != signature[i] {
        ok := false;
      }
    }
    if |res| != |signature| {
      ok := false;
    }
    assert |res| == |signature| ==> res[..n] == res && signature[..n] == signature;
  }

  /** `as_set`. */
  method AsSet(v: Value) returns (r: Option<set<Bytes>>)
    ensures r == StringSet(v)
  {
    if !v.Arr? {
      return None;
    }
    var res := {};
    for k := 0 to |v.a|
      invariant forall i | 0 <= i < k :: v.a[i].Str?
      invariant res == set i | 0 <= i < k :: v.a[i].s
    {
      if !v.a[k].Str? {
        return None;
      }
      res := res + {v.a[k].s};
    }
    r := Some(res);
  }

  /** The order of a set determines the set. */
  lemma SortedOnce(a: set<Bytes>, b: set<Bytes>)
    requires Sorted(a) == Sorted(b)
    ensures a == b
  {
    hide Sorted, Ascending;
    forall x ensures x in a <==> x in b {
      assert x in a <==> x in Sorted(a);
      assert x in b <==> x in Sorted(b);
    }
  }

  /** The paired walk over two ordered sets in `assert_claim_eq`. */
  method SetsMatch(a: set<Bytes>, b: set<Bytes>) returns (ok: bool)
    ensures ok <==> a == b
  {
    hide Sorted, Ascending;
    var s, t := Sorted(a), Sorted(b);
    if s == t { SortedOnce(a, b); }
    if |s| != |t| {
      return false;
    }
    var i := 0;
    while i < |s| && i < |t|
      invariant 0 <= i <= |s| == |t| && s[..i] == t[..i]
    {
      if s[i] != t[i] {
        return false;
      }
      i := i + 1;
    }
    assert s == s[..i] == t[..i] == t;
    ok := true;
  }

  /** The `assert_claim_eq` lambda. */
  method CheckClaim(payload: Claims, name: Bytes, c: Value) returns (v: Verdict)
    ensures v.Accepted? <==> name in payload && SameClaim(c, payload[name])
  {
    if name !in payload {
      return Rejected(MissingClaim);
    }
    var jc := payload[name];
    if c.Int? != jc.Int? || c.Arr? != jc.Arr? || c.Str? != jc.Str? || c.Bool? != jc.Bool? || c.Null? != jc.Null?
       || c.Number? != jc.Number? {
      return Rejected(TypeMismatch);
    }
    if c.Int? {
      v := if c.i != jc.i then Rejected(ValueMismatch) else Accepted;
    } else if c.Arr? {
      var s1 := AsSet(c);
      if s1.None? { return Rejected(BadCast); }
      var s2 := AsSet(jc);
      if s2.None? { return Rejected(BadCast); }
      var same := SetsMatch(s1.value, s2.value);
      v := if same then Accepted else Rejected(ValueMismatch);
    } else if c.Str? {
      v := if c.s != jc.s then Rejected(ValueMismatch) else Accepted;
    } else {
      v := Rejected(InternalError);
    }
  }

  /** The audience branch of `verify`. */
  method CheckAudience(payload: Claims, c: Value) returns (v: Verdict)
    ensures v.Accepted? <==> ClaimMet(payload, AUD, c)
  {
    if AUD !in payload {
      return Rejected(WrongAudience);
    }
    var aud: Option<set<Bytes>>;
    if payload[AUD].Str? {
      aud := Some({payload[AUD].s});
    } else {
      aud := AsSet(payload[AUD]);
    }
    if aud.None? { return Rejected(BadCast); }
    var expected := AsSet(c);
    if expected.None? { return Rejected(BadCast); }
    var left := expected.value;
    while left != {}
      invariant left <= expected.value && expected.value - left <= aud.value
      decreases left
    {
      var e :| e in left;
      if e !in aud.value {
        return Rejected(WrongAudience);
      }
      left := left - {e};
    }
    v := Accepted;
  }

  /** One of the three time checks of `verify`. */
  method CheckTime(payload: Claims, name: Bytes, leeway: Option<int>, now: int, expires: bool) returns (v: Verdict)
    ensures v.Accepted?
      <==> if expires then NotAfter(payload, name, leeway, now) else NotBefore(payload, name, leeway, now)
  {
    if name !in payload {
      return Accepted;
    }
    if leeway.None? || !payload[name].Int? {
      return Rejected(BadCast);
    }
    var t := payload[name].i;
    if expires {
      v := if now > t * TICKS + leeway.value * TICKS then Rejected(OutOfTime) else Accepted;
    } else {
      v := if now < t * TICKS - leeway.value * TICKS then Rejected(OutOfTime) else Accepted;
    }
  }

  class Verifier {
    var claims: Claims
    var defaultLeeway: nat
    var algs: map<Bytes, Algorithm>

    constructor ()
      ensures claims == map[] && defaultLeeway == 0 && algs == map[]
    {
      claims, defaultLeeway, algs := map[], 0, map[];
    }

    method Leeway(leeway: nat)
      modifies this`defaultLeeway
      ensures defaultLeeway == leeway
    {
      defaultLeeway := leeway;
    }

    method WithClaim(name: Bytes, c: Value)
      modifies this`claims
      ensures claims == old(claims)[name := c]
    {
      claims := claims[name := c];
    }

    method AllowAlgorithm(alg: Algorithm)
      modifies this`algs
      ensures algs == old(algs)[AlgorithmName(alg) := alg]
    {
      algs := algs[AlgorithmName(alg) := alg];
    }

    /** `verify` at time `now`; it accepts where the source returns and rejects where it throws. */
    method Verify(jwt: DecodedJwt, now: int) returns (v: Verdict)
      ensures v.Accepted? <==> Accepts(jwt, algs, claims, defaultLeeway, now)
    {
      hide ClaimMet, NotAfter, NotBefore;
      var data := jwt.headerBase64 + [DOT] + jwt.payloadBase64;
      if ALG !in jwt.headerClaims { return Rejected(ClaimNotFound); }
      if !jwt.headerClaims[ALG].Str? { return Rejected(BadCast); }
      var algo := jwt.headerClaims[ALG].s;
      if algo !in algs { return Rejected(WrongAlgorithm); }
      var signed := CheckSignature(algs[algo], data, jwt.signature);
      if !signed { return Rejected(WrongSignature); }

      var p := jwt.payloadClaims;
      v := CheckTime(p, EXP, LeewayOf(claims, EXP, defaultLeeway), now, true);
      if v.Rejected? { return; }
      v := CheckTime(p, IAT, LeewayOf(claims, IAT, defaultLeeway), now, false);
      if v.Rejected? { return; }
      v := CheckTime(p, NBF, LeewayOf(claims, NBF, defaultLeeway), now, false);
      if v.Rejected? { return; }
      v := CheckClaims(p);
    }

    /** The loop over the required claims, in whatever order the hash map yields them. */
    method CheckClaims(p: Claims) returns (v: Verdict)
      ensures v.Accepted? <==> forall name | name in claims :: ClaimMet(p, name, claims[name])
    {
      hide SameClaim;
      var left := claims.Keys;
      while left != {}
        invariant left <= claims.Keys
        invariant forall name | name in claims && name !in left :: ClaimMet(p, name, claims[name])
        decreases left
      {
        var name :| name in left;
        if name == EXP || name == IAT || name == NBF {
          // already checked
        } else if name == AUD {
          v := CheckAudience(p, claims[AUD]);
          if v.Rejected? { return; }
        } else {
          v := CheckClaim(p, name, claims[name]);
          if v.Rejected? { return; }
        }
        left := left - {name};
      }
      v := Accepted;
    }
  }
}
