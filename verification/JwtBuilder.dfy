/** `jwt::builder` and the `decoded_jwt` constructor as the source runs them. */
module JwtBuilder {
  import opened Bytes
  import opened JsonValue
  import opened JsonGrammar
  import opened Base64
  import opened Jwt
  import JsonWriter
  import JsonParser
  import Base64Codec

  class Builder {
    var headerClaims: Claims
    var payloadClaims: Claims

    constructor ()
      ensures headerClaims == map[] && payloadClaims == map[]
    {
      headerClaims, payloadClaims := map[], map[];
    }

    method SetHeaderClaim(id: Bytes, c: Value)
      modifies this`headerClaims
      ensures headerClaims == old(headerClaims)[id := c]
    {
      headerClaims := headerClaims[id := c];
    }

    method SetPayloadClaim(id: Bytes, c: Value)
      modifies this`payloadClaims
      ensures payloadClaims == old(payloadClaims)[id := c]
    {
      payloadClaims := payloadClaims[id := c];
    }

    /** `sign`: None where signing throws. */
    method Sign(alg: Algorithm) returns (token: Option<Bytes>)
      requires AllNumberFree(headerClaims) && AllNumberFree(payloadClaims)
      ensures token == Signed(headerClaims, payloadClaims, alg)
    {
      var objHeader := CopyClaims(map[ALG := Str(AlgorithmName(alg))], headerClaims);
      var objPayload := CopyClaims(map[], payloadClaims);
      assert map[] + payloadClaims == payloadClaims;
      var headerText := JsonWriter.Serialize(Obj(objHeader), false);
      var header := EncodeSegment(headerText);
      var payloadText := JsonWriter.Serialize(Obj(objPayload), false);
      var payload := EncodeSegment(payloadText);
      var input := header + [DOT] + payload;
      var sig := SignatureOf(alg, input);
      if sig.None? {
        return None;
      }
      var last := EncodeSegment(sig.value);
      token := Some(input + [DOT] + last);
    }
  }

  /** The loops of `sign` that copy claims, in whatever order the hash map yields them, into a JSON object. */
  method CopyClaims(obj: Claims, claims: Claims) returns (r: Claims)
    ensures r == obj + claims
  {
    r := obj;
    var left := claims.Keys;
    while left != {}
      invariant left <= claims.Keys
      invariant r + (map k | k in left :: claims[k]) == obj + claims
      decreases left
    {
      var k :| k in left;
      r := r[k := claims[k]];
      left := left - {k};
    }
  }

  /** `find` of a substring. */
  method FindPattern(s: Bytes, pattern: Bytes) returns (p: nat)
    ensures p == FindText(s, pattern, 0)
  {
    p := 0;
    while p < |s|
      invariant p <= |s| && FindText(s, pattern, p) == FindText(s, pattern, 0)
    {
      if At(s, p, pattern) {
        return;
      }
      p := p + 1;
    }
  }

  /** The `encode` lambda of `sign`. */
  method EncodeSegment(data: Bytes) returns (s: Bytes)
    ensures s == Segment(data)
  {
    VariantsUsable();
    var base := Base64Codec.Encode(URL, data);
    var pos := FindPattern(base, URL.fill);
    s := base[..pos];
  }

  /** The fall-through switch of `fix_padding`. */
  method FixPadding(str: Bytes) returns (r: Bytes)
    ensures r == Padded(str)
  {
    r := str;
    var rest := |str| % 4;
    ghost var n := PadCount(|str|);
    assert Fills(URL, 0) == [];
    if rest == 1 {
      Assoc(str, URL.fill, Fills(URL, 2));
      r := r + URL.fill;
      rest := 2;
    }
    assert r + Fills(URL, if rest == 2 then 2 else if rest == 3 then 1 else 0) == Padded(str);
    if rest == 2 {
      Assoc(r, URL.fill, Fills(URL, 1));
      r := r + URL.fill;
      rest := 3;
    }
    assert r + Fills(URL, if rest == 3 then 1 else 0) == Padded(str);
    if rest == 3 {
      Assoc(r, URL.fill, Fills(URL, 0));
      r := r + URL.fill;
    }
  }

  method DecodePart(s: Bytes) returns (r: Result<Bytes>)
    ensures r == DecodeSegment(s)
  {
    VariantsUsable();
    var padded := FixPadding(s);
    var b := Base64Codec.Decode(URL, padded);
    r := if b.None? then Failure(InvalidBase64) else Success(b.value);
  }

  /** The `parse_claims` lambda. */
  method ReadClaims(text: Bytes) returns (r: Result<Claims>)
    ensures r == ParseClaims(text)
  {
    hide ParseValue, Newlines, JsonParser.Near, JsonParser.LineEnd;
    var st, v, err, _ := JsonParser.ParseRange(Building, text);
    if st.Threw? {
      return Failure(NumberOverflow);
    }
    if err.Some? {
      return Failure(InvalidJson);
    }
    if !v.Obj? {
      return Failure(NotAnObject);
    }
    r := Success(v.o);
  }

  /** `jwt::decode`. */
  method Decode(token: Bytes) returns (r: Result<DecodedJwt>)
    ensures r == DecodeToken(token)
  {
    hide DecodeSegment, ParseClaims;
    var headerEnd := Find(token, DOT, 0);
    if headerEnd == |token| {
      return Failure(InvalidToken);
    }
    var payloadEnd := Find(token, DOT, headerEnd + 1);
    if payloadEnd == |token| {
      return Failure(InvalidToken);
    }
    var h, p, s := token[..headerEnd], token[headerEnd + 1..payloadEnd], token[payloadEnd + 1..];
    var header := DecodePart(h);
    if header.Failure? { return Failure(header.error); }
    var payload := DecodePart(p);
    if payload.Failure? { return Failure(payload.error); }
    var signature := DecodePart(s);
    if signature.Failure? { return Failure(signature.error); }
    var headerClaims := ReadClaims(header.value);
    if headerClaims.Failure? { return Failure(headerClaims.error); }
    var payloadClaims := ReadClaims(payload.value);
    if payloadClaims.Failure? { return Failure(payloadClaims.error); }
    r := Success(DecodedJwt(token, header.value, h, payload.value, p, signature.value, s, headerClaims.value,
                            payloadClaims.value));
  }
}
