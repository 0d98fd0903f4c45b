/** JSON web tokens as jwt.h builds them and takes them apart (RFC 7519, section 3.1 of RFC 7515). */
module Jwt {
  import opened Bytes
  import opened JsonValue
  import opened JsonGrammar
  import opened Base64

  const ALG: Bytes := [0x61, 0x6C, 0x67] // alg

  /** A claim wraps a JSON value. */
  type Claims = map<Bytes, Value>

  predicate AllNumberFree(c: Claims) {
    forall k | k in c :: NumberFree(c[k])
  }

  /** A signing algorithm. The keyed hash is an arbitrary function of the data; None stands for a failure of the
      library. */
  datatype Algorithm = NoSignature | Hmac(name: Bytes, mac: Bytes -> Option<Bytes>)

  function AlgorithmName(alg: Algorithm): Bytes {
    match alg
    case NoSignature => [0x6E, 0x6F, 0x6E, 0x65] // none
    case Hmac(name, _) => name
  }

  /** `algorithm::sign`, with None where it throws. */
  function SignatureOf(alg: Algorithm, data: Bytes): Option<Bytes> {
    match alg
    case NoSignature => Some([])
    case Hmac(_, mac) => mac(data)
  }

  // ---- building ----

  /** The first position at or after `i` where `pattern` stands, or |s|. */
  function FindText(s: Bytes, pattern: Bytes, i: nat): (p: nat)
    requires i <= |s|
    ensures i <= p <= |s|
    decreases |s| - i
  {
    if i == |s| || At(s, i, pattern) then i else FindText(s, pattern, i + 1)
  }

  /** One part of a token: base64url, cut at the first fill. */
  function Segment(data: Bytes): Bytes {
    VariantsUsable();
    var base := Encoded(URL, data);
    base[..FindText(base, URL.fill, 0)]
  }

  /** The header claims override the algorithm's name. */
  function HeaderObject(headerClaims: Claims, alg: Algorithm): Claims {
    map[ALG := Str(AlgorithmName(alg))] + headerClaims
  }

  function ClaimsText(c: Claims): Bytes
    requires AllNumberFree(c)
  {
    Serialized(Obj(c), false)
  }

  /** Header and payload, joined by a dot. */
  function SigningInput(headerClaims: Claims, payloadClaims: Claims, alg: Algorithm): Bytes
    requires AllNumberFree(headerClaims) && AllNumberFree(payloadClaims)
  {
    Segment(ClaimsText(HeaderObject(headerClaims, alg))) + [DOT] + Segment(ClaimsText(payloadClaims))
  }

  /** `builder::sign`. */
  function Signed(headerClaims: Claims, payloadClaims: Claims, alg: Algorithm): Option<Bytes>
    requires AllNumberFree(headerClaims) && AllNumberFree(payloadClaims)
  {
    var input := SigningInput(headerClaims, payloadClaims, alg);
    match SignatureOf(alg, input)
    case None => None
    case Some(sig) => Some(input + [DOT] + Segment(sig))
  }

  // ---- taking apart ----

  datatype DecodedJwt = DecodedJwt(
    token: Bytes,
    header: Bytes, headerBase64: Bytes,
    payload: Bytes, payloadBase64: Bytes,
    signature: Bytes, signatureBase64: Bytes,
    headerClaims: Claims, payloadClaims: Claims)

  datatype DecodeError = InvalidToken | InvalidBase64 | InvalidJson | NotAnObject | NumberOverflow

  datatype Result<+T> = Success(value: T) | Failure(error: DecodeError)

  function PadCount(n: nat): nat {
    if n % 4 == 0 then 0 else 4 - n % 4
  }

  /** `fix_padding`. */
  function Padded(s: Bytes): Bytes {
    s + Fills(URL, PadCount(|s|))
  }

  function DecodeSegment(s: Bytes): Result<Bytes> {
    VariantsUsable();
    match Decoded(URL, Padded(s))
    case None => Failure(InvalidBase64)
    case Some(b) => Success(b)
  }

  /** `parse_claims`. Text after the first JSON value is not looked at. */
  function ParseClaims(text: Bytes): Result<Claims> {
    match ParseValue(Building, text, 0)
    case Fail(_) => Failure(InvalidJson)
    case Overflow => Failure(NumberOverflow)
    case Ok(v, _) => if v.Obj? then Success(v.o) else Failure(NotAnObject)
  }

  /** The three parts of a token: up to the first dot, up to the second, and the rest. */
  function SplitToken(token: Bytes): Option<(Bytes, Bytes, Bytes)> {
    var headerEnd := Find(token, DOT, 0);
    if headerEnd == |token| then None else
      var payloadEnd := Find(token, DOT, headerEnd + 1);
      if payloadEnd == |token| then None else
        Some((token[..headerEnd], token[headerEnd + 1..payloadEnd], token[payloadEnd + 1..]))
  }

  /** The `decoded_jwt` constructor, with a failure where it throws. */
  function DecodeToken(token: Bytes): Result<DecodedJwt> {
    match SplitToken(token)
    case None => Failure(InvalidToken)
    case Some((h, p, s)) =>
      match DecodeSegment(h)
      case Failure(e) => Failure(e)
      case Success(header) =>
        match DecodeSegment(p)
        case Failure(e) => Failure(e)
        case Success(payload) =>
          match DecodeSegment(s)
          case Failure(e) => Failure(e)
          case Success(signature) =>
            match ParseClaims(header)
            case Failure(e) => Failure(e)
            case Success(headerClaims) =>
              match ParseClaims(payload)
              case Failure(e) => Failure(e)
              case Success(payloadClaims) =>
                Success(DecodedJwt(token, header, h, payload, p, signature, s, headerClaims, payloadClaims))
  }
}
