/** Decoding a signed token gives back exactly the claims that were signed. */
module JwtRoundTrip {
  import opened Bytes
  import opened JsonValue
  import opened JsonGrammar
  import opened Base64
  import opened Jwt
  import BL = Base64Laws
  import JR = JsonRoundTrip

  // ---- segments ----

  /** The first fill in an encoding stands right after the symbols. */
  lemma {:induction false} FirstFill(s: Bytes, body: Bytes, i: nat)
    requires i <= |body| <= |s| && s[..|body|] == body && (forall c | c in body :: c in URL.alphabet)
    requires |body| == |s| || At(s, |body|, URL.fill)
    ensures FindText(s, URL.fill, i) == |body|
    decreases |body| - i
  {
    VariantsUsable();
    if i < |body| {
      FirstFill(s, body, i + 1);
      assert s[i] == body[i];
      if At(s, i, URL.fill) {
        AtByte(s, i, URL.fill);
      }
    }
  }

  /** Cutting at the first fill leaves exactly the symbols. */
  lemma {:induction false} SegmentIsBody(data: Bytes)
    ensures Usable(URL) && Segment(data) == EncodeBody(URL, data)
  {
    VariantsUsable();
    hide EncodeBody, FindText, Fills, Distinct;
    var body, n := EncodeBody(URL, data), FillCount(|data|);
    var s := Encoded(URL, data);
    BL.BodySymbols(URL, data);
    if n > 0 {
      BL.FillsEnd(URL, n - 1);
      FillsStart(n);
      AtSplit(s, 0, body, Fills(URL, n));
      assert s[0..0 + |s|] == s;
      AtSplit(s, |body|, URL.fill, Fills(URL, n - 1));
    } else {
      NoFills();
      assert body + [] == body;
    }
    assert s[..|body|] == body;
    FirstFill(s, body, 0);
  }

  lemma FillsStart(n: nat)
    requires n > 0
    ensures Fills(URL, n) == URL.fill + Fills(URL, n - 1)
  {
  }

  lemma NoFills()
    ensures Fills(URL, 0) == []
  {
  }

  /** A segment holds neither a dot nor a percent sign. */
  lemma {:induction false} SegmentSymbols(data: Bytes)
    ensures DOT !in Segment(data) && URL.fill[0] !in Segment(data)
  {
    VariantsUsable();
    hide Segment, EncodeBody;
    SegmentIsBody(data);
    BL.BodySymbols(URL, data);
  }

  lemma {:induction false} SegmentPlain(data: Bytes)
    ensures forall c | c in Segment(data) :: c != COLON && !IsBlank(c)
  {
    VariantsUsable();
    hide Segment, EncodeBody;
    SegmentIsBody(data);
    BL.BodySymbols(URL, data);
    UrlSymbolsPlain();
  }

  /** Cutting the fills off and putting them back is undone by decoding, for every byte string. */
  lemma SegmentRoundTrip(data: Bytes)
    ensures DecodeSegment(Segment(data)) == Success(data)
  {
    VariantsUsable();
    hide Segment, EncodeBody, Fills, Decoded;
    SegmentIsBody(data);
    BL.BodyLength(URL, data);
    BL.RoundTrip(URL, data);
    assert PadCount(|Segment(data)|) == FillCount(|data|) by { PadIsFill(|Segment(data)|, FillCount(|data|)); }
  }

  lemma PadIsFill(length: nat, fills: nat)
    requires fills <= 2 && (length + fills) % 4 == 0
    ensures PadCount(length) == fills
  {
  }

  lemma {:induction false} BodySize(v: Variant, b: Bytes)
    requires |v.alphabet| == 64
    ensures |EncodeBody(v, b)| == (|b| * 4 + 2) / 3
    decreases |b|
  {
    hide SymbolAt, Triple;
    if |b| >= 3 {
      BodySize(v, b[3..]);
      assert |EncodeBody(v, b)| == 4 + |EncodeBody(v, b[3..])|;
      assert (|b| * 4 + 2) / 3 == 4 + (|b[3..]| * 4 + 2) / 3;
    }
  }

  /** A 32-byte signature is a segment of 43 characters without dots. */
  lemma {:induction false} SignatureShape(sig: Bytes)
    requires |sig| == 32
    ensures |Segment(sig)| == 43 && DOT !in Segment(sig)
  {
    hide Segment, EncodeBody;
    SegmentIsBody(sig);
    SegmentSymbols(sig);
    BodySize(URL, sig);
  }

  // ---- tokens ----

  /** Joining three dot-free parts and splitting them again. */
  lemma SplitJoined(a: Bytes, b: Bytes, c: Bytes)
    requires DOT !in a && DOT !in b
    ensures SplitToken(a + [DOT] + b + [DOT] + c) == Some((a, b, c))
  {
    var t := a + [DOT] + b + [DOT] + c;
    var m := |a| + 1 + |b|;
    assert forall k | 0 <= k < |a| :: t[k] == a[k] && a[k] in a;
    assert forall k | |a| + 1 <= k < m :: t[k] == b[k - |a| - 1] && b[k - |a| - 1] in b;
    assert t[|a|] == DOT && t[m] == DOT;
    FindsFirst(t, DOT, 0, |a|);
    FindsFirst(t, DOT, |a| + 1, m);
    assert t[..|a|] == a && t[|a| + 1..m] == b && t[m + 1..] == c;
  }

  lemma {:induction false} ClaimsReadBack(c: Claims)
    requires AllNumberFree(c)
    ensures ParseClaims(ClaimsText(c)) == Success(c)
  {
    hide ParseValue, Serialized;
    JR.WholeTextReadsBack(Obj(c));
  }

  lemma HeaderNumberFree(headerClaims: Claims, alg: Algorithm)
    requires AllNumberFree(headerClaims)
    ensures AllNumberFree(HeaderObject(headerClaims, alg))
  {
  }

  /** The token that `sign` returns is decoded to exactly the signed claims, the signature, and the signing input. */
  lemma {:induction false} SignedTokenDecodes(headerClaims: Claims, payloadClaims: Claims, alg: Algorithm)
    requires AllNumberFree(headerClaims) && AllNumberFree(payloadClaims)
    ensures var token := Signed(headerClaims, payloadClaims, alg); token.Some? ==>
      var d := DecodeToken(token.value);
      && d.Success?
      && d.value.headerClaims == HeaderObject(headerClaims, alg)
      && d.value.payloadClaims == payloadClaims
      && d.value.headerBase64 + [DOT] + d.value.payloadBase64 == SigningInput(headerClaims, payloadClaims, alg)
      && Some(d.value.signature) == SignatureOf(alg, SigningInput(headerClaims, payloadClaims, alg))
  {
    hide Segment, ClaimsText, HeaderObject, SplitToken, DecodeSegment, ParseClaims, AllNumberFree;
    HeaderNumberFree(headerClaims, alg);
    var headerText := ClaimsText(HeaderObject(headerClaims, alg));
    var payloadText := ClaimsText(payloadClaims);
    if Signed(headerClaims, payloadClaims, alg).None? { return; }
    var sig := SignatureOf(alg, SigningInput(headerClaims, payloadClaims, alg)).value;
    SegmentSymbols(headerText);
    SegmentSymbols(payloadText);
    SplitJoined(Segment(headerText), Segment(payloadText), Segment(sig));
    SegmentRoundTrip(headerText);
    SegmentRoundTrip(payloadText);
    SegmentRoundTrip(sig);
    ClaimsReadBack(HeaderObject(headerClaims, alg));
    ClaimsReadBack(payloadClaims);
  }

  /** Tokens signed with the same key from different claims are different. */
  lemma {:induction false} SignedInjective(h: Claims, p: Claims, h': Claims, p': Claims, alg: Algorithm)
    requires AllNumberFree(h) && AllNumberFree(p) && AllNumberFree(h') && AllNumberFree(p')
    ensures Signed(h, p, alg).Some? && Signed(h, p, alg) == Signed(h', p', alg) ==>
      HeaderObject(h, alg) == HeaderObject(h', alg) && p == p'
  {
    hide Signed, DecodeToken, AllNumberFree, HeaderObject, SigningInput;
    SignedTokenDecodes(h, p, alg);
    SignedTokenDecodes(h', p', alg);
  }
}
