/** Exactly which texts `base::decode` accepts, and which of them it identifies (section 3.5 of RFC 4648). */
module Base64Shape {
  import opened Bytes
  import opened Base64
  import opened Base64Laws

  // ---- acceptance ----

  lemma {:induction false} GroupDefined(v: Variant, s: Bytes)
    requires |s| <= 4
    ensures Group(v, s).Some? <==> forall c | c in s :: c in v.alphabet
    decreases |s|
  {
    hide Sextet;
    if s != [] {
      GroupDefined(v, s[..|s| - 1]);
      assert s == s[..|s| - 1] + [s[|s| - 1]];
    }
  }

  lemma {:induction false} BodyDefined(v: Variant, body: Bytes, n: nat)
    requires |v.alphabet| == 64 && n <= 2 && (|body| + n) % 4 == 0
    ensures DecodeBody(v, body, n).Some? <==> forall c | c in body :: c in v.alphabet
    decreases |body|
  {
    hide Group, ByteAt;
    if |body| >= 4 {
      GroupDefined(v, body[..4]);
      BodyDefined(v, body[4..], n);
      assert body == body[..4] + body[4..];
    } else if body != [] {
      GroupDefined(v, body);
    }
  }

  /** What was taken off the end is the counted number of fills. */
  lemma {:induction false} StripSplits(v: Variant, s: Bytes, size: nat, count: nat)
    requires Sized(v) && size <= |s| && count <= 2 && Strip(v, s, size, count).Some?
    ensures var (k, n) := Strip(v, s, size, count).value;
      count <= n && s[..size] == s[..k] + Fills(v, n - count)
    decreases size
  {
    if size > |v.fill| && s[size - |v.fill|..size] == v.fill {
      var shorter := size - |v.fill|;
      StripSplits(v, s, shorter, count + 1);
      var (k, n) := Strip(v, s, size, count).value;
      FillsEnd(v, n - count - 1);
      Assoc(s[..k], Fills(v, n - count - 1), v.fill);
      assert s[..size] == s[..shorter] + v.fill;
    }
  }

  /** A text is accepted exactly when it is a body of symbols followed by the fills its length calls for. */
  lemma AcceptsExactly(v: Variant, s: Bytes)
    requires Usable(v)
    ensures Decoded(v, s).Some? <==> exists body, n :: Shaped(v, s, body, n)
  {
    hide Distinct, DecodeBody, Fills, Strip;
    if Decoded(v, s).Some? {
      StripSplits(v, s, |s|, 0);
      var (k, n) := Strip(v, s, |s|, 0).value;
      assert s[..|s|] == s;
      BodyDefined(v, s[..k], n);
      assert Shaped(v, s, s[..k], n);
    }
    if body, n :| Shaped(v, s, body, n) {
      ShapeDecodes(v, s, body, n);
      BodyDefined(v, body, n);
    }
  }

  /** The shape of a text decides what is decoded. */
  lemma ShapeDecodes(v: Variant, s: Bytes, body: Bytes, n: nat)
    requires Usable(v) && Shaped(v, s, body, n)
    ensures Decoded(v, s) == DecodeBody(v, body, n)
  {
    hide Distinct, DecodeBody;
    if body == [] {
      assert s == [];
      EncodeNothing(v);
      assert DecodeBody(v, [], 0) == Some([]) by { EmptyBody(v); }
    } else {
      hide Fills;
      assert s[0..|s|] == s;
      StripFindsBody(v, s, body, n, 0);
      assert s[..|body|] == body;
    }
  }

  lemma EmptyBody(v: Variant)
    requires |v.alphabet| == 64
    ensures DecodeBody(v, [], 0) == Some([])
  {
  }

  // ---- canonical form ----

  /** The unused low bits of the last symbol before `n` fills. */
  function Unused(n: nat): nat {
    if n == 2 then 16 else if n == 1 then 4 else 1
  }

  function SextetValue(v: Variant, c: byte): int
    requires c in v.alphabet
  {
    Sextet(v, c).value
  }

  /** `body` with the unused low bits of its last symbol cleared. */
  function Cleared(v: Variant, body: Bytes, n: nat): Bytes
    requires Usable(v) && forall c | c in body :: c in v.alphabet
  {
    if n == 0 || body == [] then body else
      var x := SextetValue(v, body[|body| - 1]);
      body[|body| - 1 := Symbol(v, x - x % Unused(n))]
  }

  lemma {:induction false} GroupBytes(t: int)
    requires 0 <= t < 16777216
    ensures Triple(ByteAt(t, 0), ByteAt(t, 1), ByteAt(t, 2)) == t
  {
    assert t / 65536 == t / 256 / 256;
  }

  lemma SextetsOfGroup(w: int, x: int, y: int, z: int)
    requires 0 <= w < 64 && 0 <= x < 64 && 0 <= y < 64 && 0 <= z < 64
    ensures var t := Rejoined(w, x, y, z);
      0 <= t < 16777216 && SextetAt(t, 0) == w && SextetAt(t, 1) == x && SextetAt(t, 2) == y && SextetAt(t, 3) == z
  {
    var t := Rejoined(w, x, y, z);
    assert t / 64 == w * 4096 + x * 64 + y;
    assert t / 4096 == w * 64 + x;
    assert t / 262144 == w;
  }

  /** Bytes that are not decoded: the low bits of the last symbol are lost. */
  lemma {:induction false} LostBits(w: int, x: int, y: int)
    requires 0 <= w < 64 && 0 <= x < 64 && 0 <= y < 64
    ensures var t := Rejoined(w, x, y, 0);
      0 <= t && Triple(ByteAt(t, 0), ByteAt(t, 1), 0) == Rejoined(w, x, y - y % 4, 0)
    ensures var t := Rejoined(w, x, 0, 0);
      0 <= t && Triple(ByteAt(t, 0), 0, 0) == Rejoined(w, x - x % 16, 0, 0)
  {
    var p, s, q, r := x / 16, x % 16, y / 4, y % 4;
    assert x == 16 * p + s && y == 4 * q + r;
    assert Rejoined(w, x, y, 0) == Triple(4 * w + p, 16 * s + q, 64 * r);
    assert Rejoined(w, x, 0, 0) == Triple(4 * w + p, 16 * s, 0);
    BytesOfTriple(4 * w + p, 16 * s + q, 64 * r);
    BytesOfTriple(4 * w + p, 16 * s, 0);
  }

  lemma SymbolOfSextet(v: Variant, c: byte)
    requires Usable(v) && c in v.alphabet
    ensures var x := SextetValue(v, c); 0 <= x < 64 && Symbol(v, x) == c
  {
  }

  lemma ClearedNothing(v: Variant, n: nat)
    requires Usable(v)
    ensures Cleared(v, [], n) == []
  {
  }

  lemma FourSymbols(v: Variant, block: Bytes)
    requires Usable(v) && |block| == 4 && forall c | c in block :: c in v.alphabet
    ensures var w, x, y, z := SextetValue(v, block[0]), SextetValue(v, block[1]), SextetValue(v, block[2]),
        SextetValue(v, block[3]);
      && 0 <= w < 64 && 0 <= x < 64 && 0 <= y < 64 && 0 <= z < 64
      && block == [Symbol(v, w), Symbol(v, x), Symbol(v, y), Symbol(v, z)]
      && Group(v, block) == Some(Rejoined(w, x, y, z))
  {
    hide Distinct, Group, SextetValue, Symbol;
    var w, x, y, z := SextetValue(v, block[0]), SextetValue(v, block[1]), SextetValue(v, block[2]),
      SextetValue(v, block[3]);
    SymbolOfSextet(v, block[0]);
    SymbolOfSextet(v, block[1]);
    SymbolOfSextet(v, block[2]);
    SymbolOfSextet(v, block[3]);
    GroupOfFour(v, w, x, y, z);
    assert block == [Symbol(v, w), Symbol(v, x), Symbol(v, y), Symbol(v, z)];
  }

  /** A whole block is encoded back to itself. */
  lemma {:induction false} BlockReencodes(v: Variant, block: Bytes, a: byte, b: byte, c: byte)
    requires Usable(v) && |block| == 4 && forall c | c in block :: c in v.alphabet
    requires Group(v, block).Some? && 0 <= Group(v, block).value
    requires var t := Group(v, block).value; a == ByteAt(t, 0) && b == ByteAt(t, 1) && c == ByteAt(t, 2)
    ensures var t := Triple(a, b, c);
      [SymbolAt(v, t, 0), SymbolAt(v, t, 1), SymbolAt(v, t, 2), SymbolAt(v, t, 3)] == block
  {
    hide Distinct, Group, SextetValue, Symbol, ByteAt, SextetAt;
    FourSymbols(v, block);
    SextetsOfGroup(SextetValue(v, block[0]), SextetValue(v, block[1]), SextetValue(v, block[2]),
                   SextetValue(v, block[3]));
    GroupBytes(Group(v, block).value);
  }

  lemma EncodeBlock(v: Variant, b: Bytes)
    requires |v.alphabet| == 64 && |b| >= 3
    ensures var t := Triple(b[0], b[1], b[2]);
      EncodeBody(v, b) == [SymbolAt(v, t, 0), SymbolAt(v, t, 1), SymbolAt(v, t, 2), SymbolAt(v, t, 3)]
        + EncodeBody(v, b[3..])
  {
  }

  lemma ClearedBlock(v: Variant, body: Bytes, n: nat)
    requires Usable(v) && |body| >= 4 && n <= 2 && (|body| + n) % 4 == 0 && forall c | c in body :: c in v.alphabet
    ensures Cleared(v, body, n) == body[..4] + Cleared(v, body[4..], n)
  {
    hide Distinct, SextetValue, Symbol;
    assert body == body[..4] + body[4..];
    if n != 0 {
      assert body[4..] != [];
      assert body[4..][|body| - 5] == body[|body| - 1];
    }
  }

  /** A last block of three symbols and one fill. */
  lemma {:induction false} ThreeReencode(v: Variant, body: Bytes)
    requires Usable(v) && |body| == 3 && forall c | c in body :: c in v.alphabet
    requires DecodeBody(v, body, 1).Some?
    ensures var b := DecodeBody(v, body, 1).value; |b| == 2 && EncodeBody(v, b) == Cleared(v, body, 1)
  {
    hide Distinct, Group, ByteAt, Triple, SextetAt, SextetValue, Symbol, Sextet;
    var w, x, y := SextetValue(v, body[0]), SextetValue(v, body[1]), SextetValue(v, body[2]);
    SymbolOfSextet(v, body[0]);
    SymbolOfSextet(v, body[1]);
    SymbolOfSextet(v, body[2]);
    assert body == [Symbol(v, w), Symbol(v, x), Symbol(v, y)];
    GroupOfFour(v, w, x, y, 0);
    LostBits(w, x, y);
    SextetsOfGroup(w, x, y - y % 4, 0);
    assert Cleared(v, body, 1) == [Symbol(v, w), Symbol(v, x), Symbol(v, y - y % 4)];
  }

  /** A last block of two symbols and two fills. */
  lemma TwoReencode(v: Variant, body: Bytes)
    requires Usable(v) && |body| == 2 && forall c | c in body :: c in v.alphabet
    requires DecodeBody(v, body, 2).Some?
    ensures var b := DecodeBody(v, body, 2).value; |b| == 1 && EncodeBody(v, b) == Cleared(v, body, 2)
  {
    hide Distinct, Group, ByteAt, Triple, SextetAt, SextetValue, Symbol, Sextet;
    var w, x := SextetValue(v, body[0]), SextetValue(v, body[1]);
    SymbolOfSextet(v, body[0]);
    SymbolOfSextet(v, body[1]);
    assert body == [Symbol(v, w), Symbol(v, x)];
    GroupOfFour(v, w, x, 0, 0);
    LostBits(w, x, 0);
    SextetsOfGroup(w, x - x % 16, 0, 0);
    assert Cleared(v, body, 2) == [Symbol(v, w), Symbol(v, x - x % 16)];
  }

  lemma {:induction false} DecodedBodyReencodes(v: Variant, body: Bytes, n: nat)
    requires Usable(v) && n <= 2 && (|body| + n) % 4 == 0 && (forall c | c in body :: c in v.alphabet)
    ensures DecodeBody(v, body, n).Some?
    ensures var b := DecodeBody(v, body, n).value;
      EncodeBody(v, b) == Cleared(v, body, n) && FillCount(|b|) == n
    decreases |body|
  {
    hide Distinct, Group, ByteAt, Triple, SymbolAt, SextetValue, EncodeBody, Cleared, Sextet;
    BodyDefined(v, body, n);
    if |body| >= 4 {
      DecodedBodyReencodes(v, body[4..], n);
      var b, rest := DecodeBody(v, body, n).value, DecodeBody(v, body[4..], n).value;
      assert b[3..] == rest;
      FillsRepeat(|rest|);
      GroupBound(v, body[..4]);
      BlockReencodes(v, body[..4], b[0], b[1], b[2]);
      EncodeBlock(v, b);
      ClearedBlock(v, body, n);
    } else if body == [] {
      EncodeNothing(v);
      ClearedNothing(v, n);
    } else if n == 1 {
      ThreeReencode(v, body);
    } else {
      TwoReencode(v, body);
    }
  }

  /** Encoding what was decoded gives the text with its unused bits cleared. */
  lemma {:induction false} Reencoded(v: Variant, s: Bytes, body: Bytes, n: nat)
    requires Usable(v) && Shaped(v, s, body, n)
    ensures Decoded(v, s).Some?
    ensures Encoded(v, Decoded(v, s).value) == Cleared(v, body, n) + Fills(v, n)
  {
    hide Distinct, DecodeBody, EncodeBody, Fills, Cleared, FillCount;
    ShapeDecodes(v, s, body, n);
    DecodedBodyReencodes(v, body, n);
  }

  /** An accepted text is encoded back to itself exactly when the unused bits of its last symbol are zero. */
  lemma ReencodesIffCanonical(v: Variant, s: Bytes, body: Bytes, n: nat)
    requires Usable(v) && Shaped(v, s, body, n)
    ensures Decoded(v, s).Some?
    ensures Encoded(v, Decoded(v, s).value) == s
      <==> (n == 0 || body == [] || SextetValue(v, body[|body| - 1]) % Unused(n) == 0)
  {
    hide Distinct, DecodeBody, EncodeBody, Fills, FillCount, Decoded, Encoded, SextetValue;
    Reencoded(v, s, body, n);
    var c := Cleared(v, body, n);
    assert c + Fills(v, n) == s <==> c == body by {
      assert (c + Fills(v, n))[..|c|] == c && s[..|body|] == body;
    }
    if n != 0 && body != [] {
      var x := SextetValue(v, body[|body| - 1]);
      SymbolOfSextet(v, body[|body| - 1]);
      SextetOfSymbol(v, x);
      SextetOfSymbol(v, x - x % Unused(n));
      assert c == body <==> c[|body| - 1] == body[|body| - 1];
    }
  }

  /** Two accepted texts decode to the same bytes exactly when they differ at most in the unused bits. */
  lemma DecodeEqualIff(v: Variant, s: Bytes, body: Bytes, n: nat, s': Bytes, body': Bytes, n': nat)
    requires Usable(v) && Shaped(v, s, body, n) && Shaped(v, s', body', n')
    ensures Decoded(v, s) == Decoded(v, s') <==> n == n' && Cleared(v, body, n) == Cleared(v, body', n')
  {
    hide Distinct, EncodeBody, Fills, Decoded, Encoded, Cleared;
    Reencoded(v, s, body, n);
    Reencoded(v, s', body', n');
    RoundTrip(v, Decoded(v, s).value);
    RoundTrip(v, Decoded(v, s').value);
    if Decoded(v, s) == Decoded(v, s') {
      FillsOfDecoded(v, s, body, n);
      FillsOfDecoded(v, s', body', n');
      assert (Cleared(v, body, n) + Fills(v, n))[..|Cleared(v, body, n)|] == Cleared(v, body, n);
      assert (Cleared(v, body', n) + Fills(v, n))[..|Cleared(v, body', n)|] == Cleared(v, body', n);
    }
  }

  lemma FillsOfDecoded(v: Variant, s: Bytes, body: Bytes, n: nat)
    requires Usable(v) && Shaped(v, s, body, n)
    ensures Decoded(v, s).Some? && FillCount(|Decoded(v, s).value|) == n
  {
    hide Distinct, DecodeBody, EncodeBody, Fills, Cleared, FillCount;
    ShapeDecodes(v, s, body, n);
    DecodedBodyReencodes(v, body, n);
  }
}
