/** What the base64 codec promises: it inverts itself, and exactly which texts it accepts and identifies. */
module Base64Laws {
  import opened Bytes
  import opened Base64

  // ---- 24-bit groups ----

  /** The 24-bit group of up to four six-bit groups. */
  function Rejoined(w: int, x: int, y: int, z: int): int {
    w * 262144 + x * 4096 + y * 64 + z
  }

  lemma DivideTwice(t: nat)
    ensures t / 64 / 64 == t / 4096 && t / 4096 / 64 == t / 262144
  {
  }

  /** Six-bit groups put together again. */
  lemma {:induction false} SextetsRejoin(t: nat)
    requires t < 16777216
    ensures Rejoined(SextetAt(t, 0), SextetAt(t, 1), SextetAt(t, 2), SextetAt(t, 3)) == t
  {
    DivideTwice(t);
    var x := t / 64;
    DivideTwice(x);
    var y := x / 64;
    assert t == x * 64 + t % 64 && x == y * 64 + x % 64 && y == y / 64 * 64 + y % 64;
  }

  lemma BytesOfTriple(a: byte, b: byte, c: byte)
    ensures var t := Triple(a, b, c); t < 16777216 && ByteAt(t, 0) == a && ByteAt(t, 1) == b && ByteAt(t, 2) == c
  {
    var t := Triple(a, b, c);
    assert t / 256 == a * 256 + b;
    assert t / 65536 == a;
  }

  /** Missing bytes leave the last six-bit groups zero. */
  lemma MissingBytes(a: byte, b: byte)
    ensures SextetAt(Triple(a, b, 0), 3) == 0
    ensures b == 0 ==> SextetAt(Triple(a, b, 0), 2) == 0
  {
    assert Triple(a, b, 0) == (a * 1024 + b * 4) * 64;
    if b == 0 {
      assert Triple(a, b, 0) / 64 == (a * 16) * 64;
    }
  }

  lemma GroupOfFour(v: Variant, w: int, x: int, y: int, z: int)
    requires Usable(v) && 0 <= w < 64 && 0 <= x < 64 && 0 <= y < 64 && 0 <= z < 64
    ensures Group(v, [Symbol(v, w), Symbol(v, x)]) == Some(Rejoined(w, x, 0, 0))
    ensures Group(v, [Symbol(v, w), Symbol(v, x), Symbol(v, y)]) == Some(Rejoined(w, x, y, 0))
    ensures Group(v, [Symbol(v, w), Symbol(v, x), Symbol(v, y), Symbol(v, z)])
         == Some(Rejoined(w, x, y, z))
  {
    hide Sextet;
    SextetOfSymbol(v, w);
    SextetOfSymbol(v, x);
    SextetOfSymbol(v, y);
    SextetOfSymbol(v, z);
    var a, b, c, d := Symbol(v, w), Symbol(v, x), Symbol(v, y), Symbol(v, z);
    assert Group(v, []) == Some(0);
    assert [a][..0] == [];
    assert Group(v, [a]) == Some(w * 262144);
    assert [a, b][..1] == [a];
    assert Group(v, [a, b]) == Some(w * 262144 + x * 4096);
    assert [a, b, c][..2] == [a, b];
    assert Group(v, [a, b, c]) == Some(w * 262144 + x * 4096 + y * 64);
    assert [a, b, c, d][..3] == [a, b, c];
  }

  // ---- decoding undoes encoding ----

  lemma FillsRepeat(n: nat)
    ensures FillCount(n + 3) == FillCount(n)
  {
    assert (n + 3) % 3 == n % 3;
  }

  lemma {:induction false} BodyLength(v: Variant, b: Bytes)
    requires |v.alphabet| == 64
    ensures (|EncodeBody(v, b)| + FillCount(|b|)) % 4 == 0
    ensures b != [] ==> EncodeBody(v, b) != []
    decreases |b|
  {
    hide SymbolAt, Triple;
    if |b| >= 3 {
      FillsRepeat(|b[3..]|);
      hide FillCount;
      BodyLength(v, b[3..]);
      assert |EncodeBody(v, b)| == 4 + |EncodeBody(v, b[3..])|;
    }
  }

  lemma {:induction false} BodySymbols(v: Variant, b: Bytes)
    requires |v.alphabet| == 64
    ensures forall c | c in EncodeBody(v, b) :: c in v.alphabet
    decreases |b|
  {
    if |b| >= 3 {
      BodySymbols(v, b[3..]);
    }
  }

  lemma BlockDecodes(v: Variant, b: Bytes)
    requires Usable(v) && 0 < |b| <= 2
    ensures var body := EncodeBody(v, b);
      |body| == |b| + 1 && Group(v, body) == Some(Triple(b[0], if |b| == 2 then b[1] else 0, 0))
  {
    hide Group, Distinct, SextetAt, Symbol;
    var second: byte := if |b| == 2 then b[1] else 0;
    var t := Triple(b[0], second, 0);
    BytesOfTriple(b[0], second, 0);
    MissingBytes(b[0], second);
    SextetsRejoin(t);
    GroupOfFour(v, SextetAt(t, 0), SextetAt(t, 1), SextetAt(t, 2), SextetAt(t, 3));
  }

  lemma {:induction false} BodyDecodes(v: Variant, b: Bytes)
    requires Usable(v)
    ensures (|EncodeBody(v, b)| + FillCount(|b|)) % 4 == 0
    ensures DecodeBody(v, EncodeBody(v, b), FillCount(|b|)) == Some(b)
    decreases |b|
  {
    hide Group, Distinct, ByteAt, Triple, SymbolAt, EncodeBody;
    BodyLength(v, b);
    if |b| >= 3 {
      BlockOfThreeDecodes(v, b);
      BytesOfTriple(b[0], b[1], b[2]);
      BodyDecodes(v, b[3..]);
      assert b == [b[0], b[1], b[2]] + b[3..];
    } else if b == [] {
      EncodeNothing(v);
    } else {
      BlockDecodes(v, b);
      BytesOfTriple(b[0], if |b| == 2 then b[1] else 0, 0);
      assert b == if |b| == 1 then [b[0]] else [b[0], b[1]];
    }
  }

  lemma {:induction false} BlockOfThreeDecodes(v: Variant, b: Bytes)
    requires Usable(v) && |b| >= 3
    ensures var body := EncodeBody(v, b);
      |body| >= 4 && body[4..] == EncodeBody(v, b[3..]) && Group(v, body[..4]) == Some(Triple(b[0], b[1], b[2]))
  {
    hide Group, Distinct, ByteAt, SextetAt, Symbol;
    var t := Triple(b[0], b[1], b[2]);
    BytesOfTriple(b[0], b[1], b[2]);
    SextetsRejoin(t);
    GroupOfFour(v, SextetAt(t, 0), SextetAt(t, 1), SextetAt(t, 2), SextetAt(t, 3));
    var head := [SymbolAt(v, t, 0), SymbolAt(v, t, 1), SymbolAt(v, t, 2), SymbolAt(v, t, 3)];
    assert EncodeBody(v, b) == head + EncodeBody(v, b[3..]);
    assert EncodeBody(v, b)[..4] == head;
  }

  /** `s` is a body of symbols and the fills that its length calls for. */
  ghost predicate Shaped(v: Variant, s: Bytes, body: Bytes, n: nat) {
    && s == body + Fills(v, n) && n <= 2 && (|body| + n) % 4 == 0
    && forall c | c in body :: c in v.alphabet
  }

  lemma FillsEnd(v: Variant, n: nat)
    ensures Fills(v, n + 1) == Fills(v, n) + v.fill
    decreases n
  {
    if n > 0 {
      FillsEnd(v, n - 1);
    }
  }

  /** The last fill of a text that ends in fills. */
  lemma LastFill(v: Variant, s: Bytes, body: Bytes, n: nat)
    requires At(s, 0, body + Fills(v, n + 1))
    ensures At(s, 0, body + Fills(v, n))
    ensures var i := |body + Fills(v, n)|;
      |body + Fills(v, n + 1)| == i + |v.fill| <= |s| && s[i..i + |v.fill|] == v.fill
  {
    hide Fills;
    FillsEnd(v, n);
    Assoc(body, Fills(v, n), v.fill);
    AtSplit(s, 0, body + Fills(v, n), v.fill);
  }

  /** Nothing is taken off a body of symbols. */
  lemma StripStops(v: Variant, s: Bytes, body: Bytes, count: nat)
    requires Usable(v) && body != [] && count <= 2 && (forall c | c in body :: c in v.alphabet) && At(s, 0, body)
    ensures |body| <= |s| && Strip(v, s, |body|, count) == Some((|body|, count))
  {
    hide Distinct, At;
    AtByte(s, 0, body);
    if |body| > |v.fill| {
      FillNotInBody(v, s, body, |body| - |v.fill|);
    }
  }

  /** Taking fills off the end stops exactly at the body. */
  lemma {:induction false} StripFindsBody(v: Variant, s: Bytes, body: Bytes, n: nat, count: nat)
    requires Usable(v) && body != [] && n + count <= 2 && (forall c | c in body :: c in v.alphabet)
    requires At(s, 0, body + Fills(v, n))
    ensures |body + Fills(v, n)| <= |s| && Strip(v, s, |body + Fills(v, n)|, count) == Some((|body|, n + count))
    decreases n
  {
    hide Distinct, At;
    if n == 0 {
      assert body + Fills(v, 0) == body;
      StripStops(v, s, body, count);
    } else {
      hide Fills;
      LastFill(v, s, body, n - 1);
      StripFindsBody(v, s, body, n - 1, count + 1);
    }
  }

  /** No fill ends inside a body of symbols. */
  lemma FillNotInBody(v: Variant, s: Bytes, body: Bytes, i: nat)
    requires Usable(v) && (forall c | c in body :: c in v.alphabet)
    requires At(s, 0, body) && i < |body| && i + |v.fill| <= |body|
    ensures i + |v.fill| <= |s| && s[i..i + |v.fill|] != v.fill
  {
    assert s[i] == s[0..|body|][i] && body[i] in body;
    assert s[i..i + |v.fill|][0] == s[i];
  }

  /** The round trip, for every byte string and every usable alphabet. */
  lemma {:induction false} RoundTrip(v: Variant, b: Bytes)
    requires Usable(v)
    ensures Decoded(v, Encoded(v, b)) == Some(b)
  {
    hide Distinct, EncodeBody, DecodeBody, Fills;
    var body, n := EncodeBody(v, b), FillCount(|b|);
    var s := Encoded(v, b);
    BodyDecodes(v, b);
    BodySymbols(v, b);
    BodyLength(v, b);
    if b == [] {
      EncodeNothing(v);
    } else {
      assert s[..|s|] == s;
      StripFindsBody(v, s, body, n, 0);
      assert s[..|body|] == body;
    }
  }

  lemma EncodeNothing(v: Variant)
    requires Sized(v)
    ensures EncodeBody(v, []) == [] && Encoded(v, []) == [] && Decoded(v, []) == Some([])
  {
  }
}
