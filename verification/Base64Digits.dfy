/** What the codec's texts are: the digits of a number in base 64, written in the alphabets of RFC 4648. */
module Base64Digits {
  import opened Bytes
  import opened Base64
  import opened Base64Laws

  // ---- alphabets ----

  /** Tables 1 and 2 of RFC 4648. */
  function TableSymbol(k: nat, urlSafe: bool): int
    requires k < 64
  {
    if k < 26 then 'A' as int + k
    else if k < 52 then 'a' as int + (k - 26)
    else if k < 62 then '0' as int + (k - 52)
    else if k == 62 then (if urlSafe then '-' else '+') as int
    else (if urlSafe then '_' else '/') as int
  }

  lemma AlphabetsAreTables(k: nat)
    requires k < 64
    ensures |STANDARD.alphabet| == 64 && STANDARD.alphabet[k] == TableSymbol(k, false)
    ensures |URL.alphabet| == 64 && URL.alphabet[k] == TableSymbol(k, true)
  {
  }

  /** The fills of base.h. */
  lemma FillsAre()
    ensures STANDARD.fill == Ascii("=") && URL.fill == Ascii("%3d")
  {
  }

  /** A standard symbol in the alphabet that is safe in URLs (section 5 of RFC 4648). */
  function UrlSafe(c: byte): byte {
    if c == '+' as int then '-' as int else if c == '/' as int then '_' as int else c
  }

  lemma UrlSafeSymbol(i: nat)
    requires i < 64
    ensures Sized(URL) && Sized(STANDARD) && Symbol(URL, i) == UrlSafe(Symbol(STANDARD, i))
  {
  }

  // ---- digits ----

  function Power(base: nat, n: nat): nat {
    if n == 0 then 1 else base * Power(base, n - 1)
  }

  /** The number that digits denote, the most significant first. */
  function Number(base: nat, digits: seq<int>): int {
    if digits == [] then 0 else Number(base, digits[..|digits| - 1]) * base + digits[|digits| - 1]
  }

  lemma {:induction false} NumberJoins(base: nat, a: seq<int>, b: seq<int>)
    ensures Number(base, a + b) == Number(base, a) * Power(base, |b|) + Number(base, b)
    decreases |b|
  {
    if b == [] {
      assert a + b == a;
    } else {
      var init, last := b[..|b| - 1], b[|b| - 1];
      assert (a + b)[..|a + b| - 1] == a + init;
      NumberJoins(base, a, init);
      Distribute(Number(base, a), Power(base, |init|), Number(base, init), base);
    }
  }

  lemma Distribute(x: int, p: int, y: int, base: int)
    ensures (x * p + y) * base == x * (base * p) + y * base
  {
  }

  /** Four digits in base 64 and three in base 256 span the same range. */
  lemma {:induction false} PowersMatch(n: nat)
    ensures Power(64, (4 * n + 2) / 3) == Power(256, n) * Shift(n)
    decreases n
  {
    hide Power;
    if n >= 3 {
      var m := (4 * (n - 3) + 2) / 3;
      PowersMatch(n - 3);
      assert (4 * n + 2) / 3 == m + 4 && Shift(n) == Shift(n - 3);
      FourthPower(64, m);
      ThirdPower(256, n - 3);
      Regroup(16777216, Power(256, n - 3), Shift(n));
    } else {
      SmallPowers();
    }
  }

  lemma SmallPowers()
    ensures Power(64, 0) == 1 && Power(64, 1) == 64 && Power(64, 2) == 4096 && Power(64, 3) == 262144
    ensures Power(256, 0) == 1 && Power(256, 1) == 256 && Power(256, 2) == 65536
  {
  }

  lemma Regroup(a: int, b: int, c: int)
    ensures a * (b * c) == (a * b) * c
  {
  }

  lemma FourthPower(base: nat, n: nat)
    requires base == 64
    ensures Power(base, n + 4) == 16777216 * Power(base, n)
  {
    assert Power(base, n + 1) == 64 * Power(base, n);
    assert Power(base, n + 2) == 64 * Power(base, n + 1);
    assert Power(base, n + 3) == 64 * Power(base, n + 2);
  }

  lemma ThirdPower(base: nat, n: nat)
    requires base == 256
    ensures Power(base, n + 3) == 16777216 * Power(base, n)
  {
    assert Power(base, n + 1) == 256 * Power(base, n);
    assert Power(base, n + 2) == 256 * Power(base, n + 1);
  }

  /** How far the bytes are shifted to the left to fill whole digits. */
  function Shift(n: nat): nat {
    if n % 3 == 1 then 16 else if n % 3 == 2 then 4 else 1
  }

  /** The six-bit groups of a byte string, the last one filled up with zeros. */
  function SixBits(b: Bytes): seq<int> {
    if b == [] then []
    else if |b| == 1 then
      var t := Triple(b[0], 0, 0);
      [SextetAt(t, 0), SextetAt(t, 1)]
    else if |b| == 2 then
      var t := Triple(b[0], b[1], 0);
      [SextetAt(t, 0), SextetAt(t, 1), SextetAt(t, 2)]
    else
      var t := Triple(b[0], b[1], b[2]);
      [SextetAt(t, 0), SextetAt(t, 1), SextetAt(t, 2), SextetAt(t, 3)] + SixBits(b[3..])
  }

  /** The symbols are those at these indices, in any alphabet. */
  lemma {:induction false} SymbolsOfSixBits(v: Variant, b: Bytes)
    requires |v.alphabet| == 64
    ensures |EncodeBody(v, b)| == |SixBits(b)|
    ensures forall k | 0 <= k < |SixBits(b)| ::
      0 <= SixBits(b)[k] < 64 && EncodeBody(v, b)[k] == v.alphabet[SixBits(b)[k]]
    decreases |b|
  {
    hide Triple, SextetAt;
    if |b| >= 3 {
      SymbolsOfSixBits(v, b[3..]);
      FirstSymbols(v, b);
      hide EncodeBody, SixBits;
      forall k | 0 <= k < |SixBits(b)|
        ensures 0 <= SixBits(b)[k] < 64 && EncodeBody(v, b)[k] == v.alphabet[SixBits(b)[k]]
      {
        if k >= 4 {
          assert SixBits(b)[k] == SixBits(b)[4..][k - 4] && EncodeBody(v, b)[k] == EncodeBody(v, b)[4..][k - 4];
        }
      }
    }
  }

  lemma FirstSymbols(v: Variant, b: Bytes)
    requires |v.alphabet| == 64 && |b| >= 3
    ensures |SixBits(b)| >= 4 && SixBits(b)[4..] == SixBits(b[3..])
    ensures |EncodeBody(v, b)| >= 4 && EncodeBody(v, b)[4..] == EncodeBody(v, b[3..])
    ensures forall k | 0 <= k < 4 :: 0 <= SixBits(b)[k] < 64 && EncodeBody(v, b)[k] == v.alphabet[SixBits(b)[k]]
  {
    hide Triple, SextetAt;
    var t := Triple(b[0], b[1], b[2]);
    var d := [SextetAt(t, 0), SextetAt(t, 1), SextetAt(t, 2), SextetAt(t, 3)];
    var s := [SymbolAt(v, t, 0), SymbolAt(v, t, 1), SymbolAt(v, t, 2), SymbolAt(v, t, 3)];
    assert SixBits(b) == d + SixBits(b[3..]) && EncodeBody(v, b) == s + EncodeBody(v, b[3..]);
  }

  /** Read as one number in base 64 they are the bytes read as one number in base 256, shifted to fill the last
      group. */
  lemma {:induction false} SixBitsNumber(b: Bytes)
    ensures |SixBits(b)| == (4 * |b| + 2) / 3
    ensures Number(64, SixBits(b)) == Number(256, b) * Shift(|b|)
    decreases |b|
  {
    hide SextetAt, Triple, Number, Power;
    if |b| >= 3 {
      SixBitsNumber(b[3..]);
      var t, rest := Triple(b[0], b[1], b[2]), SixBits(b[3..]);
      var block := [SextetAt(t, 0), SextetAt(t, 1), SextetAt(t, 2), SextetAt(t, 3)];
      assert SixBits(b) == block + rest;
      hide SixBits;
      BlockNumber(b[0], b[1], b[2]);
      assert b == [b[0], b[1], b[2]] + b[3..];
      NumberJoins(64, block, rest);
      NumberJoins(256, [b[0], b[1], b[2]], b[3..]);
      PowersMatch(|b| - 3);
      assert Shift(|b|) == Shift(|b| - 3);
      Combine(t, Power(256, |b| - 3), Number(256, b[3..]), Shift(|b|));
    } else if |b| == 2 {
      assert b == [b[0], b[1]];
      LastGroups(b[0], b[1]);
    } else if |b| == 1 {
      assert b == [b[0]];
      LastGroups(b[0], 0);
    } else {
      NoDigits();
    }
  }

  lemma Combine(t: int, p: int, x: int, m: int)
    ensures t * (p * m) + x * m == (t * p + x) * m
  {
  }

  lemma BlockNumber(a: byte, b: byte, c: byte)
    ensures var t := Triple(a, b, c);
      Number(64, [SextetAt(t, 0), SextetAt(t, 1), SextetAt(t, 2), SextetAt(t, 3)]) == t == Number(256, [a, b, c])
  {
    hide SextetAt, Number;
    var t := Triple(a, b, c);
    BytesOfTriple(a, b, c);
    SextetsRejoin(t);
    FourDigits(SextetAt(t, 0), SextetAt(t, 1), SextetAt(t, 2), SextetAt(t, 3));
    ThreeBytes(a, b, c);
  }

  lemma LastGroups(a: byte, b: byte)
    ensures var t := Triple(a, b, 0);
      && Number(64, [SextetAt(t, 0), SextetAt(t, 1), SextetAt(t, 2)]) == Number(256, [a, b]) * 4
      && (b == 0 ==> Number(64, [SextetAt(t, 0), SextetAt(t, 1)]) == Number(256, [a]) * 16)
  {
    hide SextetAt, Number;
    var t := Triple(a, b, 0);
    BytesOfTriple(a, b, 0);
    SextetsRejoin(t);
    MissingBytes(a, b);
    FourDigits(SextetAt(t, 0), SextetAt(t, 1), SextetAt(t, 2), SextetAt(t, 3));
    ThreeBytes(a, b, 0);
  }

  lemma FourDigits(w: int, x: int, y: int, z: int)
    ensures Number(64, [w, x]) == w * 64 + x && Number(64, [w, x, y]) == (w * 64 + x) * 64 + y
    ensures Number(64, [w, x, y, z]) == Rejoined(w, x, y, z)
  {
    assert Number(64, [w]) == w;
    assert [w, x][..1] == [w] && [w, x, y][..2] == [w, x] && [w, x, y, z][..3] == [w, x, y];
  }

  lemma ThreeBytes(a: int, b: int, c: int)
    ensures Number(256, [a]) == a && Number(256, [a, b]) == a * 256 + b
    ensures Number(256, [a, b, c]) == a * 65536 + b * 256 + c
  {
    assert [a, b][..1] == [a] && [a, b, c][..2] == [a, b];
  }

  lemma NoDigits()
    ensures Number(64, []) == 0 && Number(256, []) == 0
  {
  }

  // ---- what is written ----

  /** The symbols of a byte string are the base-64 digits of the number that its bytes are the base-256 digits of,
      shifted to fill the last one (section 4 of RFC 4648). With their number this determines each of them. */
  lemma SymbolsAreDigits(v: Variant, b: Bytes) returns (d: seq<int>)
    requires |v.alphabet| == 64
    ensures |d| == |EncodeBody(v, b)| == (4 * |b| + 2) / 3
    ensures forall k | 0 <= k < |d| :: 0 <= d[k] < 64 && EncodeBody(v, b)[k] == v.alphabet[d[k]]
    ensures Number(64, d) == Number(256, b) * Shift(|b|)
  {
    hide SixBits, EncodeBody, Number;
    d := SixBits(b);
    SymbolsOfSixBits(v, b);
    SixBitsNumber(b);
  }

  /** The symbols for URLs are the standard ones, with '-' for '+' and '_' for '/'. */
  lemma UrlSafeBody(b: Bytes)
    ensures Sized(URL) && Sized(STANDARD) && |EncodeBody(URL, b)| == |EncodeBody(STANDARD, b)|
    ensures forall k | 0 <= k < |EncodeBody(URL, b)| :: EncodeBody(URL, b)[k] == UrlSafe(EncodeBody(STANDARD, b)[k])
  {
    hide SixBits, EncodeBody, UrlSafe;
    VariantsUsable();
    SymbolsOfSixBits(URL, b);
    SymbolsOfSixBits(STANDARD, b);
    forall k | 0 <= k < |SixBits(b)| ensures EncodeBody(URL, b)[k] == UrlSafe(EncodeBody(STANDARD, b)[k]) {
      UrlSafeSymbol(SixBits(b)[k]);
    }
  }
}
