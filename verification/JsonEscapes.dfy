/** Unicode escapes (section 7 of RFC 8259) become UTF-8 (section 3 of RFC 3629). */
module JsonEscapes {
  import opened Bytes
  import opened JsonValue
  import opened JsonGrammar

  predicate IsScalar(u: int) {
    0 <= u <= 0x10FFFF && !(0xD800 <= u <= 0xDFFF)
  }

  predicate IsContinuation(b: byte) {
    0x80 <= b < 0xC0
  }

  /** The payload of a continuation byte. */
  function Low6(b: byte): int {
    b as int - 0x80
  }

  /** The scalar value that a complete UTF-8 sequence stands for; overlong forms and surrogates stand for none. */
  function Utf8Scalar(b: Bytes): Option<int> {
    if |b| == 1 && b[0] < 0x80 then Some(b[0])
    else if |b| == 2 && 0xC2 <= b[0] < 0xE0 && IsContinuation(b[1]) then
      Some((b[0] as int - 0xC0) * 64 + Low6(b[1]))
    else if |b| == 3 && 0xE0 <= b[0] < 0xF0 && IsContinuation(b[1]) && IsContinuation(b[2]) then
      var u := (b[0] as int - 0xE0) * 4096 + Low6(b[1]) * 64 + Low6(b[2]);
      if u >= 0x800 && IsScalar(u) then Some(u) else None
    else if |b| == 4 && 0xF0 <= b[0] < 0xF5 && IsContinuation(b[1]) && IsContinuation(b[2]) && IsContinuation(b[3]) then
      var u := (b[0] as int - 0xF0) * 262144 + Low6(b[1]) * 4096 + Low6(b[2]) * 64 + Low6(b[3]);
      if u >= 0x10000 && IsScalar(u) then Some(u) else None
    else None
  }

  lemma Sextets(u: int)
    requires 0 <= u
    ensures u / 64 == (u / 4096) * 64 + u / 64 % 64 && u / 4096 == (u / 262144) * 64 + u / 4096 % 64
  {
    assert u / 4096 == u / 64 / 64;
    assert u / 262144 == u / 4096 / 64;
  }

  /** The bytes pushed for a scalar value are its UTF-8 form. */
  lemma {:induction false} PushedBytesAreUtf8(u: int)
    requires IsScalar(u)
    ensures Utf8Scalar(CodePointBytes(u)) == Some(u)
  {
    Sextets(u);
    assert u == (u / 64) * 64 + u % 64;
    if u >= 0x10000 {
      assert 0 < u / 4096 && u / 262144 <= 4;
    } else if u >= 0x800 {
      assert 0 <= u / 4096 < 16;
    } else if u >= 0x80 {
      assert 2 <= u / 64 < 32;
    }
  }

  /** The number four hexadecimal digits of either case denote. */
  function HexCode(s: Bytes, i: nat): Option<int> {
    if i + 4 <= |s| && HexValue(s[i]).Some? && HexValue(s[i + 1]).Some? && HexValue(s[i + 2]).Some?
       && HexValue(s[i + 3]).Some?
    then Some(HexValue(s[i]).value * 4096 + HexValue(s[i + 1]).value * 256 + HexValue(s[i + 2]).value * 16
              + HexValue(s[i + 3]).value)
    else None
  }

  /** Four digits of either case are the number they denote in base 16. */
  lemma HexCodeOfDigits(s: Bytes, i: nat, a: int, b: int, c: int, d: int)
    requires i + 4 <= |s| && Denotes(s[i], a) && Denotes(s[i + 1], b) && Denotes(s[i + 2], c) && Denotes(s[i + 3], d)
    ensures HexCode(s, i) == Some(((a * 16 + b) * 16 + c) * 16 + d)
  {
    hide HexValue, Denotes;
    HexValueExact(s[i], a);
    HexValueExact(s[i + 1], b);
    HexValueExact(s[i + 2], c);
    HexValueExact(s[i + 3], d);
  }

  /** No other four characters are a number. */
  lemma HexCodeNeedsDigits(s: Bytes, i: nat)
    requires HexCode(s, i).Some?
    ensures i + 4 <= |s| && forall k | i <= k < i + 4 :: exists d :: Denotes(s[k], d)
  {
    hide HexValue, Denotes;
    forall k | i <= k < i + 4 ensures exists d :: Denotes(s[k], d) {
      HexValueExact(s[k], HexValue(s[k]).value);
    }
  }

  lemma QuadHexReadsCode(s: Bytes, i: nat)
    requires i <= |s|
    ensures var r := QuadHex(s, i, i + 4, 0);
      (r.Got? <==> HexCode(s, i).Some?) && (r.Got? ==> r.value == HexCode(s, i).value && r.next == i + 4)
  {
    var end := i + 4;
    var a := HexValue(CharAt(s, i));
    if a.None? { return; }
    var b := HexValue(CharAt(s, i + 1));
    assert QuadHex(s, i, end, 0) == QuadHex(s, i + 1, end, a.value);
    if b.None? { return; }
    var c := HexValue(CharAt(s, i + 2));
    assert QuadHex(s, i, end, 0) == QuadHex(s, i + 2, end, a.value * 16 + b.value);
    if c.None? { return; }
    var d := HexValue(CharAt(s, i + 3));
    assert QuadHex(s, i, end, 0) == QuadHex(s, i + 3, end, (a.value * 16 + b.value) * 16 + c.value);
    if d.None? { return; }
    assert QuadHex(s, i, end, 0) == QuadHex(s, i + 4, end, ((a.value * 16 + b.value) * 16 + c.value) * 16 + d.value);
  }

  function HighHalf(u: int): int {
    0xD800 + (u - 0x10000) / 1024
  }

  function LowHalfOf(u: int): int {
    0xDC00 + (u - 0x10000) % 1024
  }

  /** After the `u` of an escape, the text from `i` to `j` spells `u`: one code, or a surrogate pair. */
  predicate Spells(s: Bytes, i: nat, u: int, j: nat) {
    if u < 0x10000 then
      j == i + 4 && HexCode(s, i) == Some(u)
    else
      && j == i + 10 && i + 6 <= |s|
      && HexCode(s, i) == Some(HighHalf(u))
      && s[i + 4] == BACKSLASH && s[i + 5] == 0x75
      && HexCode(s, i + 6) == Some(LowHalfOf(u))
  }

  /** An escape is accepted exactly when it spells a scalar value, and then its UTF-8 form is what is pushed; lone
      and misordered surrogates spell none. */
  lemma EscapesExact(s: Bytes, i: nat, bytes: Bytes, j: nat)
    requires i <= |s|
    ensures CodePoint(s, i) == Got(bytes, j)
      <==> exists u :: IsScalar(u) && Spells(s, i, u, j) && bytes == CodePointBytes(u)
  {
    hide QuadHex, HexValue, CodePointBytes, HexCode;
    QuadHexReadsCode(s, i);
    if HexCode(s, i).Some? {
      var a := HexCode(s, i).value;
      if IsHighSurrogate(a) && i + 6 <= |s| {
        QuadHexReadsCode(s, i + 6);
        if HexCode(s, i + 6).Some? && IsLowSurrogate(HexCode(s, i + 6).value) {
          var u := (a - 0xD800) * 1024 + (HexCode(s, i + 6).value - 0xDC00) + 0x10000;
          assert HighHalf(u) == a && LowHalfOf(u) == HexCode(s, i + 6).value && IsScalar(u);
          assert CodePoint(s, i) == Got(bytes, j) ==> Spells(s, i, u, j);
          SpelledOnce(s, i);
        }
      }
      assert !IsHighSurrogate(a) && !IsLowSurrogate(a) ==>
        (CodePoint(s, i) == Got(bytes, j) ==> IsScalar(a) && Spells(s, i, a, j));
    }
  }

  /** A text spells at most one scalar value. */
  lemma SpelledOnce(s: Bytes, i: nat)
    ensures forall u, w, j, k | IsScalar(u) && IsScalar(w) && Spells(s, i, u, j) && Spells(s, i, w, k) ::
      u == w && j == k
  {
    hide HexCode;
    forall u, w, j, k | IsScalar(u) && IsScalar(w) && Spells(s, i, u, j) && Spells(s, i, w, k)
      ensures u == w && j == k
    {
      if u >= 0x10000 && w >= 0x10000 {
        assert (u - 0x10000) / 1024 == (w - 0x10000) / 1024 && (u - 0x10000) % 1024 == (w - 0x10000) % 1024;
      } else {
        assert u >= 0x10000 ==> IsHighSurrogate(HighHalf(u));
        assert w >= 0x10000 ==> IsHighSurrogate(HighHalf(w));
      }
    }
  }

  /** No pair stands at `i`, and no single code either. */
  predicate LoneHalf(s: Bytes, i: nat) {
    HexCode(s, i).Some? &&
    var a := HexCode(s, i).value;
    || IsLowSurrogate(a)
    || (IsHighSurrogate(a)
        && !(i + 6 <= |s| && s[i + 4] == BACKSLASH && s[i + 5] == 'u' as int
             && HexCode(s, i + 6).Some? && IsLowSurrogate(HexCode(s, i + 6).value)))
  }

  lemma LoneHalfSpellsNothing(s: Bytes, i: nat, u: int, j: nat)
    requires LoneHalf(s, i) && IsScalar(u)
    ensures !Spells(s, i, u, j)
  {
    hide HexCode;
  }

  /** A second half without a first, and a first half without a second, are rejected. */
  lemma LoneSurrogatesRejected(s: Bytes, i: nat)
    requires i <= |s| && LoneHalf(s, i)
    ensures CodePoint(s, i).Stop?
  {
    hide LoneHalf, CodePointBytes, CodePoint, Spells, IsScalar;
    var r := CodePoint(s, i);
    forall u, j: nat | IsScalar(u) ensures !Spells(s, i, u, j) { LoneHalfSpellsNothing(s, i, u, j); }
    if r.Got? {
      EscapesExact(s, i, r.value, r.next);
    }
  }

  lemma Marks()
    ensures Ascii("\\u") == [BACKSLASH, 'u' as int]
  {
  }

  /** Two codes with "\u" between them are the scalar value whose halves they are. */
  lemma PairRead(high: Bytes, low: Bytes, rest: Bytes, u: int)
    requires |high| == |low| == 4 && 0x10000 <= u <= 0x10FFFF
    requires HexCode(high, 0) == Some(HighHalf(u)) && HexCode(low, 0) == Some(LowHalfOf(u))
    ensures CodePoint(high + Ascii("\\u") + low + rest, 0) == Got(CodePointBytes(u), 10)
  {
    hide HexValue, CodePointBytes, CodePoint;
    Marks();
    var s := high + Ascii("\\u") + low + rest;
    assert s[0] == high[0] && s[1] == high[1] && s[2] == high[2] && s[3] == high[3];
    assert s[6] == low[0] && s[7] == low[1] && s[8] == low[2] && s[9] == low[3];
    assert Spells(s, 0, u, 10);
    EscapesExact(s, 0, CodePointBytes(u), 10);
  }
}
