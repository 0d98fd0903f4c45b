/** What number texts mean: integers of 64 bits, and decimals for everything else. */
module JsonNumbers {
  import opened Bytes
  import opened JsonValue
  import opened JsonGrammar
  import JR = JsonRoundTrip
  import JL = JsonLayout

  lemma NumberCharsAre(c: int)
    ensures IsDigit(c) <==> c in Ascii("0123456789")
    ensures IsNumberChar(c) <==> c in Ascii("0123456789+-eE.")
  {
    var d, n := Ascii("0123456789"), Ascii("0123456789+-eE.");
    if IsDigit(c) { assert d[c - 0x30] == c && n[c - 0x30] == c; }
    assert n[10] == 0x2B && n[11] == 0x2D && n[12] == 0x65 && n[13] == 0x45 && n[14] == 0x2E;
  }

  predicate AllDigits(d: Bytes) {
    forall k | 0 <= k < |d| :: IsDigit(d[k])
  }

  /** Digits denote a number in base ten. */
  lemma {:induction false} DigitsValueJoins(a: Bytes, b: Bytes)
    requires AllDigits(a) && AllDigits(b)
    ensures DigitsValue(a + b) == DigitsValue(a) * JL.PowerOfTen(|b|) + DigitsValue(b)
    ensures DigitsValue([]) == 0 && (|a| == 1 ==> DigitsValue(a) == a[0] - '0' as int)
    decreases |b|
  {
    if b == [] {
      assert a + b == a;
    } else {
      var init, last := b[..|b| - 1], b[|b| - 1];
      assert (a + b)[..|a + b| - 1] == a + init && AllDigits(a + init);
      DigitsValueJoins(a, init);
      Distribute(DigitsValue(a), JL.PowerOfTen(|init|), DigitsValue(init));
    }
  }

  lemma Distribute(x: int, p: int, y: int)
    ensures (x * p + y) * 10 == x * (10 * p) + y * 10
  {
  }

  // ---- decimals ----

  /** An exponent: the letter, its sign and its digits. */
  datatype Exponent = Exponent(letter: Bytes, sign: Bytes, digits: Bytes)

  /** A decimal as `strtod` reads one: a sign, digits, digits after a point, an exponent. */
  datatype Decimal = Decimal(sign: Bytes, whole: Bytes, frac: Option<Bytes>, exp: Option<Exponent>)

  predicate IsSign(s: Bytes) {
    s == [] || s == Ascii("+") || s == Ascii("-")
  }

  function FracDigits(d: Decimal): Bytes {
    if d.frac.Some? then d.frac.value else []
  }

  predicate IsExponent(exp: Option<Exponent>) {
    exp.Some? ==>
      && (exp.value.letter == Ascii("e") || exp.value.letter == Ascii("E"))
      && IsSign(exp.value.sign) && exp.value.digits != [] && AllDigits(exp.value.digits)
  }

  function ExponentValue(exp: Option<Exponent>): int
    requires IsExponent(exp)
  {
    if exp.Some? then Signed(exp.value.sign, DigitsValue(exp.value.digits)) else 0
  }

  predicate IsDecimal(d: Decimal) {
    && IsSign(d.sign) && AllDigits(d.whole) && AllDigits(FracDigits(d)) && d.whole + FracDigits(d) != []
    && IsExponent(d.exp)
  }

  function ExponentText(e: Option<Exponent>): Bytes {
    if e.Some? then e.value.letter + (e.value.sign + e.value.digits) else []
  }

  function DecimalString(d: Decimal): Bytes {
    d.sign + (d.whole + ((if d.frac.Some? then Ascii(".") + d.frac.value else []) + ExponentText(d.exp)))
  }

  function Signed(sign: Bytes, n: nat): int {
    if sign == Ascii("-") then -(n as int) else n
  }

  /** Ten to the power of `e`. */
  function Ten(e: int): real {
    if e >= 0 then JL.PowerOfTen(e) as real else 1.0 / JL.PowerOfTen(-e) as real
  }

  /** The digits before and after the point as one number. */
  function Mantissa(d: Decimal): nat
    requires IsDecimal(d)
  {
    AllDigitsJoin(d.whole, FracDigits(d));
    DigitsValue(d.whole + FracDigits(d))
  }

  function DecimalValue(d: Decimal): real
    requires IsDecimal(d)
  {
    TimesTen(Signed(d.sign, Mantissa(d)), ExponentOf(d) - |FracDigits(d)|)
  }

  function TimesTen(m: int, e: int): real {
    m as real * Ten(e)
  }

  lemma ScaledIsTimesTen(m: int, e: int)
    ensures Scaled(m, e) == TimesTen(m, e)
  {
    hide Power10, Ten;
    TenIsPower(e);
  }

  lemma AllDigitsJoin(a: Bytes, b: Bytes)
    requires AllDigits(a) && AllDigits(b)
    ensures AllDigits(a + b)
  {
  }

  lemma {:induction false} TenIsPower(e: int)
    ensures Power10(e) == Ten(e)
    decreases if e < 0 then -e else e
  {
    if e > 0 {
      TenIsPower(e - 1);
    } else if e < 0 {
      TenIsPower(e + 1);
      var p, q := JL.PowerOfTen(-e), JL.PowerOfTen(-e - 1);
      assert p == 10 * q;
      Tenth(q as real);
    }
  }

  lemma Tenth(q: real)
    requires q > 0.0
    ensures 1.0 / q / 10.0 == 1.0 / (10.0 * q)
  {
    var x := 1.0 / q / 10.0;
    assert x * (10.0 * q) == (x * 10.0) * q;
    assert (x * 10.0) * q == 1.0;
  }

  lemma {:induction false} DigitsEndAt(t: Bytes, i: nat, j: nat)
    requires i <= j <= |t| && (forall k | i <= k < j :: IsDigit(t[k])) && (j < |t| ==> !IsDigit(t[j]))
    ensures DigitsEnd(t, i) == j
    decreases j - i
  {
    if i < j {
      DigitsEndAt(t, i + 1, j);
    }
  }

  lemma SignRead(sign: Bytes, rest: Bytes, t: Bytes, i: nat, n: nat)
    requires IsSign(sign) && i + |sign| + |rest| == |t| && t[i..] == sign + rest
    requires rest != [] ==> rest[0] != PLUS && rest[0] != MINUS
    ensures AfterSign(t, i) == i + |sign| && WithSign(t, i, n) == Signed(sign, n)
  {
    assert Ascii("+") == [PLUS] && Ascii("-") == [MINUS];
    if sign != [] {
      assert t[i] == (sign + rest)[0];
    } else if rest != [] {
      assert t[i] == (sign + rest)[0];
    }
  }

  /** Digits at `i`, and what follows them. */
  lemma RunOfDigits(t: Bytes, i: nat, d: Bytes, rest: Bytes)
    requires i <= |t| && t[i..] == d + rest && AllDigits(d) && (rest != [] ==> !IsDigit(rest[0]))
    ensures var j := i + |d|;
      j <= |t| && DigitsEnd(t, i) == j && t[i..j] == d && t[j..] == rest
      && CharAt(t, j) == if rest == [] then -1 else rest[0]
  {
    var u, j := t[i..], i + |d|;
    assert t[i..j] == u[..|d|] && t[j..] == u[|d|..];
    forall k | i <= k < j ensures IsDigit(t[k]) { assert t[k] == u[k - i]; }
    if rest != [] { assert t[j] == u[|d|]; }
    DigitsEndAt(t, i, j);
  }

  lemma AfterFirst(t: Bytes, i: nat, c: byte, rest: Bytes)
    requires i <= |t| && t[i..] == [c] + rest
    ensures i < |t| && t[i] == c && t[i + 1..] == rest
  {
    assert t[i] == t[i..][0] && t[i + 1..] == t[i..][1..];
  }

  lemma ExponentRead(t: Bytes, j: nat, exp: Option<Exponent>)
    requires j <= |t| && t[j..] == ExponentText(exp) && IsExponent(exp)
    ensures ExponentAt(t, j) == Some(ExponentValue(exp))
  {
    if exp.Some? {
      var e := exp.value;
      ExponentLetter(exp);
      AfterFirst(t, j, e.letter[0], e.sign + e.digits);
      hide DigitsEnd, WithSign, AfterSign;
      SignRead(e.sign, e.digits, t, j + 1, DigitsValue(e.digits));
      var x := j + 1 + |e.sign|;
      assert t[x..] == t[j + 1..][|e.sign|..] == e.digits + [];
      RunOfDigits(t, x, e.digits, []);
    }
  }

  lemma ExponentLetter(exp: Option<Exponent>)
    requires IsExponent(exp)
    ensures exp.Some? ==>
      var l := exp.value.letter; |l| == 1 && l == [l[0]] && (l[0] == 0x65 || l[0] == 0x45)
    ensures var s := ExponentText(exp); s != [] ==> (s[0] == 0x65 || s[0] == 0x45) && !IsDigit(s[0]) && s[0] != DOT
  {
    assert Ascii("e") == [0x65] && Ascii("E") == [0x45];
  }

  /** What is read without a point. */
  lemma ReadWithoutPoint(t: Bytes, i: nat, whole: Bytes, exp: Option<Exponent>)
    requires AfterSign(t, 0) == i <= |t| && t[i..] == whole + ExponentText(exp)
    requires whole != [] && AllDigits(whole) && IsExponent(exp)
    ensures WholeDouble(t) == Some(Scaled(WithSign(t, 0, DigitsValue(whole)), ExponentValue(exp)))
  {
    hide DigitsEnd, WithSign, AfterSign, DigitsValue, Scaled, ExponentText, ExponentAt, ExponentValue, IsExponent;
    ExponentLetter(exp);
    RunOfDigits(t, i, whole, ExponentText(exp));
    ExponentRead(t, i + |whole|, exp);
    assert whole + [] == whole;
    assert t[i + |whole|..i + |whole|] == [];
  }

  /** Where the pieces of a decimal with a point stand. */
  lemma PointPieces(t: Bytes, i: nat, whole: Bytes, frac: Bytes, tail: Bytes)
    requires i <= |t| && t[i..] == whole + ([DOT] + (frac + tail)) && AllDigits(whole) && AllDigits(frac)
    requires tail != [] ==> !IsDigit(tail[0])
    ensures var w := i + |whole|;
      var j := w + 1 + |frac|;
      && j <= |t| && CharAt(t, w) == DOT && DigitsEnd(t, i) == w && DigitsEnd(t, w + 1) == j
      && t[i..w] == whole && t[w + 1..j] == frac && t[j..] == tail
  {
    assert !IsDigit(DOT);
    hide DigitsEnd, AllDigits, IsDigit;
    BeforePoint(t, i, whole, frac + tail);
    RunOfDigits(t, i + |whole| + 1, frac, tail);
  }

  lemma BeforePoint(t: Bytes, i: nat, whole: Bytes, rest: Bytes)
    requires i <= |t| && t[i..] == whole + ([DOT] + rest) && AllDigits(whole)
    ensures var w := i + |whole|;
      && w < |t| && CharAt(t, w) == DOT && DigitsEnd(t, i) == w && t[i..w] == whole && t[w + 1..] == rest
  {
    assert !IsDigit(DOT);
    hide DigitsEnd, AllDigits, IsDigit;
    RunOfDigits(t, i, whole, [DOT] + rest);
    AfterFirst(t, i + |whole|, DOT, rest);
  }

  lemma DoubleOfPieces(t: Bytes, i: nat, w: nat, j: nat, e: int)
    requires i <= w < j <= |t| && AfterSign(t, 0) == i && DigitsEnd(t, i) == w && CharAt(t, w) == DOT
    requires DigitsEnd(t, w + 1) == j && ExponentAt(t, j) == Some(e)
    requires t[i..w] + t[w + 1..j] != [] && AllDigits(t[i..w] + t[w + 1..j])
    ensures WholeDouble(t) == Some(Scaled(WithSign(t, 0, DigitsValue(t[i..w] + t[w + 1..j])), e - (j - w - 1)))
  {
    hide DigitsEnd, WithSign, AfterSign, DigitsValue, Scaled, ExponentAt;
  }

  /** What is read with a point. */
  lemma ReadWithPoint(t: Bytes, i: nat, whole: Bytes, frac: Bytes, exp: Option<Exponent>)
    requires AfterSign(t, 0) == i <= |t| && t[i..] == whole + ([DOT] + (frac + ExponentText(exp)))
    requires whole + frac != [] && AllDigits(whole) && AllDigits(frac) && AllDigits(whole + frac) && IsExponent(exp)
    ensures WholeDouble(t)
      == Some(Scaled(WithSign(t, 0, DigitsValue(whole + frac)), ExponentValue(exp) - |frac|))
  {
    hide DigitsEnd, WithSign, AfterSign, DigitsValue, Scaled, ExponentText, ExponentAt, ExponentValue, IsExponent,
      AllDigits, WholeDouble;
    ExponentLetter(exp);
    PointPieces(t, i, whole, frac, ExponentText(exp));
    var w := i + |whole|;
    ExponentRead(t, w + 1 + |frac|, exp);
    DoubleOfPieces(t, i, w, w + 1 + |frac|, ExponentValue(exp));
  }

  lemma MantissaHead(d: Decimal)
    requires IsDecimal(d)
    ensures var m := DecimalString(d)[|d.sign|..];
      && DecimalString(d) == d.sign + m && m != [] && m[0] != PLUS && m[0] != MINUS
      && m == d.whole + ((if d.frac.Some? then Ascii(".") + d.frac.value else []) + ExponentText(d.exp))
  {
    assert Ascii(".") == [DOT];
    var point := if d.frac.Some? then Ascii(".") + d.frac.value else [];
    var m := d.whole + (point + ExponentText(d.exp));
    assert DecimalString(d)[|d.sign|..] == m;
    if d.whole != [] {
      assert m[0] == d.whole[0] && IsDigit(d.whole[0]);
    } else {
      assert d.whole + FracDigits(d) == FracDigits(d);
      assert m[0] == point[0] == DOT;
    }
  }

  /** The sign of a decimal. */
  lemma DecimalSign(d: Decimal)
    requires IsDecimal(d)
    ensures AfterSign(DecimalString(d), 0) == |d.sign| <= |DecimalString(d)|
    ensures WithSign(DecimalString(d), 0, Mantissa(d)) == Signed(d.sign, Mantissa(d))
  {
    var t := DecimalString(d);
    MantissaHead(d);
    assert t[0..] == t;
    hide DecimalString, AfterSign, WithSign, Signed, ExponentText, AllDigits, Mantissa, Ascii;
    SignRead(d.sign, t[|d.sign|..], t, 0, Mantissa(d));
  }

  lemma AfterSignWithPoint(d: Decimal)
    requires IsDecimal(d) && d.frac.Some?
    ensures |d.sign| <= |DecimalString(d)|
    ensures DecimalString(d)[|d.sign|..] == d.whole + ([DOT] + (d.frac.value + ExponentText(d.exp)))
  {
    MantissaHead(d);
    hide DecimalString, ExponentText, Ascii;
    PointText(d.frac.value, ExponentText(d.exp));
  }

  lemma AfterSignWithoutPoint(d: Decimal)
    requires IsDecimal(d) && d.frac.None?
    ensures |d.sign| <= |DecimalString(d)| && d.whole != []
    ensures DecimalString(d)[|d.sign|..] == d.whole + ExponentText(d.exp) && d.whole + FracDigits(d) == d.whole
  {
    MantissaHead(d);
    hide DecimalString, ExponentText;
    assert [] + ExponentText(d.exp) == ExponentText(d.exp) && d.whole + [] == d.whole;
  }

  lemma DecimalWithPoint(d: Decimal)
    requires IsDecimal(d) && d.frac.Some?
    ensures WholeDouble(DecimalString(d))
      == Some(Scaled(Signed(d.sign, Mantissa(d)), ExponentOf(d) - |FracDigits(d)|))
  {
    AllDigitsJoin(d.whole, FracDigits(d));
    hide WithSign, AfterSign, DecimalString, AllDigits, Scaled, WholeDouble, ExponentText, IsExponent, Signed, IsSign,
      DigitsValue, ExponentValue;
    DecimalSign(d);
    AfterSignWithPoint(d);
    ReadWithPoint(DecimalString(d), |d.sign|, d.whole, d.frac.value, d.exp);
  }

  lemma DecimalWithoutPoint(d: Decimal)
    requires IsDecimal(d) && d.frac.None?
    ensures WholeDouble(DecimalString(d)) == Some(Scaled(Signed(d.sign, Mantissa(d)), ExponentOf(d)))
  {
    hide WithSign, AfterSign, DecimalString, AllDigits, Scaled, WholeDouble, ExponentText, IsExponent, Signed, IsSign,
      DigitsValue, ExponentValue;
    DecimalSign(d);
    AfterSignWithoutPoint(d);
    ReadWithoutPoint(DecimalString(d), |d.sign|, d.whole, d.exp);
  }

  /** The text of a decimal is read as its value. */
  lemma DecimalRead(d: Decimal)
    requires IsDecimal(d)
    ensures WholeDouble(DecimalString(d)) == Some(DecimalValue(d))
  {
    hide DecimalString, Scaled, WholeDouble, Signed, Mantissa, TimesTen, ExponentValue, IsDecimal;
    ScaledIsTimesTen(Signed(d.sign, Mantissa(d)), ExponentOf(d) - |FracDigits(d)|);
    if d.frac.Some? {
      DecimalWithPoint(d);
    } else {
      DecimalWithoutPoint(d);
    }
  }

  function ExponentOf(d: Decimal): int
    requires IsDecimal(d)
  {
    ExponentValue(d.exp)
  }

  lemma PointText(frac: Bytes, tail: Bytes)
    ensures Ascii(".") + frac + tail == [DOT] + (frac + tail)
  {
    assert Ascii(".") == [DOT];
    Assoc([DOT], frac, tail);
  }

  /** The exponent that was read. */
  lemma ExponentTaken(t: Bytes, j: nat) returns (exp: Option<Exponent>)
    requires j <= |t| && ExponentAt(t, j).Some?
    ensures IsExponent(exp) && ExponentText(exp) == t[j..]
  {
    if j == |t| {
      exp := None;
    } else {
      assert Ascii("e") == [0x65] && Ascii("E") == [0x45] && Ascii("+") == [PLUS] && Ascii("-") == [MINUS];
      var x := AfterSign(t, j + 1);
      exp := Some(Exponent([t[j]], t[j + 1..x], t[x..]));
      assert x > j + 1 ==> t[j + 1..x] == [t[j + 1]];
      assert t[j..] == [t[j]] + (t[j + 1..x] + t[x..]);
    }
  }

  lemma CutTwice(t: Bytes, i: nat, w: nat, j: nat)
    requires i <= w <= j <= |t|
    ensures t == t[..i] + (t[i..w] + (t[w..j] + t[j..]))
  {
  }

  /** Where the scan for a decimal stops. */
  lemma PiecesTaken(t: Bytes) returns (i: nat, w: nat, j: nat)
    requires WholeDouble(t).Some?
    ensures i <= w <= j <= |t| && IsSign(t[..i]) && AllDigits(t[i..w]) && ExponentAt(t, j).Some?
    ensures w < j ==> t[w..j] == Ascii(".") + t[w + 1..j] && AllDigits(t[w + 1..j])
    ensures i < w || w + 1 < j
  {
    i := AfterSign(t, 0);
    SignTaken(t);
    hide AfterSign, ExponentAt, IsSign, WithSign, Ascii, DigitsValue, Scaled, DigitsEnd, IsDigit;
    w := DigitsEnd(t, i);
    DigitsSlice(t, i);
    if CharAt(t, w) == DOT {
      j := DigitsEnd(t, w + 1);
      PointSlice(t, w, j);
      DigitsSlice(t, w + 1);
    } else {
      j := w;
    }
  }

  lemma DigitsSlice(t: Bytes, i: nat)
    requires i <= |t|
    ensures AllDigits(t[i..DigitsEnd(t, i)])
  {
    hide DigitsEnd;
  }

  lemma PointSlice(t: Bytes, w: nat, j: nat)
    requires w < j <= |t| && t[w] == DOT
    ensures t[w..j] == Ascii(".") + t[w + 1..j]
  {
    assert Ascii(".") == [DOT];
  }

  lemma DoubleTaken(t: Bytes) returns (d: Decimal)
    requires WholeDouble(t).Some?
    ensures IsDecimal(d) && DecimalString(d) == t
  {
    var i, w, j := PiecesTaken(t);
    hide WholeDouble, IsSign, AllDigits, ExponentAt, IsExponent, ExponentText, Ascii;
    var exp := ExponentTaken(t, j);
    CutTwice(t, i, w, j);
    if w < j {
      d := Decimal(t[..i], t[i..w], Some(t[w + 1..j]), exp);
    } else {
      NoDigits();
      assert t[i..w] + [] == t[i..w] && t[w..j] == [];
      d := Decimal(t[..i], t[i..w], None, exp);
    }
  }

  lemma NoDigits()
    ensures AllDigits([])
  {
  }

  /** `strtod` reads the whole of a text exactly when it is a decimal, and then as its value. */
  lemma DoubleExactly(t: Bytes, x: real)
    ensures WholeDouble(t) == Some(x) <==> exists d :: IsDecimal(d) && DecimalString(d) == t && DecimalValue(d) == x
  {
    hide WholeDouble, IsDecimal, DecimalString, DecimalValue;
    forall d | IsDecimal(d) && DecimalString(d) == t ensures WholeDouble(t) == Some(DecimalValue(d)) {
      DecimalRead(d);
    }
    if WholeDouble(t).Some? {
      var d := DoubleTaken(t);
    }
  }

  // ---- integers ----

  /** `strtoimax` reads the whole of a text exactly when it is a sign and digits that denote a number of 64 bits. */
  lemma IntegerExactly(t: Bytes, n: int64)
    ensures WholeInteger(t) == Some(n)
      <==> exists sign, digits :: t == sign + digits && SpellsInteger(sign, digits, n)
  {
    hide DigitsValue;
    if WholeInteger(t) == Some(n) {
      var i := AfterSign(t, 0);
      SignTaken(t);
      assert SpellsInteger(t[..i], t[i..], n);
      assert t == t[..i] + t[i..];
    }
    if sign, digits :| t == sign + digits && SpellsInteger(sign, digits, n) {
      assert t[0..] == sign + digits && t[|sign|..] == digits + [];
      SignRead(sign, digits, t, 0, DigitsValue(digits));
      RunOfDigits(t, |sign|, digits, []);
      assert digits + [] == digits;
    }
  }

  ghost predicate SpellsInteger(sign: Bytes, digits: Bytes, n: int) {
    IsSign(sign) && digits != [] && AllDigits(digits) && n == Signed(sign, DigitsValue(digits))
  }

  lemma SignTaken(t: Bytes)
    ensures var i := AfterSign(t, 0); IsSign(t[..i]) && forall n: nat :: WithSign(t, 0, n) == Signed(t[..i], n)
  {
    assert Ascii("+") == [PLUS] && Ascii("-") == [MINUS];
    if t != [] { assert t[..1] == [t[0]]; }
  }

  function IntegerDecimal(n: int): Decimal {
    Decimal(if n < 0 then Ascii("-") else [], Digits(JR.Magnitude(n)), None, None)
  }

  lemma IntegerIsDecimal(n: int)
    ensures var d := IntegerDecimal(n);
      IsDecimal(d) && DecimalString(d) == DecimalText(n) && DecimalValue(d) == n as real
  {
    var d := IntegerDecimal(n);
    JR.DigitsReadBack(JR.Magnitude(n));
    assert Ascii("-") == [MINUS];
    assert d.whole + [] == d.whole;
    assert DecimalString(d) == d.sign + d.whole;
    hide Digits, DigitsValue;
    assert DecimalValue(d) == TimesTen(n, 0);
    assert Ten(0) == 1.0;
  }

  /** The decimal text of any integer is read as that number by `strtod`. */
  lemma IntegerAsDouble(n: int)
    ensures WholeDouble(DecimalText(n)) == Some(n as real)
  {
    hide DecimalString, WholeDouble, DecimalText, DecimalValue, IntegerDecimal, IsDecimal;
    IntegerIsDecimal(n);
    DecimalRead(IntegerDecimal(n));
  }

  /** So an integer beyond 64 bits is read as a double, and one within as an integer. */
  lemma IntegersRead(n: int, rest: Bytes)
    requires rest != [] ==> !IsNumberChar(rest[0])
    requires !Overflows(n as real)
    ensures var t := DecimalText(n);
      ParseValue(Building, t + rest, 0) == Ok(if INT64_MIN <= n <= INT64_MAX then Int(n) else Number(n as real), |t|)
  {
    hide WholeDouble, Overflows, ParseValue, DigitsValue, Digits;
    var t := DecimalText(n);
    var s := t + rest;
    IntegerAsDouble(n);
    DecimalShape(n);
    assert s[0] == t[0] && s[0..|t|] == t;
    JR.NumberEndOfRun(s, 0, |t|);
    JR.ParseNumberAt(s, 0);
    if INT64_MIN <= n <= INT64_MAX {
      JR.IntegerReadsBack(n);
    } else {
      TooLarge(n);
    }
  }

  lemma DecimalShape(n: int)
    ensures var t := DecimalText(n);
      t != [] && (IsDigit(t[0]) || t[0] == MINUS) && forall k | 0 <= k < |t| :: IsNumberChar(t[k])
  {
    var d := Digits(JR.Magnitude(n));
    assert IsDigit(d[0]);
  }

  lemma TooLarge(n: int)
    requires !(INT64_MIN <= n <= INT64_MAX)
    ensures WholeInteger(DecimalText(n)).None?
  {
    var t, d := DecimalText(n), Digits(JR.Magnitude(n));
    JR.DigitsReadBack(JR.Magnitude(n));
    if n < 0 {
      assert t[1..] == d;
    } else {
      assert IsDigit(d[0]) && t[0..] == d;
    }
  }

  /** A decimal overflows when it is at least as far from zero as halfway from the largest double to the next power of
      two. */
  lemma OverflowThreshold(x: real)
    ensures var halfway := (Power2(1024) - Power2(971) + Power2(1024)) / 2.0;
      Overflows(x) <==> (x >= halfway || x <= -halfway)
    ensures Power2(0) == 1.0 && forall n: nat :: Power2(n + 1) == 2.0 * Power2(n)
  {
    assert Power2(971) == 2.0 * Power2(970);
  }
}
