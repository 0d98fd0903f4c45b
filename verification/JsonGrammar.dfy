/** What the parser of picojson.h reads, as functions of the input and a plain index into it. */
module JsonGrammar {
  import opened Bytes
  import opened JsonValue

  /** What `getc` returns with the index at `i`: the byte there, or -1 at the end. */
  function CharAt(s: Bytes, i: nat): int {
    if i < |s| then s[i] else -1
  }

  predicate IsSpace(c: int) {
    c == SPACE || c == TAB || c == LF || c == CR
  }

  function SkipWs(s: Bytes, i: nat): (j: nat)
    requires i <= |s|
    ensures i <= j <= |s|
    decreases |s| - i
  {
    if IsSpace(CharAt(s, i)) then SkipWs(s, i + 1) else i
  }

  /** One scanning step: a value and the index after it, or the index at which the scan gave up. */
  datatype Scan<+T> = Got(value: T, next: nat) | Stop(next: nat)

  predicate InRange<T>(r: Scan<T>, low: nat, s: Bytes) {
    low <= r.next <= |s|
  }

  /** `expect(c)`: blanks, then `c`. */
  function Expect(s: Bytes, i: nat, c: byte): (r: Scan<()>)
    requires i <= |s|
    ensures InRange(r, if r.Got? then i + 1 else i, s)
  {
    var j := SkipWs(s, i);
    if CharAt(s, j) == c then Got((), j + 1) else Stop(j)
  }

  /** `match(pattern)`. */
  function Match(s: Bytes, i: nat, pattern: Bytes): (r: Scan<()>)
    requires i <= |s|
    ensures InRange(r, i, s)
    decreases |pattern|
  {
    if pattern == [] then Got((), i)
    else if CharAt(s, i) == pattern[0] then Match(s, i + 1, pattern[1..])
    else Stop(i)
  }

  // ---- strings ----

  /** The value of a hexadecimal digit in either case. */
  function HexValue(c: int): (v: Option<int>)
    ensures v.Some? ==> 0 <= v.value < 16
  {
    if ZERO <= c <= NINE then Some(c - ZERO)
    else if 0x41 <= c <= 0x46 then Some(c - 0x41 + 10)
    else if 0x61 <= c <= 0x66 then Some(c - 0x61 + 10)
    else None
  }

  /** `c` is the hexadecimal digit `d` in either case. */
  predicate Denotes(c: int, d: int) {
    0 <= d < 16 && (c == Ascii("0123456789ABCDEF")[d] || c == Ascii("0123456789abcdef")[d])
  }

  lemma HexValueExact(c: int, d: int)
    ensures HexValue(c) == Some(d) <==> Denotes(c, d)
  {
  }

  /** The blanks of section 2 of RFC 8259: space, tab, line feed and carriage return. */
  lemma SpacesExact(c: int)
    ensures IsSpace(c) <==> c in Ascii(" \t\n\r")
  {
    var blanks := Ascii(" \t\n\r");
    assert blanks[0] == 0x20 && blanks[1] == 0x09 && blanks[2] == 0x0A && blanks[3] == 0x0D;
  }

  /** An upper bound on the code of the digits read when `n` of four are left. */
  function CodeLimit(n: int): nat {
    if n == 4 then 1 else if n == 3 then 16 else if n == 2 then 256 else if n == 1 then 4096 else 65536
  }

  /** The digits up to `end` of the four `_parse_quadhex` reads. */
  function QuadHex(s: Bytes, i: nat, end: nat, acc: nat): (r: Scan<nat>)
    requires i <= |s| && i <= end <= i + 4 && acc < CodeLimit(end - i)
    ensures InRange(r, i, s)
    ensures r.Got? ==> r.next == end && r.value < 0x10000
    decreases end - i
  {
    if i == end then Got(acc, i) else
      match HexValue(CharAt(s, i))
      case None => Stop(i)
      case Some(d) => QuadHex(s, i + 1, end, acc * 16 + d)
  }

  predicate IsHighSurrogate(u: int) { 0xD800 <= u <= 0xDBFF }
  predicate IsLowSurrogate(u: int) { 0xDC00 <= u <= 0xDFFF }

  /** The bytes `_parse_codepoint` pushes for a code point. */
  function CodePointBytes(u: int): (b: Bytes)
    requires 0 <= u <= 0x10FFFF
  {
    if u < 0x80 then [u]
    else if u < 0x800 then [0xC0 + u / 64, 0x80 + u % 64]
    else if u < 0x10000 then [0xE0 + u / 4096, 0x80 + u / 64 % 64, 0x80 + u % 64]
    else [0xF0 + u / 262144, 0x80 + u / 4096 % 64, 0x80 + u / 64 % 64, 0x80 + u % 64]
  }

  /** `_parse_codepoint`, with the index after the `u` of an escape. */
  function CodePoint(s: Bytes, i: nat): (r: Scan<Bytes>)
    requires i <= |s|
    ensures InRange(r, i, s)
  {
    var first := QuadHex(s, i, i + 4, 0);
    if first.Stop? then Stop(first.next) else
      var u := first.value;
      if IsLowSurrogate(u) then Stop(first.next)
      else if IsHighSurrogate(u) then LowHalf(s, first.next, u)
      else Got(CodePointBytes(u), first.next)
  }

  /** The second escape of a surrogate pair, after the high half `u`. */
  function LowHalf(s: Bytes, i: nat, u: int): (r: Scan<Bytes>)
    requires i <= |s| && IsHighSurrogate(u)
    ensures InRange(r, i, s)
  {
    if CharAt(s, i) != BACKSLASH then Stop(i)
    else if CharAt(s, i + 1) != 0x75 then Stop(i + 1)
    else
      var second := QuadHex(s, i + 2, i + 6, 0);
      if second.Got? && IsLowSurrogate(second.value)
      then Got(CodePointBytes((u - 0xD800) * 1024 + (second.value - 0xDC00) + 0x10000), second.next)
      else Stop(second.next)
  }

  /** The byte a one-letter escape stands for. */
  function SimpleEscape(c: int): Option<byte> {
    if c == QUOTE then Some(QUOTE)
    else if c == BACKSLASH then Some(BACKSLASH)
    else if c == SLASH then Some(SLASH)
    else if c == 0x62 then Some(0x08)
    else if c == 0x66 then Some(0x0C)
    else if c == 0x6E then Some(LF)
    else if c == 0x72 then Some(CR)
    else if c == 0x74 then Some(TAB)
    else None
  }

  /** One step of the loop of `_parse_string`. */
  datatype StringStep = Closed(next: nat) | Pushed(bytes: Bytes, next: nat) | Broken(next: nat)

  function StringStepAt(s: Bytes, i: nat): (r: StringStep)
    requires i <= |s|
    ensures i <= r.next <= |s|
    ensures !r.Broken? ==> i < r.next
  {
    var c := CharAt(s, i);
    if c < SPACE then Broken(i)
    else if c == QUOTE then Closed(i + 1)
    else if c == BACKSLASH then
      var e := CharAt(s, i + 1);
      if e == -1 then Broken(i + 1)
      else if SimpleEscape(e).Some? then Pushed([SimpleEscape(e).value], i + 2)
      else if e == 0x75 then
        var u := CodePoint(s, i + 2);
        if u.Got? then Pushed(u.value, u.next) else Broken(u.next)
      else Broken(i + 2)
    else Pushed([c], i + 1)
  }

  /** `_parse_string`, with the index after the opening quote and `acc` pushed so far. */
  function StringBody(s: Bytes, i: nat, acc: Bytes): (r: Scan<Bytes>)
    requires i <= |s|
    ensures InRange(r, if r.Got? then i + 1 else i, s)
    decreases |s| - i
  {
    match StringStepAt(s, i)
    case Closed(j) => Got(acc, j)
    case Broken(j) => Stop(j)
    case Pushed(bytes, j) => StringBody(s, j, acc + bytes)
  }

  // ---- numbers ----

  predicate IsDigit(c: int) { ZERO <= c <= NINE }

  predicate IsNumberChar(c: int) {
    IsDigit(c) || c == PLUS || c == MINUS || c == 0x65 || c == 0x45 || c == DOT
  }

  function NumberEnd(s: Bytes, i: nat): (j: nat)
    requires i <= |s|
    ensures i <= j <= |s|
    ensures forall k | i <= k < j :: IsNumberChar(s[k])
    ensures j < |s| ==> !IsNumberChar(s[j])
    decreases |s| - i
  {
    if IsNumberChar(CharAt(s, i)) then NumberEnd(s, i + 1) else i
  }

  function DigitsEnd(t: Bytes, i: nat): (j: nat)
    requires i <= |t|
    ensures i <= j <= |t|
    ensures forall k | i <= k < j :: IsDigit(t[k])
    ensures j < |t| ==> !IsDigit(t[j])
    decreases |t| - i
  {
    if IsDigit(CharAt(t, i)) then DigitsEnd(t, i + 1) else i
  }

  function AfterSign(t: Bytes, i: nat): (j: nat)
    requires i <= |t|
    ensures i <= j <= |t|
  {
    if CharAt(t, i) == PLUS || CharAt(t, i) == MINUS then i + 1 else i
  }

  /** The number a run of digits denotes. */
  function DigitsValue(d: Bytes): nat
    requires forall k | 0 <= k < |d| :: IsDigit(d[k])
  {
    if d == [] then 0 else assert IsDigit(d[|d| - 1]); DigitsValue(d[..|d| - 1]) * 10 + (d[|d| - 1] - ZERO)
  }

  function WithSign(t: Bytes, i: nat, magnitude: nat): int {
    if CharAt(t, i) == MINUS then 0 - magnitude as int else magnitude as int
  }

  /** What `strtoimax` returns when it reads the whole of `t` without a range error. */
  function WholeInteger(t: Bytes): Option<int64> {
    var i := AfterSign(t, 0);
    if i < |t| && DigitsEnd(t, i) == |t| then
      var v := WithSign(t, 0, DigitsValue(t[i..]));
      if INT64_MIN <= v <= INT64_MAX then Some(v) else None
    else None
  }

  function Power10(e: int): real
    decreases if e < 0 then -e else e
  {
    if e == 0 then 1.0 else if e > 0 then 10.0 * Power10(e - 1) else Power10(e + 1) / 10.0
  }

  function Scaled(mantissa: int, e: int): real {
    mantissa as real * Power10(e)
  }

  /** The exponent that stands at `j` up to the end of `t`; 0 when there is none, None when something else stands
      there. */
  function ExponentAt(t: Bytes, j: nat): Option<int>
    requires j <= |t|
  {
    if j == |t| then Some(0)
    else if t[j] == 0x65 || t[j] == 0x45 then
      var e := AfterSign(t, j + 1);
      if e < |t| && DigitsEnd(t, e) == |t| then Some(WithSign(t, j + 1, DigitsValue(t[e..]))) else None
    else None
  }

  /** The exact value of the decimal that `strtod` reads when it reads the whole of `t` (C locale). */
  function WholeDouble(t: Bytes): Option<real> {
    var i := AfterSign(t, 0);
    var whole := DigitsEnd(t, i);
    var point := if CharAt(t, whole) == DOT then whole + 1 else whole;
    var frac := if CharAt(t, whole) == DOT then DigitsEnd(t, point) else whole;
    if whole - i + (frac - point) == 0 then None else
      var digits := t[i..whole] + t[point..frac];
      assert forall k | 0 <= k < |digits| ::
        digits[k] == if k < whole - i then t[i + k] else t[point + (k - (whole - i))];
      var mantissa := WithSign(t, 0, DigitsValue(digits));
      match ExponentAt(t, frac)
      case None => None
      case Some(e) => Some(Scaled(mantissa, e - (frac - point)))
  }

  function Power2(n: nat): real {
    if n == 0 then 1.0 else 2.0 * Power2(n - 1)
  }

  /** Decimals of at least this magnitude round to infinity. */
  predicate Overflows(x: real) {
    var limit := Power2(1024) - Power2(970);
    x >= limit || x <= -limit
  }

  // ---- values ----

  /** `default_parse_context` stores what it reads; `null_parse_context` stores nothing. */
  datatype Context = Building | Validating

  function Stored(ctx: Context, v: Value): Value {
    if ctx.Building? then v else Null
  }

  /** A parse ends with a value, in a syntax error, or because building a double threw `std::overflow_error`. */
  datatype Parsed = Ok(value: Value, next: nat) | Fail(next: nat) | Overflow

  function Literal(ctx: Context, r: Scan<()>, v: Value): (p: Parsed)
  {
    match r
    case Got(_, j) => Ok(Stored(ctx, v), j)
    case Stop(j) => Fail(j)
  }

  /** The number starting at `i`. */
  function NumberValue(ctx: Context, s: Bytes, i: nat): (p: Parsed)
    requires i < |s| && IsNumberChar(s[i])
    ensures p.Ok? || p.Fail? ==> i < p.next <= |s|
  {
    var j := NumberEnd(s, i);
    assert i < j;
    var t := s[i..j];
    match WholeInteger(t)
    case Some(n) => Ok(Stored(ctx, Int(n)), j)
    case None =>
      match WholeDouble(t)
      case None => Fail(j)
      case Some(x) => if ctx.Building? && Overflows(x) then Overflow else Ok(Stored(ctx, Number(x)), j)
  }

  /** `_parse`. Every success consumes at least one byte, which is why the recursion ends. */
  function ParseValue(ctx: Context, s: Bytes, i: nat): (p: Parsed)
    requires i <= |s|
    ensures p.Ok? ==> i < p.next <= |s|
    ensures p.Fail? ==> i <= p.next <= |s|
    decreases |s| - i, 0
  {
    var j := SkipWs(s, i);
    var c := CharAt(s, j);
    if c == 0x6E then Literal(ctx, Match(s, j + 1, NULL_TEXT[1..]), Null)
    else if c == 0x66 then Literal(ctx, Match(s, j + 1, FALSE_TEXT[1..]), Bool(false))
    else if c == 0x74 then Literal(ctx, Match(s, j + 1, TRUE_TEXT[1..]), Bool(true))
    else if c == QUOTE then
      (match StringBody(s, j + 1, [])
       case Got(bytes, k) => Ok(Stored(ctx, Str(bytes)), k)
       case Stop(k) => Fail(k))
    else if c == OPEN_BRACKET then
      (match Expect(s, j + 1, CLOSE_BRACKET)
       case Got(_, k) => Ok(Stored(ctx, Arr([])), k)
       case Stop(k) => ParseItems(ctx, s, k, []))
    else if c == OPEN_BRACE then
      (match Expect(s, j + 1, CLOSE_BRACE)
       case Got(_, k) => Ok(Stored(ctx, Obj(map[])), k)
       case Stop(k) => ParseMembers(ctx, s, k, map[]))
    else if IsDigit(c) || c == MINUS then NumberValue(ctx, s, j)
    else Fail(j)
  }

  /** The loop of `_parse_array`, with the elements read so far. */
  function ParseItems(ctx: Context, s: Bytes, i: nat, acc: seq<Value>): (p: Parsed)
    requires i <= |s|
    ensures p.Ok? ==> i < p.next <= |s|
    ensures p.Fail? ==> i <= p.next <= |s|
    decreases |s| - i, 1
  {
    var item := ParseValue(ctx, s, i);
    if !item.Ok? then item else
      var acc' := if ctx.Building? then acc + [item.value] else acc;
      var comma := Expect(s, item.next, COMMA);
      if comma.Got? then ParseItems(ctx, s, comma.next, acc')
      else Literal(ctx, Expect(s, comma.next, CLOSE_BRACKET), Arr(acc'))
  }

  /** The loop of `_parse_object`, with the members read so far; a repeated key overwrites. */
  function ParseMembers(ctx: Context, s: Bytes, i: nat, acc: map<Bytes, Value>): (p: Parsed)
    requires i <= |s|
    ensures p.Ok? ==> i < p.next <= |s|
    ensures p.Fail? ==> i <= p.next <= |s|
    decreases |s| - i, 1
  {
    var quote := Expect(s, i, QUOTE);
    if quote.Stop? then Fail(quote.next) else
      var key := StringBody(s, quote.next, []);
      if key.Stop? then Fail(key.next) else
        var colon := Expect(s, key.next, COLON);
        if colon.Stop? then Fail(colon.next) else
          var item := ParseValue(ctx, s, colon.next);
          if !item.Ok? then item else
            var acc' := if ctx.Building? then acc[key.value := item.value] else acc;
            var comma := Expect(s, item.next, COMMA);
            if comma.Got? then ParseMembers(ctx, s, comma.next, acc')
            else Literal(ctx, Expect(s, comma.next, CLOSE_BRACE), Obj(acc'))
  }
}
