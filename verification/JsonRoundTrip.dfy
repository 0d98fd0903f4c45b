/** Parsing undoes serializing (RFC 8259), for every value without doubles, compact or pretty-printed. */
module JsonRoundTrip {
  import opened Bytes
  import opened JsonValue
  import opened JsonGrammar

  // ---- strings ----

  lemma HexDigitReadsBack(d: int)
    requires 0 <= d < 16
    ensures HexValue(HexDigit(d)) == Some(d)
  {
  }

  /** Four digits in a row are one code. */
  lemma FourDigits(s: Bytes, i: nat, a: int, b: int, c: int, d: int)
    requires i + 4 <= |s|
    requires HexValue(s[i]) == Some(a) && HexValue(s[i + 1]) == Some(b)
    requires HexValue(s[i + 2]) == Some(c) && HexValue(s[i + 3]) == Some(d)
    ensures QuadHex(s, i, i + 4, 0) == Got(a * 4096 + b * 256 + c * 16 + d, i + 4)
  {
    var end := i + 4;
    var code := ((a * 16 + b) * 16 + c) * 16 + d;
    assert QuadHex(s, i + 3, end, (a * 16 + b) * 16 + c) == QuadHex(s, end, end, code);
    assert QuadHex(s, i + 2, end, a * 16 + b) == QuadHex(s, i + 3, end, (a * 16 + b) * 16 + c);
    assert QuadHex(s, i + 1, end, a) == QuadHex(s, i + 2, end, a * 16 + b);
  }

  /** The escape written for a byte is read back as that byte. */
  lemma EscapeReadsBack(s: Bytes, i: nat, c: byte)
    requires At(s, i, EscapedByte(c))
    ensures StringStepAt(s, i) == Pushed([c], i + |EscapedByte(c)|)
  {
    var e := EscapedByte(c);
    forall k | 0 <= k < |e| ensures s[i + k] == e[k] {
      assert s[i + k] == s[i..i + |e|][k];
    }
    if |e| == 6 {
      HexDigitReadsBack(c / 16);
      HexDigitReadsBack(c % 16);
      assert s[i + 2] == e[2] && s[i + 3] == e[3] && s[i + 4] == e[4] && s[i + 5] == e[5];
      FourDigits(s, i + 2, 0, 0, c / 16, c % 16);
    } else if |e| == 2 {
      assert s[i] == e[0] && s[i + 1] == e[1];
    } else {
      assert s[i] == e[0];
    }
  }

  lemma QuoteCloses(s: Bytes, i: nat)
    requires At(s, i, [QUOTE])
    ensures StringStepAt(s, i) == Closed(i + 1)
  {
    AtByte(s, i, [QUOTE]);
  }

  lemma {:induction false} StringReadsBack(s: Bytes, i: nat, text: Bytes, acc: Bytes)
    requires At(s, i, EscapedText(text) + [QUOTE])
    ensures StringBody(s, i, acc) == Got(acc + text, i + |EscapedText(text)| + 1)
    decreases |text|
  {
    hide At, EscapedByte, StringStepAt;
    if text == [] {
      assert EscapedText(text) + [QUOTE] == [QUOTE];
      QuoteCloses(s, i);
      assert acc + text == acc;
    } else {
      var head, rest := EscapedByte(text[0]), EscapedText(text[1..]);
      assert EscapedText(text) + [QUOTE] == head + (rest + [QUOTE]);
      AtSplit(s, i, head, rest + [QUOTE]);
      EscapeReadsBack(s, i, text[0]);
      StringReadsBack(s, i + |head|, text[1..], acc + [text[0]]);
      assert acc + [text[0]] + text[1..] == acc + text;
    }
  }

  // ---- integers ----

  lemma {:induction false} DigitsReadBack(n: nat)
    ensures DigitsValue(Digits(n)) == n
  {
    var d := Digits(n);
    if n < 10 {
      assert d[..|d| - 1] == [];
      assert DigitsValue([]) == 0;
    } else {
      assert d[..|d| - 1] == Digits(n / 10);
      DigitsReadBack(n / 10);
    }
  }

  lemma {:induction false} DigitsEndOfRun(t: Bytes, i: nat)
    requires i <= |t| && forall k | i <= k < |t| :: IsDigit(t[k])
    ensures DigitsEnd(t, i) == |t|
    decreases |t| - i
  {
    if i < |t| {
      DigitsEndOfRun(t, i + 1);
    }
  }

  function Magnitude(n: int): nat {
    if n < 0 then -n else n
  }

  /** The text of an integer is one whole number for `strtoimax`. */
  lemma IntegerReadsBack(n: int64)
    ensures WholeInteger(DecimalText(n)) == Some(n)
  {
    var t := DecimalText(n);
    var d := Digits(Magnitude(n));
    DigitsReadBack(Magnitude(n));
    if n < 0 {
      assert t[1..] == d;
      DigitsEndOfRun(t, 1);
    } else {
      assert IsDigit(d[0]);
      assert t[0..] == d;
      DigitsEndOfRun(t, 0);
    }
  }

  /** Nothing at `j` can continue a number. */
  predicate NumberStopsAt(s: Bytes, j: nat) {
    j < |s| ==> !IsNumberChar(s[j])
  }

  lemma {:induction false} NumberEndOfRun(s: Bytes, i: nat, j: nat)
    requires i <= j <= |s| && NumberStopsAt(s, j) && forall k | i <= k < j :: IsNumberChar(s[k])
    ensures NumberEnd(s, i) == j
    decreases j - i
  {
    if i < j {
      NumberEndOfRun(s, i + 1, j);
    }
  }

  /** The characters of a decimal are number characters, the first one a digit or a minus sign. */
  lemma DecimalChars(s: Bytes, i: nat, n: int64)
    requires At(s, i, DecimalText(n))
    ensures var j := i + |DecimalText(n)|;
      i < j <= |s| && s[i..j] == DecimalText(n) && (IsDigit(s[i]) || s[i] == MINUS)
      && forall k | i <= k < j :: IsNumberChar(s[k])
  {
    var t := DecimalText(n);
    assert IsDigit(t[0]) || t[0] == MINUS;
    forall k | i <= k < i + |t| ensures s[k] == t[k - i] && IsNumberChar(t[k - i]) {
      assert s[k] == s[i..i + |t|][k - i];
    }
  }

  lemma ParseNumberAt(s: Bytes, i: nat)
    requires i < |s| && (IsDigit(s[i]) || s[i] == MINUS)
    ensures ParseValue(Building, s, i) == NumberValue(Building, s, i)
  {
    hide NumberValue;
    assert SkipWs(s, i) == i;
  }

  lemma IntReadsBack(s: Bytes, i: nat, n: int64)
    requires At(s, i, DecimalText(n)) && NumberStopsAt(s, i + |DecimalText(n)|)
    ensures ParseValue(Building, s, i) == Ok(Int(n), i + |DecimalText(n)|)
  {
    hide At, DecimalText, ParseValue, WholeInteger;
    DecimalChars(s, i, n);
    NumberEndOfRun(s, i, i + |DecimalText(n)|);
    IntegerReadsBack(n);
    ParseNumberAt(s, i);
  }

  // ---- blanks ----

  lemma {:induction false} SpacesSkip(s: Bytes, i: nat, n: nat)
    requires At(s, i, Spaces(n))
    ensures |Spaces(n)| == n && i + n <= |s| && SkipWs(s, i) == SkipWs(s, i + n)
    decreases n
  {
    if n > 0 {
      AtSplit(s, i, [SPACE], Spaces(n - 1));
      AtByte(s, i, [SPACE]);
      SpacesSkip(s, i + 1, n - 1);
    }
  }

  lemma GapSkips(s: Bytes, i: nat, indent: int)
    requires -1 <= indent && At(s, i, Gap(indent))
    ensures i + |Gap(indent)| <= |s| && SkipWs(s, i) == SkipWs(s, i + |Gap(indent)|)
  {
    if indent != -1 {
      var n := indent * INDENT_WIDTH;
      AtSplit(s, i, [LF], Spaces(n));
      AtByte(s, i, [LF]);
      SpacesSkip(s, i + 1, n);
    }
  }

  /** A gap and then a byte that is not blank: the byte is what `expect` looks at. */
  lemma GapThenByte(s: Bytes, i: nat, indent: int, rest: Bytes)
    requires -1 <= indent && rest != [] && !IsSpace(rest[0]) && At(s, i, Gap(indent) + rest)
    ensures i + |Gap(indent)| + |rest| <= |s| && SkipWs(s, i) == i + |Gap(indent)|
    ensures At(s, i + |Gap(indent)|, rest) && CharAt(s, i + |Gap(indent)|) == rest[0]
    ensures SkipWs(s, i + |Gap(indent)|) == i + |Gap(indent)|
  {
    hide At, Gap;
    AtSplit(s, i, Gap(indent), rest);
    GapSkips(s, i, indent);
    AtByte(s, i + |Gap(indent)|, rest);
  }

  /** The first byte of a value's text is not blank, closes nothing and separates nothing. */
  lemma BodyHead(v: Value, indent: int)
    requires -1 <= indent && NumberFree(v)
    ensures var b := Body(v, indent);
      b != [] && !IsSpace(b[0]) && b[0] != CLOSE_BRACKET && b[0] != CLOSE_BRACE
  {
    if v.Int? {
      assert IsDigit(Digits(Magnitude(v.i))[0]);
    }
  }

  // ---- values ----

  /** The rest of an array's text after the element before index `k`. */
  function ItemsTail(v: Value, k: nat, indent: int): Bytes
    requires v.Arr? && 0 < |v.a| && k <= |v.a| && -1 <= indent && NumberFree(v)
  {
    Items(v, k, Deeper(indent)) + (Gap(indent) + [CLOSE_BRACKET])
  }

  function MembersTail(v: Value, keys: seq<Bytes>, k: nat, indent: int): Bytes
    requires v.Obj? && k <= |keys| && AreKeys(v.o, keys) && -1 <= indent && NumberFree(v)
  {
    Members(v, keys, k, Deeper(indent)) + (Gap(indent) + [CLOSE_BRACE])
  }

  /** The first byte of what follows an element. */
  lemma TailHead(s: Bytes, j: nat, indent: int, tail: Bytes, bracket: byte)
    requires -1 <= indent && !IsNumberChar(bracket) && At(s, j, tail)
    requires (tail != [] && tail[0] == COMMA) || tail == Gap(indent) + [bracket]
    ensures j <= |s| && NumberStopsAt(s, j)
  {
    hide At;
    AtByte(s, j, tail);
  }

  lemma TextHead(v: Value, indent: int, rest: Bytes)
    requires -1 <= indent && NumberFree(v)
    ensures var t := Text(v, indent) + rest;
      t != [] && !IsSpace(t[0]) && t[0] != CLOSE_BRACKET && t[0] != CLOSE_BRACE
  {
    hide Body;
    BodyHead(v, indent);
  }

  /** Inside a container no line feed follows a value. */
  lemma InnerText(v: Value, indent: int)
    requires -1 <= indent && indent != 0 && NumberFree(v)
    ensures Text(v, indent) == Body(v, indent)
  {
  }

  /** A comma is expected and found, and the gap after it is skipped. */
  lemma CommaReadsBack(s: Bytes, j: nat, indent: int, next: Bytes)
    requires -1 <= indent && next != [] && !IsSpace(next[0]) && At(s, j, [COMMA] + (Gap(indent) + next))
    ensures j < |s| && Expect(s, j, COMMA) == Got((), j + 1)
    ensures var n := j + 1 + |Gap(indent)|;
      At(s, n, next) && n <= |s| && SkipWs(s, j + 1) == n == SkipWs(s, n)
  {
    hide At, Gap;
    AtSplit(s, j, [COMMA], Gap(indent) + next);
    AtByte(s, j, [COMMA]);
    GapThenByte(s, j + 1, indent, next);
  }

  /** No comma is found before a closing bracket, and the bracket is. */
  lemma CloseReadsBack(s: Bytes, j: nat, indent: int, bracket: byte)
    requires -1 <= indent && bracket != COMMA && !IsSpace(bracket) && At(s, j, Gap(indent) + [bracket])
    ensures var n := j + |Gap(indent)|;
      j <= |s| && n < |s| && Expect(s, j, COMMA) == Stop(n) && Expect(s, n, bracket) == Got((), n + 1)
  {
    hide At, Gap;
    GapThenByte(s, j, indent, [bracket]);
  }

  lemma LiteralReadsBack(s: Bytes, i: nat, t: Bytes)
    requires At(s, i, t) && t != []
    ensures CharAt(s, i) == t[0] && Match(s, i + 1, t[1..]) == Got((), i + |t|)
  {
    AtByte(s, i, t);
    assert t == [t[0]] + t[1..];
    AtSplit(s, i, [t[0]], t[1..]);
    MatchReadsBack(s, i + 1, t[1..]);
  }

  lemma {:induction false} MatchReadsBack(s: Bytes, i: nat, t: Bytes)
    requires At(s, i, t)
    ensures Match(s, i, t) == Got((), i + |t|)
    decreases |t|
  {
    if t != [] {
      AtByte(s, i, t);
      assert t == [t[0]] + t[1..];
      AtSplit(s, i, [t[0]], t[1..]);
      MatchReadsBack(s, i + 1, t[1..]);
    }
  }

  lemma ScalarReadsBack(s: Bytes, i: nat, v: Value, indent: int)
    requires -1 <= indent && NumberFree(v) && !v.Arr? && !v.Obj?
    requires At(s, i, Body(v, indent)) && (v.Int? ==> NumberStopsAt(s, i + |Body(v, indent)|))
    ensures ParseValue(Building, s, i) == Ok(v, i + |Body(v, indent)|)
  {
    hide At, NumberValue, ParseItems, ParseMembers, Expect, StringBody, Match, DecimalText, EscapedText;
    match v {
      case Null => LiteralReadsBack(s, i, NULL_TEXT);
      case Bool(b) => LiteralReadsBack(s, i, if b then TRUE_TEXT else FALSE_TEXT);
      case Int(n) => IntReadsBack(s, i, n);
      case Str(t) =>
        AtByte(s, i, QuotedText(t));
        AtSplit(s, i, [QUOTE], EscapedText(t) + [QUOTE]);
        StringReadsBack(s, i + 1, t, []);
        assert [] + t == t;
    }
  }

  /** Leading blanks do not change what is parsed. */
  lemma BlanksSkipped(s: Bytes, i: nat, j: nat)
    requires i <= |s| && j <= |s| && SkipWs(s, i) == SkipWs(s, j)
    ensures ParseValue(Building, s, i) == ParseValue(Building, s, j)
  {
  }

  lemma {:induction false} ValueReadsBack(s: Bytes, i: nat, v: Value, indent: int)
    requires -1 <= indent && NumberFree(v)
    requires At(s, i, Body(v, indent)) && (v.Int? ==> NumberStopsAt(s, i + |Body(v, indent)|))
    ensures ParseValue(Building, s, i) == Ok(v, i + |Body(v, indent)|)
    decreases v, 1
  {
    match v {
      case Arr(a) => ArrayReadsBack(s, i, v, indent);
      case Obj(o) => ObjectReadsBack(s, i, v, indent);
      case _ => ScalarReadsBack(s, i, v, indent);
    }
  }

  lemma ParseArrayAt(s: Bytes, i: nat)
    requires i < |s| && s[i] == OPEN_BRACKET
    ensures ParseValue(Building, s, i) ==
      match Expect(s, i + 1, CLOSE_BRACKET)
      case Got(_, k) => Ok(Arr([]), k)
      case Stop(k) => ParseItems(Building, s, k, [])
  {
    hide ParseItems, Expect;
    assert SkipWs(s, i) == i;
  }

  lemma ParseObjectAt(s: Bytes, i: nat)
    requires i < |s| && s[i] == OPEN_BRACE
    ensures ParseValue(Building, s, i) ==
      match Expect(s, i + 1, CLOSE_BRACE)
      case Got(_, k) => Ok(Obj(map[]), k)
      case Stop(k) => ParseMembers(Building, s, k, map[])
  {
    hide ParseMembers, Expect;
    assert SkipWs(s, i) == i;
  }

  /** The text from element `k` to the end of the array. */
  function ItemText(v: Value, k: nat, indent: int): Bytes
    requires v.Arr? && k < |v.a| && -1 <= indent && NumberFree(v)
  {
    Text(v.a[k], Deeper(indent)) + ItemsTail(v, k + 1, indent)
  }

  lemma ItemHead(v: Value, k: nat, indent: int)
    requires -1 <= indent && NumberFree(v) && v.Arr? && k < |v.a|
    ensures var t := ItemText(v, k, indent); t != [] && !IsSpace(t[0]) && t[0] != CLOSE_BRACKET
  {
    hide Text, ItemsTail;
    TextHead(v.a[k], Deeper(indent), ItemsTail(v, k + 1, indent));
  }

  lemma ArrayText(v: Value, indent: int)
    requires -1 <= indent && NumberFree(v) && v.Arr?
    ensures Body(v, indent) == [OPEN_BRACKET] +
      if v.a == [] then [CLOSE_BRACKET]
      else Gap(Deeper(indent)) + ItemText(v, 0, indent)
  {
    hide Text, Gap;
    if v.a == [] {
      assert Items(v, 0, Deeper(indent)) + (Tail(true, indent) + [CLOSE_BRACKET]) == [CLOSE_BRACKET];
    } else {
      var gap, item := Gap(Deeper(indent)), Text(v.a[0], Deeper(indent));
      var rest, close := Items(v, 1, Deeper(indent)), Gap(indent) + [CLOSE_BRACKET];
      assert Lead(0, Deeper(indent)) == gap;
      Assoc(gap, item + rest, close);
      Assoc(item, rest, close);
    }
  }

  /** What follows element `k - 1`: the next element after a comma, or the closing bracket. */
  lemma ItemsTailText(v: Value, k: nat, indent: int)
    requires -1 <= indent && NumberFree(v) && v.Arr? && 0 < k <= |v.a|
    ensures ItemsTail(v, k, indent) ==
      if k == |v.a| then Gap(indent) + [CLOSE_BRACKET]
      else [COMMA] + (Gap(Deeper(indent)) + ItemText(v, k, indent))
  {
    hide Text, Gap;
    var inner := Deeper(indent);
    var close := Gap(indent) + [CLOSE_BRACKET];
    if k == |v.a| {
      assert [] + close == close;
    } else {
      var gap, item, rest := Gap(inner), Text(v.a[k], inner), Items(v, k + 1, inner);
      Assoc([COMMA] + gap, item + rest, close);
      Assoc(item, rest, close);
      Assoc([COMMA], gap, item + (rest + close));
    }
  }

  lemma {:induction false} ArrayReadsBack(s: Bytes, i: nat, v: Value, indent: int)
    requires -1 <= indent && NumberFree(v) && v.Arr? && At(s, i, Body(v, indent))
    ensures ParseValue(Building, s, i) == Ok(v, i + |Body(v, indent)|)
    decreases v, 0
  {
    hide At, ParseValue, ParseItems, NumberFree, Body, ItemText, Gap;
    var inner := Deeper(indent);
    ArrayText(v, indent);
    AtByte(s, i, Body(v, indent));
    ParseArrayAt(s, i);
    if v.a == [] {
      AtSplit(s, i, [OPEN_BRACKET], [CLOSE_BRACKET]);
      AtByte(s, i + 1, [CLOSE_BRACKET]);
      assert Arr([]) == v;
    } else {
      var first := ItemText(v, 0, indent);
      AtSplit(s, i, [OPEN_BRACKET], Gap(inner) + first);
      ItemHead(v, 0, indent);
      GapThenByte(s, i + 1, inner, first);
      ItemsReadBack(s, i + 1 + |Gap(inner)|, v, 0, indent, []);
    }
  }

  /** What the array loop does after an element. */
  function AfterItem(s: Bytes, j: nat, acc: seq<Value>): Parsed
    requires j <= |s|
  {
    var comma := Expect(s, j, COMMA);
    if comma.Got? then ParseItems(Building, s, comma.next, acc)
    else Literal(Building, Expect(s, comma.next, CLOSE_BRACKET), Arr(acc))
  }

  /** No number goes on where the rest of an array begins. */
  lemma ItemsTailStops(s: Bytes, j: nat, v: Value, k: nat, indent: int)
    requires -1 <= indent && NumberFree(v) && v.Arr? && 0 < k <= |v.a|
    requires At(s, j, ItemsTail(v, k, indent))
    ensures j <= |s| && NumberStopsAt(s, j)
  {
    hide At, ItemsTail, ItemText, Gap, NumberFree, NumberStopsAt;
    ItemsTailText(v, k, indent);
    TailHead(s, j, indent, ItemsTail(v, k, indent), CLOSE_BRACKET);
  }

  lemma ElementNumberFree(v: Value, k: nat)
    requires NumberFree(v) && v.Arr? && k < |v.a|
    ensures NumberFree(v.a[k])
  {
  }

  /** Where the text of element `k` ends, and what stands there. */
  lemma ItemSplits(s: Bytes, i: nat, v: Value, k: nat, indent: int)
    requires -1 <= indent && NumberFree(v) && v.Arr? && k < |v.a|
    requires At(s, i, ItemText(v, k, indent))
    ensures var item := Body(v.a[k], Deeper(indent));
      && At(s, i, item) && i + |item| <= |s| && NumberStopsAt(s, i + |item|)
      && At(s, i + |item|, ItemsTail(v, k + 1, indent))
      && |ItemText(v, k, indent)| == |item| + |ItemsTail(v, k + 1, indent)|
  {
    hide At, Text, Body, ItemsTail, NumberFree, NumberStopsAt, Deeper;
    DeeperInRange(indent);
    ElementNumberFree(v, k);
    InnerText(v.a[k], Deeper(indent));
    AtSplit(s, i, Body(v.a[k], Deeper(indent)), ItemsTail(v, k + 1, indent));
    ItemsTailStops(s, i + |Body(v.a[k], Deeper(indent))|, v, k + 1, indent);
  }

  /** Element `k` is read; the loop goes on after it. */
  lemma {:induction false} ItemReadsBack(s: Bytes, i: nat, v: Value, k: nat, indent: int, acc: seq<Value>)
    requires -1 <= indent && NumberFree(v) && v.Arr? && k < |v.a|
    requires At(s, i, ItemText(v, k, indent))
    ensures var j := i + |ItemText(v, k, indent)| - |ItemsTail(v, k + 1, indent)|;
      && i <= |s| && 0 <= j <= |s| && At(s, j, ItemsTail(v, k + 1, indent))
      && ParseItems(Building, s, i, acc) == AfterItem(s, j, acc + [v.a[k]])
    decreases v, 0, 0
  {
    hide *;
    DeeperInRange(indent);
    ElementNumberFree(v, k);
    ItemSplits(s, i, v, k, indent);
    var item := Body(v.a[k], Deeper(indent));
    ValueReadsBack(s, i, v.a[k], Deeper(indent));
    ItemStep(s, i, Ok(v.a[k], i + |item|), acc);
  }

  /** One round of the array loop. */
  lemma ItemStep(s: Bytes, i: nat, item: Parsed, acc: seq<Value>)
    requires i <= |s| && item == ParseValue(Building, s, i) && item.Ok?
    ensures item.next <= |s| && ParseItems(Building, s, i, acc) == AfterItem(s, item.next, acc + [item.value])
  {
    hide ParseValue, Expect;
  }

  lemma {:induction false} ItemsSkipBlanks(s: Bytes, i: nat, j: nat, acc: seq<Value>)
    requires i <= |s| && j <= |s| && SkipWs(s, i) == SkipWs(s, j)
    ensures ParseItems(Building, s, i, acc) == ParseItems(Building, s, j, acc)
  {
    hide ParseValue, Expect, Literal;
    BlanksSkipped(s, i, j);
  }

  /** After the last element the array loop ends with the whole array. */
  lemma ItemsClose(s: Bytes, j: nat, v: Value, indent: int, acc: seq<Value>)
    requires -1 <= indent && NumberFree(v) && v.Arr? && v.a != [] && acc == v.a
    requires At(s, j, ItemsTail(v, |v.a|, indent))
    ensures j <= |s| && AfterItem(s, j, acc) == Ok(v, j + |ItemsTail(v, |v.a|, indent)|)
  {
    hide At, ParseItems, Gap, Expect, ItemsTail, NumberFree;
    ItemsTailText(v, |v.a|, indent);
    CloseReadsBack(s, j, indent, CLOSE_BRACKET);
  }

  /** After another element it goes on at the next one, behind the comma and the gap. */
  lemma ItemsGoOn(s: Bytes, j: nat, v: Value, k: nat, indent: int, acc: seq<Value>)
    requires -1 <= indent && NumberFree(v) && v.Arr? && 0 < k < |v.a|
    requires At(s, j, ItemsTail(v, k, indent))
    ensures var n := j + |ItemsTail(v, k, indent)| - |ItemText(v, k, indent)|;
      && j <= |s| && 0 <= n <= |s| && At(s, n, ItemText(v, k, indent))
      && AfterItem(s, j, acc) == ParseItems(Building, s, n, acc)
  {
    hide At, ParseItems, NumberFree, ItemText, ItemsTail, Gap, Expect, SkipWs, Deeper, Literal, IsSpace;
    DeeperInRange(indent);
    ItemsTailText(v, k, indent);
    ItemHead(v, k, indent);
    CommaReadsBack(s, j, Deeper(indent), ItemText(v, k, indent));
    ItemsSkipBlanks(s, j + 1, j + 1 + |Gap(Deeper(indent))|, acc);
  }

  lemma TakeMore(a: seq<Value>, k: nat)
    requires k < |a|
    ensures a[..k] + [a[k]] == a[..k + 1] && (k + 1 == |a| ==> a[..k + 1] == a)
  {
  }

  /** From the first byte of element `k` on, the array loop reads the remaining elements. */
  lemma {:induction false} ItemsReadBack(s: Bytes, i: nat, v: Value, k: nat, indent: int, acc: seq<Value>)
    requires -1 <= indent && NumberFree(v) && v.Arr? && k < |v.a| && acc == v.a[..k]
    requires At(s, i, ItemText(v, k, indent))
    ensures i <= |s| && ParseItems(Building, s, i, acc) == Ok(v, i + |ItemText(v, k, indent)|)
    decreases v, 0, |v.a| - k
  {
    hide At, ParseItems, NumberFree, ItemText, ItemsTail, AfterItem;
    var j := i + |ItemText(v, k, indent)| - |ItemsTail(v, k + 1, indent)|;
    ItemReadsBack(s, i, v, k, indent, acc);
    var acc' := acc + [v.a[k]];
    TakeMore(v.a, k);
    if k + 1 < |v.a| {
      ItemsGoOn(s, j, v, k + 1, indent, acc');
      var n := j + |ItemsTail(v, k + 1, indent)| - |ItemText(v, k + 1, indent)|;
      ItemsReadBack(s, n, v, k + 1, indent, acc');
    } else {
      ItemsClose(s, j, v, indent, acc');
    }
  }

  lemma DeeperInRange(indent: int)
    requires -1 <= indent
    ensures -1 <= Deeper(indent) && Deeper(indent) != 0
  {
  }

  predicate AllKeys(o: map<Bytes, Value>, keys: seq<Bytes>) {
    forall key | key in o :: key in keys
  }

  /** The members of `o` under the first `k` of `keys`. */
  function Prefix(o: map<Bytes, Value>, keys: seq<Bytes>, k: nat): map<Bytes, Value>
    requires k <= |keys| && AreKeys(o, keys)
  {
    map key | key in keys[..k] :: o[key]
  }

  lemma PrefixGrows(o: map<Bytes, Value>, keys: seq<Bytes>, k: nat)
    requires k < |keys| && AreKeys(o, keys)
    ensures keys[k] in o && Prefix(o, keys, k + 1) == Prefix(o, keys, k)[keys[k] := o[keys[k]]]
  {
    assert keys[..k + 1] == keys[..k] + [keys[k]];
  }

  lemma ObjectText(v: Value, indent: int)
    requires -1 <= indent && NumberFree(v) && v.Obj?
    ensures var keys := Sorted(v.o.Keys);
      (v.o == map[] <==> keys == [])
      && Body(v, indent) == [OPEN_BRACE] +
        if keys == [] then [CLOSE_BRACE] else Gap(Deeper(indent)) + MemberText(v, keys, 0, indent)
  {
    hide Text, KeyText, Sorted, Gap;
    var keys, inner := Sorted(v.o.Keys), Deeper(indent);
    if key :| key in v.o { assert key in keys; }
    if keys == [] {
      assert Members(v, keys, 0, inner) + (Tail(true, indent) + [CLOSE_BRACE]) == [CLOSE_BRACE];
    } else {
      assert keys[0] in v.o;
      var gap, head, item := Gap(inner), KeyText(keys[0], inner), Text(v.o[keys[0]], inner);
      var rest, close := Members(v, keys, 1, inner), Gap(indent) + [CLOSE_BRACE];
      assert Lead(0, inner) == gap;
      Assoc(gap, head + (item + rest), close);
      Assoc(head, item + rest, close);
      Assoc(item, rest, close);
    }
  }

  /** What follows member `k - 1`: the next member after a comma, or the closing brace. */
  lemma MembersTailText(v: Value, keys: seq<Bytes>, k: nat, indent: int)
    requires -1 <= indent && NumberFree(v) && v.Obj? && 0 < k <= |keys| && AreKeys(v.o, keys)
    ensures MembersTail(v, keys, k, indent) ==
      if k == |keys| then Gap(indent) + [CLOSE_BRACE]
      else [COMMA] + (Gap(Deeper(indent)) + MemberText(v, keys, k, indent))
  {
    hide Text, Gap, KeyText;
    var inner := Deeper(indent);
    var close := Gap(indent) + [CLOSE_BRACE];
    if k == |keys| {
      assert [] + close == close;
    } else {
      var gap, head, item := Gap(inner), KeyText(keys[k], inner), Text(v.o[keys[k]], inner);
      var rest := Members(v, keys, k + 1, inner);
      Assoc([COMMA] + gap, head + (item + rest), close);
      Assoc(head, item + rest, close);
      Assoc(item, rest, close);
      Assoc([COMMA], gap, head + (item + (rest + close)));
    }
  }

  lemma MemberHead(v: Value, keys: seq<Bytes>, k: nat, indent: int)
    requires -1 <= indent && NumberFree(v) && v.Obj? && k < |keys| && AreKeys(v.o, keys)
    ensures var t := MemberText(v, keys, k, indent); t != [] && t[0] == QUOTE
  {
    hide Text, MembersTail, EscapedText;
  }

  lemma {:induction false} ObjectReadsBack(s: Bytes, i: nat, v: Value, indent: int)
    requires -1 <= indent && NumberFree(v) && v.Obj? && At(s, i, Body(v, indent))
    ensures ParseValue(Building, s, i) == Ok(v, i + |Body(v, indent)|)
    decreases v, 0
  {
    hide At, ParseValue, ParseMembers, Text, Body, MembersTail, MemberText, Gap, Sorted;
    var inner := Deeper(indent);
    var keys := Sorted(v.o.Keys);
    ObjectText(v, indent);
    AtByte(s, i, Body(v, indent));
    ParseObjectAt(s, i);
    if keys == [] {
      AtSplit(s, i, [OPEN_BRACE], [CLOSE_BRACE]);
      AtByte(s, i + 1, [CLOSE_BRACE]);
      assert Obj(map[]) == v;
    } else {
      var first := MemberText(v, keys, 0, indent);
      AtSplit(s, i, [OPEN_BRACE], Gap(inner) + first);
      MemberHead(v, keys, 0, indent);
      GapThenByte(s, i + 1, inner, first);
      assert Prefix(v.o, keys, 0) == map[];
      MembersReadBack(s, i + 1 + |Gap(inner)|, v, keys, 0, indent, map[]);
    }
  }

  /** The text from the key of member `k` to the end of the object. */
  function MemberText(v: Value, keys: seq<Bytes>, k: nat, indent: int): Bytes
    requires v.Obj? && k < |keys| && AreKeys(v.o, keys) && -1 <= indent && NumberFree(v)
  {
    KeyText(keys[k], Deeper(indent)) + (Text(v.o[keys[k]], Deeper(indent)) + MembersTail(v, keys, k + 1, indent))
  }

  /** The blank after a colon is skipped. */
  lemma ColonReadsBack(s: Bytes, e: nat, indent: int, rest: Bytes)
    requires -1 <= indent && rest != [] && !IsSpace(rest[0])
    requires At(s, e, (if indent == -1 then [COLON] else [COLON, SPACE]) + rest)
    ensures e + 1 <= |s| && Expect(s, e, COLON) == Got((), e + 1)
    ensures var p := e + if indent == -1 then 1 else 2;
      At(s, p, rest) && p <= |s| && SkipWs(s, e + 1) == p == SkipWs(s, p)
  {
    hide At;
    assert [COLON] + [SPACE] == [COLON, SPACE];
    var colon := if indent == -1 then [COLON] else [COLON, SPACE];
    AtSplit(s, e, colon, rest);
    AtByte(s, e, colon);
    AtByte(s, e + |colon|, rest);
    if indent != -1 {
      AtSplit(s, e, [COLON], [SPACE]);
      AtByte(s, e + 1, [SPACE]);
    }
  }

  /** A key, its colon and the blank after it lead to the member's value. */
  lemma {:induction false} KeyReadsBack(s: Bytes, i: nat, key: Bytes, indent: int, rest: Bytes)
    requires -1 <= indent && At(s, i, KeyText(key, indent) + rest)
    requires rest != [] && !IsSpace(rest[0])
    ensures i < |s| && Expect(s, i, QUOTE) == Got((), i + 1)
    ensures var e, p := i + 1 + |EscapedText(key)| + 1, i + |KeyText(key, indent)|;
      && StringBody(s, i + 1, []) == Got(key, e)
      && e < |s| && Expect(s, e, COLON) == Got((), e + 1)
      && At(s, p, rest) && p <= |s| && SkipWs(s, e + 1) == p == SkipWs(s, p)
  {
    hide At, EscapedText, StringBody;
    var e := i + 1 + |EscapedText(key)| + 1;
    var colon := if indent == -1 then [COLON] else [COLON, SPACE];
    var body := EscapedText(key) + [QUOTE];
    assert KeyText(key, indent) + rest == [QUOTE] + (body + (colon + rest));
    AtByte(s, i, KeyText(key, indent) + rest);
    AtSplit(s, i, [QUOTE], body + (colon + rest));
    AtSplit(s, i + 1, body, colon + rest);
    StringReadsBack(s, i + 1, key, []);
    assert [] + key == key;
    ColonReadsBack(s, e, indent, rest);
  }

  /** What the object loop does after a member. */
  function AfterMember(s: Bytes, j: nat, acc: map<Bytes, Value>): Parsed
    requires j <= |s|
  {
    var comma := Expect(s, j, COMMA);
    if comma.Got? then ParseMembers(Building, s, comma.next, acc)
    else Literal(Building, Expect(s, comma.next, CLOSE_BRACE), Obj(acc))
  }

  /** One round of the object loop, up to the member's value. */
  lemma {:induction false} MemberStep(s: Bytes, i: nat, start: nat, key: Bytes, e: nat, after: nat, p: nat,
                                      item: Parsed, acc: map<Bytes, Value>)
    requires i <= |s| && start <= |s| && Expect(s, i, QUOTE) == Got((), start)
    requires e <= |s| && StringBody(s, start, []) == Got(key, e)
    requires after <= |s| && Expect(s, e, COLON) == Got((), after)
    requires p <= |s| && SkipWs(s, after) == SkipWs(s, p) && item == ParseValue(Building, s, p) && item.Ok?
    ensures item.next <= |s|
    ensures ParseMembers(Building, s, i, acc) == AfterMember(s, item.next, acc[key := item.value])
  {
    hide ParseValue, Expect, StringBody;
    BlanksSkipped(s, after, p);
  }

  /** No number goes on where the rest of an object begins. */
  lemma MembersTailStops(s: Bytes, j: nat, v: Value, keys: seq<Bytes>, k: nat, indent: int)
    requires -1 <= indent && NumberFree(v) && v.Obj? && 0 < k <= |keys| && AreKeys(v.o, keys)
    requires At(s, j, MembersTail(v, keys, k, indent))
    ensures j <= |s| && NumberStopsAt(s, j)
  {
    hide At, MembersTail, MemberText, Gap, NumberFree, AreKeys, NumberStopsAt;
    MembersTailText(v, keys, k, indent);
    TailHead(s, j, indent, MembersTail(v, keys, k, indent), CLOSE_BRACE);
  }

  /** The key and the value of member `k` are read; the loop goes on after them. */
  lemma {:induction false} MemberReadsBack(s: Bytes, i: nat, v: Value, keys: seq<Bytes>, k: nat, indent: int,
                                           acc: map<Bytes, Value>)
    requires -1 <= indent && NumberFree(v) && v.Obj? && AreKeys(v.o, keys) && AllKeys(v.o, keys)
    requires k < |keys| && At(s, i, MemberText(v, keys, k, indent))
    ensures var j := i + |MemberText(v, keys, k, indent)| - |MembersTail(v, keys, k + 1, indent)|;
      && i <= |s| && 0 <= j <= |s| && At(s, j, MembersTail(v, keys, k + 1, indent))
      && ParseMembers(Building, s, i, acc) == AfterMember(s, j, acc[keys[k] := v.o[keys[k]]])
    decreases v, 0, 0
  {
    hide At, ParseMembers, ParseValue, Body, Text, KeyText, StringBody, EscapedText, MembersTail, Expect, AfterMember,
      Gap, SkipWs;
    var inner := Deeper(indent);
    var key, w := keys[k], v.o[keys[k]];
    var item, tail := Text(w, inner), MembersTail(v, keys, k + 1, indent);
    var p := i + |KeyText(key, inner)|;
    TextHead(w, inner, tail);
    KeyReadsBack(s, i, key, inner, item + tail);
    AtSplit(s, p, item, tail);
    MembersTailStops(s, p + |item|, v, keys, k + 1, indent);
    InnerText(w, inner);
    ValueReadsBack(s, p, w, inner);
    var e := i + 1 + |EscapedText(key)| + 1;
    MemberStep(s, i, i + 1, key, e, e + 1, p, Ok(w, p + |item|), acc);
  }

  /** From the first byte of member `k` on, the object loop reads the remaining members. */
  lemma {:induction false} MembersReadBack(s: Bytes, i: nat, v: Value, keys: seq<Bytes>, k: nat, indent: int,
                                           acc: map<Bytes, Value>)
    requires -1 <= indent && NumberFree(v) && v.Obj? && AreKeys(v.o, keys) && AllKeys(v.o, keys)
    requires k < |keys| && acc == Prefix(v.o, keys, k) && At(s, i, MemberText(v, keys, k, indent))
    ensures i <= |s| && ParseMembers(Building, s, i, acc) == Ok(v, i + |MemberText(v, keys, k, indent)|)
    decreases v, 0, |keys| - k
  {
    hide At, ParseMembers, NumberFree, Body, MemberText, MembersTail, Gap, Expect, Prefix, SkipWs, Deeper, AreKeys,
      AllKeys;
    var tail := MembersTail(v, keys, k + 1, indent);
    var j := i + |MemberText(v, keys, k, indent)| - |tail|;
    MemberReadsBack(s, i, v, keys, k, indent, acc);
    PrefixGrows(v.o, keys, k);
    MembersTailText(v, keys, k + 1, indent);
    if k + 1 < |keys| {
      var next := MemberText(v, keys, k + 1, indent);
      MemberHead(v, keys, k + 1, indent);
      DeeperInRange(indent);
      CommaReadsBack(s, j, Deeper(indent), next);
      var n := j + 1 + |Gap(Deeper(indent))|;
      var acc' := acc[keys[k] := v.o[keys[k]]];
      MembersReadBack(s, n, v, keys, k + 1, indent, acc');
      MembersSkipBlanks(s, j + 1, n, acc');
    } else {
      CloseReadsBack(s, j, indent, CLOSE_BRACE);
      WholePrefix(v.o, keys);
      assert Obj(v.o) == v;
    }
  }

  lemma MembersSkipBlanks(s: Bytes, i: nat, j: nat, acc: map<Bytes, Value>)
    requires i <= |s| && j <= |s| && SkipWs(s, i) == SkipWs(s, j)
    ensures ParseMembers(Building, s, i, acc) == ParseMembers(Building, s, j, acc)
  {
    hide ParseValue, StringBody, Literal, SkipWs;
  }

  lemma WholePrefix(o: map<Bytes, Value>, keys: seq<Bytes>)
    requires AreKeys(o, keys) && AllKeys(o, keys)
    ensures Prefix(o, keys, |keys|) == o
  {
    assert keys[..|keys|] == keys;
  }

  // ---- the round trip ----

  /** Parsing what `serialize` wrote gives the value back. In pretty mode the reader stops before the final line
      feed; in compact mode it stops exactly at the rest, unless the value is a bare integer and the rest would
      continue it. */
  lemma RoundTrip(v: Value, prettify: bool, rest: Bytes)
    requires NumberFree(v)
    ensures var t := Serialized(v, prettify);
      ParseValue(Building, t + rest, 0) == Ok(v, if prettify then |t| - 1 else |t|)
      <==> !(v.Int? && !prettify && rest != [] && IsNumberChar(rest[0]))
  {
    hide Body, ParseValue;
    var indent := if prettify then 0 else -1;
    var t, b := Serialized(v, prettify), Body(v, indent);
    var tail := (if prettify then [LF] else []) + rest;
    var s := t + rest;
    assert s == b + tail;
    assert s[0..0 + |b|] == b && At(s, 0, b);
    assert NumberStopsAt(s, |b|) <==> !(!prettify && rest != [] && IsNumberChar(rest[0]));
    if v.Int? && !NumberStopsAt(s, |b|) {
      IntegerRunsOn(s, v.i);
    } else {
      ValueReadsBack(s, 0, v, indent);
    }
  }

  /** An integer followed by a number character is not read back as itself. */
  lemma IntegerRunsOn(s: Bytes, n: int64)
    requires At(s, 0, Body(Int(n), -1)) && !NumberStopsAt(s, |Body(Int(n), -1)|)
    ensures ParseValue(Building, s, 0) != Ok(Int(n), |Body(Int(n), -1)|)
  {
    hide DecimalText, ParseValue, WholeInteger, WholeDouble, Overflows;
    var t := DecimalText(n);
    DecimalChars(s, 0, n);
    ParseNumberAt(s, 0);
    assert NumberEnd(s, 0) != |t|;
  }

  /** A claim set read back from its compact text, with nothing after it. */
  lemma WholeTextReadsBack(v: Value)
    requires NumberFree(v)
    ensures ParseValue(Building, Serialized(v, false), 0) == Ok(v, |Serialized(v, false)|)
  {
    hide ParseValue, Serialized;
    RoundTrip(v, false, []);
    assert Serialized(v, false) + [] == Serialized(v, false);
  }

  /** Different values have different texts. */
  lemma SerializedInjective(v: Value, w: Value, prettify: bool)
    requires NumberFree(v) && NumberFree(w) && Serialized(v, prettify) == Serialized(w, prettify)
    ensures v == w
  {
    hide ParseValue, Serialized;
    RoundTrip(v, prettify, []);
    RoundTrip(w, prettify, []);
  }
}
