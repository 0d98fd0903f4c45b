/** What the serializer's text looks like, character by character (RFC 8259). */
module JsonLayout {
  import opened Bytes
  import opened JsonValue

  // ---- scalars ----

  lemma LiteralTexts(b: bool, indent: int)
    requires -1 <= indent
    ensures Body(Null, indent) == Ascii("null") && Body(Bool(b), indent) == Ascii(if b then "true" else "false")
  {
  }

  function PowerOfTen(n: nat): (p: nat)
    ensures p > 0
  {
    if n == 0 then 1 else 10 * PowerOfTen(n - 1)
  }

  /** Counted from the right, digit `k` stands for the k-th power of ten. */
  lemma {:induction false} DigitByPosition(n: nat, k: nat)
    requires k < |Digits(n)|
    ensures Digits(n)[|Digits(n)| - 1 - k] == '0' as int + n / PowerOfTen(k) % 10
  {
    if k > 0 {
      var d, e := Digits(n), Digits(n / 10);
      assert n >= 10 && d == e + [ZERO + n % 10];
      assert d[|d| - 1 - k] == e[|e| - 1 - (k - 1)];
      DigitByPosition(n / 10, k - 1);
      DivideByTen(n, PowerOfTen(k - 1));
    } else {
      assert PowerOfTen(0) == 1;
    }
  }

  /** There are just as many digits as the number needs. */
  lemma {:induction false} DigitsNeeded(n: nat)
    ensures n < PowerOfTen(|Digits(n)|) && (n > 0 ==> PowerOfTen(|Digits(n)| - 1) <= n) && (n == 0 ==> |Digits(n)| == 1)
  {
    if n >= 10 {
      DigitsNeeded(n / 10);
      assert |Digits(n)| == |Digits(n / 10)| + 1;
    } else {
      assert PowerOfTen(0) == 1 && PowerOfTen(1) == 10;
    }
  }

  lemma DivideByTen(n: nat, p: nat)
    requires p > 0
    ensures n / (10 * p) == n / 10 / p
  {
    var q := n / 10 / p;
    assert n / 10 == p * q + n / 10 % p;
    assert n == 10 * (n / 10) + n % 10;
    assert 10 * (p * q) == (10 * p) * q;
    QuotientUnique(n, 10 * p, q);
  }

  lemma QuotientUnique(n: int, d: int, q: int)
    requires d > 0 && d * q <= n < d * q + d
    ensures n / d == q
  {
    var p := n / d;
    assert n == d * p + n % d;
    if p < q { Ordered(p + 1, q, d); }
    if p > q { Ordered(q + 1, p, d); }
  }

  lemma Ordered(a: int, b: int, d: int)
    requires a <= b && d > 0
    ensures d * a <= d * b
  {
  }

  lemma IntegerText(i: int64, indent: int)
    requires -1 <= indent
    ensures Body(Int(i), indent) == if i < 0 then Ascii("-") + Digits(-(i as int)) else Digits(i)
    ensures INT64_MAX == PowerOfTwo(63) - 1 && INT64_MIN == -PowerOfTwo(63)
  {
    PowerOf63();
  }

  function PowerOfTwo(n: nat): int {
    if n == 0 then 1 else 2 * PowerOfTwo(n - 1)
  }

  lemma {:induction false} PowersOfTwoAdd(a: nat, b: nat)
    ensures PowerOfTwo(a + b) == PowerOfTwo(a) * PowerOfTwo(b)
  {
    if a > 0 {
      PowersOfTwoAdd(a - 1, b);
    }
  }

  lemma PowerOf63()
    ensures PowerOfTwo(63) == 0x8000_0000_0000_0000
  {
    assert PowerOfTwo(4) == 16;
    PowersOfTwoAdd(4, 4);
    PowersOfTwoAdd(8, 8);
    PowersOfTwoAdd(16, 16);
    PowersOfTwoAdd(32, 32);
    assert PowerOfTwo(64) == 2 * PowerOfTwo(63);
  }

  // ---- strings ----

  /** The characters that have an escape of their own, and the letters of the escapes. */
  function Escapable(): (e: Bytes)
    ensures |e| == 8
  {
    Ascii("\"\\/") + [0x08, 0x0C] + Ascii("\n\r\t")
  }

  function EscapeLetters(): (l: Bytes)
    ensures |l| == 8
  {
    Ascii("\"\\/bfnrt")
  }

  /** Such a character is a backslash and its letter; another control character is "\u00" and two digits; every other
      byte is itself. */
  lemma EscapedAs(c: byte)
    ensures forall k | 0 <= k < 8 :: Escapable()[k] == c ==> EscapedByte(c) == Ascii("\\") + [EscapeLetters()[k]]
    ensures c !in Escapable() && (c < 0x20 || c == 0x7F) ==>
      EscapedByte(c) == Ascii("\\u00") + [Ascii("0123456789abcdef")[c / 16], Ascii("0123456789abcdef")[c % 16]]
    ensures c !in Escapable() && c >= 0x20 && c != 0x7F ==> EscapedByte(c) == [c]
  {
    var e, l := Escapable(), EscapeLetters();
    assert e[0] == 0x22 && e[1] == 0x5C && e[2] == 0x2F && e[3] == 0x08 && e[4] == 0x0C && e[5] == 0x0A && e[6] == 0x0D
      && e[7] == 0x09;
    assert l[0] == 0x22 && l[1] == 0x5C && l[2] == 0x2F && l[3] == 0x62 && l[4] == 0x66 && l[5] == 0x6E && l[6] == 0x72
      && l[7] == 0x74;
    LowerDigit(c / 16);
    LowerDigit(c % 16);
  }

  lemma LowerDigit(d: int)
    requires 0 <= d < 16
    ensures HexDigit(d) == Ascii("0123456789abcdef")[d]
  {
  }

  /** A string is escaped byte by byte, between quotes. */
  lemma {:induction false} StringText(s: Bytes, t: Bytes)
    ensures EscapedText([]) == [] && EscapedText(s + t) == EscapedText(s) + EscapedText(t)
    ensures |s| == 1 ==> EscapedText(s) == EscapedByte(s[0])
    ensures QuotedText(s) == Ascii("\"") + EscapedText(s) + Ascii("\"")
    decreases |s|
  {
    hide EscapedByte;
    assert Ascii("\"") == [QUOTE];
    if s == [] {
      assert s + t == t;
    } else {
      StringText(s[1..], t);
      assert (s + t)[1..] == s[1..] + t;
      Assoc(EscapedByte(s[0]), EscapedText(s[1..]), EscapedText(t));
    }
  }

  // ---- containers ----

  /** A new line, indented by two spaces a level; nothing in compact mode. */
  function Line(level: int): Bytes {
    if level < 0 then [] else Ascii("\n") + seq(2 * level, _ => ' ' as int)
  }

  /** Pieces with commas between them. */
  function Join(pieces: seq<Bytes>): Bytes {
    if pieces == [] then []
    else if |pieces| == 1 then pieces[0]
    else pieces[0] + (Ascii(",") + Join(pieces[1..]))
  }

  lemma {:induction false} SpacesAre(n: nat)
    ensures Spaces(n) == seq(n, _ => ' ' as int)
  {
    if n > 0 {
      SpacesAre(n - 1);
    }
  }

  lemma GapIsLine(indent: int)
    requires -1 <= indent
    ensures Gap(indent) == Line(indent)
  {
    if indent >= 0 {
      SpacesAre(2 * indent);
      assert Ascii("\n") == [LF];
    }
  }

  /** The level inside a container. */
  function Inside(indent: int): int {
    if indent == -1 then -1 else indent + 1
  }

  lemma Comma()
    ensures Ascii(",") == [COMMA]
  {
  }

  function ElementTexts(v: Value, level: int): seq<Bytes>
    requires v.Arr? && -1 <= level && NumberFree(v)
  {
    seq(|v.a|, k requires 0 <= k < |v.a| => Line(level) + Body(v.a[k], level))
  }

  lemma {:induction false} ItemsJoin(v: Value, k: nat, level: int)
    requires v.Arr? && k < |v.a| && -1 <= level != 0 && NumberFree(v)
    ensures Items(v, k, level) == (if k == 0 then [] else Ascii(",")) + Join(ElementTexts(v, level)[k..])
    decreases |v.a| - k
  {
    hide Body, Line, Gap, NumberFree;
    var rest := ElementTexts(v, level)[k..];
    assert NumberFree(v.a[k]) by { ElementFree(v, k); }
    var gap, item, sep := Gap(level), Body(v.a[k], level), if k == 0 then [] else [COMMA];
    GapIsLine(level);
    Comma();
    assert rest[0] == gap + item;
    if k + 1 == |v.a| {
      assert Items(v, k, level) == (sep + gap) + (item + []);
      assert item + [] == item;
      Assoc(sep, gap, item);
    } else {
      ItemsJoin(v, k + 1, level);
      assert rest[1..] == ElementTexts(v, level)[k + 1..];
      var more := Items(v, k + 1, level);
      assert Items(v, k, level) == (sep + gap) + (item + more);
      Assoc(sep, gap, item + more);
      Assoc(gap, item, more);
    }
  }

  lemma ElementFree(v: Value, k: nat)
    requires NumberFree(v) && v.Arr? && k < |v.a|
    ensures NumberFree(v.a[k])
  {
  }

  /** An array: its elements in order, each on its own line, with commas between them and brackets around them. */
  lemma ArrayLayout(v: Value, indent: int)
    requires v.Arr? && -1 <= indent && NumberFree(v)
    ensures Body(v, indent) ==
      Ascii("[") + (Join(ElementTexts(v, Inside(indent))) + (if v.a == [] then [] else Line(indent)) + Ascii("]"))
  {
    hide Line, Gap, Items, Join, ElementTexts;
    var level := Inside(indent);
    GapIsLine(indent);
    assert Ascii("[") == [OPEN_BRACKET] && Ascii("]") == [CLOSE_BRACKET];
    if v.a == [] {
      EmptyTexts(v, level);
      assert Body(v, indent) == [OPEN_BRACKET] + ([] + ([] + [CLOSE_BRACKET]));
    } else {
      ItemsJoin(v, 0, level);
      assert ElementTexts(v, level)[0..] == ElementTexts(v, level);
      var items := Items(v, 0, level);
      assert items == [] + Join(ElementTexts(v, level));
      Assoc(items, Line(indent), [CLOSE_BRACKET]);
    }
  }

  lemma EmptyTexts(v: Value, level: int)
    requires v.Arr? && v.a == [] && -1 <= level && NumberFree(v)
    ensures Items(v, 0, level) == [] && Join(ElementTexts(v, level)) == []
  {
  }

  /** A key between quotes, a colon, and a space unless the text is compact. */
  function KeyPart(key: Bytes, level: int): Bytes {
    QuotedText(key) + Ascii(if level == -1 then ":" else ": ")
  }

  lemma KeyTextIsPart(key: Bytes, level: int)
    ensures KeyText(key, level) == KeyPart(key, level)
  {
    assert Ascii(":") == [COLON] && Ascii(": ") == [COLON, SPACE];
  }

  function MemberTexts(v: Value, keys: seq<Bytes>, level: int): seq<Bytes>
    requires v.Obj? && AreKeys(v.o, keys) && -1 <= level && NumberFree(v)
  {
    seq(|keys|, k requires 0 <= k < |keys| => Line(level) + (KeyPart(keys[k], level) + Body(v.o[keys[k]], level)))
  }

  lemma {:induction false} MembersJoin(v: Value, keys: seq<Bytes>, k: nat, level: int)
    requires v.Obj? && k < |keys| && AreKeys(v.o, keys) && -1 <= level != 0 && NumberFree(v)
    ensures Members(v, keys, k, level) == (if k == 0 then [] else Ascii(",")) + Join(MemberTexts(v, keys, level)[k..])
    decreases |keys| - k
  {
    hide Body, Line, Gap, KeyText, KeyPart, NumberFree;
    var rest := MemberTexts(v, keys, level)[k..];
    assert keys[k] in v.o && NumberFree(v.o[keys[k]]) by { MemberFree(v, keys[k]); }
    var gap, head, item := Gap(level), KeyText(keys[k], level), Body(v.o[keys[k]], level);
    var sep := if k == 0 then [] else [COMMA];
    GapIsLine(level);
    KeyTextIsPart(keys[k], level);
    Comma();
    assert rest[0] == gap + (head + item);
    if k + 1 == |keys| {
      assert Members(v, keys, k, level) == (sep + gap) + (head + (item + []));
      assert item + [] == item;
      Assoc(sep, gap, head + item);
    } else {
      MembersJoin(v, keys, k + 1, level);
      assert rest[1..] == MemberTexts(v, keys, level)[k + 1..];
      var more := Members(v, keys, k + 1, level);
      assert Members(v, keys, k, level) == (sep + gap) + (head + (item + more));
      Assoc(sep, gap, head + (item + more));
      Assoc(head, item, more);
      Assoc(gap, head + item, more);
    }
  }

  lemma MemberFree(v: Value, key: Bytes)
    requires NumberFree(v) && v.Obj? && key in v.o
    ensures NumberFree(v.o[key])
  {
  }

  /** The keys of an object in order: of any two, one index decides which comes first. */
  ghost predicate InOrder(keys: seq<Bytes>) {
    forall i, j | 0 <= i < j < |keys| :: Before(keys[i], keys[j])
  }

  lemma OrderIsMapOrder(o: map<Bytes, Value>, keys: seq<Bytes>)
    requires InOrder(keys) && |keys| == |o| && forall k :: k in keys <==> k in o
    ensures keys == Sorted(o.Keys)
  {
    hide Sorted, Less, Before;
    forall i, j | 0 <= i < j < |keys| ensures Less(keys[i], keys[j]) { LessByIndex(keys[i], keys[j]); }
    assert |Sorted(o.Keys)| == |o|;
    AscendingOnce(keys, Sorted(o.Keys));
  }

  lemma ObjectText(v: Value, indent: int)
    requires v.Obj? && -1 <= indent && NumberFree(v)
    ensures AreKeys(v.o, Sorted(v.o.Keys))
    ensures var keys := Sorted(v.o.Keys);
      Body(v, indent) == [OPEN_BRACE]
        + (Members(v, keys, 0, Inside(indent)) + ((if v.o == map[] then [] else Line(indent)) + [CLOSE_BRACE]))
  {
    hide Line, Gap, Members, Sorted;
    GapIsLine(indent);
  }

  /** An object: its members in the order of their keys, each on its own line, with commas between them and braces
      around them. */
  lemma ObjectLayout(v: Value, keys: seq<Bytes>, indent: int)
    requires v.Obj? && -1 <= indent && NumberFree(v)
    requires InOrder(keys) && |keys| == |v.o| && forall k :: k in keys <==> k in v.o
    ensures AreKeys(v.o, keys) && Body(v, indent) ==
      Ascii("{")
      + (Join(MemberTexts(v, keys, Inside(indent))) + (if v.o == map[] then [] else Line(indent)) + Ascii("}"))
  {
    hide Line, Members, Join, MemberTexts, Sorted, InOrder, Body, NumberFree;
    var level := Inside(indent);
    OrderIsMapOrder(v.o, keys);
    ObjectText(v, indent);
    assert Ascii("{") == [OPEN_BRACE] && Ascii("}") == [CLOSE_BRACE];
    if keys == [] {
      NoMembers(v, level);
    } else {
      MembersJoin(v, keys, 0, level);
      assert MemberTexts(v, keys, level)[0..] == MemberTexts(v, keys, level);
    }
    assert [] + Join(MemberTexts(v, keys, level)) == Join(MemberTexts(v, keys, level));
    Assoc(Join(MemberTexts(v, keys, level)), if v.o == map[] then [] else Line(indent), [CLOSE_BRACE]);
  }

  lemma NoMembers(v: Value, level: int)
    requires v.Obj? && -1 <= level && NumberFree(v)
    ensures Members(v, [], 0, level) == [] && Join(MemberTexts(v, [], level)) == []
  {
  }

  /** Compact text is the bare layout; pretty text starts at level 0 and ends in a line feed. */
  lemma SerializedLayout(v: Value)
    requires NumberFree(v)
    ensures Serialized(v, false) == Body(v, -1) && Serialized(v, true) == Body(v, 0) + Ascii("\n")
  {
    hide Body;
    assert Ascii("\n") == [LF];
    assert Body(v, -1) + [] == Body(v, -1);
  }
}
