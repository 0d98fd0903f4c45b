/** JSON values and the text `value::_serialize` writes for them (picojson.h). */
module JsonValue {
  import opened Bytes

  const INT64_MIN: int := -0x8000_0000_0000_0000
  const INT64_MAX: int := 0x7FFF_FFFF_FFFF_FFFF
  type int64 = x: int | INT64_MIN <= x <= INT64_MAX

  const QUOTE: byte := 0x22
  const COMMA: byte := 0x2C
  const SLASH: byte := 0x2F
  const ZERO: byte := 0x30
  const NINE: byte := 0x39
  const OPEN_BRACKET: byte := 0x5B
  const BACKSLASH: byte := 0x5C
  const CLOSE_BRACKET: byte := 0x5D
  const OPEN_BRACE: byte := 0x7B
  const CLOSE_BRACE: byte := 0x7D
  const DELETE: byte := 0x7F

  const NULL_TEXT: Bytes := [0x6E, 0x75, 0x6C, 0x6C] // null
  const TRUE_TEXT: Bytes := [0x74, 0x72, 0x75, 0x65] // true
  const FALSE_TEXT: Bytes := [0x66, 0x61, 0x6C, 0x73, 0x65] // false

  /** A `picojson::value`. An object is a `std::map`, so each key occurs once. A double keeps the exact decimal
      value it was read from: rounding is not modelled. */
  datatype Value =
    | Null
    | Bool(b: bool)
    | Int(i: int64)
    | Number(x: real)
    | Str(s: Bytes)
    | Arr(a: seq<Value>)
    | Obj(o: map<Bytes, Value>)

  /** No double anywhere inside `v`. */
  predicate NumberFree(v: Value) {
    match v
    case Number(_) => false
    case Arr(a) => forall k | 0 <= k < |a| :: NumberFree(a[k])
    case Obj(o) => forall k | k in o :: NumberFree(o[k])
    case _ => true
  }

  function HexDigit(d: int): byte
    requires 0 <= d < 16
  {
    if d < 10 then ZERO + d else 0x61 + (d - 10)
  }

  /** What `serialize_str_char` writes for one character. */
  function EscapedByte(c: byte): Bytes {
    if c == QUOTE then [BACKSLASH, QUOTE]
    else if c == BACKSLASH then [BACKSLASH, BACKSLASH]
    else if c == SLASH then [BACKSLASH, SLASH]
    else if c == 0x08 then [BACKSLASH, 0x62]
    else if c == 0x0C then [BACKSLASH, 0x66]
    else if c == LF then [BACKSLASH, 0x6E]
    else if c == CR then [BACKSLASH, 0x72]
    else if c == TAB then [BACKSLASH, 0x74]
    else if c < 0x20 || c == DELETE then [BACKSLASH, 0x75, ZERO, ZERO, HexDigit(c / 16), HexDigit(c % 16)]
    else [c]
  }

  function EscapedText(s: Bytes): Bytes {
    if s == [] then [] else EscapedByte(s[0]) + EscapedText(s[1..])
  }

  function QuotedText(s: Bytes): Bytes {
    [QUOTE] + (EscapedText(s) + [QUOTE])
  }

  function Digits(n: nat): (d: Bytes)
    ensures d != []
    ensures forall k | 0 <= k < |d| :: ZERO <= d[k] <= NINE
  {
    if n < 10 then [ZERO + n] else Digits(n / 10) + [ZERO + n % 10]
  }

  /** "%" PRId64. */
  function DecimalText(i: int): Bytes {
    if i < 0 then [MINUS] + Digits(-i) else Digits(i)
  }

  const INDENT_WIDTH := 2

  function Spaces(n: nat): Bytes {
    if n == 0 then [] else [SPACE] + Spaces(n - 1)
  }

  /** The indentation of the members of a container; -1 is the compact mode. */
  function Deeper(indent: int): int {
    if indent == -1 then -1 else indent + 1
  }

  /** The new line and the spaces `_indent` writes; nothing in compact mode. */
  function Gap(indent: int): Bytes
    requires -1 <= indent
  {
    if indent == -1 then [] else [LF] + Spaces(indent * INDENT_WIDTH)
  }

  /** What stands before element `k` of a container whose elements are indented by `indent`. */
  function Lead(k: nat, indent: int): Bytes
    requires -1 <= indent
  {
    (if k == 0 then [] else [COMMA]) + Gap(indent)
  }

  /** What stands before the closing bracket of a container. */
  function Tail(empty: bool, indent: int): Bytes
    requires -1 <= indent
  {
    if empty then [] else Gap(indent)
  }

  function KeyText(key: Bytes, indent: int): Bytes {
    QuotedText(key) + if indent == -1 then [COLON] else [COLON, SPACE]
  }

  /** The text of `v` up to the line feed that ends an outermost pretty-printed value. */
  function Body(v: Value, indent: int): Bytes
    requires -1 <= indent && NumberFree(v)
    decreases v, 2
  {
    match v
    case Null => NULL_TEXT
    case Bool(b) => if b then TRUE_TEXT else FALSE_TEXT
    case Int(i) => DecimalText(i)
    case Str(s) => QuotedText(s)
    case Arr(a) => [OPEN_BRACKET] + (Items(v, 0, Deeper(indent)) + (Tail(a == [], indent) + [CLOSE_BRACKET]))
    case Obj(o) =>
      [OPEN_BRACE] + (Members(v, Sorted(o.Keys), 0, Deeper(indent)) + (Tail(o == map[], indent) + [CLOSE_BRACE]))
  }

  /** The elements of an array from index `k` on. */
  function Items(v: Value, k: nat, indent: int): Bytes
    requires v.Arr? && k <= |v.a| && -1 <= indent && NumberFree(v)
    decreases v, 1, |v.a| - k
  {
    if k == |v.a| then [] else Lead(k, indent) + (Text(v.a[k], indent) + Items(v, k + 1, indent))
  }

  predicate AreKeys(o: map<Bytes, Value>, keys: seq<Bytes>) {
    forall key | key in keys :: key in o
  }

  /** The members of an object from index `k` of the key order `keys` on. */
  function Members(v: Value, keys: seq<Bytes>, k: nat, indent: int): Bytes
    requires v.Obj? && k <= |keys| && AreKeys(v.o, keys) && -1 <= indent && NumberFree(v)
    decreases v, 1, |keys| - k
  {
    if k == |keys| then [] else
      Lead(k, indent)
      + (KeyText(keys[k], indent) + (Text(v.o[keys[k]], indent) + Members(v, keys, k + 1, indent)))
  }

  /** The text `_serialize(oi, indent)` writes. */
  function Text(v: Value, indent: int): Bytes
    requires -1 <= indent && NumberFree(v)
    decreases v, 3
  {
    Body(v, indent) + if indent == 0 then [LF] else []
  }

  /** `value::serialize(prettify)`. */
  function Serialized(v: Value, prettify: bool): Bytes
    requires NumberFree(v)
  {
    Text(v, if prettify then 0 else -1)
  }
}
