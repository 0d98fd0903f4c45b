/** The base64 codec of base.h (sections 4 and 5 of RFC 4648), for any alphabet and fill string. */
module Base64 {
  import opened Bytes

  /** An alphabet and the string that fills up the last block. */
  datatype Variant = Variant(alphabet: seq<byte>, fill: Bytes)

  predicate Sized(v: Variant) {
    |v.alphabet| == 64 && v.fill != []
  }

  /** No two symbols are the same, and the first character of the fill is no symbol. */
  predicate Distinct(v: Variant)
    requires Sized(v)
  {
    (forall i, j | 0 <= i < j < 64 :: v.alphabet[i] != v.alphabet[j]) && v.fill[0] !in v.alphabet
  }

  predicate Usable(v: Variant) {
    Sized(v) && Distinct(v)
  }

  function Run(first: byte, n: nat): seq<byte>
    requires first + n <= 256
  {
    seq(n, i requires 0 <= i < n => first + i)
  }

  /** A to Z, a to z, 0 to 9. */
  const ALPHANUMERIC: seq<byte> := Run(0x41, 26) + Run(0x61, 26) + Run(0x30, 10)

  /** `alphabet::base64`: '+', '/' and the fill "=". */
  const STANDARD := Variant(ALPHANUMERIC + [0x2B, 0x2F], [0x3D])

  /** `alphabet::base64url`: '-', '_' and the fill "%3d". */
  const URL := Variant(ALPHANUMERIC + [0x2D, 0x5F], [0x25, 0x33, 0x64])

  lemma VariantsUsable()
    ensures Usable(STANDARD) && Usable(URL)
    ensures forall c | c in URL.alphabet :: c != DOT && c != 0x25
  {
  }

  lemma UrlSymbolsPlain()
    ensures forall c | c in URL.alphabet :: c != COLON && !IsBlank(c)
  {
  }

  /** `get_sextet`: the index of a symbol, or None where the source throws. */
  function Sextet(v: Variant, c: byte): (r: Option<int>)
    ensures r.Some? <==> c in v.alphabet
    ensures r.Some? ==> 0 <= r.value < |v.alphabet| && v.alphabet[r.value] == c
  {
    var p := Find(v.alphabet, c, 0);
    if p < |v.alphabet| then Some(p) else None
  }

  lemma SextetOfSymbol(v: Variant, i: nat)
    requires Usable(v) && i < 64
    ensures Sextet(v, v.alphabet[i]) == Some(i)
  {
  }

  function Symbol(v: Variant, i: int): byte
    requires |v.alphabet| == 64 && 0 <= i < 64
  {
    v.alphabet[i]
  }

  /** Six-bit group number `k`, from the left, of a 24-bit group. */
  function SextetAt(triple: int, k: nat): (x: int)
    requires 0 <= triple && k < 4
    ensures 0 <= x < 64
  {
    if k == 0 then triple / 262144 % 64
    else if k == 1 then triple / 4096 % 64
    else if k == 2 then triple / 64 % 64
    else triple % 64
  }

  function SymbolAt(v: Variant, triple: nat, k: nat): byte
    requires |v.alphabet| == 64 && k < 4
  {
    Symbol(v, SextetAt(triple, k))
  }

  function Triple(a: byte, b: byte, c: byte): nat {
    a * 65536 + b * 256 + c
  }

  /** The symbols of `b`, without the fill. */
  function EncodeBody(v: Variant, b: Bytes): (s: Bytes)
    requires |v.alphabet| == 64
  {
    if b == [] then []
    else if |b| == 1 then
      var t := Triple(b[0], 0, 0);
      [SymbolAt(v, t, 0), SymbolAt(v, t, 1)]
    else if |b| == 2 then
      var t := Triple(b[0], b[1], 0);
      [SymbolAt(v, t, 0), SymbolAt(v, t, 1), SymbolAt(v, t, 2)]
    else
      var t := Triple(b[0], b[1], b[2]);
      [SymbolAt(v, t, 0), SymbolAt(v, t, 1), SymbolAt(v, t, 2), SymbolAt(v, t, 3)] + EncodeBody(v, b[3..])
  }

  function Fills(v: Variant, n: nat): Bytes {
    if n == 0 then [] else v.fill + Fills(v, n - 1)
  }

  /** How many fills end the encoding of `n` bytes. */
  function FillCount(n: nat): nat {
    if n % 3 == 0 then 0 else 3 - n % 3
  }

  function Encoded(v: Variant, b: Bytes): Bytes
    requires Sized(v)
  {
    EncodeBody(v, b) + Fills(v, FillCount(|b|))
  }

  /** The loop of `decode` that takes fills off the end: the size left and the fills taken, or None after a third. */
  function Strip(v: Variant, s: Bytes, size: nat, count: nat): (r: Option<(nat, nat)>)
    requires size <= |s| && v.fill != [] && count <= 2
    ensures r.Some? ==> r.value.0 <= size && r.value.1 <= 2
    decreases size
  {
    if size > |v.fill| && s[size - |v.fill|..size] == v.fill then
      if count + 1 > 2 then None else Strip(v, s, size - |v.fill|, count + 1)
    else Some((size, count))
  }

  /** The 24-bit group of up to four symbols, missing ones counting as zero; None on a byte that is no symbol. */
  function Group(v: Variant, s: Bytes): Option<int>
    requires |s| <= 4
  {
    if s == [] then Some(0) else
      match (Sextet(v, s[|s| - 1]), Group(v, s[..|s| - 1]))
      case (Some(x), Some(g)) =>
        Some(g + if |s| == 1 then x * 262144 else if |s| == 2 then x * 4096 else if |s| == 3 then x * 64 else x)
      case _ => None
  }

  /** The byte `(triple >> 8 * (2 - k)) & 0xFF`. */
  function ByteAt(triple: int, k: nat): byte
    requires 0 <= triple && k < 3
  {
    if k == 0 then triple / 65536 % 256
    else if k == 1 then triple / 256 % 256
    else triple % 256
  }

  /** What is decoded from `body`, whose last block was filled up with `fills` fills. */
  function DecodeBody(v: Variant, body: Bytes, fills: nat): Option<Bytes>
    requires |v.alphabet| == 64 && fills <= 2 && (|body| + fills) % 4 == 0
    decreases |body|
  {
    if |body| >= 4 then
      match (Group(v, body[..4]), DecodeBody(v, body[4..], fills))
      case (Some(t), Some(rest)) =>
        GroupBound(v, body[..4]);
        Some([ByteAt(t, 0), ByteAt(t, 1), ByteAt(t, 2)] + rest)
      case _ => None
    else if body == [] then Some([])
    else
      match Group(v, body)
      case Some(t) =>
        GroupBound(v, body);
        Some(if fills == 1 then [ByteAt(t, 0), ByteAt(t, 1)] else [ByteAt(t, 0)])
      case None => None
  }

  lemma GroupBound(v: Variant, s: Bytes)
    requires |s| <= 4 && |v.alphabet| == 64
    ensures Group(v, s).Some? ==> 0 <= Group(v, s).value
  {
  }

  /** `base::decode`, with None where it throws. */
  function Decoded(v: Variant, s: Bytes): Option<Bytes>
    requires Sized(v)
  {
    match Strip(v, s, |s|, 0)
    case None => None
    case Some((size, fills)) => if (size + fills) % 4 != 0 then None else DecodeBody(v, s[..size], fills)
  }
}
