/** The Basic credentials of the auth endpoint and its own table-driven base64 decoder. */
module BasicAuth {
  import opened Bytes
  import opened Base64
  import opened Base64Laws
  import opened Base64Shape

  const EQUALS: byte := 0x3D

  /** The table of `base64_decode`: the value of a symbol, 64 for every other character. */
  function Table(c: byte): int {
    if 0x41 <= c <= 0x5A then c - 0x41
    else if 0x61 <= c <= 0x7A then c - 0x61 + 26
    else if 0x30 <= c <= 0x39 then c - 0x30 + 52
    else if c == 0x2B then 62
    else if c == 0x2F then 63
    else 64
  }

  /** A '=' counts as zero wherever it stands. */
  function Entry(c: byte): int {
    if c == EQUALS then 0 else Table(c)
  }

  function BlockValue(a: byte, b: byte, c: byte, d: byte): int {
    Entry(a) * 262144 + Entry(b) * 4096 + Entry(c) * 64 + Entry(d)
  }

  /** The bytes of the whole input, before they are cut to the output length. */
  function TableBytes(s: Bytes): (b: Bytes)
    requires |s| % 4 == 0
    ensures |b| == |s| / 4 * 3
  {
    if s == [] then [] else
      var t := BlockValue(s[0], s[1], s[2], s[3]);
      [ByteAt(t, 0), ByteAt(t, 1), ByteAt(t, 2)] + TableBytes(s[4..])
  }

  function OutLength(s: Bytes): nat
    requires s != [] && |s| % 4 == 0
  {
    |s| / 4 * 3 - (if s[|s| - 1] == EQUALS then 1 else 0) - (if s[|s| - 2] == EQUALS then 1 else 0)
  }

  /** `base64_decode`, with None where it throws. */
  function TableDecoded(s: Bytes): Option<Bytes>
    requires s != []
  {
    if |s| % 4 != 0 then None else Some(TableBytes(s)[..OutLength(s)])
  }

  function Min(a: nat, b: nat): nat {
    if a < b then a else b
  }

  /** The three guarded stores of one round of `base64_decode`. */
  method PutBlock(out: array<byte>, t: int, j: nat) returns (j': nat)
    requires 0 <= t && j <= out.Length
    modifies out
    ensures j' == Min(j + 3, out.Length)
    ensures out[..j'] == (old(out[..j]) + [ByteAt(t, 0), ByteAt(t, 1), ByteAt(t, 2)])[..j']
  {
    hide ByteAt;
    j' := j;
    if j' < out.Length { out[j'] := ByteAt(t, 0); j' := j' + 1; }
    if j' < out.Length { out[j'] := ByteAt(t, 1); j' := j' + 1; }
    if j' < out.Length { out[j'] := ByteAt(t, 2); j' := j' + 1; }
  }

  /** The loop of `base64_decode`. */
  method FillBuffer(s: Bytes, out: array<byte>)
    requires |s| % 4 == 0 && out.Length <= |TableBytes(s)|
    modifies out
    ensures out[..] == TableBytes(s)[..out.Length]
  {
    hide BlockValue, ByteAt, TableBytes;
    ghost var whole, k: nat := TableBytes(s), 0;
    var i, j := 0, 0;
    assert s[0..] == s && whole[0..] == whole && out[..0] == whole[..0];
    while i < |s|
      invariant 0 <= i <= |s| && i == 4 * k && 3 * k <= |whole| && j == Min(3 * k, out.Length)
      invariant whole[3 * k..] == TableBytes(s[i..])
      invariant out[..j] == whole[..j]
    {
      BlockBytes(whole, k, s, i);
      ghost var before := j;
      j := PutBlock(out, BlockValue(s[i], s[i + 1], s[i + 2], s[i + 3]), j);
      Stored(whole, k, out[..j], before, j, out.Length);
      i := i + 4;
      k := k + 1;
    }
    assert out[..j] == out[..];
  }

  /** `base64_decode`. An empty input would be read before its start, and a byte above 0x7F would be read, sign
      extended, outside the table. */
  method DecodeWithTable(s: Bytes) returns (r: Option<Bytes>)
    requires s != [] && forall c | c in s :: c < 0x80
    ensures r == TableDecoded(s)
  {
    hide TableBytes;
    var inLen := |s|;
    if inLen % 4 != 0 {
      return None;
    }
    var outLen := inLen / 4 * 3;
    if s[inLen - 1] == EQUALS { outLen := outLen - 1; }
    if s[inLen - 2] == EQUALS { outLen := outLen - 1; }
    var out := new byte[outLen](_ => 0);
    FillBuffer(s, out);
    r := Some(out[..]);
  }

  /** The bytes stored in one round continue the output. */
  lemma Stored(whole: Bytes, k: nat, out: Bytes, before: nat, j: nat, outLen: nat)
    requires outLen <= |whole| && 3 * k + 3 <= |whole| && before == Min(3 * k, outLen)
    requires j == Min(before + 3, outLen) && |out| == j && out == (whole[..before] + whole[3 * k..3 * k + 3])[..j]
    ensures j == Min(3 * k + 3, outLen) && out == whole[..j]
  {
    if before == 3 * k {
      assert whole[..before] + whole[3 * k..3 * k + 3] == whole[..3 * k + 3];
    }
  }

  lemma TableBlock(s: Bytes)
    requires s != [] && |s| % 4 == 0
    ensures 0 <= BlockValue(s[0], s[1], s[2], s[3])
    ensures var t := BlockValue(s[0], s[1], s[2], s[3]);
      TableBytes(s) == [ByteAt(t, 0), ByteAt(t, 1), ByteAt(t, 2)] + TableBytes(s[4..])
  {
    hide ByteAt;
  }

  /** Where the bytes of the block at `i` stand in the whole output. */
  lemma BlockBytes(whole: Bytes, k: nat, s: Bytes, i: nat)
    requires |s| % 4 == 0 && i == 4 * k && i + 4 <= |s| && 3 * k <= |whole| && whole[3 * k..] == TableBytes(s[i..])
    ensures 0 <= BlockValue(s[i], s[i + 1], s[i + 2], s[i + 3])
    ensures var t := BlockValue(s[i], s[i + 1], s[i + 2], s[i + 3]);
      && 3 * k + 3 <= |whole| && whole[3 * k..3 * k + 3] == [ByteAt(t, 0), ByteAt(t, 1), ByteAt(t, 2)]
      && whole[3 * k + 3..] == TableBytes(s[i + 4..])
  {
    hide ByteAt, BlockValue, TableBytes;
    var u, x := s[i..], whole[3 * k..];
    TableBlock(u);
    assert u[4..] == s[i + 4..];
    assert whole[3 * k..3 * k + 3] == x[..3] && whole[3 * k + 3..] == x[3..];
  }

  // ---- agreement with base::decode ----

  lemma TableIsAlphabet(c: byte)
    ensures Sized(STANDARD) && (c in STANDARD.alphabet <==> Table(c) < 64)
    ensures c in STANDARD.alphabet ==> SextetValue(STANDARD, c) == Table(c) && c != EQUALS && c < 0x80
  {
    VariantsUsable();
    if Table(c) < 64 {
      assert STANDARD.alphabet[Table(c)] == c;
      SextetOfSymbol(STANDARD, Table(c));
    }
  }

  lemma FillIsEquals(n: nat)
    ensures |Fills(STANDARD, n)| == n && forall k | 0 <= k < n :: Fills(STANDARD, n)[k] == EQUALS
  {
  }

  /** A block of symbols has the same value for both decoders. */
  lemma SameBlock(block: Bytes)
    requires |block| == 4 && forall c | c in block :: c in STANDARD.alphabet
    ensures Group(STANDARD, block) == Some(BlockValue(block[0], block[1], block[2], block[3]))
  {
    hide Group, Table, SextetValue, Usable, Symbol;
    VariantsUsable();
    FourSymbols(STANDARD, block);
    TableIsAlphabet(block[0]);
    TableIsAlphabet(block[1]);
    TableIsAlphabet(block[2]);
    TableIsAlphabet(block[3]);
  }

  /** So does a last block filled up with '='. */
  lemma SameTail(body: Bytes, n: nat)
    requires 1 <= n <= 2 && |body| == 4 - n && forall c | c in body :: c in STANDARD.alphabet
    ensures var s := body + Fills(STANDARD, n);
      |s| == 4 && Group(STANDARD, body) == Some(BlockValue(s[0], s[1], s[2], s[3]))
  {
    hide Group, Table, SextetValue, Symbol, Sextet, Usable;
    VariantsUsable();
    FillIsEquals(n);
    hide Fills;
    var v := STANDARD;
    var s := body + Fills(STANDARD, n);
    assert forall k | 0 <= k < |body| :: s[k] == body[k];
    TableIsAlphabet(body[0]);
    TableIsAlphabet(body[1]);
    SymbolOfSextet(v, body[0]);
    SymbolOfSextet(v, body[1]);
    var w, x := SextetValue(v, body[0]), SextetValue(v, body[1]);
    if n == 1 {
      TableIsAlphabet(body[2]);
      SymbolOfSextet(v, body[2]);
      var y := SextetValue(v, body[2]);
      assert body == [Symbol(v, w), Symbol(v, x), Symbol(v, y)];
      GroupOfFour(v, w, x, y, 0);
      assert s[3] == Fills(STANDARD, n)[0];
    } else {
      assert body == [Symbol(v, w), Symbol(v, x)];
      GroupOfFour(v, w, x, 0, 0);
      assert s[2] == Fills(STANDARD, n)[0] && s[3] == Fills(STANDARD, n)[1];
    }
  }

  lemma SameLastBlock(body: Bytes, n: nat)
    requires 1 <= n <= 2 && |body| == 4 - n && forall c | c in body :: c in STANDARD.alphabet
    ensures var s := body + Fills(STANDARD, n);
      && |s| % 4 == 0 && n <= |TableBytes(s)|
      && DecodeBody(STANDARD, body, n) == Some(TableBytes(s)[..|TableBytes(s)| - n])
  {
    hide Group, ByteAt, BlockValue, Fills;
    var s := body + Fills(STANDARD, n);
    SameTail(body, n);
    assert s[4..] == [];
    TableBlock(s);
    var t := BlockValue(s[0], s[1], s[2], s[3]);
    assert TableBytes(s) == [ByteAt(t, 0), ByteAt(t, 1), ByteAt(t, 2)];
    if n == 1 {
      assert TableBytes(s)[..2] == [ByteAt(t, 0), ByteAt(t, 1)];
    } else {
      assert TableBytes(s)[..1] == [ByteAt(t, 0)];
    }
  }

  lemma {:induction false} SameBytes(body: Bytes, n: nat)
    requires n <= 2 && (|body| + n) % 4 == 0 && forall c | c in body :: c in STANDARD.alphabet
    ensures var s := body + Fills(STANDARD, n);
      && |s| % 4 == 0 && n <= |TableBytes(s)|
      && DecodeBody(STANDARD, body, n) == Some(TableBytes(s)[..|TableBytes(s)| - n])
    decreases |body|
  {
    FillIsEquals(n);
    hide Group, ByteAt, BlockValue, Fills, Table, TableBytes, DecodeBody;
    VariantsUsable();
    if |body| >= 4 {
      SameBytes(body[4..], n);
      SameFirstBlock(body, n);
    } else if body == [] {
      assert body + Fills(STANDARD, n) == [];
      EmptyBody(STANDARD);
      assert TableBytes([]) == [];
    } else {
      SameLastBlock(body, n);
    }
  }

  lemma FirstBlockDecodes(body: Bytes, n: nat)
    requires n <= 2 && (|body| + n) % 4 == 0 && |body| >= 4 && |STANDARD.alphabet| == 64
    requires Group(STANDARD, body[..4]).Some? && DecodeBody(STANDARD, body[4..], n).Some?
    ensures var t := Group(STANDARD, body[..4]).value;
      && 0 <= t
      && DecodeBody(STANDARD, body, n)
         == Some([ByteAt(t, 0), ByteAt(t, 1), ByteAt(t, 2)] + DecodeBody(STANDARD, body[4..], n).value)
  {
    hide Group, ByteAt;
    GroupBound(STANDARD, body[..4]);
  }

  /** Both decoders take a whole first block off alike. */
  lemma SameFirstBlock(body: Bytes, n: nat)
    requires n <= 2 && (|body| + n) % 4 == 0 && |body| >= 4 && forall c | c in body :: c in STANDARD.alphabet
    requires |Fills(STANDARD, n)| == n && |STANDARD.alphabet| == 64
    requires var rest := TableBytes(body[4..] + Fills(STANDARD, n));
      n <= |rest| && DecodeBody(STANDARD, body[4..], n) == Some(rest[..|rest| - n])
    ensures var bytes := TableBytes(body + Fills(STANDARD, n));
      n <= |bytes| && DecodeBody(STANDARD, body, n) == Some(bytes[..|bytes| - n])
  {
    hide Group, ByteAt, BlockValue, Fills, Table, TableBytes, DecodeBody;
    var s, rest := body + Fills(STANDARD, n), TableBytes(body[4..] + Fills(STANDARD, n));
    SameBlock(body[..4]);
    FirstBlockDecodes(body, n);
    assert s[4..] == body[4..] + Fills(STANDARD, n);
    assert s[0] == body[0] && s[1] == body[1] && s[2] == body[2] && s[3] == body[3];
    var t := BlockValue(s[0], s[1], s[2], s[3]);
    TableBlock(s);
    var head := [ByteAt(t, 0), ByteAt(t, 1), ByteAt(t, 2)];
    assert (head + rest)[..|head + rest| - n] == head + rest[..|rest| - n];
  }

  /** On every non-empty text that `base::decode` accepts, canonical or not, both decoders give the same bytes. */
  lemma DecodersAgree(s: Bytes)
    requires s != [] && Decoded(STANDARD, s).Some?
    ensures (forall c | c in s :: c < 0x80) && TableDecoded(s) == Decoded(STANDARD, s)
  {
    VariantsUsable();
    hide TableBytes, DecodeBody, Decoded, Distinct, Table;
    AcceptsExactly(STANDARD, s);
    var body, n :| Shaped(STANDARD, s, body, n);
    ShapeDecodes(STANDARD, s, body, n);
    SameBytes(body, n);
    FillIsEquals(n);
    hide Fills;
    forall c | c in s ensures c < 0x80 { TableIsAlphabet(c); }
    assert forall k | 0 <= k < |s| :: s[k] == EQUALS <==> k >= |body| by {
      forall k | 0 <= k < |s| ensures s[k] == EQUALS <==> k >= |body| {
        if k < |body| {
          assert s[k] == body[k];
          TableIsAlphabet(body[k]);
        } else {
          assert s[k] == Fills(STANDARD, n)[k - |body|];
        }
      }
    }
  }

  /** The table-driven decoder undoes the encoder, on everything but the empty string. */
  lemma {:induction false} TableRoundTrip(b: Bytes)
    requires b != []
    ensures Sized(STANDARD) && Encoded(STANDARD, b) != []
    ensures var s := Encoded(STANDARD, b); (forall c | c in s :: c < 0x80) && TableDecoded(s) == Some(b)
  {
    VariantsUsable();
    hide TableDecoded, Decoded, EncodeBody, Fills;
    RoundTrip(STANDARD, b);
    BodyLength(STANDARD, b);
    DecodersAgree(Encoded(STANDARD, b));
  }

  // ---- credentials ----

  /** `parse_header`: the scheme and the token, or None where it throws. */
  function ParseHeader(header: Bytes): Option<(Bytes, Bytes)> {
    var p := Find(header, SPACE, 0);
    if p == |header| then None else Some((header[..p], header[p + 1..]))
  }

  /** The user name and the password in decoded credentials; without a colon both are the whole string. */
  function SplitCredentials(creds: Bytes): (Bytes, Bytes) {
    var p := Find(creds, COLON, 0);
    if p == |creds| then (creds, creds) else (creds[..p], creds[p + 1..])
  }

  /** `base64_decode` may be called with this token. */
  predicate Decodable(token: Bytes) {
    token != [] && forall c | c in token :: c < 0x80
  }

  /** `decode`: user name, password and scheme of an Authorization header, or None where it throws. */
  function DecodeHeader(header: Bytes): Option<(Bytes, Bytes, Bytes)>
    requires ParseHeader(header).Some? ==> Decodable(ParseHeader(header).value.1)
  {
    match ParseHeader(header)
    case None => None
    case Some((scheme, token)) =>
      match TableDecoded(token)
      case None => None
      case Some(creds) => var (user, password) := SplitCredentials(creds); Some((user, password, scheme))
  }

  /** The header a client sends (section 2 of RFC 7617). */
  function BasicHeader(scheme: Bytes, user: Bytes, password: Bytes): Bytes
    requires Sized(STANDARD)
  {
    scheme + [SPACE] + Encoded(STANDARD, user + [COLON] + password)
  }

  /** A client's user name and password are read back exactly when the user name has no colon. */
  lemma {:induction false} CredentialsRoundTrip(scheme: Bytes, user: Bytes, password: Bytes)
    requires SPACE !in scheme
    ensures Sized(STANDARD)
    ensures var h := BasicHeader(scheme, user, password);
      && ParseHeader(h).Some? && Decodable(ParseHeader(h).value.1)
      && (DecodeHeader(h) == Some((user, password, scheme)) <==> COLON !in user)
  {
    VariantsUsable();
    hide TableDecoded, Encoded;
    var creds := user + [COLON] + password;
    var token := Encoded(STANDARD, creds);
    var h := BasicHeader(scheme, user, password);
    FindJoined(scheme, SPACE, token);
    assert h[..|scheme|] == scheme && h[|scheme| + 1..] == token;
    TableRoundTrip(creds);
    if COLON !in user {
      FindJoined(user, COLON, password);
      assert creds[..|user|] == user && creds[|user| + 1..] == password;
    } else {
      var k :| 0 <= k < |user| && user[k] == COLON;
      assert creds[k] == COLON;
      assert Find(creds, COLON, 0) <= k;
    }
  }

  lemma BasicHeaderText(scheme: Bytes, user: Bytes, password: Bytes)
    ensures Sized(STANDARD)
    ensures BasicHeader(scheme, user, password)
      == scheme + Ascii(" ") + Encoded(STANDARD, user + Ascii(":") + password)
  {
    VariantsUsable();
    Signs();
  }

  /** A header without a space is refused. */
  lemma HeaderNeedsSpace(header: Bytes)
    ensures ParseHeader(header).None? <==> ' ' as int !in header
  {
    if ' ' as int in header {
      var k :| 0 <= k < |header| && header[k] == SPACE;
      assert Find(header, SPACE, 0) <= k;
    }
  }

  /** Credentials without a colon are both the user name and the password. */
  lemma CredentialsWithoutColon(scheme: Bytes, creds: Bytes)
    requires ' ' as int !in scheme && ':' as int !in creds && creds != []
    ensures Sized(STANDARD)
    ensures var h := scheme + Ascii(" ") + Encoded(STANDARD, creds);
      && ParseHeader(h).Some? && Decodable(ParseHeader(h).value.1)
      && DecodeHeader(h) == Some((creds, creds, scheme))
  {
    VariantsUsable();
    Signs();
    hide TableDecoded, Encoded;
    var token := Encoded(STANDARD, creds);
    var h := scheme + [SPACE] + token;
    FindJoined(scheme, SPACE, token);
    assert h[..|scheme|] == scheme && h[|scheme| + 1..] == token;
    TableRoundTrip(creds);
    FindsFirst(creds, COLON, 0, |creds|);
  }

  /** The first space ends the scheme. */
  lemma SpaceEndsScheme(scheme: Bytes, rest: Bytes)
    requires ' ' as int !in scheme
    ensures ParseHeader(scheme + Ascii(" ") + rest) == Some((scheme, rest))
  {
    Signs();
    var h := scheme + [SPACE] + rest;
    FindJoined(scheme, SPACE, rest);
    assert h[..|scheme|] == scheme && h[|scheme| + 1..] == rest;
  }

  /** The table-driven decoder refuses nothing but a length that is no multiple of four; a '=' anywhere counts as an
      'A', and the last two take a byte off each. */
  lemma {:induction false} TableTakesAll(s: Bytes)
    requires s != []
    ensures TableDecoded(s).None? <==> |s| % 4 != 0
    ensures |s| % 4 == 0 ==>
      var equals := Ascii("=")[0];
      TableDecoded(s) == Some(TableBytes(WithoutEquals(s))[
        ..|s| / 4 * 3 - (if s[|s| - 1] == equals then 1 else 0) - (if s[|s| - 2] == equals then 1 else 0)])
  {
    hide TableBytes, WithoutEquals;
    assert Ascii("=")[0] == EQUALS;
    if |s| % 4 == 0 { SameWithoutEquals(s); }
  }

  function WithoutEquals(s: Bytes): (r: Bytes)
    ensures |r| == |s|
  {
    seq(|s|, i requires 0 <= i < |s| => if s[i] == '=' as int then 'A' as int else s[i])
  }

  lemma {:induction false} SameWithoutEquals(s: Bytes)
    requires |s| % 4 == 0
    ensures TableBytes(s) == TableBytes(WithoutEquals(s))
    decreases |s|
  {
    hide ByteAt;
    if s != [] {
      SameWithoutEquals(s[4..]);
      assert WithoutEquals(s)[4..] == WithoutEquals(s[4..]);
      SameEntry(s[0]);
      SameEntry(s[1]);
      SameEntry(s[2]);
      SameEntry(s[3]);
    }
  }

  lemma SameEntry(c: byte)
    ensures Entry(c) == Entry(if c == '=' as int then 'A' as int else c)
  {
  }

  /** A symbol counts as its place in the alphabet, a '=' as nothing, and every other character as 64. */
  lemma EntryIs(c: byte)
    ensures Sized(STANDARD)
    ensures Entry(c) == if c == '=' as int then 0
      else if c in STANDARD.alphabet then SextetValue(STANDARD, c)
      else 64
  {
    hide SextetValue, Table;
    TableIsAlphabet(c);
    TableRange(c);
  }

  lemma TableRange(c: byte)
    ensures Table(c) <= 64
  {
  }
}
