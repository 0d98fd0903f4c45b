/** `decode_url` of irods_rest_api_base.h (section 2.1 of RFC 3986, and '+' for a space). */
module UrlDecode {
  import opened Bytes
  import opened JsonGrammar

  const PERCENT: byte := 0x25

  /** What `is >> std::hex >> value` extracts from two characters, as a character; None where it fails. Besides two
      digits it takes one digit followed by anything but an "0x" prefix, and one digit after a blank or a sign. */
  function ExtractHex(a: byte, b: byte): Option<byte> {
    var x, y := HexValue(a), HexValue(b);
    if x.Some? && y.Some? then Some(x.value * 16 + y.value)
    else if x.Some? then
      if x.value == 0 && (b == 0x78 || b == 0x58) then None else Some(x.value)
    else if y.Some? && (IsBlank(a) || a == PLUS) then Some(y.value)
    else if y.Some? && a == MINUS then Some((256 - y.value) % 256)
    else None
  }

  /** The decoding of one escape or character, and how many characters it takes. */
  function Piece(s: Bytes): (r: Option<(byte, nat)>)
    requires s != []
    ensures r.Some? ==> 1 <= r.value.1 <= |s|
  {
    if s[0] == PERCENT then
      if |s| < 3 then None else
        match ExtractHex(s[1], s[2])
        case None => None
        case Some(c) => Some((c, 3))
    else if s[0] == PLUS then Some((SPACE, 1))
    else Some((s[0], 1))
  }

  /** The decoded text, or None where `decode_url` throws. */
  function DecodedUrl(s: Bytes): Option<Bytes>
    decreases |s|
  {
    if s == [] then Some([]) else
      match Piece(s)
      case None => None
      case Some((c, n)) =>
        match DecodedUrl(s[n..])
        case None => None
        case Some(rest) => Some([c] + rest)
  }

  /** `decode_url`: None where it throws. */
  method DecodeUrl(s: Bytes) returns (r: Option<Bytes>)
    ensures r == DecodedUrl(s)
  {
    hide ExtractHex;
    var out: Bytes := [];
    var i := 0;
    assert s[0..] == s;
    PrependNothing(DecodedUrl(s));
    while i < |s|
      invariant 0 <= i <= |s|
      invariant DecodedUrl(s) == Prepend(out, DecodedUrl(s[i..]))
    {
      ghost var start, before := i, out;
      assert s[i..][0] == s[i];
      if s[i] == PERCENT {
        if i + 3 > |s| {
          return None;
        }
        assert s[i..][1] == s[i + 1] && s[i..][2] == s[i + 2];
        var value := ExtractHex(s[i + 1], s[i + 2]);
        if value.None? {
          return None;
        }
        out := out + [value.value];
        i := i + 2;
      } else if s[i] == PLUS {
        out := out + [SPACE];
      } else {
        out := out + [s[i]];
      }
      i := i + 1;
      assert s[start..][i - start..] == s[i..];
      PrependTwice(before, [out[|before|]], DecodedUrl(s[i..]));
    }
    assert s[i..] == [] && out + [] == out;
    r := Some(out);
  }

  // ---- what it promises ----

  /** One character of `plain` written for a URL: an escape with digits of either case, '+' for a space, or the
      character itself unless it is '%' or '+'. */
  predicate Spells(piece: Bytes, c: byte) {
    || (|piece| == 3 && piece[0] == PERCENT && HexValue(piece[1]) == Some(c / 16) && HexValue(piece[2]) == Some(c % 16))
    || (piece == [PLUS] && c == SPACE)
    || (piece == [c] && c != PERCENT && c != PLUS)
  }

  /** `s` spells `plain`, one piece after the other. */
  ghost predicate Encodes(s: Bytes, plain: Bytes)
    decreases |plain|
  {
    if plain == [] then s == []
    else exists n :: 1 <= n <= |s| && Spells(s[..n], plain[0]) && Encodes(s[n..], plain[1..])
  }

  /** A spelled piece is decoded to the character it spells, whatever follows. */
  lemma PieceDecodes(s: Bytes, n: nat, c: byte)
    requires 1 <= n <= |s| && Spells(s[..n], c)
    ensures Piece(s) == Some((c, n))
  {
    assert s[0] == s[..n][0];
    if n == 3 {
      assert s[1] == s[..n][1] && s[2] == s[..n][2];
      assert c == c / 16 * 16 + c % 16;
    }
  }

  /** Decoding undoes every encoder that escapes at least '%' and '+', whatever else it escapes and however it writes
      a space. */
  lemma {:induction false} DecodeUndoesEncode(s: Bytes, plain: Bytes)
    requires Encodes(s, plain)
    ensures DecodedUrl(s) == Some(plain)
    decreases |plain|
  {
    hide Piece, Spells;
    if plain != [] {
      var n :| 1 <= n <= |s| && Spells(s[..n], plain[0]) && Encodes(s[n..], plain[1..]);
      PieceDecodes(s, n, plain[0]);
      DecodeUndoesEncode(s[n..], plain[1..]);
      assert plain == [plain[0]] + plain[1..];
    }
  }

  /** Every '%' is followed by two hexadecimal digits. */
  predicate WellFormed(s: Bytes)
    decreases |s|
  {
    if s == [] then true
    else if s[0] == PERCENT then
      |s| >= 3 && HexValue(s[1]).Some? && HexValue(s[2]).Some? && WellFormed(s[3..])
    else WellFormed(s[1..])
  }

  /** A well-formed text is decoded without an exception, to the one text it spells. */
  lemma {:induction false} WellFormedDecodes(s: Bytes)
    requires WellFormed(s)
    ensures DecodedUrl(s).Some? && Encodes(s, DecodedUrl(s).value)
    decreases |s|
  {
    hide HexValue, Spells;
    if s != [] {
      var n := if s[0] == PERCENT then 3 else 1;
      WellFormedDecodes(s[n..]);
      var plain := DecodedUrl(s).value;
      PieceSpells(s, n);
      assert plain[1..] == DecodedUrl(s[n..]).value;
      assert Spells(s[..n], plain[0]) && Encodes(s[n..], plain[1..]);
    }
  }

  lemma PieceSpells(s: Bytes, n: nat)
    requires s != [] && n == (if s[0] == PERCENT then 3 else 1)
    requires s[0] == PERCENT ==> |s| >= 3 && HexValue(s[1]).Some? && HexValue(s[2]).Some?
    ensures Piece(s).Some? && Piece(s).value.1 == n && Spells(s[..n], Piece(s).value.0)
  {
  }

  /** A text spells something exactly when it is well formed, and then only what it is decoded to. */
  lemma SpellsExactly(s: Bytes, plain: Bytes)
    ensures Encodes(s, plain) <==> WellFormed(s) && DecodedUrl(s) == Some(plain)
  {
    if Encodes(s, plain) {
      DecodeUndoesEncode(s, plain);
      EncodedIsWellFormed(s, plain);
    }
    if WellFormed(s) {
      WellFormedDecodes(s);
    }
  }

  lemma {:induction false} EncodedIsWellFormed(s: Bytes, plain: Bytes)
    requires Encodes(s, plain)
    ensures WellFormed(s)
    decreases |plain|
  {
    hide HexValue;
    if plain != [] {
      var n :| 1 <= n <= |s| && Spells(s[..n], plain[0]) && Encodes(s[n..], plain[1..]);
      EncodedIsWellFormed(s[n..], plain[1..]);
      assert s[0] == s[..n][0];
      if n == 3 {
        assert s[1] == s[..n][1] && s[2] == s[..n][2];
      }
    }
  }

  /** Decoding distributes over a well-formed beginning. */
  lemma {:induction false} DecodeDistributes(s: Bytes, t: Bytes)
    requires WellFormed(s)
    ensures DecodedUrl(s).Some? && DecodedUrl(s + t) == Prepend(DecodedUrl(s).value, DecodedUrl(t))
    decreases |s|
  {
    hide HexValue, ExtractHex, Piece, Encodes;
    WellFormedDecodes(s);
    if s == [] {
      assert s + t == t;
      PrependNothing(DecodedUrl(t));
    } else {
      var n := if s[0] == PERCENT then 3 else 1;
      assert (s + t)[n..] == s[n..] + t;
      DecodeDistributes(s[n..], t);
      SamePiece(s, t, n);
      Unfold(s);
      Unfold(s + t);
      PrependTwice([Piece(s).value.0], DecodedUrl(s[n..]).value, DecodedUrl(t));
    }
  }

  lemma Unfold(s: Bytes)
    requires s != [] && Piece(s).Some?
    ensures var (c, n) := Piece(s).value; DecodedUrl(s) == Prepend([c], DecodedUrl(s[n..]))
  {
  }

  lemma SamePiece(s: Bytes, t: Bytes, n: nat)
    requires s != [] && n == (if s[0] == PERCENT then 3 else 1)
    requires s[0] == PERCENT ==> |s| >= 3 && HexValue(s[1]).Some? && HexValue(s[2]).Some?
    ensures Piece(s + t) == Piece(s) && Piece(s).Some? && Piece(s).value.1 == n
  {
  }

  // ---- character by character ----

  /** '%' and two digits of either case are the byte they denote. */
  lemma EscapeDecodes(a: byte, b: byte, h: int, l: int, rest: Bytes)
    requires Denotes(a, h) && Denotes(b, l)
    ensures DecodedUrl(Ascii("%") + [a, b] + rest) == Prepend([h * 16 + l], DecodedUrl(rest))
  {
    HexValueExact(a, h);
    HexValueExact(b, l);
    var s := Ascii("%") + [a, b] + rest;
    assert s[3..] == rest;
    Unfold(s);
  }

  /** '+' is a space. */
  lemma PlusDecodes(rest: Bytes)
    ensures DecodedUrl(Ascii("+") + rest) == Prepend(Ascii(" "), DecodedUrl(rest))
  {
    var s := Ascii("+") + rest;
    assert s[1..] == rest;
    assert Ascii(" ") == [SPACE];
    Unfold(s);
  }

  /** Every other character is itself. */
  lemma PlainDecodes(c: byte, rest: Bytes)
    requires c !in Ascii("%+")
    ensures DecodedUrl([c] + rest) == Prepend([c], DecodedUrl(rest))
  {
    var s := [c] + rest;
    assert Ascii("%+")[0] == PERCENT && Ascii("%+")[1] == PLUS;
    assert s[1..] == rest;
    Unfold(s);
  }

  /** A '%' with fewer than two characters after it makes the whole text fail, and so does one followed by neither a
      digit, a sign nor a blank. */
  lemma BadEscapeThrows(s: Bytes, t: Bytes)
    requires WellFormed(s) && t != [] && t[0] == Ascii("%")[0]
    requires |t| < 3 || (HexValue(t[1]).None? && t[1] !in Ascii("+- \t\n\r") && t[1] != 0x0B && t[1] != 0x0C)
    ensures DecodedUrl(s + t) == None
  {
    hide HexValue, WellFormed;
    var others := Ascii("+- \t\n\r");
    assert others[0] == 0x2B && others[1] == 0x2D && others[2] == 0x20 && others[3] == 0x09 && others[4] == 0x0A
      && others[5] == 0x0D;
    DecodeDistributes(s, t);
  }
}
