/** `base::encode` and `base::decode` as the source runs them: index-driven loops that append to the result. */
module Base64Codec {
  import opened Bytes
  import opened Base64

  method Encode(v: Variant, bin: Bytes) returns (res: Bytes)
    requires Sized(v)
    ensures res == Encoded(v, bin)
  {
    hide SymbolAt;
    res := [];
    var size := |bin|;
    var fastSize := size - size % 3;
    var i := 0;
    while i < fastSize
      invariant 0 <= i <= fastSize && i % 3 == 0
      invariant res + EncodeBody(v, bin[i..]) == EncodeBody(v, bin)
    {
      var triple := Triple(bin[i], bin[i + 1], bin[i + 2]);
      assert bin[i..][3..] == bin[i + 3..];
      Assoc(res, [SymbolAt(v, triple, 0), SymbolAt(v, triple, 1), SymbolAt(v, triple, 2), SymbolAt(v, triple, 3)],
            EncodeBody(v, bin[i + 3..]));
      res := res + [SymbolAt(v, triple, 0), SymbolAt(v, triple, 1), SymbolAt(v, triple, 2), SymbolAt(v, triple, 3)];
      i := i + 3;
    }
    if fastSize == size {
      assert bin[i..] == [];
      return;
    }
    var octetA := bin[fastSize];
    var octetB: byte := if fastSize + 1 < size then bin[fastSize + 1] else 0;
    var triple := Triple(octetA, octetB, 0);
    if size % 3 == 1 {
      assert bin[i..] == [octetA];
      res := res + [SymbolAt(v, triple, 0), SymbolAt(v, triple, 1)];
      res := res + v.fill;
      res := res + v.fill;
      TwoFills(v, EncodeBody(v, bin));
    } else {
      assert bin[i..] == [octetA, octetB];
      res := res + [SymbolAt(v, triple, 0), SymbolAt(v, triple, 1), SymbolAt(v, triple, 2)];
      res := res + v.fill;
      OneFill(v);
    }
  }

  lemma OneFill(v: Variant)
    ensures Fills(v, 1) == v.fill
  {
    assert Fills(v, 0) == [];
  }

  lemma TwoFills(v: Variant, s: Bytes)
    ensures s + v.fill + v.fill == s + Fills(v, 2)
  {
    OneFill(v);
    assert Fills(v, 2) == v.fill + Fills(v, 1);
  }

  /** The scan of `get_sextet`. */
  method GetSextet(v: Variant, c: byte) returns (r: Option<int>)
    ensures r == Sextet(v, c)
  {
    for i := 0 to |v.alphabet|
      invariant Find(v.alphabet, c, i) == Find(v.alphabet, c, 0)
    {
      if v.alphabet[i] == c {
        return Some(i);
      }
    }
    r := None;
  }

  /** The sum of the shifted sextets of up to four symbols. */
  method GetGroup(v: Variant, s: Bytes) returns (r: Option<int>)
    requires |s| <= 4
    ensures r == Group(v, s)
  {
    var triple := 0;
    for i := 0 to |s|
      invariant Group(v, s[..i]) == Some(triple)
    {
      assert s[..i + 1][..i] == s[..i];
      var x := GetSextet(v, s[i]);
      if x.None? {
        GroupOfPrefix(v, s, i + 1);
        return None;
      }
      triple := triple
        + if i == 0 then x.value * 262144
          else if i == 1 then x.value * 4096
          else if i == 2 then x.value * 64
          else x.value;
    }
    assert s[..|s|] == s;
    r := Some(triple);
  }

  /** A symbol that is none spoils every group it is in. */
  lemma {:induction false} GroupOfPrefix(v: Variant, s: Bytes, n: nat)
    requires n <= |s| <= 4 && Group(v, s[..n]).None?
    ensures Group(v, s).None?
    decreases |s|
  {
    if n == |s| {
      assert s[..n] == s;
    } else {
      assert s[..|s| - 1][..n] == s[..n];
      GroupOfPrefix(v, s[..|s| - 1], n);
    }
  }

  method Decode(v: Variant, base: Bytes) returns (r: Option<Bytes>)
    requires Sized(v)
    ensures r == Decoded(v, base)
  {
    hide Group, ByteAt, DecodeBody;
    var size := |base|;
    var fills: nat := 0;
    while size > |v.fill|
      invariant 0 <= size <= |base| && fills <= 2
      invariant Strip(v, base, size, fills) == Strip(v, base, |base|, 0)
    {
      if base[size - |v.fill|..size] != v.fill {
        break;
      }
      fills := fills + 1;
      size := size - |v.fill|;
      if fills > 2 {
        return None;
      }
    }
    if (size + fills) % 4 != 0 {
      return None;
    }
    r := DecodeBlocks(v, base[..size], fills);
  }

  /** The second half of `decode`, on what is left before the fills. */
  method DecodeBlocks(v: Variant, body: Bytes, fills: nat) returns (r: Option<Bytes>)
    requires |v.alphabet| == 64 && fills <= 2 && (|body| + fills) % 4 == 0
    ensures r == DecodeBody(v, body, fills)
  {
    hide Group, ByteAt;
    var res: Bytes := [];
    var fastSize := |body| - |body| % 4;
    var i := 0;
    assert body[0..] == body;
    PrependNothing(DecodeBody(v, body, fills));
    while i < fastSize
      invariant 0 <= i <= fastSize && i % 4 == 0
      invariant DecodeBody(v, body, fills) == Prepend(res, DecodeBody(v, body[i..], fills))
    {
      assert body[i..][..4] == body[i..i + 4] && body[i..][4..] == body[i + 4..];
      var t := GetGroup(v, body[i..i + 4]);
      if t.None? {
        return None;
      }
      GroupBound(v, body[i..i + 4]);
      var bytes := [ByteAt(t.value, 0), ByteAt(t.value, 1), ByteAt(t.value, 2)];
      PrependTwice(res, bytes, DecodeBody(v, body[i + 4..], fills));
      res := res + bytes;
      i := i + 4;
    }
    if fills == 0 {
      assert body[i..] == [] && res + [] == res;
      return Some(res);
    }
    var t := GetGroup(v, body[i..]);
    if t.None? {
      return None;
    }
    GroupBound(v, body[i..]);
    if fills == 1 {
      res := res + [ByteAt(t.value, 0), ByteAt(t.value, 1)];
    } else {
      res := res + [ByteAt(t.value, 0)];
    }
    r := Some(res);
  }
}
