/** How `get_connection` turns an authorization header into the token that the pool is asked for
    (irods_rest_api_base.h). */
module AuthHeader {
  import opened Bytes
  import opened Jwt
  import opened JwtRoundTrip

  /** `s` without its blanks, the rest in order. */
  function Chomped(s: Bytes): (r: Bytes)
    ensures forall k | 0 <= k < |r| :: !IsBlank(r[k])
  {
    if s == [] then []
    else if IsBlank(s[|s| - 1]) then Chomped(s[..|s| - 1])
    else Chomped(s[..|s| - 1]) + [s[|s| - 1]]
  }

  /** What stands after the first colon; the whole header when there is none (`find` is then `npos`, and one more
      is 0). */
  function AfterColon(header: Bytes): Bytes {
    var colon := Find(header, COLON, 0);
    if colon == |header| then header else header[colon + 1..]
  }

  /** `remove_if`: moves the kept characters to the front in place. */
  method RemoveBlanks(jwt: array<byte>) returns (kept: nat)
    modifies jwt
    ensures kept <= jwt.Length && jwt[..kept] == Chomped(old(jwt[..]))
  {
    hide IsBlank;
    ghost var text := jwt[..];
    kept := 0;
    for i := 0 to jwt.Length
      invariant kept <= i
      invariant jwt[..kept] == Chomped(text[..i])
      invariant forall k | i <= k < jwt.Length :: jwt[k] == text[k]
    {
      assert text[..i + 1][..i] == text[..i];
      var c := jwt[i];
      if !IsBlank(c) {
        ghost var front := jwt[..kept];
        jwt[kept] := c;
        assert jwt[..kept] == front;
        kept := kept + 1;
      }
    }
    assert text[..jwt.Length] == text;
  }

  /** The token that the pool is asked for. */
  method TokenOfHeader(header: Bytes) returns (token: Bytes)
    ensures token == Chomped(AfterColon(header))
  {
    var text := AfterColon(header);
    var jwt := new byte[|text|](i requires 0 <= i < |text| => text[i]);
    assert jwt[..] == text;
    var kept := RemoveBlanks(jwt);
    token := jwt[..kept];
  }

  lemma {:induction false} ChompedJoins(s: Bytes, t: Bytes)
    ensures Chomped(s + t) == Chomped(s) + Chomped(t)
    decreases |t|
  {
    if t == [] {
      assert s + t == s;
    } else {
      var init, last := t[..|t| - 1], t[|t| - 1];
      assert (s + t)[..|s + t| - 1] == s + init;
      ChompedJoins(s, init);
      if !IsBlank(last) {
        Assoc(Chomped(s), Chomped(init), [last]);
      }
    }
  }

  lemma {:induction false} NothingToChomp(s: Bytes)
    requires forall c | c in s :: !IsBlank(c)
    ensures Chomped(s) == s
  {
    if s != [] {
      assert s[|s| - 1] in s;
      NothingToChomp(s[..|s| - 1]);
      assert s == s[..|s| - 1] + [s[|s| - 1]];
    }
  }

  lemma {:induction false} AllChomped(s: Bytes)
    requires forall c | c in s :: IsBlank(c)
    ensures Chomped(s) == []
  {
    if s != [] {
      assert s[|s| - 1] in s;
      AllChomped(s[..|s| - 1]);
    }
  }

  /** The first colon ends the header's name. */
  lemma ColonEndsName(name: Bytes, rest: Bytes)
    requires ':' as int !in name
    ensures AfterColon(name + Ascii(":") + rest) == rest && AfterColon(name) == name
  {
    Signs();
    FindJoined(name, COLON, rest);
    FindsFirst(name, COLON, 0, |name|);
    assert (name + [COLON] + rest)[|name| + 1..] == rest;
  }

  /** A token without colons and blanks is read from a header whether or not the header's name precedes it, and
      whatever blanks stand around it. */
  lemma {:induction false} TokenReadBack(name: Bytes, before: Bytes, token: Bytes, after: Bytes)
    requires COLON !in name && forall c | c in before || c in after :: IsBlank(c)
    requires forall c | c in token :: c != COLON && !IsBlank(c)
    ensures Chomped(AfterColon(name + [COLON] + (before + token + after))) == token
    ensures Chomped(AfterColon(before + token + after)) == token
  {
    hide Chomped;
    var text := before + token + after;
    FindJoined(name, COLON, text);
    assert (name + [COLON] + text)[|name| + 1..] == text;
    assert forall k | 0 <= k < |text| :: text[k] in before || text[k] in token || text[k] in after;
    FindsFirst(text, COLON, 0, |text|);
    AllChomped(before);
    AllChomped(after);
    NothingToChomp(token);
    ChompedJoins(before, token);
    ChompedJoins(before + token, after);
  }

  /** Every signed token is such a token, so it reaches the pool unchanged. */
  lemma {:induction false} SignedTokenReadBack(name: Bytes, before: Bytes, after: Bytes, h: Claims, p: Claims,
                                               alg: Algorithm)
    requires COLON !in name && forall c | c in before || c in after :: IsBlank(c)
    requires AllNumberFree(h) && AllNumberFree(p)
    ensures Signed(h, p, alg).Some? ==>
      var token := Signed(h, p, alg).value;
      && Chomped(AfterColon(name + [COLON] + (before + token + after))) == token
      && Chomped(AfterColon(before + token + after)) == token
  {
    hide AllNumberFree, ClaimsText, HeaderObject, Segment, Chomped, AfterColon;
    HeaderNumberFree(h, alg);
    if Signed(h, p, alg).None? { return; }
    var hs, ps := ClaimsText(HeaderObject(h, alg)), ClaimsText(p);
    var sig := SignatureOf(alg, SigningInput(h, p, alg)).value;
    SegmentPlain(hs);
    SegmentPlain(ps);
    SegmentPlain(sig);
    TokenReadBack(name, before, Signed(h, p, alg).value, after);
  }
}
