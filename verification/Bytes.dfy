/** Byte strings, as `std::string` holds them, and the order `std::map<std::string, …>` keeps its keys in. */
module Bytes {
  type byte = x: int | 0 <= x < 256
  type Bytes = seq<byte>

  datatype Option<+T> = None | Some(value: T)

  const TAB: byte := 0x09
  const LF: byte := 0x0A
  const CR: byte := 0x0D
  const SPACE: byte := 0x20
  const PLUS: byte := 0x2B
  const MINUS: byte := 0x2D
  const DOT: byte := 0x2E
  const COLON: byte := 0x3A

  /** The number of line feeds in `s`. */
  function Newlines(s: Bytes): nat {
    if s == [] then 0 else Newlines(s[..|s| - 1]) + if s[|s| - 1] == LF then 1 else 0
  }

  /** `t` stands in `s` at position `i`. */
  predicate At(s: Bytes, i: int, t: Bytes) {
    0 <= i && i + |t| <= |s| && s[i..i + |t|] == t
  }

  lemma Assoc(a: Bytes, b: Bytes, c: Bytes)
    ensures (a + b) + c == a + (b + c)
  {
  }

  /** A text made of two pieces stands at `i` iff the pieces stand one after the other. */
  lemma AtSplit(s: Bytes, i: int, t: Bytes, u: Bytes)
    ensures At(s, i, t + u) <==> At(s, i, t) && At(s, i + |t|, u)
  {
    if At(s, i, t + u) {
      assert s[i..i + |t|] == (t + u)[..|t|];
      assert s[i + |t|..i + |t| + |u|] == (t + u)[|t|..];
    }
  }

  lemma AtByte(s: Bytes, i: int, t: Bytes)
    requires At(s, i, t) && t != []
    ensures i + |t| <= |s| && s[i] == t[0]
  {
    assert s[i] == s[i..i + |t|][0];
  }

  /** The position of the first `c` in `s` at or after `i`, or |s| when there is none. */
  function Find(s: Bytes, c: byte, i: nat): (p: nat)
    requires i <= |s|
    ensures i <= p <= |s|
    ensures forall k | i <= k < p :: s[k] != c
    ensures p < |s| ==> s[p] == c
    decreases |s| - i
  {
    if i == |s| || s[i] == c then i else Find(s, c, i + 1)
  }

  lemma FindsFirst(s: Bytes, c: byte, i: nat, p: nat)
    requires i <= p <= |s| && (forall k | i <= k < p :: s[k] != c) && (p == |s| || s[p] == c)
    ensures Find(s, c, i) == p
  {
  }

  lemma FindJoined(a: Bytes, c: byte, b: Bytes)
    requires c !in a
    ensures Find(a + [c] + b, c, 0) == |a|
  {
    var s := a + [c] + b;
    assert s[|a|] == c;
    assert forall k | 0 <= k < |a| :: s[k] == a[k] && a[k] in a;
  }

  /** `isspace` in the C locale. */
  predicate IsBlank(c: byte) {
    c == SPACE || TAB <= c <= CR
  }

  /** Space, tab, line feed, vertical tab, form feed and carriage return. */
  lemma BlanksAre(c: byte)
    ensures IsBlank(c) <==> c in Ascii(" \t\n\r") || c == 0x0B || c == 0x0C
  {
    var blanks := Ascii(" \t\n\r");
    assert blanks[0] == 0x20 && blanks[1] == 0x09 && blanks[2] == 0x0A && blanks[3] == 0x0D;
  }

  lemma Signs()
    ensures Ascii(".") == [DOT] && Ascii(":") == [COLON] && Ascii(" ") == [SPACE] && Ascii("\n") == [LF]
  {
  }

  /** What a loop has appended so far, before what the rest of it yields. */
  function Prepend(a: Bytes, r: Option<Bytes>): Option<Bytes> {
    if r.Some? then Some(a + r.value) else None
  }

  lemma PrependNothing(r: Option<Bytes>)
    ensures Prepend([], r) == r
  {
    if r.Some? { assert [] + r.value == r.value; }
  }

  lemma PrependTwice(a: Bytes, b: Bytes, r: Option<Bytes>)
    ensures Prepend(a, Prepend(b, r)) == Prepend(a + b, r)
  {
    if r.Some? { Assoc(a, b, r.value); }
  }

  /** `std::string`'s `<`: the first differing byte decides, a proper prefix comes first. */
  predicate Less(a: Bytes, b: Bytes) {
    b != [] && (a == [] || a[0] < b[0] || (a[0] == b[0] && Less(a[1..], b[1..])))
  }

  lemma LessTransitive(a: Bytes, b: Bytes, c: Bytes)
    requires Less(a, b) && Less(b, c)
    ensures Less(a, c)
  {
  }

  lemma {:induction false} LessTotal(a: Bytes, b: Bytes)
    ensures Less(a, b) || a == b || Less(b, a)
    ensures !(Less(a, b) && Less(b, a))
    ensures !Less(a, a)
  {
    if a != [] {
      LessTotal(a[1..], a[1..]);
      if b != [] {
        LessTotal(a[1..], b[1..]);
        assert a == [a[0]] + a[1..] && b == [b[0]] + b[1..];
      }
    }
  }

  /** The characters of a literal. */
  function Ascii(text: string): Bytes {
    seq(|text|, i requires 0 <= i < |text| => if text[i] <= '\U{7F}' then text[i] as int else 0)
  }

  /** At index `k` it is decided that `a` comes before `b`: up to there they are the same, and there `a` ends or has
      the smaller byte. */
  predicate DecidedAt(a: Bytes, b: Bytes, k: nat) {
    k <= |a| && k < |b| && a[..k] == b[..k] && (k == |a| || a[k] < b[k])
  }

  /** `a` comes before `b` in lexicographic order. */
  ghost predicate Before(a: Bytes, b: Bytes) {
    exists k: nat :: DecidedAt(a, b, k)
  }

  /** The recursive comparison is the lexicographic order by index. */
  lemma {:induction false} LessByIndex(a: Bytes, b: Bytes)
    ensures Less(a, b) <==> Before(a, b)
  {
    forall k: nat | DecidedAt(a, b, k) ensures a == [] || a[0] <= b[0] {
      if a != [] { DecidedHead(a, b, k); }
    }
    if b == [] {
    } else if a == [] {
      assert DecidedAt(a, b, 0);
    } else if a[0] == b[0] {
      LessByIndex(a[1..], b[1..]);
      if k: nat :| DecidedAt(a[1..], b[1..], k) {
        assert a[..k + 1] == [a[0]] + a[1..][..k] && b[..k + 1] == [b[0]] + b[1..][..k];
        assert DecidedAt(a, b, k + 1);
      }
      if k: nat :| DecidedAt(a, b, k) {
        if k > 0 {
          assert a[1..][..k - 1] == a[..k][1..] && b[1..][..k - 1] == b[..k][1..];
          assert DecidedAt(a[1..], b[1..], k - 1);
        }
      }
    } else if a[0] < b[0] {
      assert DecidedAt(a, b, 0);
    }
  }

  /** No index decides against the first bytes. */
  lemma DecidedHead(a: Bytes, b: Bytes, k: nat)
    requires DecidedAt(a, b, k) && a != []
    ensures a[0] <= b[0]
  {
    if k > 0 { assert a[0] == a[..k][0] && b[0] == b[..k][0]; }
  }

  predicate IsLeast(m: Bytes, keys: set<Bytes>) {
    m in keys && forall k | k in keys :: m == k || Less(m, k)
  }

  lemma {:induction false} LeastExists(keys: set<Bytes>)
    requires keys != {}
    ensures exists m :: IsLeast(m, keys)
    decreases |keys|
  {
    var x :| x in keys;
    if keys == {x} {
      assert IsLeast(x, keys);
    } else {
      var rest := keys - {x};
      assert keys == rest + {x};
      LeastExists(rest);
      var y :| IsLeast(y, rest);
      LessTotal(x, y);
      var m := if Less(x, y) then x else y;
      forall k | k in keys ensures m == k || Less(m, k) {
        if Less(x, y) && k != x && y != k { LessTransitive(x, y, k); }
      }
      assert IsLeast(m, keys);
    }
  }

  lemma LeastUnique(keys: set<Bytes>, a: Bytes, b: Bytes)
    requires IsLeast(a, keys) && IsLeast(b, keys)
    ensures a == b
  {
    LessTotal(a, b);
  }

  /** The key `begin()` of a `std::map` with these keys stands on. */
  function Least(keys: set<Bytes>): (m: Bytes)
    requires keys != {}
    ensures IsLeast(m, keys)
  {
    LeastExists(keys);
    assert forall a, b | IsLeast(a, keys) && IsLeast(b, keys) :: a == b by {
      forall a, b | IsLeast(a, keys) && IsLeast(b, keys) ensures a == b { LeastUnique(keys, a, b); }
    }
    var m :| m in keys && IsLeast(m, keys);
    m
  }

  predicate Ascending(s: seq<Bytes>) {
    forall i, j | 0 <= i < j < |s| :: Less(s[i], s[j])
  }

  /** The keys in the order a `std::map` iterates over them. */
  function Sorted(keys: set<Bytes>): (s: seq<Bytes>)
    ensures forall k :: k in s <==> k in keys
    ensures |s| == |keys|
    ensures Ascending(s)
    decreases |keys|
  {
    if keys == {} then [] else
      var m := Least(keys);
      var rest := Sorted(keys - {m});
      assert keys == (keys - {m}) + {m};
      assert forall i | 0 <= i < |rest| :: rest[i] in rest;
      [m] + rest
  }

  /** Between any two keys in map order, one index decides. */
  lemma SortedByIndex(keys: set<Bytes>, i: nat, j: nat)
    requires i < j < |Sorted(keys)|
    ensures Before(Sorted(keys)[i], Sorted(keys)[j])
  {
    hide Sorted;
    LessByIndex(Sorted(keys)[i], Sorted(keys)[j]);
  }

  /** There is only one ascending sequence of the same keys. */
  lemma {:induction false} AscendingOnce(s: seq<Bytes>, t: seq<Bytes>)
    requires Ascending(s) && Ascending(t) && |s| == |t| && forall k :: k in s <==> k in t
    ensures s == t
    decreases |s|
  {
    hide Less;
    if s != [] {
      assert s[0] in t;
      assert t[0] in s;
      HeadsAgree(s, t);
      forall k ensures k in s[1..] <==> k in t[1..] {
        LessTotal(s[0], s[0]);
        assert k in s <==> k == s[0] || k in s[1..];
        assert k in t <==> k == t[0] || k in t[1..];
      }
      AscendingOnce(s[1..], t[1..]);
      assert s == [s[0]] + s[1..] && t == [t[0]] + t[1..];
    }
  }

  lemma HeadsAgree(s: seq<Bytes>, t: seq<Bytes>)
    requires s != [] && t != [] && Ascending(s) && Ascending(t) && s[0] in t && t[0] in s
    ensures s[0] == t[0]
  {
    hide Less;
    LessTotal(s[0], t[0]);
  }
}
