/** The one-character push-back reader of picojson.h, and its refinement to a plain index. */
module JsonReader {
  import opened Bytes
  import opened JsonGrammar

  /** `input<Iter>`. The cursor lags: a byte that was just read is passed only by the next `getc`. */
  class Input {
    const s: Bytes
    var cur: nat
    var consumed: bool
    var line: nat

    ghost predicate Valid()
      reads this
    {
      cur <= |s| && (consumed ==> cur < |s|)
    }

    /** The plain index the reader stands for: the byte the next `getc` returns. */
    ghost function Pos(): nat
      reads this
    {
      if consumed then cur + 1 else cur
    }

    /** `line()` counts the line feeds before the lagging cursor. */
    ghost predicate LineExact()
      requires Valid()
      reads this
    {
      line == 1 + Newlines(s[..cur])
    }

    constructor (s: Bytes)
      ensures Valid() && LineExact() && this.s == s && Pos() == 0
    {
      this.s := s;
      cur, consumed, line := 0, false, 1;
    }

    method GetC() returns (c: int)
      requires Valid() && LineExact()
      modifies this
      ensures Valid() && LineExact()
      ensures c == CharAt(s, old(Pos())) && cur == old(Pos())
      ensures consumed <==> c != -1
    {
      if consumed {
        assert s[..cur + 1][..cur] == s[..cur];
        if s[cur] == LF {
          line := line + 1;
        }
        cur := cur + 1;
      }
      if cur == |s| {
        consumed := false;
        return -1;
      }
      consumed := true;
      c := s[cur];
    }

    method UngetC()
      requires Valid() && LineExact()
      modifies this`consumed
      ensures Valid() && LineExact() && Pos() == cur
    {
      consumed := false;
    }

    /** `cur()`: passes the byte just read, without counting it when it is a line feed. */
    method Cur() returns (i: nat)
      requires Valid()
      modifies this
      ensures Valid() && i == cur == Pos() == old(Pos()) && line == old(line)
    {
      if consumed {
        consumed := false;
        cur := cur + 1;
      }
      i := cur;
    }

    method SkipBlanks()
      requires Valid() && LineExact()
      modifies this
      ensures Valid() && LineExact()
      ensures Pos() == cur == SkipWs(s, old(Pos()))
    {
      while true
        invariant Valid() && LineExact()
        invariant SkipWs(s, Pos()) == SkipWs(s, old(Pos()))
        decreases |s| - Pos()
      {
        var c := GetC();
        if !IsSpace(c) {
          UngetC();
          break;
        }
      }
    }

    method ExpectByte(expected: byte) returns (ok: bool)
      requires Valid() && LineExact()
      modifies this
      ensures Valid() && LineExact()
      ensures ok == Expect(s, old(Pos()), expected).Got?
      ensures Pos() == Expect(s, old(Pos()), expected).next
    {
      SkipBlanks();
      var c := GetC();
      if c != expected {
        UngetC();
        return false;
      }
      ok := true;
    }

    method MatchBytes(pattern: Bytes) returns (ok: bool)
      requires Valid() && LineExact()
      modifies this
      ensures Valid() && LineExact()
      ensures ok == Match(s, old(Pos()), pattern).Got?
      ensures Pos() == Match(s, old(Pos()), pattern).next
    {
      for k := 0 to |pattern|
        invariant Valid() && LineExact()
        invariant Match(s, Pos(), pattern[k..]) == Match(s, old(Pos()), pattern)
      {
        var c := GetC();
        assert pattern[k..][1..] == pattern[k + 1..];
        if c != pattern[k] {
          UngetC();
          return false;
        }
      }
      ok := true;
    }
  }
}
