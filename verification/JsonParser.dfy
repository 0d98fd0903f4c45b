/** The recursive-descent parser of picojson.h as the source runs it, on the push-back reader. */
module JsonParser {
  import opened Bytes
  import opened JsonValue
  import opened JsonGrammar
  import opened JsonReader

  /** `_parse_quadhex`. */
  method ReadQuadHex(inp: Input) returns (code: int)
    requires inp.Valid() && inp.LineExact()
    modifies inp
    ensures inp.Valid() && inp.LineExact()
    ensures var r := QuadHex(inp.s, old(inp.Pos()), old(inp.Pos()) + 4, 0);
      inp.Pos() == r.next && code == if r.Got? then r.value else -1
  {
    ghost var end := inp.Pos() + 4;
    ghost var whole := QuadHex(inp.s, inp.Pos(), end, 0);
    code := 0;
    var k := 0;
    while k < 4
      invariant 0 <= k <= 4 && 0 <= code < CodeLimit(4 - k)
      invariant inp.Valid() && inp.LineExact()
      invariant inp.Pos() + 4 - k == end && QuadHex(inp.s, inp.Pos(), end, code) == whole
    {
      var c := inp.GetC();
      if c == -1 {
        return -1;
      }
      var hex := HexValue(c);
      if hex.None? {
        inp.UngetC();
        return -1;
      }
      code := code * 16 + hex.value;
      k := k + 1;
    }
  }

  /** The end of `_parse_codepoint`, which appends the code point. */
  method PushCodePoint(u: int) returns (bytes: Bytes)
    requires 0 <= u <= 0x10FFFF
    ensures bytes == CodePointBytes(u)
  {
    bytes := [];
    if u < 0x80 {
      bytes := bytes + [u];
    } else {
      if u < 0x800 {
        bytes := bytes + [0xC0 + u / 64];
      } else {
        if u < 0x10000 {
          bytes := bytes + [0xE0 + u / 4096];
        } else {
          bytes := bytes + [0xF0 + u / 262144];
          bytes := bytes + [0x80 + u / 4096 % 64];
        }
        bytes := bytes + [0x80 + u / 64 % 64];
      }
      bytes := bytes + [0x80 + u % 64];
    }
  }

  /** The second escape of a surrogate pair in `_parse_codepoint`, after the high half `u`. */
  method ReadLowHalf(inp: Input, u: int) returns (ok: bool, bytes: Bytes)
    requires inp.Valid() && inp.LineExact() && IsHighSurrogate(u)
    modifies inp
    ensures inp.Valid() && inp.LineExact()
    ensures var r := LowHalf(inp.s, old(inp.Pos()), u);
      ok == r.Got? && inp.Pos() == r.next && (ok ==> bytes == r.value)
  {
    hide Newlines;
    ok, bytes := false, [];
    var c := inp.GetC();
    var escape := c == BACKSLASH;
    if escape {
      c := inp.GetC();
      escape := c == 0x75;
    }
    if !escape {
      inp.UngetC();
      return;
    }
    var second := ReadQuadHex(inp);
    if !(0xDC00 <= second <= 0xDFFF) {
      return;
    }
    bytes := PushCodePoint((u - 0xD800) * 1024 + (second - 0xDC00) + 0x10000);
    ok := true;
  }

  /** `_parse_codepoint`: the bytes it appends to the string. */
  method ReadCodePoint(inp: Input) returns (ok: bool, bytes: Bytes)
    requires inp.Valid() && inp.LineExact()
    modifies inp
    ensures inp.Valid() && inp.LineExact()
    ensures var r := CodePoint(inp.s, old(inp.Pos()));
      ok == r.Got? && inp.Pos() == r.next && (ok ==> bytes == r.value)
  {
    hide Newlines;
    ok, bytes := false, [];
    var u := ReadQuadHex(inp);
    if u == -1 {
      return;
    }
    if 0xD800 <= u <= 0xDFFF {
      if 0xDC00 <= u {
        return;
      }
      ok, bytes := ReadLowHalf(inp, u);
    } else {
      bytes := PushCodePoint(u);
      ok := true;
    }
  }

  /** `_parse_string`. */
  method ReadString(inp: Input) returns (ok: bool, out: Bytes)
    requires inp.Valid() && inp.LineExact()
    modifies inp
    ensures inp.Valid() && inp.LineExact()
    ensures var r := StringBody(inp.s, old(inp.Pos()), []);
      ok == r.Got? && inp.Pos() == r.next && (ok ==> out == r.value)
  {
    hide CodePoint, SimpleEscape, Newlines;
    out := [];
    ghost var whole := StringBody(inp.s, inp.Pos(), []);
    while true
      invariant inp.Valid() && inp.LineExact()
      invariant StringBody(inp.s, inp.Pos(), out) == whole
      decreases |inp.s| - inp.Pos()
    {
      ghost var step := StringStepAt(inp.s, inp.Pos());
      var c := inp.GetC();
      if c < SPACE {
        inp.UngetC();
        return false, out;
      } else if c == QUOTE {
        return true, out;
      } else if c == BACKSLASH {
        c := inp.GetC();
        if c == -1 {
          return false, out;
        }
        var simple := SimpleEscape(c);
        if simple.Some? {
          out := out + [simple.value];
        } else if c == 0x75 {
          var good, bytes := ReadCodePoint(inp);
          if !good {
            return false, out;
          }
          out := out + bytes;
        } else {
          return false, out;
        }
      } else {
        out := out + [c];
      }
    }
  }

  /** `_parse_number`: the characters of the number. */
  method ReadNumber(inp: Input) returns (text: Bytes)
    requires inp.Valid() && inp.LineExact()
    modifies inp
    ensures inp.Valid() && inp.LineExact()
    ensures inp.Pos() == NumberEnd(inp.s, old(inp.Pos()))
    ensures text == inp.s[old(inp.Pos())..inp.Pos()]
  {
    hide Newlines;
    text := [];
    ghost var start := inp.Pos();
    ghost var end := NumberEnd(inp.s, start);
    while true
      invariant inp.Valid() && inp.LineExact() && start <= inp.Pos()
      invariant NumberEnd(inp.s, inp.Pos()) == end
      invariant text == inp.s[start..inp.Pos()]
      decreases |inp.s| - inp.Pos()
    {
      var c := inp.GetC();
      if IsNumberChar(c) {
        text := text + [c];
      } else {
        inp.UngetC();
        break;
      }
    }
  }

  /** How a parsing method returns: `true`, `false`, or by an exception. */
  datatype Status = Good | Bad | Threw

  /** The outcome of a parsing method is the one the grammar gives for the index it started at. */
  ghost predicate Agrees(p: Parsed, st: Status, v: Value, pos: nat) {
    match p
    case Ok(value, next) => st == Good && v == value && pos == next
    case Fail(next) => st == Bad && pos == next
    case Overflow => st == Threw
  }

  method ParseNumber(ctx: Context, inp: Input) returns (st: Status, v: Value)
    requires inp.Valid() && inp.LineExact()
    requires inp.Pos() < |inp.s| && IsNumberChar(inp.s[inp.Pos()])
    modifies inp
    ensures inp.Valid() && inp.LineExact()
    ensures Agrees(NumberValue(ctx, inp.s, old(inp.Pos())), st, v, inp.Pos())
  {
    var text := ReadNumber(inp);
    var n := WholeInteger(text);
    if n.Some? {
      return Good, Stored(ctx, Int(n.value));
    }
    var x := WholeDouble(text);
    if x.None? {
      return Bad, Null;
    }
    if ctx.Building? && Overflows(x.value) {
      return Threw, Null;
    }
    st, v := Good, Stored(ctx, Number(x.value));
  }

  /** `_parse`. */
  method Parse(ctx: Context, inp: Input) returns (st: Status, v: Value)
    requires inp.Valid() && inp.LineExact()
    modifies inp
    ensures inp.Valid() && inp.LineExact()
    ensures Agrees(ParseValue(ctx, inp.s, old(inp.Pos())), st, v, inp.Pos())
    decreases |inp.s| - inp.Pos(), 0
  {
    hide NumberValue, StringBody, ParseItems, ParseMembers, Match, Expect, Newlines;
    inp.SkipBlanks();
    var c := inp.GetC();
    if c == 0x6E {
      var ok := inp.MatchBytes(NULL_TEXT[1..]);
      st, v := if ok then Good else Bad, Null;
    } else if c == 0x66 {
      var ok := inp.MatchBytes(FALSE_TEXT[1..]);
      st, v := if ok then Good else Bad, Stored(ctx, Bool(false));
    } else if c == 0x74 {
      var ok := inp.MatchBytes(TRUE_TEXT[1..]);
      st, v := if ok then Good else Bad, Stored(ctx, Bool(true));
    } else if c == QUOTE {
      var ok, bytes := ReadString(inp);
      st, v := if ok then Good else Bad, Stored(ctx, Str(bytes));
    } else if c == OPEN_BRACKET {
      st, v := ParseArray(ctx, inp);
    } else if c == OPEN_BRACE {
      st, v := ParseObject(ctx, inp);
    } else if IsDigit(c) || c == MINUS {
      inp.UngetC();
      st, v := ParseNumber(ctx, inp);
    } else {
      inp.UngetC();
      st, v := Bad, Null;
    }
  }

  /** `_parse_array`. */
  method ParseArray(ctx: Context, inp: Input) returns (st: Status, v: Value)
    requires inp.Valid() && inp.LineExact()
    modifies inp
    ensures inp.Valid() && inp.LineExact()
    ensures var close := Expect(inp.s, old(inp.Pos()), CLOSE_BRACKET);
      Agrees(if close.Got? then Ok(Stored(ctx, Arr([])), close.next) else ParseItems(ctx, inp.s, close.next, []),
             st, v, inp.Pos())
    decreases |inp.s| - inp.Pos(), 1
  {
    hide ParseValue, Expect, Newlines;
    var done := inp.ExpectByte(CLOSE_BRACKET);
    if done {
      return Good, Stored(ctx, Arr([]));
    }
    ghost var start := inp.Pos();
    var items := [];
    while true
      invariant inp.Valid() && inp.LineExact() && start <= inp.Pos()
      invariant ParseItems(ctx, inp.s, inp.Pos(), items) == ParseItems(ctx, inp.s, start, [])
      decreases |inp.s| - inp.Pos()
    {
      var item;
      st, item := Parse(ctx, inp);
      if st != Good {
        return st, Null;
      }
      if ctx.Building? {
        items := items + [item];
      }
      var more := inp.ExpectByte(COMMA);
      if !more {
        break;
      }
    }
    done := inp.ExpectByte(CLOSE_BRACKET);
    st, v := if done then Good else Bad, Stored(ctx, Arr(items));
  }

  /** `_parse_object`. */
  method ParseObject(ctx: Context, inp: Input) returns (st: Status, v: Value)
    requires inp.Valid() && inp.LineExact()
    modifies inp
    ensures inp.Valid() && inp.LineExact()
    ensures var close := Expect(inp.s, old(inp.Pos()), CLOSE_BRACE);
      Agrees(if close.Got? then Ok(Stored(ctx, Obj(map[])), close.next)
             else ParseMembers(ctx, inp.s, close.next, map[]),
             st, v, inp.Pos())
    decreases |inp.s| - inp.Pos(), 1
  {
    hide ParseValue, Expect, StringBody, Newlines;
    var done := inp.ExpectByte(CLOSE_BRACE);
    if done {
      return Good, Stored(ctx, Obj(map[]));
    }
    ghost var start := inp.Pos();
    var members := map[];
    while true
      invariant inp.Valid() && inp.LineExact() && start <= inp.Pos()
      invariant ParseMembers(ctx, inp.s, inp.Pos(), members) == ParseMembers(ctx, inp.s, start, map[])
      decreases |inp.s| - inp.Pos()
    {
      var ok := inp.ExpectByte(QUOTE);
      if !ok {
        return Bad, Null;
      }
      var key;
      ok, key := ReadString(inp);
      if !ok {
        return Bad, Null;
      }
      ok := inp.ExpectByte(COLON);
      if !ok {
        return Bad, Null;
      }
      var item;
      st, item := Parse(ctx, inp);
      if st != Good {
        return st, Null;
      }
      if ctx.Building? {
        members := members[key := item];
      }
      var more := inp.ExpectByte(COMMA);
      if !more {
        break;
      }
    }
    done := inp.ExpectByte(CLOSE_BRACE);
    st, v := if done then Good else Bad, Stored(ctx, Obj(members));
  }

  /** "syntax error at line %d near: " and the rest of the line. */
  datatype SyntaxError = SyntaxError(line: nat, near: Bytes)

  function Printable(c: byte): Bytes {
    if c >= SPACE then [c] else []
  }

  /** The printable rest of the line at `i`. */
  function Near(s: Bytes, i: nat): Bytes
    requires i <= |s|
    decreases |s| - i
  {
    if i == |s| || s[i] == LF then [] else Printable(s[i]) + Near(s, i + 1)
  }

  /** The index after the line at `i`. */
  function LineEnd(s: Bytes, i: nat): nat
    requires i <= |s|
    decreases |s| - i
  {
    if i == |s| then i else if s[i] == LF then i + 1 else LineEnd(s, i + 1)
  }

  /** One more character of the line is read. */
  lemma NearStep(s: Bytes, i: nat, near: Bytes)
    requires i < |s| && s[i] != LF
    ensures near + Near(s, i) == near + Printable(s[i]) + Near(s, i + 1) && LineEnd(s, i) == LineEnd(s, i + 1)
  {
    Assoc(near, Printable(s[i]), Near(s, i + 1));
  }

  lemma NearEnds(s: Bytes, i: nat)
    requires i <= |s| && (i < |s| ==> s[i] == LF)
    ensures Near(s, i) == [] && LineEnd(s, i) == if i < |s| then i + 1 else i
  {
  }

  /** The loop of `_parse(ctx, first, last, err)` that reads the rest of the line into the error message. */
  method ReadRestOfLine(inp: Input) returns (near: Bytes)
    requires inp.Valid() && inp.LineExact()
    modifies inp
    ensures inp.Valid() && inp.LineExact()
    ensures near == Near(inp.s, old(inp.Pos())) && inp.Pos() == LineEnd(inp.s, old(inp.Pos()))
  {
    hide Newlines, Near, LineEnd;
    near := [];
    ghost var text, end := Near(inp.s, inp.Pos()), LineEnd(inp.s, inp.Pos());
    assert [] + text == text;
    while true
      invariant inp.Valid() && inp.LineExact()
      invariant near + Near(inp.s, inp.Pos()) == text && LineEnd(inp.s, inp.Pos()) == end
      decreases |inp.s| - inp.Pos()
    {
      var c := inp.GetC();
      if c == -1 || c == LF {
        NearEnds(inp.s, inp.cur);
        assert near + [] == near;
        break;
      }
      NearStep(inp.s, inp.cur, near);
      if c >= SPACE {
        near := near + [c];
      } else {
        assert near + [] == near;
      }
    }
  }

  /** `_parse(ctx, first, last, err)`: a failure is reported with its line, and the returned iterator then stands
      after that line. A line feed that was read but not passed is not counted yet. */
  method ParseRange(ctx: Context, s: Bytes) returns (st: Status, v: Value, err: Option<SyntaxError>, end: nat)
    ensures match ParseValue(ctx, s, 0)
      case Ok(value, next) => st == Good && v == value && end == next && err == None
      case Fail(next) =>
        && st == Bad && end == LineEnd(s, next) && err.Some? && err.value.near == Near(s, next)
        && exists passed :: next - 1 <= passed <= next && 0 <= passed && err.value.line == 1 + Newlines(s[..passed])
      case Overflow => st == Threw
  {
    hide ParseValue, Newlines, Near, LineEnd;
    var inp := new Input(s);
    err, end := None, 0;
    st, v := Parse(ctx, inp);
    if st == Threw {
      return;
    }
    if st == Bad {
      ghost var passed := inp.cur;
      var line := inp.line;
      assert line == 1 + Newlines(s[..passed]);
      var near := ReadRestOfLine(inp);
      err := Some(SyntaxError(line, near));
    }
    end := inp.Cur();
  }

  /** The characters of `s` that are no control characters. */
  function Visible(s: Bytes): Bytes {
    if s == [] then [] else (if s[0] < ' ' as int then [] else [s[0]]) + Visible(s[1..])
  }

  /** What an error message quotes are the visible characters up to the end of the line, and the reader stops behind
      it. */
  lemma {:induction false} NearIsLine(s: Bytes, i: nat)
    requires i <= |s|
    ensures var e := Find(s, '\n' as int, i);
      Near(s, i) == Visible(s[i..e]) && LineEnd(s, i) == if e < |s| then e + 1 else e
    decreases |s| - i
  {
    if i < |s| && s[i] != LF {
      NearIsLine(s, i + 1);
      assert s[i..Find(s, LF, i)][1..] == s[i + 1..Find(s, LF, i)];
    }
  }
}
