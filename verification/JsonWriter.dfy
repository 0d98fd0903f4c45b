/** The serializer of picojson.h as the source runs it: loops that push bytes through an output iterator. */
module JsonWriter {
  import opened Bytes
  import opened JsonValue

  /** The string behind the `back_inserter` that `value::_serialize` writes through. */
  class Output {
    var text: Bytes

    constructor ()
      ensures text == []
    {
      text := [];
    }

    method PushBack(c: byte)
      modifies this
      ensures text == old(text) + [c]
    {
      text := text + [c];
    }

    method Copy(s: Bytes)
      modifies this
      ensures text == old(text) + s
    {
      for i := 0 to |s|
        invariant text == old(text) + s[..i]
      {
        text := text + [s[i]];
      }
    }
  }

  /** Writing `piece` in front of `rest` moves it from the rest to the text. */
  lemma Move(text: Bytes, piece: Bytes, rest: Bytes)
    ensures (text + piece) + rest == text + (piece + rest)
  {
  }

  lemma Frame(text: Bytes, open: byte, middle: Bytes, close: Bytes)
    ensures text + [open] + middle + close == text + ([open] + (middle + close))
  {
  }

  method WriteString(s: Bytes, out: Output)
    modifies out
    ensures out.text == old(out.text) + QuotedText(s)
  {
    out.PushBack(QUOTE);
    ghost var start := out.text;
    for i := 0 to |s|
      invariant out.text + EscapedText(s[i..]) == start + EscapedText(s)
    {
      assert s[i..][1..] == s[i + 1..];
      Move(out.text, EscapedByte(s[i]), EscapedText(s[i + 1..]));
      out.Copy(EscapedByte(s[i]));
    }
    assert out.text == start + EscapedText(s);
    out.PushBack(QUOTE);
    Frame(old(out.text), QUOTE, EscapedText(s), [QUOTE]);
  }

  /** `_indent`. */
  method WriteGap(indent: int, out: Output)
    requires 0 <= indent
    modifies out
    ensures out.text == old(out.text) + Gap(indent)
  {
    out.PushBack(LF);
    ghost var start := out.text;
    var n := indent * INDENT_WIDTH;
    for i := 0 to n
      invariant out.text + Spaces(n - i) == start + Spaces(n)
    {
      Move(out.text, [SPACE], Spaces(n - i - 1));
      out.PushBack(SPACE);
    }
    assert out.text == start + Spaces(n);
    Move(old(out.text), [LF], Spaces(n));
  }

  /** The separator and the indentation before element `k`. */
  method WriteLead(k: nat, indent: int, out: Output)
    requires -1 <= indent
    modifies out
    ensures out.text == old(out.text) + Lead(k, indent)
  {
    if k != 0 {
      out.PushBack(COMMA);
    }
    if indent != -1 {
      WriteGap(indent, out);
    }
  }

  method WriteKey(key: Bytes, indent: int, out: Output)
    modifies out
    ensures out.text == old(out.text) + KeyText(key, indent)
  {
    WriteString(key, out);
    out.PushBack(COLON);
    if indent != -1 {
      out.PushBack(SPACE);
    }
  }

  /** `value::_serialize(oi, indent)`. */
  method WriteValue(v: Value, indent: int, out: Output)
    requires -1 <= indent && NumberFree(v)
    modifies out
    ensures out.text == old(out.text) + Text(v, indent)
    decreases v, 1
  {
    hide Items, Members, Sorted, EscapedText, DecimalText;
    match v {
      case Null => out.Copy(NULL_TEXT);
      case Bool(b) => out.Copy(if b then TRUE_TEXT else FALSE_TEXT);
      case Int(i) => out.Copy(DecimalText(i));
      case Str(s) => WriteString(s, out);
      case Arr(a) => WriteArray(v, indent, out);
      case Obj(o) => WriteObject(v, indent, out);
    }
    if indent == 0 {
      out.PushBack(LF);
    }
  }

  method WriteArray(v: Value, indent: int, out: Output)
    requires v.Arr? && -1 <= indent && NumberFree(v)
    modifies out
    ensures out.text == old(out.text) + Body(v, indent)
    decreases v, 0
  {
    out.PushBack(OPEN_BRACKET);
    ghost var start := out.text;
    var inner := Deeper(indent);
    for i := 0 to |v.a|
      invariant out.text + Items(v, i, inner) == start + Items(v, 0, inner)
    {
      ghost var rest := Items(v, i + 1, inner);
      Move(out.text, Lead(i, inner), Text(v.a[i], inner) + rest);
      WriteLead(i, inner, out);
      Move(out.text, Text(v.a[i], inner), rest);
      WriteValue(v.a[i], inner, out);
    }
    assert out.text == start + Items(v, 0, inner);
    WriteTail(v.a == [], indent, CLOSE_BRACKET, out);
    Frame(old(out.text), OPEN_BRACKET, Items(v, 0, inner), Tail(v.a == [], indent) + [CLOSE_BRACKET]);
  }

  method WriteObject(v: Value, indent: int, out: Output)
    requires v.Obj? && -1 <= indent && NumberFree(v)
    modifies out
    ensures out.text == old(out.text) + Body(v, indent)
    decreases v, 0
  {
    out.PushBack(OPEN_BRACE);
    ghost var start := out.text;
    var inner := Deeper(indent);
    var keys := Sorted(v.o.Keys);
    for i := 0 to |keys|
      invariant out.text + Members(v, keys, i, inner) == start + Members(v, keys, 0, inner)
    {
      ghost var rest := Members(v, keys, i + 1, inner);
      Move(out.text, Lead(i, inner), KeyText(keys[i], inner) + (Text(v.o[keys[i]], inner) + rest));
      WriteLead(i, inner, out);
      Move(out.text, KeyText(keys[i], inner), Text(v.o[keys[i]], inner) + rest);
      WriteKey(keys[i], inner, out);
      Move(out.text, Text(v.o[keys[i]], inner), rest);
      WriteValue(v.o[keys[i]], inner, out);
    }
    assert out.text == start + Members(v, keys, 0, inner);
    WriteTail(v.o == map[], indent, CLOSE_BRACE, out);
    Frame(old(out.text), OPEN_BRACE, Members(v, keys, 0, inner), Tail(v.o == map[], indent) + [CLOSE_BRACE]);
  }

  /** The indentation before a closing bracket, and the bracket. */
  method WriteTail(empty: bool, indent: int, bracket: byte, out: Output)
    requires -1 <= indent
    modifies out
    ensures out.text == old(out.text) + (Tail(empty, indent) + [bracket])
  {
    if indent != -1 && !empty {
      WriteGap(indent, out);
    }
    out.PushBack(bracket);
  }

  /** `value::serialize(prettify)`. */
  method Serialize(v: Value, prettify: bool) returns (text: Bytes)
    requires NumberFree(v)
    ensures text == Serialized(v, prettify)
  {
    var out := new Output();
    WriteValue(v, if prettify then 0 else -1, out);
    text := out.text;
  }
}
