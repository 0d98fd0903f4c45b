/** Exactly which texts the parser accepts, and as which values: a declarative grammar (RFC 8259, with the parser's own
    notion of a number), and the proof that `_parse` decides it. */
module JsonTexts {
  import opened Bytes
  import opened JsonValue
  import opened JsonGrammar
  import opened JsonEscapes
  import JR = JsonRoundTrip
  import JL = JsonLayout
  import JN = JsonNumbers

  // ---- the grammar ----

  /** Only blanks stand from `i` to `j`. */
  predicate Blank(s: Bytes, i: nat, j: nat) {
    i <= j <= |s| && forall k | i <= k < j :: s[k] in Ascii(" \t\n\r")
  }

  predicate Sign(s: Bytes, i: nat, c: char) {
    i < |s| && s[i] == c as int
  }

  /** An unescaped character, a one-letter escape, or the escape of a Unicode scalar value, and the bytes it stands
      for. */
  ghost predicate OneChar(s: Bytes, i: nat, j: nat, bytes: Bytes) {
    || (j == i + 1 <= |s| && s[i] >= 0x20 && s[i] !in Ascii("\"\\") && bytes == [s[i]])
    || (j == i + 2 <= |s| && Sign(s, i, '\\')
        && exists k :: 0 <= k < 8 && s[i + 1] == JL.EscapeLetters()[k] && bytes == [JL.Escapable()[k]])
    || (Sign(s, i, '\\') && Sign(s, i + 1, 'u')
        && exists u :: IsScalar(u) && Spells(s, i + 2, u, j) && bytes == CodePointBytes(u))
  }

  /** The characters of a string. */
  ghost predicate Chars(s: Bytes, i: nat, j: nat, text: Bytes)
    decreases j - i
  {
    if i >= j then i == j && text == [] else
      exists k: nat, bytes ::
        i < k <= j && OneChar(s, i, k, bytes) && bytes <= text && Chars(s, k, j, text[|bytes|..])
  }

  /** A string between quotes. */
  ghost predicate Quoted(s: Bytes, i: nat, j: nat, text: Bytes) {
    i + 2 <= j && Sign(s, i, '"') && Sign(s, j - 1, '"') && Chars(s, i + 1, j - 1, text)
  }

  predicate NumberRun(s: Bytes, i: nat, j: nat) {
    i < j <= |s| && (s[i] in Ascii("0123456789") || s[i] == '-' as int)
    && forall k | i <= k < j :: s[k] in Ascii("0123456789+-eE.")
  }

  predicate Word(s: Bytes, i: nat, j: nat, word: string) {
    i <= j <= |s| && s[i..j] == Ascii(word)
  }

  /** The text from `i` to `j` is the value, without blanks around it. */
  ghost predicate IsValue(s: Bytes, i: nat, j: nat, v: Value)
    decreases j - i, 0
  {
    match v
    case Null => Word(s, i, j, "null")
    case Bool(b) => Word(s, i, j, if b then "true" else "false")
    case Int(n) => NumberRun(s, i, j) && WholeInteger(s[i..j]) == Some(n)
    case Number(x) =>
      NumberRun(s, i, j) && WholeInteger(s[i..j]) == None && WholeDouble(s[i..j]) == Some(x) && !Overflows(x)
    case Str(t) => Quoted(s, i, j, t)
    case Arr(a) =>
      i + 2 <= j && Sign(s, i, '[') && Sign(s, j - 1, ']')
      && if a == [] then Blank(s, i + 1, j - 1) else Elements(s, i + 1, j - 1, a)
    case Obj(o) =>
      i + 2 <= j && Sign(s, i, '{') && Sign(s, j - 1, '}')
      && if o == map[] then Blank(s, i + 1, j - 1) else Members(s, i + 1, j - 1, map[], o)
  }

  /** The first value, from `p` to `q`, and what follows its blanks at `m`. */
  ghost predicate FirstElement(s: Bytes, i: nat, p: nat, q: nat, m: nat, j: nat, a: seq<Value>)
    requires a != []
    decreases j - i, 1
  {
    && i <= p < q <= m <= j && Blank(s, i, p) && IsValue(s, p, q, a[0]) && Blank(s, q, m)
    && if |a| == 1 then m == j else m < j && Sign(s, m, ',') && Elements(s, m + 1, j, a[1..])
  }

  /** Values with blanks around them and commas between them. */
  ghost predicate Elements(s: Bytes, i: nat, j: nat, a: seq<Value>)
    decreases j - i, 2
  {
    a != [] && exists p: nat, q: nat, m: nat :: FirstElement(s, i, p, q, m, j, a)
  }

  /** A key from `p` to `e`, a colon at `c` and a value from `w` to `q`, with blanks before each. */
  ghost predicate MemberAt(s: Bytes, i: nat, p: nat, e: nat, c: nat, w: nat, q: nat, key: Bytes, v: Value)
    decreases q - i, 1
  {
    && i <= p < e <= c < w < q && Blank(s, i, p) && Quoted(s, p, e, key) && Blank(s, e, c) && Sign(s, c, ':')
    && Blank(s, c + 1, w) && IsValue(s, w, q, v)
  }

  ghost predicate Member(s: Bytes, i: nat, q: nat, key: Bytes, v: Value)
    decreases q - i, 2
  {
    exists p: nat, e: nat, c: nat, w: nat :: MemberAt(s, i, p, e, c, w, q, key, v)
  }

  /** The first member, up to `q`, and what follows its blanks at `m`. */
  ghost predicate FirstMember(s: Bytes, i: nat, q: nat, m: nat, j: nat, key: Bytes, v: Value,
                              acc: map<Bytes, Value>, o: map<Bytes, Value>)
    decreases j - i, 3
  {
    && i < q <= m <= j && Member(s, i, q, key, v) && Blank(s, q, m)
    && if m == j then o == acc[key := v] else Sign(s, m, ',') && Members(s, m + 1, j, acc[key := v], o)
  }

  /** Members with commas between them turn `acc` into `o`; a repeated key overwrites. */
  ghost predicate Members(s: Bytes, i: nat, j: nat, acc: map<Bytes, Value>, o: map<Bytes, Value>)
    decreases j - i, 4
  {
    exists q: nat, m: nat, key, v :: FirstMember(s, i, q, m, j, key, v, acc, o)
  }

  /** A number is not cut off in the middle. */
  predicate Ends(s: Bytes, j: nat, v: Value) {
    (v.Int? || v.Number?) && j < |s| ==> s[j] !in Ascii("0123456789+-eE.")
  }

  /** From `i` to `j` the text is the value after blanks. */
  ghost predicate Reads(s: Bytes, i: nat, j: nat, v: Value) {
    exists p: nat :: i <= p < j <= |s| && Blank(s, i, p) && IsValue(s, p, j, v) && Ends(s, j, v)
  }

  // ---- blanks ----

  lemma {:induction false} SkipsBlanks(s: Bytes, i: nat)
    requires i <= |s|
    ensures var p := SkipWs(s, i); Blank(s, i, p) && !IsSpace(CharAt(s, p)) && SkipWs(s, p) == p
    decreases |s| - i
  {
    SpacesExact(CharAt(s, i));
    if IsSpace(CharAt(s, i)) {
      SkipsBlanks(s, i + 1);
    }
  }

  lemma {:induction false} BlankSkips(s: Bytes, i: nat, p: nat)
    requires Blank(s, i, p)
    ensures SkipWs(s, i) == SkipWs(s, p)
    decreases p - i
  {
    hide IsSpace;
    if i < p {
      SpacesExact(s[i]);
      BlankSkips(s, i + 1, p);
    }
  }

  lemma ExpectGot(s: Bytes, i: nat, c: byte)
    requires i <= |s|
    ensures var r := Expect(s, i, c);
      && (r.Got? ==> var m := r.next - 1; i <= m < |s| && Blank(s, i, m) && s[m] == c)
      && (r.Stop? ==> r.next == SkipWs(s, i) && Blank(s, i, r.next) && CharAt(s, r.next) != c)
  {
    SkipsBlanks(s, i);
  }

  lemma ExpectAfter(s: Bytes, i: nat, m: nat, c: byte)
    requires Blank(s, i, m) && m < |s| && !IsSpace(s[m])
    ensures Expect(s, i, c) == if s[m] == c then Got((), m + 1) else Stop(m)
  {
    BlankSkips(s, i, m);
  }

  // ---- strings ----

  lemma EscapeTable(c: int, bytes: Bytes)
    ensures (exists k :: 0 <= k < 8 && c == JL.EscapeLetters()[k] && bytes == [JL.Escapable()[k]])
      <==> SimpleEscape(c).Some? && bytes == [SimpleEscape(c).value]
  {
    var e, l := JL.Escapable(), JL.EscapeLetters();
    assert e[0] == 0x22 && e[1] == 0x5C && e[2] == 0x2F && e[3] == 0x08 && e[4] == 0x0C && e[5] == 0x0A && e[6] == 0x0D
      && e[7] == 0x09;
    assert l[0] == 0x22 && l[1] == 0x5C && l[2] == 0x2F && l[3] == 0x62 && l[4] == 0x66 && l[5] == 0x6E && l[6] == 0x72
      && l[7] == 0x74;
  }

  lemma QuoteAndBackslash(c: int)
    ensures c in Ascii("\"\\") <==> c == QUOTE || c == BACKSLASH
  {
    assert Ascii("\"\\")[0] == QUOTE && Ascii("\"\\")[1] == BACKSLASH;
  }

  /** One step of the string loop reads exactly one character. */
  lemma StepExactly(s: Bytes, i: nat, j: nat, bytes: Bytes)
    requires i <= |s|
    ensures StringStepAt(s, i) == Pushed(bytes, j) <==> OneChar(s, i, j, bytes)
  {
    hide SimpleEscape, CodePoint, Spells, IsScalar, CodePointBytes, JL.Escapable, JL.EscapeLetters, Ascii;
    if i < |s| {
      QuoteAndBackslash(s[i]);
      if s[i] == BACKSLASH && i + 1 < |s| {
        EscapesExact(s, i + 2, bytes, j);
        EscapeTable(s[i + 1], bytes);
        NoLetterU(s[i + 1]);
      }
    }
  }

  lemma NoLetterU(c: int)
    ensures SimpleEscape(c).Some? ==> c != 'u' as int
  {
  }

  lemma QuoteIsSign(s: Bytes, i: nat)
    requires i <= |s|
    ensures StringStepAt(s, i).Closed? <==> Sign(s, i, '"')
    ensures StringStepAt(s, i).Closed? ==> StringStepAt(s, i).next == i + 1
  {
    hide CodePoint, SimpleEscape;
  }

  /** What the string loop reads are characters up to a quote. */
  lemma {:induction false} StringSound(s: Bytes, i: nat, acc: Bytes) returns (text: Bytes)
    requires i <= |s| && StringBody(s, i, acc).Got?
    ensures var r := StringBody(s, i, acc);
      r.value == acc + text && i < r.next && Sign(s, r.next - 1, '"') && Chars(s, i, r.next - 1, text)
    decreases |s| - i
  {
    hide StringStepAt, OneChar;
    QuoteIsSign(s, i);
    match StringStepAt(s, i)
    case Closed(_) =>
      text := [];
      assert acc + [] == acc;
    case Pushed(bytes, k) =>
      StepExactly(s, i, k, bytes);
      var rest := StringSound(s, k, acc + bytes);
      text := bytes + rest;
      Assoc(acc, bytes, rest);
      assert text[|bytes|..] == rest;
    case Broken(_) =>
  }

  /** It reads all characters up to a quote. */
  lemma {:induction false} StringComplete(s: Bytes, i: nat, j: nat, text: Bytes, acc: Bytes)
    requires Chars(s, i, j, text) && i <= j && Sign(s, j, '"')
    ensures StringBody(s, i, acc) == Got(acc + text, j + 1)
    decreases j - i
  {
    hide StringStepAt, OneChar;
    if i == j {
      QuoteIsSign(s, i);
      assert acc + [] == acc;
    } else {
      var k: nat, bytes :| i < k <= j && OneChar(s, i, k, bytes) && bytes <= text && Chars(s, k, j, text[|bytes|..]);
      StepExactly(s, i, k, bytes);
      StringComplete(s, k, j, text[|bytes|..], acc + bytes);
      assert text == bytes + text[|bytes|..];
      Assoc(acc, bytes, text[|bytes|..]);
    }
  }

  // ---- scalars ----

  lemma NumberSign(c: int)
    ensures IsDigit(c) || c == MINUS <==> c in Ascii("0123456789") || c == '-' as int
    ensures IsNumberChar(c) <==> c in Ascii("0123456789+-eE.")
  {
    JN.NumberCharsAre(c);
  }

  /** The number at `i` is a maximal run of number characters. */
  lemma NumberSound(s: Bytes, i: nat)
    requires i < |s| && (IsDigit(s[i]) || s[i] == MINUS) && NumberValue(Building, s, i).Ok?
    ensures var r := NumberValue(Building, s, i); IsValue(s, i, r.next, r.value) && Ends(s, r.next, r.value)
  {
    hide IsNumberChar, IsDigit, WholeInteger, WholeDouble, Overflows;
    forall c: int ensures IsNumberChar(c) <==> c in Ascii("0123456789+-eE.") { NumberSign(c); }
    NumberSign(s[i]);
    assert IsNumberChar(s[i]) by { NumberStart(s[i]); }
  }

  lemma NumberStart(c: int)
    requires IsDigit(c) || c == MINUS
    ensures IsNumberChar(c)
  {
  }

  lemma NumberComplete(s: Bytes, i: nat, j: nat, v: Value)
    requires (v.Int? || v.Number?) && IsValue(s, i, j, v) && Ends(s, j, v)
    ensures i < |s| && (IsDigit(s[i]) || s[i] == MINUS) && NumberValue(Building, s, i) == Ok(v, j)
  {
    hide IsNumberChar, IsDigit, WholeInteger, WholeDouble, Overflows;
    forall c: int ensures IsNumberChar(c) <==> c in Ascii("0123456789+-eE.") { NumberSign(c); }
    NumberSign(s[i]);
    JR.NumberEndOfRun(s, i, j);
  }

  lemma WordIs(s: Bytes, i: nat, j: nat, word: Bytes)
    requires i < |s| && word != [] && s[i] == word[0]
    ensures var r := Match(s, i + 1, word[1..]);
      r.Got? && r.next == j <==> j == i + |word| <= |s| && s[i..j] == word
  {
    MatchExactly(s, i + 1, j, word[1..]);
    if j == i + |word| <= |s| {
      assert s[i..j] == [s[i]] + s[i + 1..j];
      assert word == [word[0]] + word[1..];
      assert s[i..j] == word ==> s[i + 1..j] == word[1..] by {
        if s[i..j] == word { assert s[i..j][1..] == word[1..]; }
      }
    }
  }

  lemma {:induction false} MatchExactly(s: Bytes, i: nat, j: nat, pattern: Bytes)
    requires i <= |s|
    ensures var r := Match(s, i, pattern);
      r.Got? && r.next == j <==> j == i + |pattern| <= |s| && s[i..j] == pattern
    decreases |pattern|
  {
    if pattern == [] {
      assert s[i..i] == [];
    } else if CharAt(s, i) == pattern[0] {
      MatchExactly(s, i + 1, j, pattern[1..]);
      if j == i + |pattern| <= |s| {
        assert s[i..j] == [s[i]] + s[i + 1..j];
        assert pattern == [pattern[0]] + pattern[1..];
        assert s[i..j] == pattern ==> s[i + 1..j] == pattern[1..] by {
          if s[i..j] == pattern { assert s[i..j][1..] == pattern[1..]; }
        }
      }
    } else if j == i + |pattern| <= |s| {
      assert s[i..j][0] == s[i];
    }
  }

  lemma Words()
    ensures NULL_TEXT == Ascii("null") && TRUE_TEXT == Ascii("true") && FALSE_TEXT == Ascii("false")
  {
  }

  // ---- everything accepted is in the grammar ----

  lemma {:induction false} ValueSound(s: Bytes, i: nat)
    requires i <= |s| && ParseValue(Building, s, i).Ok?
    ensures var r := ParseValue(Building, s, i); Reads(s, i, r.next, r.value)
    decreases |s| - i, 1
  {
    hide Match, NumberValue, StringBody, ParseItems, ParseMembers, Expect, Blank, IsValue, Ascii;
    var p := SkipWs(s, i);
    var c := CharAt(s, p);
    var r := ParseValue(Building, s, i);
    SkipsBlanks(s, i);
    if c == 0x6E || c == 0x66 || c == 0x74 {
      WordSound(s, i);
    } else if c == QUOTE {
      QuotedSound(s, i);
    } else if c == OPEN_BRACKET {
      ArraySound(s, i);
    } else if c == OPEN_BRACE {
      ObjectSound(s, i);
    } else {
      NumberSound(s, p);
    }
  }

  lemma QuotedSound(s: Bytes, i: nat)
    requires i <= |s| && ParseValue(Building, s, i).Ok? && CharAt(s, SkipWs(s, i)) == QUOTE
    ensures var r := ParseValue(Building, s, i); r.value.Str? && IsValue(s, SkipWs(s, i), r.next, r.value)
  {
    hide Match, NumberValue, StringBody, ParseItems, ParseMembers, Chars;
    var text := StringSound(s, SkipWs(s, i) + 1, []);
    assert [] + text == text;
  }

  lemma {:induction false} ArraySound(s: Bytes, i: nat)
    requires i <= |s| && ParseValue(Building, s, i).Ok? && CharAt(s, SkipWs(s, i)) == OPEN_BRACKET
    ensures var r := ParseValue(Building, s, i); r.value.Arr? && IsValue(s, SkipWs(s, i), r.next, r.value)
    decreases |s| - i, 0
  {
    hide Match, NumberValue, StringBody, ParseItems, ParseMembers, Expect, Blank, Elements;
    var p, r := SkipWs(s, i), ParseValue(Building, s, i);
    var close := Expect(s, p + 1, CLOSE_BRACKET);
    ExpectGot(s, p + 1, CLOSE_BRACKET);
    if close.Stop? {
      var a := ItemsSound(s, close.next, []);
      assert [] + a == a;
      ItemsStartEarlier(s, p + 1, close.next, r.next - 1, a);
    }
  }

  lemma {:induction false} ObjectSound(s: Bytes, i: nat)
    requires i <= |s| && ParseValue(Building, s, i).Ok? && CharAt(s, SkipWs(s, i)) == OPEN_BRACE
    ensures var r := ParseValue(Building, s, i); r.value.Obj? && IsValue(s, SkipWs(s, i), r.next, r.value)
    decreases |s| - i, 0
  {
    hide Match, NumberValue, StringBody, ParseItems, ParseMembers, Expect, Blank, Members;
    var p, r := SkipWs(s, i), ParseValue(Building, s, i);
    var close := Expect(s, p + 1, CLOSE_BRACE);
    ExpectGot(s, p + 1, CLOSE_BRACE);
    if close.Stop? {
      var o := MembersSound(s, close.next, map[]);
      MembersStartEarlier(s, p + 1, close.next, r.next - 1, map[], o);
    }
  }

  lemma WordSound(s: Bytes, i: nat)
    requires i <= |s| && ParseValue(Building, s, i).Ok?
    requires CharAt(s, SkipWs(s, i)) in [0x6E, 0x66, 0x74]
    ensures var r := ParseValue(Building, s, i); Reads(s, i, r.next, r.value)
  {
    hide Match, StringBody, ParseItems, ParseMembers, Blank;
    var p := SkipWs(s, i);
    var r := ParseValue(Building, s, i);
    SkipsBlanks(s, i);
    Words();
    var word := if s[p] == 0x6E then NULL_TEXT else if s[p] == 0x66 then FALSE_TEXT else TRUE_TEXT;
    WordIs(s, p, r.next, word);
    assert s[p..r.next] == word;
    assert IsValue(s, p, r.next, r.value);
  }

  lemma BlankJoins(s: Bytes, i: nat, k: nat, j: nat)
    requires Blank(s, i, k) && Blank(s, k, j)
    ensures Blank(s, i, j)
  {
  }

  /** Blanks before the first element belong to the elements. */
  lemma ItemsStartEarlier(s: Bytes, i: nat, k: nat, j: nat, a: seq<Value>)
    requires Blank(s, i, k) && Elements(s, k, j, a)
    ensures Elements(s, i, j, a)
  {
    hide Blank, IsValue;
    var p: nat, q: nat, m: nat :| FirstElement(s, k, p, q, m, j, a);
    BlankJoins(s, i, k, p);
    BlankBounds(s, i, k);
    assert FirstElement(s, i, p, q, m, j, a);
  }

  lemma BlankBounds(s: Bytes, i: nat, j: nat)
    requires Blank(s, i, j)
    ensures i <= j <= |s|
  {
  }

  lemma MemberStartsEarlier(s: Bytes, i: nat, k: nat, q: nat, key: Bytes, v: Value)
    requires Blank(s, i, k) && Member(s, k, q, key, v)
    ensures Member(s, i, q, key, v)
  {
    hide Blank, IsValue, Quoted;
    var p: nat, e: nat, c: nat, w: nat :| MemberAt(s, k, p, e, c, w, q, key, v);
    BlankJoins(s, i, k, p);
    BlankBounds(s, i, k);
    assert MemberAt(s, i, p, e, c, w, q, key, v);
  }

  lemma MembersStartEarlier(s: Bytes, i: nat, k: nat, j: nat, acc: map<Bytes, Value>, o: map<Bytes, Value>)
    requires Blank(s, i, k) && Members(s, k, j, acc, o)
    ensures Members(s, i, j, acc, o)
  {
    hide Blank, Member;
    var q: nat, m: nat, key, v :| FirstMember(s, k, q, m, j, key, v, acc, o);
    MemberStartsEarlier(s, i, k, q, key, v);
    BlankBounds(s, i, k);
    assert FirstMember(s, i, q, m, j, key, v, acc, o);
  }

  lemma {:induction false} ItemsSound(s: Bytes, i: nat, acc: seq<Value>) returns (a: seq<Value>)
    requires i <= |s| && ParseItems(Building, s, i, acc).Ok?
    ensures var r := ParseItems(Building, s, i, acc);
      r.value == Arr(acc + a) && a != [] && i < r.next && Sign(s, r.next - 1, ']') && Elements(s, i, r.next - 1, a)
    decreases |s| - i, 2
  {
    hide ParseValue, Expect, Blank, IsValue, Ends;
    ValueSound(s, i);
    var item := ParseValue(Building, s, i);
    var p: nat :| i <= p < item.next && Blank(s, i, p) && IsValue(s, p, item.next, item.value);
    var comma := Expect(s, item.next, COMMA);
    ExpectGot(s, item.next, COMMA);
    if comma.Got? {
      var rest := ItemsSound(s, comma.next, acc + [item.value]);
      a := [item.value] + rest;
      Assoc2(acc, [item.value], rest);
      assert a[0] == item.value && a[1..] == rest;
      var j := ParseItems(Building, s, i, acc).next - 1;
      assert FirstElement(s, i, p, item.next, comma.next - 1, j, a);
    } else {
      a := [item.value];
      CloseFollows(s, item.next, comma.next, CLOSE_BRACKET);
      assert FirstElement(s, i, p, item.next, comma.next, comma.next, a);
    }
  }

  lemma Assoc2(a: seq<Value>, b: seq<Value>, c: seq<Value>)
    ensures (a + b) + c == a + (b + c)
  {
  }

  /** After the blanks that were skipped for a comma, a closing bracket is found at once. */
  lemma CloseFollows(s: Bytes, i: nat, k: nat, c: byte)
    requires i <= |s| && k == SkipWs(s, i) && Expect(s, k, c).Got?
    ensures Blank(s, i, k) && k < |s| && s[k] == c && Expect(s, k, c).next == k + 1
  {
    SkipsBlanks(s, i);
  }

  lemma {:induction false} MembersSound(s: Bytes, i: nat, acc: map<Bytes, Value>) returns (o: map<Bytes, Value>)
    requires i <= |s| && ParseMembers(Building, s, i, acc).Ok?
    ensures var r := ParseMembers(Building, s, i, acc);
      r.value == Obj(o) && o != map[] && i < r.next && Sign(s, r.next - 1, '}') && Members(s, i, r.next - 1, acc, o)
    decreases |s| - i, 2
  {
    hide ParseValue, StringBody, Expect, Blank, IsValue, Chars, Member, SkipWs;
    var quote, key := MemberHead(s, i, acc);
    var colon := Expect(s, key.next, COLON);
    ValueSound(s, colon.next);
    var item := ParseValue(Building, s, colon.next);
    MemberSound(s, i, quote.next, key, item);
    var acc' := acc[key.value := item.value];
    var comma := Expect(s, item.next, COMMA);
    ExpectGot(s, item.next, COMMA);
    if comma.Got? {
      o := MembersSound(s, comma.next, acc');
      var j := ParseMembers(Building, s, i, acc).next - 1;
      assert FirstMember(s, i, item.next, comma.next - 1, j, key.value, item.value, acc, o);
    } else {
      o := acc';
      CloseFollows(s, item.next, comma.next, CLOSE_BRACE);
      assert FirstMember(s, i, item.next, comma.next, comma.next, key.value, item.value, acc, o);
      assert key.value in o;
    }
  }

  lemma MemberHead(s: Bytes, i: nat, acc: map<Bytes, Value>) returns (quote: Scan<()>, key: Scan<Bytes>)
    requires i <= |s| && ParseMembers(Building, s, i, acc).Ok?
    ensures quote == Expect(s, i, QUOTE) && quote.Got? && key == StringBody(s, quote.next, []) && key.Got?
    ensures i < quote.next < key.next && Expect(s, key.next, COLON).Got?
  {
    hide ParseValue, StringBody, Expect;
    quote := Expect(s, i, QUOTE);
    key := StringBody(s, quote.next, []);
  }

  lemma MemberSound(s: Bytes, i: nat, start: nat, key: Scan<Bytes>, item: Parsed)
    requires i <= |s| && Expect(s, i, QUOTE).Got? && Expect(s, i, QUOTE).next == start
    requires key == StringBody(s, start, []) && key.Got? && Expect(s, key.next, COLON).Got?
    requires var c := Expect(s, key.next, COLON).next; c <= |s| && item.Ok? && Reads(s, c, item.next, item.value)
    ensures Member(s, i, item.next, key.value, item.value)
  {
    hide StringBody, Expect, Blank, IsValue, Chars, Ends;
    ExpectGot(s, i, QUOTE);
    ExpectGot(s, key.next, COLON);
    var text := StringSound(s, start, []);
    assert [] + text == text;
    assert Quoted(s, start - 1, key.next, key.value);
    var c := Expect(s, key.next, COLON).next - 1;
    assert Blank(s, key.next, c) && Sign(s, c, ':');
    BlankBounds(s, key.next, c);
    BlankBounds(s, i, start - 1);
    var w: nat :| c + 1 <= w < item.next && Blank(s, c + 1, w) && IsValue(s, w, item.next, item.value);
    assert MemberAt(s, i, start - 1, key.next, c, w, item.next, key.value, item.value);
  }

  // ---- everything in the grammar is accepted ----

  /** The first character of a value is no blank and closes nothing. */
  lemma ValueHead(s: Bytes, p: nat, j: nat, v: Value)
    requires IsValue(s, p, j, v)
    ensures p < j <= |s| && !IsSpace(s[p]) && s[p] != CLOSE_BRACKET && s[p] != CLOSE_BRACE && s[p] != COMMA
  {
    hide Elements, Members, Blank, Chars, Ascii;
    if v.Int? || v.Number? {
      NumberComplete0(s, p, j, v);
    } else if v.Null? || v.Bool? {
      Words();
      assert s[p] == s[p..j][0];
    }
  }

  lemma NumberComplete0(s: Bytes, p: nat, j: nat, v: Value)
    requires (v.Int? || v.Number?) && IsValue(s, p, j, v)
    ensures p < j <= |s| && (IsDigit(s[p]) || s[p] == MINUS)
  {
    hide IsDigit;
    NumberSign(s[p]);
  }

  lemma {:induction false} ValueComplete(s: Bytes, p: nat, j: nat, v: Value)
    requires IsValue(s, p, j, v) && Ends(s, j, v)
    ensures p <= |s| && ParseValue(Building, s, p) == Ok(v, j)
    decreases j - p, 1
  {
    hide Ends, Ascii;
    ValueHead(s, p, j, v);
    match v {
      case Null => WordComplete(s, p, j, v);
      case Bool(_) => WordComplete(s, p, j, v);
      case Str(t) => QuotedComplete(s, p, j, t);
      case Arr(a) => ArrayComplete(s, p, j, a);
      case Obj(o) => ObjectComplete(s, p, j, o);
      case _ =>
        NumberComplete(s, p, j, v);
        JR.ParseNumberAt(s, p);
    }
  }

  lemma WordComplete(s: Bytes, p: nat, j: nat, v: Value)
    requires (v.Null? || v.Bool?) && IsValue(s, p, j, v) && p < |s| && !IsSpace(s[p])
    ensures ParseValue(Building, s, p) == Ok(v, j)
  {
    hide Match, ParseItems, ParseMembers, StringBody, NumberValue;
    Words();
    var word := if v.Null? then NULL_TEXT else if v.b then TRUE_TEXT else FALSE_TEXT;
    assert s[p] == s[p..j][0];
    WordIs(s, p, j, word);
    assert SkipWs(s, p) == p;
  }

  lemma QuotedComplete(s: Bytes, p: nat, j: nat, t: Bytes)
    requires Quoted(s, p, j, t) && p < |s|
    ensures ParseValue(Building, s, p) == Ok(Str(t), j)
  {
    hide Match, ParseItems, ParseMembers, StringBody, NumberValue, Chars;
    StringComplete(s, p + 1, j - 1, t, []);
    assert [] + t == t;
    assert SkipWs(s, p) == p;
  }

  lemma {:induction false} ArrayComplete(s: Bytes, p: nat, j: nat, a: seq<Value>)
    requires IsValue(s, p, j, Arr(a)) && p < |s|
    ensures ParseValue(Building, s, p) == Ok(Arr(a), j)
    decreases j - p, 0
  {
    hide ParseItems, Expect, Blank, Elements, ParseValue;
    JR.ParseArrayAt(s, p);
    if a == [] {
      ExpectAfter(s, p + 1, j - 1, CLOSE_BRACKET);
    } else {
      var start := FirstElementHead(s, p + 1, j - 1, a);
      ExpectAfter(s, p + 1, start, CLOSE_BRACKET);
      ElementsComplete(s, p + 1, j - 1, a, []);
      assert [] + a == a;
      BlankSkips(s, p + 1, start);
      JR.ItemsSkipBlanks(s, p + 1, start, []);
    }
  }

  lemma FirstElementHead(s: Bytes, i: nat, j: nat, a: seq<Value>) returns (p: nat)
    requires Elements(s, i, j, a)
    ensures Blank(s, i, p) && p < |s| && !IsSpace(s[p]) && s[p] != CLOSE_BRACKET
  {
    hide Blank, IsValue;
    var p', q: nat, m: nat :| FirstElement(s, i, p', q, m, j, a);
    p := p';
    ValueHead(s, p, q, a[0]);
  }

  lemma {:induction false} ElementsComplete(s: Bytes, i: nat, j: nat, a: seq<Value>, acc: seq<Value>)
    requires Elements(s, i, j, a) && Sign(s, j, ']')
    ensures i <= |s| && ParseItems(Building, s, i, acc) == Ok(Arr(acc + a), j + 1)
    decreases j - i, 2
  {
    hide ParseValue, Expect, Blank, IsValue, Ends, SkipWs;
    var p: nat, q: nat, m: nat :| FirstElement(s, i, p, q, m, j, a);
    BlankBounds(s, i, p);
    NotCutOff(s, q, m, a[0]);
    ValueComplete(s, p, q, a[0]);
    BlankSkips(s, i, p);
    JR.BlanksSkipped(s, i, p);
    ExpectAfter(s, q, m, COMMA);
    if |a| == 1 {
      assert a == [a[0]];
      NothingToSkip(s, m);
      ExpectAfter(s, m, m, CLOSE_BRACKET);
    } else {
      ElementsComplete(s, m + 1, j, a[1..], acc + [a[0]]);
      assert a == [a[0]] + a[1..];
      Assoc2(acc, [a[0]], a[1..]);
    }
  }

  lemma NothingToSkip(s: Bytes, m: nat)
    requires m <= |s|
    ensures Blank(s, m, m)
  {
  }

  /** A number before a blank, a comma or a bracket is not cut off. */
  lemma NotCutOff(s: Bytes, q: nat, m: nat, v: Value)
    requires Blank(s, q, m) && (Sign(s, m, ',') || Sign(s, m, ']') || Sign(s, m, '}'))
    ensures Ends(s, q, v) && !IsSpace(s[m])
  {
    NumberSign(s[q]);
    if q < m { SpacesExact(s[q]); }
  }

  lemma {:induction false} ObjectComplete(s: Bytes, p: nat, j: nat, o: map<Bytes, Value>)
    requires IsValue(s, p, j, Obj(o)) && p < |s|
    ensures ParseValue(Building, s, p) == Ok(Obj(o), j)
    decreases j - p, 0
  {
    hide ParseMembers, Expect, Blank, Members, ParseValue;
    JR.ParseObjectAt(s, p);
    if o == map[] {
      ExpectAfter(s, p + 1, j - 1, CLOSE_BRACE);
    } else {
      var start := FirstMemberHead(s, p + 1, j - 1, map[], o);
      ExpectAfter(s, p + 1, start, CLOSE_BRACE);
      MembersComplete(s, p + 1, j - 1, map[], o);
      BlankSkips(s, p + 1, start);
      JR.MembersSkipBlanks(s, p + 1, start, map[]);
    }
  }

  lemma FirstMemberHead(s: Bytes, i: nat, j: nat, acc: map<Bytes, Value>, o: map<Bytes, Value>) returns (p: nat)
    requires Members(s, i, j, acc, o)
    ensures Blank(s, i, p) && p < |s| && !IsSpace(s[p]) && s[p] != CLOSE_BRACE
  {
    hide Member, Blank;
    var q: nat, m: nat, key, v :| FirstMember(s, i, q, m, j, key, v, acc, o);
    p := KeyHead(s, i, q, key, v);
  }

  lemma KeyHead(s: Bytes, i: nat, q: nat, key: Bytes, v: Value) returns (p: nat)
    requires Member(s, i, q, key, v)
    ensures Blank(s, i, p) && p < |s| && s[p] == QUOTE
  {
    hide Blank, IsValue, Chars;
    var p': nat, e: nat, c: nat, w: nat :| MemberAt(s, i, p', e, c, w, q, key, v);
    p := p';
  }

  lemma {:induction false} MembersComplete(s: Bytes, i: nat, j: nat, acc: map<Bytes, Value>, o: map<Bytes, Value>)
    requires Members(s, i, j, acc, o) && Sign(s, j, '}')
    ensures i <= |s| && ParseMembers(Building, s, i, acc) == Ok(Obj(o), j + 1)
    decreases j - i, 3
  {
    hide ParseValue, Expect, Blank, IsValue, Ends, SkipWs, Member, ParseMembers;
    var q: nat, m: nat, key, v :| FirstMember(s, i, q, m, j, key, v, acc, o);
    NotCutOff(s, q, m, v);
    MemberComplete(s, i, q, key, v, acc);
    ExpectAfter(s, q, m, COMMA);
    if m == j {
      NothingToSkip(s, m);
      ExpectAfter(s, m, m, CLOSE_BRACE);
    } else {
      MembersComplete(s, m + 1, j, acc[key := v], o);
    }
  }

  lemma {:induction false} MemberComplete(s: Bytes, i: nat, q: nat, key: Bytes, v: Value, acc: map<Bytes, Value>)
    requires Member(s, i, q, key, v) && Ends(s, q, v)
    ensures i <= |s| && q <= |s| && ParseMembers(Building, s, i, acc) == JR.AfterMember(s, q, acc[key := v])
    decreases q - i, 2
  {
    hide ParseValue, ParseMembers, Expect, Blank, IsValue, Ends, SkipWs, Chars, StringBody, JR.AfterMember;
    var p: nat, e: nat, c: nat, w: nat :| MemberAt(s, i, p, e, c, w, q, key, v);
    BlankBounds(s, i, p);
    BlankBounds(s, e, c);
    ExpectAfter(s, i, p, QUOTE);
    StringComplete(s, p + 1, e - 1, key, []);
    assert [] + key == key;
    ExpectAfter(s, e, c, COLON);
    ValueComplete(s, w, q, v);
    BlankSkips(s, c + 1, w);
    JR.MemberStep(s, i, p + 1, key, e, c + 1, w, Ok(v, q), acc);
  }

  // ---- both ----

  /** The parser accepts exactly the texts of the grammar, with exactly these values. */
  lemma ParsesExactly(s: Bytes, i: nat, j: nat, v: Value)
    requires i <= |s|
    ensures ParseValue(Building, s, i) == Ok(v, j) <==> Reads(s, i, j, v)
  {
    hide ParseValue, Blank, IsValue, Ends;
    if ParseValue(Building, s, i) == Ok(v, j) {
      ValueSound(s, i);
    }
    if Reads(s, i, j, v) {
      var p: nat :| i <= p < j <= |s| && Blank(s, i, p) && IsValue(s, p, j, v) && Ends(s, j, v);
      ValueComplete(s, p, j, v);
      BlankSkips(s, i, p);
      JR.BlanksSkipped(s, i, p);
    }
  }

  /** So a text begins with at most one value. */
  lemma ReadsOnce(s: Bytes, i: nat, j: nat, v: Value, j': nat, v': Value)
    requires i <= |s| && Reads(s, i, j, v) && Reads(s, i, j', v')
    ensures j == j' && v == v'
  {
    hide ParseValue, Reads;
    ParsesExactly(s, i, j, v);
    ParsesExactly(s, i, j', v');
  }
}
