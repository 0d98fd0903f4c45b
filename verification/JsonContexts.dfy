/** `null_parse_context` and `default_parse_context` accept the same texts, except where building a value throws. */
module JsonContexts {
  import opened Bytes
  import opened JsonValue
  import opened JsonGrammar

  /** A validating parse ends as the building parse does, unless the latter throws. */
  ghost predicate SameEnd(building: Parsed, validating: Parsed) {
    match building
    case Ok(_, next) => validating == Ok(Null, next)
    case Fail(_) => validating == building
    case Overflow => true
  }

  lemma {:induction false} ContextsAgree(s: Bytes, i: nat)
    requires i <= |s|
    ensures SameEnd(ParseValue(Building, s, i), ParseValue(Validating, s, i))
    decreases |s| - i, 0
  {
    hide StringBody, Match, Expect, WholeInteger, WholeDouble, Overflows, ParseItems, ParseMembers;
    var j := SkipWs(s, i);
    var c := CharAt(s, j);
    if c == OPEN_BRACKET {
      var close := Expect(s, j + 1, CLOSE_BRACKET);
      if close.Stop? {
        ItemsAgree(s, close.next, [], []);
      }
    } else if c == OPEN_BRACE {
      var close := Expect(s, j + 1, CLOSE_BRACE);
      if close.Stop? {
        MembersAgree(s, close.next, map[], map[]);
      }
    }
  }

  lemma {:induction false} ItemsAgree(s: Bytes, i: nat, acc: seq<Value>, none: seq<Value>)
    requires i <= |s|
    ensures SameEnd(ParseItems(Building, s, i, acc), ParseItems(Validating, s, i, none))
    decreases |s| - i, 1
  {
    hide ParseValue, Expect;
    ContextsAgree(s, i);
    var item := ParseValue(Building, s, i);
    if item.Ok? {
      var comma := Expect(s, item.next, COMMA);
      if comma.Got? {
        ItemsAgree(s, comma.next, acc + [item.value], none);
      }
    }
  }

  lemma {:induction false} MembersAgree(s: Bytes, i: nat, acc: map<Bytes, Value>, none: map<Bytes, Value>)
    requires i <= |s|
    ensures SameEnd(ParseMembers(Building, s, i, acc), ParseMembers(Validating, s, i, none))
    decreases |s| - i, 1
  {
    hide ParseValue, Expect, StringBody;
    var quote := Expect(s, i, QUOTE);
    if quote.Stop? { return; }
    var key := StringBody(s, quote.next, []);
    if key.Stop? { return; }
    var colon := Expect(s, key.next, COLON);
    if colon.Stop? { return; }
    ContextsAgree(s, colon.next);
    var item := ParseValue(Building, s, colon.next);
    if item.Ok? {
      var comma := Expect(s, item.next, COMMA);
      if comma.Got? {
        MembersAgree(s, comma.next, acc[key.value := item.value], none);
      }
    }
  }

  // ---- where building throws ----

  /** The positions at which the validating parse from `i` reads a number. */
  function NumbersRead(s: Bytes, i: nat): set<nat>
    requires i <= |s|
    decreases |s| - i, 0
  {
    var j := SkipWs(s, i);
    var c := CharAt(s, j);
    if c == OPEN_BRACKET then
      (match Expect(s, j + 1, CLOSE_BRACKET)
       case Got(_, _) => {}
       case Stop(k) => ItemNumbers(s, k))
    else if c == OPEN_BRACE then
      (match Expect(s, j + 1, CLOSE_BRACE)
       case Got(_, _) => {}
       case Stop(k) => MemberNumbers(s, k))
    else if IsDigit(c) || c == MINUS then {j}
    else {}
  }

  function ItemNumbers(s: Bytes, i: nat): set<nat>
    requires i <= |s|
    decreases |s| - i, 1
  {
    var item := ParseValue(Validating, s, i);
    NumbersRead(s, i) +
    if !item.Ok? then {} else
      var comma := Expect(s, item.next, COMMA);
      if comma.Got? then ItemNumbers(s, comma.next) else {}
  }

  function MemberNumbers(s: Bytes, i: nat): set<nat>
    requires i <= |s|
    decreases |s| - i, 1
  {
    var quote := Expect(s, i, QUOTE);
    if quote.Stop? then {} else
      var key := StringBody(s, quote.next, []);
      if key.Stop? then {} else
        var colon := Expect(s, key.next, COLON);
        if colon.Stop? then {} else
          var item := ParseValue(Validating, s, colon.next);
          NumbersRead(s, colon.next) +
          if !item.Ok? then {} else
            var comma := Expect(s, item.next, COMMA);
            if comma.Got? then MemberNumbers(s, comma.next) else {}
  }

  /** The number at `k` is read as a double that overflows. */
  predicate OverflowsAt(s: Bytes, k: nat) {
    k <= |s| &&
    var t := s[k..NumberEnd(s, k)];
    WholeInteger(t).None? && WholeDouble(t).Some? && Overflows(WholeDouble(t).value)
  }

  predicate AnyOverflows(s: Bytes, positions: set<nat>) {
    exists k :: k in positions && OverflowsAt(s, k)
  }

  lemma AnyOverflowsUnion(s: Bytes, a: set<nat>, b: set<nat>)
    ensures AnyOverflows(s, a + b) <==> AnyOverflows(s, a) || AnyOverflows(s, b)
  {
    if k :| k in a && OverflowsAt(s, k) { assert k in a + b; }
    if k :| k in b && OverflowsAt(s, k) { assert k in a + b; }
  }

  /** Building throws exactly when one of the numbers that validating reads overflows. */
  lemma {:induction false} OverflowExactly(s: Bytes, i: nat)
    requires i <= |s|
    ensures ParseValue(Building, s, i).Overflow? <==> AnyOverflows(s, NumbersRead(s, i))
    decreases |s| - i, 0
  {
    hide StringBody, Match, Expect, WholeInteger, WholeDouble, Overflows, ParseItems, ParseMembers, ItemNumbers,
      MemberNumbers;
    var j := SkipWs(s, i);
    var c := CharAt(s, j);
    if c == OPEN_BRACKET {
      var close := Expect(s, j + 1, CLOSE_BRACKET);
      if close.Stop? {
        ItemsOverflowExactly(s, close.next, []);
      }
    } else if c == OPEN_BRACE {
      var close := Expect(s, j + 1, CLOSE_BRACE);
      if close.Stop? {
        MembersOverflowExactly(s, close.next, map[]);
      }
    } else if IsDigit(c) || c == MINUS {
      assert NumbersRead(s, i) == {j};
    }
  }

  lemma {:induction false} ItemsOverflowExactly(s: Bytes, i: nat, acc: seq<Value>)
    requires i <= |s|
    ensures ParseItems(Building, s, i, acc).Overflow? <==> AnyOverflows(s, ItemNumbers(s, i))
    decreases |s| - i, 1
  {
    hide ParseValue, Expect, NumbersRead, AnyOverflows;
    OverflowExactly(s, i);
    ContextsAgree(s, i);
    NoneOverflows(s);
    var item := ParseValue(Building, s, i);
    if item.Ok? {
      var comma := Expect(s, item.next, COMMA);
      if comma.Got? {
        ItemsOverflowExactly(s, comma.next, acc + [item.value]);
        AnyOverflowsUnion(s, NumbersRead(s, i), ItemNumbers(s, comma.next));
      } else {
        AnyOverflowsUnion(s, NumbersRead(s, i), {});
      }
    } else if item.Overflow? {
      OverflowComesFirst(s, NumbersRead(s, i), ItemNumbers(s, i));
    } else {
      AnyOverflowsUnion(s, NumbersRead(s, i), {});
    }
  }

  lemma {:induction false} MembersOverflowExactly(s: Bytes, i: nat, acc: map<Bytes, Value>)
    requires i <= |s|
    ensures ParseMembers(Building, s, i, acc).Overflow? <==> AnyOverflows(s, MemberNumbers(s, i))
    decreases |s| - i, 1
  {
    hide ParseValue, Expect, StringBody, NumbersRead, AnyOverflows;
    NoneOverflows(s);
    var quote := Expect(s, i, QUOTE);
    if quote.Stop? { return; }
    var key := StringBody(s, quote.next, []);
    if key.Stop? { return; }
    var colon := Expect(s, key.next, COLON);
    if colon.Stop? { return; }
    OverflowExactly(s, colon.next);
    ContextsAgree(s, colon.next);
    var item := ParseValue(Building, s, colon.next);
    if item.Ok? {
      var comma := Expect(s, item.next, COMMA);
      if comma.Got? {
        MembersOverflowExactly(s, comma.next, acc[key.value := item.value]);
        AnyOverflowsUnion(s, NumbersRead(s, colon.next), MemberNumbers(s, comma.next));
      } else {
        AnyOverflowsUnion(s, NumbersRead(s, colon.next), {});
      }
    } else if item.Overflow? {
      OverflowComesFirst(s, NumbersRead(s, colon.next), MemberNumbers(s, i));
    } else {
      AnyOverflowsUnion(s, NumbersRead(s, colon.next), {});
    }
  }

  lemma NoneOverflows(s: Bytes)
    ensures !AnyOverflows(s, {})
  {
  }

  /** An overflow stays one among more positions. */
  lemma OverflowComesFirst(s: Bytes, first: set<nat>, all: set<nat>)
    requires first <= all
    ensures AnyOverflows(s, first) ==> AnyOverflows(s, all)
  {
    if k :| k in first && OverflowsAt(s, k) { assert k in all; }
  }

  /** The two parses accept or reject alike, at the same position. */
  ghost predicate SameVerdict(b: Parsed, w: Parsed) {
    || (b.Ok? && w.Ok? && b.next == w.next)
    || (b.Fail? && w.Fail? && b.next == w.next)
  }

  /** They do exactly on the texts in which no number that validating reads overflows. */
  lemma SameAcceptance(s: Bytes, i: nat)
    requires i <= |s|
    ensures SameVerdict(ParseValue(Building, s, i), ParseValue(Validating, s, i))
      <==> !AnyOverflows(s, NumbersRead(s, i))
  {
    hide ParseValue, NumbersRead, AnyOverflows;
    ContextsAgree(s, i);
    OverflowExactly(s, i);
  }
}
