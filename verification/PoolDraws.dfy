/** Keys, and the random part of the keys that are not to be cached. */
module PoolDraws {
  import opened Bytes
  import opened JwtEndToEnd
  import opened Pool
  import opened PoolRuns

  // ---- letters ----

  /** A random byte as the signed character it is stored in. */
  function SignedByte(b: byte): int {
    if b >= 0x80 then b - 0x100 else b
  }

  /** `r` is the remainder of `x` by 26 when division truncates: it has the sign of `x`. */
  ghost predicate IsRemainder(x: int, r: int) {
    && (exists q: int :: x == 26 * q + r) && -26 < r < 26
    && (x > 0 ==> r >= 0) && (x < 0 ==> r <= 0) && (x == 0 ==> r == 0)
  }

  /** Each random byte gives the character that lies its remainder away from 'a'. */
  lemma LetterOfByte(b: byte, r: int)
    requires IsRemainder(SignedByte(b), r)
    ensures HintCharacter(b) == 'a' as int + r
  {
    var q: int :| SignedByte(b) == 26 * q + r;
  }

  lemma RemainderExists(x: int)
    requires -128 <= x < 128
    ensures exists r :: IsRemainder(x, r)
  {
    if x >= 0 {
      assert x == 26 * (x / 26) + x % 26;
      assert IsRemainder(x, x % 26);
    } else {
      assert x == 26 * -(-x / 26) + -(-x % 26);
      assert IsRemainder(x, -(-x % 26));
    }
  }

  /** The two bytes have the same remainder. */
  ghost predicate SameLetter(a: byte, b: byte) {
    exists r :: IsRemainder(SignedByte(a), r) && IsRemainder(SignedByte(b), r)
  }

  lemma SameLetterIff(a: byte, b: byte)
    ensures HintCharacter(a) == HintCharacter(b) <==> SameLetter(a, b)
  {
    RemainderExists(SignedByte(a));
    RemainderExists(SignedByte(b));
    var r :| IsRemainder(SignedByte(a), r);
    var r' :| IsRemainder(SignedByte(b), r');
    LetterOfByte(a, r);
    LetterOfByte(b, r');
    forall q | IsRemainder(SignedByte(a), q) && IsRemainder(SignedByte(b), q) ensures q == r == r' {
      LetterOfByte(a, q);
      LetterOfByte(b, q);
    }
  }

  /** Two draws agree: byte by byte they have the same remainders. */
  ghost predicate SameDraw(a: seq<byte>, b: seq<byte>) {
    |a| == |b| && forall k | 0 <= k < |a| :: SameLetter(a[k], b[k])
  }

  /** Draws give the same random hint exactly when they agree. */
  lemma SameHintIff(a: seq<byte>, b: seq<byte>)
    ensures RandomHint(a) == RandomHint(b) <==> SameDraw(a, b)
  {
    hide SameLetter, HintCharacter;
    var x, y := RandomHint(a), RandomHint(b);
    if |a| == |b| {
      forall k | 0 <= k < |a| ensures x[k] == y[k] <==> SameLetter(a[k], b[k]) { SameLetterIff(a[k], b[k]); }
      assert x == y <==> forall k | 0 <= k < |a| :: x[k] == y[k];
    } else {
      assert |x| != |y|;
    }
  }

  // ---- keys ----

  /** The key is the token and the hint, or the token, three underscores and one letter for each random byte. */
  lemma KeyIs(token: Bytes, hint: Bytes, random: seq<byte>)
    ensures hint != Ascii("DO_NOT_CACHE_HINT") ==> token + Suffix(hint, random) == token + hint
    ensures hint == Ascii("DO_NOT_CACHE_HINT") ==>
      exists letters :: |letters| == |random| && token + Suffix(hint, random) == token + (Ascii("___") + letters)
  {
    HintNames();
    if hint == DO_NOT_CACHE {
      assert token + Suffix(hint, random) == token + (Ascii("___") + RandomHint(random));
    }
  }

  lemma HintNames()
    ensures DO_NOT_CACHE == Ascii("DO_NOT_CACHE_HINT") && SEPARATOR == Ascii("___")
  {
  }

  /** For one token, keys that are not to be cached are the same exactly when the draws agree. */
  lemma SameKeyIff(token: Bytes, a: seq<byte>, b: seq<byte>)
    ensures token + Suffix(DO_NOT_CACHE, a) == token + Suffix(DO_NOT_CACHE, b) <==> SameDraw(a, b)
  {
    hide SameDraw, RandomHint;
    SameHintIff(a, b);
    var x, y := SEPARATOR + RandomHint(a), SEPARATOR + RandomHint(b);
    assert (token + x)[|token|..] == x && (token + y)[|token|..] == y;
    assert x[3..] == RandomHint(a) && y[3..] == RandomHint(b);
  }

  // ---- get ----

  /** When `get` hands out a connection: the entry is free, and it is connected, or the token is accepted, names a user
      and the login succeeds. */
  lemma GrantedIff(mac: Mac, s: State, step: Step)
    requires step.Get?
    ensures OutcomeOf(mac, s, step).Granted?
      <==> var key := KeyOf(step);
        && (key in s.entries ==> !s.entries[key].inUse)
        && ((key in s.entries && s.entries[key].connection.Some?)
            || (step.login && PoolAccepts(step.token, mac, s.clock) && UserClaim(step.token).Some?))
  {
    hide PoolAccepts, UserClaim, Suffix;
  }

  /** A call that is not to be cached is refused as busy only after an earlier fetch of the same key; when that was made
      for the same token without caching, the two draws agree. */
  lemma BusyOnlyAfterSameDraw(mac: Mac, r: Run, i: nat)
    requires IsRun(mac, r) && i < |r.steps| && r.steps[i].Get? && r.steps[i].hint == DO_NOT_CACHE
    requires OutcomeOf(mac, r.states[i], r.steps[i]).Busy?
    ensures exists j ::
      && 0 <= j < i && r.steps[j].Get? && KeyOf(r.steps[j]) == KeyOf(r.steps[i])
      && (r.steps[j].token == r.steps[i].token && r.steps[j].hint == DO_NOT_CACHE
          ==> SameDraw(r.steps[j].random, r.steps[i].random))
  {
    hide Suffix, SameDraw, Connect;
    var step := r.steps[i];
    RunKeepsHint(mac, r, KeyOf(step), i);
    var j := FetchedAt(mac, r, KeyOf(step), i);
    SameKeyIff(step.token, r.steps[j].random, step.random);
  }

  /** The step of the last fetch. */
  lemma {:induction false} FetchedAt(mac: Mac, r: Run, key: Bytes, i: nat) returns (j: nat)
    requires |r.states| == |r.steps| + 1 && i <= |r.steps| && LastHint(mac, r, key, i).Some?
    ensures j < i && r.steps[j].Get? && KeyOf(r.steps[j]) == key
  {
    hide OutcomeOf;
    if Fetches(mac, r.states[i - 1], r.steps[i - 1], key) {
      j := i - 1;
    } else {
      j := FetchedAt(mac, r, key, i - 1);
    }
  }

  /** Two overlapping calls for one accepted token without caching: on a pool that has neither key, the first is served,
      and the second is served, too, exactly when the draws differ in a letter; otherwise it is refused as busy. */
  lemma OverlappingDraws(mac: Mac, s: State, first: Step, second: Step)
    requires first.Get? && second.Get? && first.id != second.id && first.id !in s.proxies && second.id !in s.proxies
    requires first.token == second.token && first.hint == second.hint == Ascii("DO_NOT_CACHE_HINT")
    requires first.login && second.login && KeyOf(first) !in s.entries && KeyOf(second) !in s.entries
    ensures PoolAccepts(first.token, mac, s.clock) && UserClaim(first.token).Some? ==>
      var s' := Next(mac, s, first);
      && OutcomeOf(mac, s, first).Granted? && Enabled(s', second)
      && (OutcomeOf(mac, s', second).Granted? <==> !SameDraw(first.random, second.random))
      && (OutcomeOf(mac, s', second).Busy? <==> SameDraw(first.random, second.random))
  {
    hide PoolAccepts, UserClaim, SameDraw, Suffix, Seconds;
    HintNames();
    SameKeyIff(first.token, first.random, second.random);
  }
}
