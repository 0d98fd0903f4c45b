/** The pool as the place where tokens are checked: what was verified before a connection is handed out, and what is
    not verified again. */
module PoolAccess {
  import opened Bytes
  import opened Jwt
  import JsonValue
  import opened JwtVerifier
  import opened JwtEndToEnd
  import opened Pool
  import opened PoolRuns
  import opened PoolCache

  // ---- every connection was earned ----

  /** At step `j` this token was presented, and the verifier accepts it at that time. */
  ghost predicate AcceptedAt(mac: Mac, r: Run, token: Bytes, j: nat)
    requires |r.states| == |r.steps| + 1 && j < |r.steps|
  {
    r.steps[j].Get? && r.steps[j].token == token && PoolAccepts(token, mac, r.states[j].clock)
  }

  ghost predicate AcceptedBefore(mac: Mac, r: Run, token: Bytes, i: nat)
    requires |r.states| == |r.steps| + 1 && i <= |r.steps|
  {
    exists j :: 0 <= j < i && AcceptedAt(mac, r, token, j)
  }

  lemma AcceptedStays(mac: Mac, r: Run, token: Bytes, i: nat)
    requires |r.states| == |r.steps| + 1 && i < |r.steps|
    ensures AcceptedBefore(mac, r, token, i) || AcceptedAt(mac, r, token, i) ==> AcceptedBefore(mac, r, token, i + 1)
  {
    hide AcceptedAt;
  }

  /** For every connection in the pool, the token that its key begins with was accepted before. */
  ghost predicate ConnectionsEarned(mac: Mac, r: Run, i: nat)
    requires |r.states| == |r.steps| + 1 && i <= |r.steps|
  {
    var s := r.states[i];
    forall key | key in s.entries && s.entries[key].connection.Some? :: AcceptedBefore(mac, r, TokenOf(key), i)
  }

  /** A step makes a connection only under a key whose token is accepted at that step. */
  lemma ConnectedByStep(mac: Mac, s: State, step: Step, key: Bytes)
    requires Hash32(mac) && Enabled(s, step)
    requires key in Next(mac, s, step).entries && Next(mac, s, step).entries[key].connection.Some?
    ensures (key in s.entries && s.entries[key].connection.Some?)
      || (step.Get? && step.token == TokenOf(key) && PoolAccepts(step.token, mac, s.clock))
  {
    hide UserClaim, TokenOf, PoolAccepts, Suffix, Less, Seconds, Hash32;
    if step.Get? && PoolAccepts(step.token, mac, s.clock) {
      AcceptedIsWellShaped(step.token, mac, s.clock);
      TokenRecovered(step.token, Suffix(step.hint, step.random));
    }
  }

  lemma {:induction false} RunEarnsConnections(mac: Mac, r: Run, i: nat)
    requires Hash32(mac) && IsRun(mac, r) && i <= |r.steps|
    ensures ConnectionsEarned(mac, r, i)
  {
    hide Next, Enabled, Hash32, TokenOf, AcceptedBefore, PoolAccepts;
    if i > 0 {
      RunEarnsConnections(mac, r, i - 1);
      assert Follows(mac, r, i - 1);
      var s := r.states[i];
      forall key | key in s.entries && s.entries[key].connection.Some? ensures AcceptedBefore(mac, r, TokenOf(key), i) {
        ConnectedByStep(mac, r.states[i - 1], r.steps[i - 1], key);
        AcceptedStays(mac, r, TokenOf(key), i - 1);
      }
    }
  }

  /** Whenever `get` hands out a connection, the token that the key begins with was presented and accepted at that step
      or before; for a well-shaped token that is the presented one. */
  lemma GrantedWasAccepted(mac: Mac, r: Run, i: nat)
    requires Hash32(mac) && IsRun(mac, r) && i < |r.steps| && r.steps[i].Get?
    requires OutcomeOf(mac, r.states[i], r.steps[i]).Granted?
    ensures AcceptedBefore(mac, r, TokenOf(KeyOf(r.steps[i])), i + 1)
    ensures WellShaped(r.steps[i].token) ==> AcceptedBefore(mac, r, r.steps[i].token, i + 1)
  {
    hide UserClaim, TokenOf, WellShaped, PoolAccepts, Suffix, Seconds, Hash32, AcceptedBefore;
    assert Follows(mac, r, i);
    RunEarnsConnections(mac, r, i + 1);
    var step := r.steps[i];
    if WellShaped(step.token) {
      TokenRecovered(step.token, Suffix(step.hint, step.random));
    }
  }

  // ---- a cached connection is not checked again ----

  /** A token that the verifier rejects is served exactly when its key's entry is connected and free. */
  lemma RejectedServedIff(mac: Mac, s: State, step: Step)
    requires step.Get? && !PoolAccepts(step.token, mac, s.clock)
    ensures OutcomeOf(mac, s, step).Granted?
      <==> KeyOf(step) in s.entries && !s.entries[KeyOf(step)].inUse && s.entries[KeyOf(step)].connection.Some?
  {
    hide PoolAccepts, UserClaim, Suffix;
  }

  /** The clock has passed the token's expiry. */
  ghost predicate PastExpiry(token: Bytes, now: int) {
    var d := DecodeToken(token);
    d.Success? && EXP in d.value.payloadClaims && d.value.payloadClaims[EXP].Int?
    && now > d.value.payloadClaims[EXP].i * TICKS
  }

  lemma PastExpiryRejected(token: Bytes, mac: Mac, now: int)
    ensures PastExpiry(token, now) ==> !PoolAccepts(token, mac, now)
  {
    hide DecodeToken, SignatureMet, ClaimMet, NotBefore;
    if PastExpiry(token, now) {
      var p := DecodeToken(token).value.payloadClaims;
      assert LeewayOf(map[ISS := JsonValue.Str(ISSUE_CLAIM)], EXP, 0) == Some(0);
      assert !NotAfter(p, EXP, Some(0), now);
    }
  }

  /** So a token past its expiry is served from the cache, exactly while its entry is connected and free. */
  lemma ExpiredServedIff(mac: Mac, s: State, step: Step)
    requires step.Get?
    ensures PastExpiry(step.token, s.clock) ==>
      (OutcomeOf(mac, s, step).Granted?
       <==> KeyOf(step) in s.entries && !s.entries[KeyOf(step)].inUse && s.entries[KeyOf(step)].connection.Some?)
  {
    hide PastExpiry, PoolAccepts;
    PastExpiryRejected(step.token, mac, s.clock);
    if PastExpiry(step.token, s.clock) {
      RejectedServedIff(mac, s, step);
    }
  }

  // ---- runs in which that happens ----

  /** The step opens a connection on an empty pool: its token is accepted, names a user, and the login succeeds. */
  ghost predicate Opens(mac: Mac, start: State, first: Step) {
    && Init(start) && first.Get? && first.login
    && PoolAccepts(first.token, mac, start.clock) && UserClaim(first.token).Some?
  }

  /** In this run the connection that the first step opens is served again by the last one, `wait` ticks later. */
  ghost predicate ServesAgain(mac: Mac, r: Run, start: State, first: Step, again: Step, wait: nat) {
    && IsRun(mac, r) && |r.steps| == 5 && r.states[0] == start
    && first.Get? && again.Get? && r.steps[0] == first && r.steps[4] == again
    && r.states[4].clock == start.clock + wait && OutcomeOf(mac, r.states[4], again).Granted?
    && KeyOf(again) in r.states[5].entries
    && UserClaim(first.token).Some?
    && r.states[5].entries[KeyOf(again)].connection == Some(Connection(UserClaim(first.token).value))
  }

  /** After an accepted token was served and its connection released, another token and hint with the same key are
      served with that connection, whatever the verifier would say of them. */
  lemma ServedAgain(mac: Mac, start: State, first: Step, again: Step, wait: nat) returns (r: Run)
    requires first.Get? && again.Get? && KeyOf(first) == KeyOf(again)
    ensures Opens(mac, start, first) ==> ServesAgain(mac, r, start, first, again, wait)
  {
    hide PoolAccepts, UserClaim, Suffix, Seconds, First, Visit;
    if !Opens(mac, start, first) { return Run([start], []); }
    var s1 := Next(mac, start, first);
    var s2 := Next(mac, s1, ReleaseTime(first.id));
    var s3 := Next(mac, s2, ReleaseFlag(first.id));
    var s4 := Next(mac, s3, Tick(wait));
    var s5 := Next(mac, s4, again);
    r := Run([start, s1, s2, s3, s4, s5], [first, ReleaseTime(first.id), ReleaseFlag(first.id), Tick(wait), again]);
    hide Next, Enabled, OutcomeOf;
    assert Follows(mac, r, 0) && Follows(mac, r, 1) && Follows(mac, r, 2) && Follows(mac, r, 3) && Follows(mac, r, 4);
  }

  /** A token past its expiry is served. */
  lemma ExpiredTokenServed(mac: Mac, start: State, first: Step, wait: nat) returns (r: Run)
    requires first.Get?
    ensures Opens(mac, start, first) && PastExpiry(first.token, start.clock + wait) ==>
      ServesAgain(mac, r, start, first, first, wait) && !PoolAccepts(first.token, mac, start.clock + wait)
  {
    hide PoolAccepts, PastExpiry, Opens, ServesAgain;
    r := ServedAgain(mac, start, first, first, wait);
    PastExpiryRejected(first.token, mac, start.clock + wait);
  }

  /** A token cut before its second dot, with what was cut off put in front of the hint. */
  function CutStep(step: Step, n: nat): Step
    requires step.Get? && n <= |step.token|
  {
    step.(token := step.token[..n], hint := step.token[n..] + step.hint)
  }

  lemma CutSplits(token: Bytes, n: nat)
    requires SplitToken(token).Some? && Find(token, DOT, Find(token, DOT, 0) + 1) < n <= |token|
    ensures SplitToken(token[..n]).Some?
  {
    var cut, first := token[..n], Find(token, DOT, 0);
    assert forall k | 0 <= k < n :: cut[k] == token[k];
    FindsFirst(cut, DOT, 0, first);
    FindsFirst(cut, DOT, first + 1, Find(token, DOT, first + 1));
  }

  /** What is cut off such a token has a dot. */
  lemma CutOffDot(token: Bytes, n: nat)
    requires n <= |token| && SplitToken(token).Some? && SplitToken(token[..n]).None?
    ensures DOT in token[n..]
  {
    var second := Find(token, DOT, Find(token, DOT, 0) + 1);
    if second < n {
      CutSplits(token, n);
    } else {
      assert token[n..][second - n] == DOT;
    }
  }

  lemma CutKey(step: Step, n: nat)
    requires step.Get? && step.hint != DO_NOT_CACHE && n <= |step.token|
    requires SplitToken(step.token).Some? && SplitToken(step.token[..n]).None?
    ensures KeyOf(CutStep(step, n)) == KeyOf(step)
  {
    hide SplitToken;
    CutOffDot(step.token, n);
    NoDotInHint();
    var cut, rest := step.token[..n], step.token[n..];
    assert DOT in rest + step.hint;
    Assoc(cut, rest, step.hint);
    assert cut + rest == step.token;
  }

  lemma NoDotInHint()
    ensures DOT !in DO_NOT_CACHE
  {
  }

  lemma CutDoesNotDecode(token: Bytes)
    requires SplitToken(token).None?
    ensures DecodeToken(token).Failure? && UserClaim(token).None? && forall mac, now :: !PoolAccepts(token, mac, now)
  {
    hide SplitToken, Accepts;
  }

  lemma NamingTokenSplits(token: Bytes)
    ensures UserClaim(token).Some? ==> SplitToken(token).Some?
  {
    hide SplitToken;
  }

  /** Cut like this, a cached token is served although it does not decode: the user of the connection is named by no
      token that was presented with it. */
  lemma CutTokenServed(mac: Mac, start: State, first: Step, n: nat) returns (r: Run)
    requires first.Get? && first.hint != DO_NOT_CACHE && n <= |first.token| && SplitToken(first.token[..n]).None?
    ensures DecodeToken(first.token[..n]).Failure? && forall now :: !PoolAccepts(first.token[..n], mac, now)
    ensures Opens(mac, start, first) ==> ServesAgain(mac, r, start, first, CutStep(first, n), 0)
  {
    hide SplitToken, ServesAgain, KeyOf, PoolAccepts, UserClaim, DecodeToken;
    CutDoesNotDecode(first.token[..n]);
    NamingTokenSplits(first.token);
    if !Opens(mac, start, first) { return Run([start], []); }
    CutKey(first, n);
    hide Opens;
    r := ServedAgain(mac, start, first, CutStep(first, n), 0);
  }

  /** So once the token issued for any user was served, no token at all is needed: the issued one will do as a hint. */
  lemma IssuedTokenAsHint(mac: Mac, start: State, first: Step, user: Bytes, notBefore: Instant, issuedAt: Instant)
    returns (r: Run)
    requires Init(start) && first.Get? && first.login && first.hint != DO_NOT_CACHE
    requires notBefore <= start.clock && issuedAt <= start.clock
    ensures AllNumberFree(AUTH_HEADER) && AllNumberFree(AuthPayload(user, notBefore, issuedAt))
    ensures Signed(AUTH_HEADER, AuthPayload(user, notBefore, issuedAt), Hmac(HS256, mac)) == Some(first.token) ==>
      var last := CutStep(first, 0);
      && last.token == [] && ServesAgain(mac, r, start, first, last, 0)
      && r.states[5].entries[KeyOf(last)].connection == Some(Connection(user))
  {
    hide Signed, PoolAccepts, UserClaim, AuthPayload, Init, KeyOf;
    IssuedTokenNamesUser(user, notBefore, issuedAt, mac, start.clock);
    hide AllNumberFree;
    NothingSplits();
    r := CutTokenServed(mac, start, first, 0);
  }

  lemma NothingSplits()
    ensures SplitToken([]).None?
  {
  }
}
