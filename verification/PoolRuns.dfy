/** The connection pool as a transition system: callers, releases and the sweeper interleave freely. Every access that
    the source makes under its lock, and every unlocked access, is one atomic step. */
module PoolRuns {
  import opened Bytes
  import opened Pool
  import JwtVerifier

  /** A live proxy refers to an entry; its destructor stores the time first and clears the flag second. */
  datatype Proxy = Proxy(key: Bytes, timeStored: bool)

  datatype Sweeper = Sleeping | Sweeping(cutoff: int, at: Position)

  datatype State = State(clock: Time, timeout: nat, entries: Entries, proxies: map<nat, Proxy>, sweeper: Sweeper)

  datatype Step =
    | Get(id: nat, token: Bytes, hint: Bytes, random: seq<byte>, login: bool)
    | ReleaseTime(id: nat)
    | ReleaseFlag(id: nat)
    | BeginSweep
    | VisitNext
    | EndSweep
    | Tick(amount: nat)
    | SetTimeout(seconds: nat)

  ghost predicate Init(s: State) {
    s.entries == map[] && s.proxies == map[] && s.sweeper == Sleeping
  }

  ghost predicate Enabled(s: State, step: Step) {
    match step
    case Get(id, _, _, _, _) => id !in s.proxies
    case ReleaseTime(id) => id in s.proxies && !s.proxies[id].timeStored
    case ReleaseFlag(id) => id in s.proxies && s.proxies[id].timeStored
    case BeginSweep => s.sweeper.Sleeping?
    case VisitNext => s.sweeper.Sweeping? && s.sweeper.at.Some?
    case EndSweep => s.sweeper.Sweeping? && s.sweeper.at.None?
    case Tick(_) => true
    case SetTimeout(_) => true
  }

  function KeyOf(step: Step): Bytes
    requires step.Get?
  {
    step.token + Suffix(step.hint, step.random)
  }

  ghost function OutcomeOf(mac: Mac, s: State, step: Step): Outcome
    requires step.Get?
  {
    GetOutcome(s.entries, step.token, step.hint, step.random, mac, s.clock, step.login)
  }

  /** The state after a step. A store through a proxy, or a visit, of an entry that is gone would be undefined; here
      it changes nothing, and `Safe` says that it never happens. */
  ghost function Next(mac: Mac, s: State, step: Step): State
    requires Enabled(s, step)
  {
    match step
    case Get(id, token, hint, random, login) =>
      var entries := EntriesAfterGet(s.entries, token, hint, random, mac, s.clock, login);
      s.(entries := entries,
         proxies := if OutcomeOf(mac, s, step).Granted? then s.proxies[id := Proxy(KeyOf(step), false)] else s.proxies)
    case ReleaseTime(id) =>
      var key := s.proxies[id].key;
      s.(entries := if key in s.entries then s.entries[key := s.entries[key].(accessTime := Seconds(s.clock))]
                    else s.entries,
         proxies := s.proxies[id := Proxy(key, true)])
    case ReleaseFlag(id) =>
      var key := s.proxies[id].key;
      s.(entries := if key in s.entries then s.entries[key := s.entries[key].(inUse := false)] else s.entries,
         proxies := s.proxies - {id})
    case BeginSweep => s.(sweeper := Sweeping(Seconds(s.clock) - s.timeout, First(s.entries)))
    case VisitNext =>
      var key := s.sweeper.at.value;
      if key !in s.entries then s else
        var (entries, at) := Visit(s.entries, s.sweeper.cutoff, key);
        s.(entries := entries, sweeper := Sweeping(s.sweeper.cutoff, at))
    case EndSweep => s.(sweeper := Sleeping)
    case Tick(amount) => s.(clock := s.clock + amount)
    case SetTimeout(seconds) => s.(timeout := seconds)
  }

  // ---- safety ----

  /** A live proxy's entry is there, in use and connected. */
  ghost predicate ProxyServed(s: State, id: nat)
    requires id in s.proxies
  {
    var key := s.proxies[id].key;
    key in s.entries && s.entries[key].inUse && s.entries[key].connection.Some?
  }

  ghost predicate ProxiesServed(s: State) {
    forall id | id in s.proxies :: ProxyServed(s, id)
  }

  /** No two live proxies share an entry. */
  ghost predicate ProxiesApart(s: State) {
    forall id, id' | id in s.proxies && id' in s.proxies && s.proxies[id].key == s.proxies[id'].key :: id == id'
  }

  /** The sweeper's iterator denotes an entry or the end. */
  ghost predicate IteratorValid(s: State) {
    s.sweeper.Sweeping? && s.sweeper.at.Some? ==> s.sweeper.at.value in s.entries
  }

  ghost predicate Held(s: State, key: Bytes) {
    exists id :: id in s.proxies && s.proxies[id].key == key
  }

  /** An entry that no proxy holds is free and connected, or it is stuck: in use without a connection. */
  ghost predicate EntryFreeOrStuck(s: State, key: Bytes)
    requires key in s.entries
  {
    Held(s, key) || (s.entries[key].inUse <==> s.entries[key].connection.None?)
  }

  ghost predicate EntriesFreeOrStuck(s: State) {
    forall key | key in s.entries :: EntryFreeOrStuck(s, key)
  }

  ghost predicate Safe(s: State) {
    ProxiesServed(s) && ProxiesApart(s) && IteratorValid(s) && EntriesFreeOrStuck(s)
  }

  lemma HeldIsServed(s: State, key: Bytes)
    requires ProxiesServed(s)
    ensures Held(s, key) ==> key in s.entries && s.entries[key].inUse && s.entries[key].connection.Some?
  {
    if Held(s, key) {
      var id :| id in s.proxies && s.proxies[id].key == key;
      assert ProxyServed(s, id);
    }
  }

  /** A step leaves every entry but the one under `key` alone. */
  ghost predicate OnlyChanges(e: Entries, e': Entries, key: Bytes) {
    && (forall k | k in e && k != key :: k in e' && e'[k] == e[k])
    && (forall k | k in e' && k != key :: k in e)
  }

  lemma GetIsSafe(mac: Mac, s: State, step: Step)
    requires Safe(s) && step.Get? && Enabled(s, step)
    ensures Safe(Next(mac, s, step))
  {
    hide Connect, Suffix;
    var s', key := Next(mac, s, step), KeyOf(step);
    assert OnlyChanges(s.entries, s'.entries, key);
    if OutcomeOf(mac, s, step).Busy? {
      assert s' == s;
    } else {
      HeldIsServed(s, key);
      assert key in s.entries ==> EntryFreeOrStuck(s, key);
      forall id | id in s'.proxies ensures ProxyServed(s', id) {
        assert id in s.proxies ==> ProxyServed(s, id);
      }
      forall k | k in s'.entries ensures EntryFreeOrStuck(s', k) {
        if k == key {
          if OutcomeOf(mac, s, step).Granted? { assert s'.proxies[step.id].key == key; }
        } else {
          assert EntryFreeOrStuck(s, k);
          HeldStays(s, s', k);
        }
      }
    }
  }

  lemma HeldStays(s: State, s': State, key: Bytes)
    requires forall id | id in s.proxies :: id in s'.proxies && s'.proxies[id].key == s.proxies[id].key
    ensures Held(s, key) ==> Held(s', key)
  {
    if Held(s, key) {
      var id :| id in s.proxies && s.proxies[id].key == key;
      assert id in s'.proxies && s'.proxies[id].key == key;
    }
  }

  lemma ReleaseTimeIsSafe(mac: Mac, s: State, step: Step)
    requires Safe(s) && step.ReleaseTime? && Enabled(s, step)
    ensures Safe(Next(mac, s, step))
  {
    var s' := Next(mac, s, step);
    assert ProxyServed(s, step.id);
    forall id | id in s'.proxies ensures ProxyServed(s', id) {
      assert ProxyServed(s, id);
    }
    forall k | k in s'.entries ensures EntryFreeOrStuck(s', k) {
      assert EntryFreeOrStuck(s, k);
      HeldStays(s, s', k);
    }
  }

  lemma ReleaseFlagIsSafe(mac: Mac, s: State, step: Step)
    requires Safe(s) && step.ReleaseFlag? && Enabled(s, step)
    ensures Safe(Next(mac, s, step))
  {
    var s', key := Next(mac, s, step), s.proxies[step.id].key;
    assert ProxyServed(s, step.id);
    forall id | id in s'.proxies ensures ProxyServed(s', id) {
      assert ProxyServed(s, id);
      assert s.proxies[id].key != key;
    }
    forall k | k in s'.entries ensures EntryFreeOrStuck(s', k) {
      if k != key {
        assert EntryFreeOrStuck(s, k);
        if Held(s, k) {
          var id :| id in s.proxies && s.proxies[id].key == k;
          assert id in s'.proxies && s'.proxies[id].key == k;
        }
      }
    }
  }

  lemma VisitIsSafe(mac: Mac, s: State, step: Step)
    requires Safe(s) && step.VisitNext? && Enabled(s, step)
    ensures Safe(Next(mac, s, step))
  {
    hide Less;
    var s', key := Next(mac, s, step), s.sweeper.at.value;
    forall id | id in s'.proxies ensures ProxyServed(s', id) {
      assert ProxyServed(s, id);
    }
    forall k | k in s'.entries ensures EntryFreeOrStuck(s', k) {
      assert EntryFreeOrStuck(s, k);
      HeldStays(s, s', k);
    }
  }

  lemma OtherStepIsSafe(mac: Mac, s: State, step: Step)
    requires Safe(s) && Enabled(s, step)
    requires step.BeginSweep? || step.EndSweep? || step.Tick? || step.SetTimeout?
    ensures Safe(Next(mac, s, step))
  {
    hide Less;
    var s' := Next(mac, s, step);
    forall id | id in s'.proxies ensures ProxyServed(s', id) {
      assert ProxyServed(s, id);
    }
    forall k | k in s'.entries ensures EntryFreeOrStuck(s', k) {
      assert EntryFreeOrStuck(s, k);
      HeldStays(s, s', k);
    }
  }

  lemma StepIsSafe(mac: Mac, s: State, step: Step)
    requires Safe(s) && Enabled(s, step)
    ensures Safe(Next(mac, s, step))
  {
    hide Safe, Next;
    match step {
      case Get(_, _, _, _, _) => GetIsSafe(mac, s, step);
      case ReleaseTime(_) => ReleaseTimeIsSafe(mac, s, step);
      case ReleaseFlag(_) => ReleaseFlagIsSafe(mac, s, step);
      case VisitNext => VisitIsSafe(mac, s, step);
      case _ => OtherStepIsSafe(mac, s, step);
    }
  }

  // ---- runs ----

  datatype Run = Run(states: seq<State>, steps: seq<Step>)

  /** Every step of the run follows from the state before it. */
  ghost predicate IsRun(mac: Mac, r: Run) {
    && |r.states| == |r.steps| + 1
    && Init(r.states[0])
    && forall i | 0 <= i < |r.steps| :: Follows(mac, r, i)
  }

  ghost predicate Follows(mac: Mac, r: Run, i: nat)
    requires |r.states| == |r.steps| + 1 && i < |r.steps|
  {
    Enabled(r.states[i], r.steps[i]) && r.states[i + 1] == Next(mac, r.states[i], r.steps[i])
  }

  /** Every reachable state is safe, whatever the interleaving. */
  lemma {:induction false} RunIsSafe(mac: Mac, r: Run, i: nat)
    requires IsRun(mac, r) && i <= |r.steps|
    ensures Safe(r.states[i])
  {
    hide Next, Enabled;
    if i > 0 {
      RunIsSafe(mac, r, i - 1);
      assert Follows(mac, r, i - 1);
      StepIsSafe(mac, r.states[i - 1], r.steps[i - 1]);
    }
  }

  // ---- entries that stay in use ----

  /** Step `i` was a `get` whose connection failed, on this key. */
  ghost predicate FailsAt(mac: Mac, r: Run, key: Bytes, i: nat)
    requires |r.states| == |r.steps| + 1 && i < |r.steps|
  {
    r.steps[i].Get? && KeyOf(r.steps[i]) == key && OutcomeOf(mac, r.states[i], r.steps[i]).ConnectFailed?
  }

  /** Before step `i`, making a connection for this key failed. */
  ghost predicate HasFailed(mac: Mac, r: Run, key: Bytes, i: nat)
    requires |r.states| == |r.steps| + 1 && i <= |r.steps|
  {
    exists j :: 0 <= j < i && FailsAt(mac, r, key, j)
  }

  ghost predicate Stuck(s: State, key: Bytes) {
    key in s.entries && s.entries[key].inUse && s.entries[key].connection.None?
  }

  /** A stuck entry stays stuck, and an entry becomes stuck only when its connection fails. */
  lemma StuckStep(mac: Mac, s: State, step: Step, key: Bytes)
    requires Safe(s) && Enabled(s, step)
    ensures Stuck(Next(mac, s, step), key)
      <==> Stuck(s, key) || (step.Get? && KeyOf(step) == key && OutcomeOf(mac, s, step).ConnectFailed?)
  {
    hide Connect, Suffix, Less, ProxiesApart;
    if step.ReleaseTime? || step.ReleaseFlag? {
      assert ProxyServed(s, step.id);
    }
    if key in s.entries {
      assert EntryFreeOrStuck(s, key);
    }
  }

  lemma {:induction false} StuckIffFailed(mac: Mac, r: Run, key: Bytes, i: nat)
    requires IsRun(mac, r) && i <= |r.steps|
    ensures Stuck(r.states[i], key) <==> HasFailed(mac, r, key, i)
  {
    hide Next, Enabled, Safe, OutcomeOf;
    if i > 0 {
      StuckIffFailed(mac, r, key, i - 1);
      RunIsSafe(mac, r, i - 1);
      assert Follows(mac, r, i - 1);
      StuckStep(mac, r.states[i - 1], r.steps[i - 1], key);
      if FailsAt(mac, r, key, i - 1) {
        assert HasFailed(mac, r, key, i);
      }
      if HasFailed(mac, r, key, i) {
        var j :| 0 <= j < i && FailsAt(mac, r, key, j);
        assert j == i - 1 || HasFailed(mac, r, key, i - 1);
      }
      if HasFailed(mac, r, key, i - 1) {
        var j :| 0 <= j < i - 1 && FailsAt(mac, r, key, j);
        assert HasFailed(mac, r, key, i);
      }
    }
  }

  /** An entry is in use exactly while a live proxy holds it, except on keys for which `make_connection` has thrown:
      those are in use, without a proxy, in every later state. */
  lemma InUseIffHeldOrFailed(mac: Mac, r: Run, key: Bytes, i: nat)
    requires IsRun(mac, r) && i <= |r.steps|
    ensures var s := r.states[i];
      && (key in s.entries && s.entries[key].inUse <==> Held(s, key) || HasFailed(mac, r, key, i))
      && !(Held(s, key) && HasFailed(mac, r, key, i))
  {
    hide HasFailed;
    var s := r.states[i];
    RunIsSafe(mac, r, i);
    StuckIffFailed(mac, r, key, i);
    HeldIsServed(s, key);
    if key in s.entries {
      assert EntryFreeOrStuck(s, key);
    }
  }

  /** Once making a connection for a key has thrown, every later `get` of that key is refused as busy. */
  lemma FailedKeyStaysBusy(mac: Mac, r: Run, i: nat, j: nat)
    requires IsRun(mac, r) && i < j < |r.steps| && r.steps[i].Get? && r.steps[j].Get?
    requires KeyOf(r.steps[i]) == KeyOf(r.steps[j]) && OutcomeOf(mac, r.states[i], r.steps[i]).ConnectFailed?
    ensures OutcomeOf(mac, r.states[j], r.steps[j]).Busy?
  {
    hide Connect, Suffix;
    assert FailsAt(mac, r, KeyOf(r.steps[j]), i);
    assert HasFailed(mac, r, KeyOf(r.steps[j]), j);
    StuckIffFailed(mac, r, KeyOf(r.steps[j]), j);
  }

  // ---- idle time ----

  /** A step that makes a connection count as used now: a granted `get`, or the first half of a release. */
  ghost predicate Touches(mac: Mac, s: State, step: Step, key: Bytes) {
    || (step.Get? && KeyOf(step) == key && OutcomeOf(mac, s, step).Granted?)
    || (step.ReleaseTime? && step.id in s.proxies && s.proxies[step.id].key == key)
  }

  /** When the connection under `key` was last fetched or released before step `i`. */
  ghost function LastTouch(mac: Mac, r: Run, key: Bytes, i: nat): Option<Time>
    requires |r.states| == |r.steps| + 1 && i <= |r.steps|
  {
    if i == 0 then None
    else if Touches(mac, r.states[i - 1], r.steps[i - 1], key) then Some(r.states[i - 1].clock)
    else LastTouch(mac, r, key, i - 1)
  }

  /** The access time of a connected entry is the time of its last touch. */
  ghost predicate TimeKept(s: State, key: Bytes, touch: Option<Time>) {
    key in s.entries && s.entries[key].connection.Some? ==>
      touch.Some? && touch.value <= s.clock && s.entries[key].accessTime == Seconds(touch.value)
  }

  lemma TimeKeptStep(mac: Mac, s: State, step: Step, key: Bytes, touch: Option<Time>)
    requires Safe(s) && Enabled(s, step) && TimeKept(s, key, touch)
    ensures TimeKept(Next(mac, s, step), key, if Touches(mac, s, step, key) then Some(s.clock) else touch)
  {
    hide Connect, Suffix, Less, ProxiesApart, Seconds;
    if step.ReleaseTime? || step.ReleaseFlag? {
      assert ProxyServed(s, step.id);
    }
    if key in s.entries {
      assert EntryFreeOrStuck(s, key);
    }
  }

  lemma {:induction false} RunKeepsTime(mac: Mac, r: Run, key: Bytes, i: nat)
    requires IsRun(mac, r) && i <= |r.steps|
    ensures TimeKept(r.states[i], key, LastTouch(mac, r, key, i))
  {
    hide Next, Enabled, Safe, TimeKept, Touches;
    if i == 0 {
      NothingKept(r.states[0], key);
    } else {
      RunKeepsTime(mac, r, key, i - 1);
      RunIsSafe(mac, r, i - 1);
      assert Follows(mac, r, i - 1);
      TimeKeptStep(mac, r.states[i - 1], r.steps[i - 1], key, LastTouch(mac, r, key, i - 1));
    }
  }

  lemma NothingKept(s: State, key: Bytes)
    requires Init(s)
    ensures TimeKept(s, key, None)
  {
  }

  // ---- what is not to be cached ----

  /** The hint that the entry under `key` was last fetched with before step `i`, whether or not connecting failed. */
  ghost function LastHint(mac: Mac, r: Run, key: Bytes, i: nat): Option<Bytes>
    requires |r.states| == |r.steps| + 1 && i <= |r.steps|
  {
    if i == 0 then None
    else if Fetches(mac, r.states[i - 1], r.steps[i - 1], key) then Some(r.steps[i - 1].hint)
    else LastHint(mac, r, key, i - 1)
  }

  ghost predicate Fetches(mac: Mac, s: State, step: Step, key: Bytes) {
    step.Get? && KeyOf(step) == key && !OutcomeOf(mac, s, step).Busy?
  }

  /** An entry is marked for eviction exactly when its last fetch asked for no caching. */
  ghost predicate HintKept(s: State, key: Bytes, hint: Option<Bytes>) {
    key in s.entries ==> hint.Some? && (s.entries[key].evictImmediately <==> hint.value == DO_NOT_CACHE)
  }

  lemma HintKeptStep(mac: Mac, s: State, step: Step, key: Bytes, hint: Option<Bytes>)
    requires Enabled(s, step) && HintKept(s, key, hint)
    ensures HintKept(Next(mac, s, step), key, if Fetches(mac, s, step, key) then Some(step.hint) else hint)
  {
    hide Connect, Suffix, Less, Seconds;
  }

  lemma {:induction false} RunKeepsHint(mac: Mac, r: Run, key: Bytes, i: nat)
    requires IsRun(mac, r) && i <= |r.steps|
    ensures HintKept(r.states[i], key, LastHint(mac, r, key, i))
  {
    hide Next, Enabled, Fetches;
    if i > 0 {
      RunKeepsHint(mac, r, key, i - 1);
      assert Follows(mac, r, i - 1);
      hide HintKept;
      HintKeptStep(mac, r.states[i - 1], r.steps[i - 1], key, LastHint(mac, r, key, i - 1));
    }
  }

  // ---- what the sweeper erases ----

  /** No step changes the idle timeout. */
  ghost predicate FixedTimeout(r: Run) {
    forall i | 0 <= i < |r.steps| :: !r.steps[i].SetTimeout?
  }

  /** The cutoff of a sweep in progress is no later than the current one. */
  ghost predicate CutoffBehind(s: State) {
    s.sweeper.Sweeping? ==> s.sweeper.cutoff <= Seconds(s.clock) - s.timeout
  }

  lemma {:induction false} RunKeepsCutoff(mac: Mac, r: Run, i: nat)
    requires IsRun(mac, r) && FixedTimeout(r) && i <= |r.steps|
    ensures CutoffBehind(r.states[i])
  {
    hide Connect, Suffix, Less, GetOutcome, EntriesAfterGet, Visit;
    if i > 0 {
      RunKeepsCutoff(mac, r, i - 1);
      assert Follows(mac, r, i - 1);
      if r.steps[i - 1].Tick? {
        SecondsMonotone(r.states[i - 1].clock, r.states[i].clock);
      }
    }
  }

  lemma SecondsMonotone(a: Time, b: Time)
    requires a <= b
    ensures Seconds(a) <= Seconds(b)
  {
  }

  /** Whole seconds that differ by more than `n` lie more than `n` seconds apart. */
  lemma SecondsApart(a: Time, b: Time, n: int)
    requires Seconds(b) - n > Seconds(a)
    ensures b - a > n * JwtVerifier.TICKS
  {
  }

  /** An entry disappears only when the sweeper visits it while nobody uses it, and then its last fetch asked for no
      caching, or it had not been fetched or released for strictly more than the idle timeout. */
  lemma ErasedOnlyWhenIdle(mac: Mac, r: Run, key: Bytes, i: nat)
    requires IsRun(mac, r) && FixedTimeout(r) && i < |r.steps|
    requires key in r.states[i].entries && key !in r.states[i + 1].entries
    ensures var s := r.states[i];
      && r.steps[i].VisitNext? && s.sweeper.Sweeping? && s.sweeper.at == Some(key)
      && !Held(s, key) && !s.entries[key].inUse
      && (LastHint(mac, r, key, i) == Some(DO_NOT_CACHE)
          || (LastTouch(mac, r, key, i).Some?
              && s.clock - LastTouch(mac, r, key, i).value > s.timeout * JwtVerifier.TICKS))
  {
    hide Connect, Suffix, Less, LastTouch, LastHint, Seconds;
    var s := r.states[i];
    assert Follows(mac, r, i);
    RunIsSafe(mac, r, i);
    RunKeepsTime(mac, r, key, i);
    RunKeepsHint(mac, r, key, i);
    RunKeepsCutoff(mac, r, i);
    assert EntryFreeOrStuck(s, key);
    HeldIsServed(s, key);
    if !s.entries[key].evictImmediately {
      SecondsApart(LastTouch(mac, r, key, i).value, s.clock, s.timeout);
    }
  }

  /** The first visit after its release erases an entry whose last fetch asked for no caching, whatever its age. */
  lemma DoNotCacheErasedAtVisit(mac: Mac, r: Run, key: Bytes, i: nat)
    requires IsRun(mac, r) && i < |r.steps| && r.steps[i].VisitNext?
    requires r.states[i].sweeper.Sweeping? && r.states[i].sweeper.at == Some(key)
    ensures key in r.states[i].entries
    ensures LastHint(mac, r, key, i) == Some(DO_NOT_CACHE) && !r.states[i].entries[key].inUse
      ==> key !in r.states[i + 1].entries
  {
    hide Less, LastHint;
    RunIsSafe(mac, r, i);
    RunKeepsHint(mac, r, key, i);
    assert Follows(mac, r, i);
  }
}
