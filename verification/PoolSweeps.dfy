/** What a sweep achieves when callers, releases and the clock interleave with it. */
module PoolSweeps {
  import opened Bytes
  import opened Pool
  import opened PoolRuns

  /** From step `begin` to step `end` one sweep runs, and nobody fetches `key`. */
  ghost predicate SweepWithout(r: Run, begin: nat, end: nat, key: Bytes)
    requires begin < end < |r.steps|
  {
    && r.steps[begin].BeginSweep? && r.steps[end].EndSweep?
    && (forall j | begin < j < end :: !r.steps[j].EndSweep?)
    && (forall j | begin < j < end && r.steps[j].Get? :: KeyOf(r.steps[j]) != key)
  }

  /** The sweep has the entry still before it, unchanged, or has erased it. */
  ghost predicate Pending(s: State, key: Bytes, e: Entry, cutoff: int) {
    && s.sweeper.Sweeping? && s.sweeper.cutoff == cutoff
    && (key in s.entries ==> s.entries[key] == e && s.sweeper.at.Some? && !Less(key, s.sweeper.at.value))
  }

  lemma PendingAtBegin(mac: Mac, s: State, step: Step, key: Bytes)
    requires Enabled(s, step) && step.BeginSweep? && key in s.entries
    ensures Pending(Next(mac, s, step), key, s.entries[key], Seconds(s.clock) - s.timeout)
  {
    hide Seconds;
    NothingBeforeFirst(s.entries);
  }

  lemma VisitKeepsPending(mac: Mac, s: State, step: Step, key: Bytes, e: Entry, cutoff: int)
    requires Safe(s) && Enabled(s, step) && step.VisitNext?
    requires Pending(s, key, e, cutoff) && Expired(e, cutoff)
    ensures Pending(Next(mac, s, step), key, e, cutoff)
  {
    hide Less;
    var k := s.sweeper.at.value;
    var s' := Next(mac, s, step);
    NothingBeforeFirst(s'.entries);
    LessTotal(k, key);
    if key in s'.entries && s'.sweeper.at.Some? { LessTotal(key, s'.sweeper.at.value); }
  }

  lemma StepKeepsPending(mac: Mac, s: State, step: Step, key: Bytes, e: Entry, cutoff: int)
    requires Safe(s) && Enabled(s, step) && !step.EndSweep? && (step.Get? ==> KeyOf(step) != key)
    requires Pending(s, key, e, cutoff) && Expired(e, cutoff)
    ensures Pending(Next(mac, s, step), key, e, cutoff)
  {
    hide Less, Connect, Suffix, Seconds;
    if step.VisitNext? {
      VisitKeepsPending(mac, s, step, key, e, cutoff);
    } else if step.ReleaseTime? || step.ReleaseFlag? {
      assert ProxyServed(s, step.id);
    }
  }

  lemma {:induction false} RunKeepsPending(mac: Mac, r: Run, begin: nat, end: nat, key: Bytes, j: nat)
    requires IsRun(mac, r) && begin < j <= end < |r.steps| && SweepWithout(r, begin, end, key)
    requires var s := r.states[begin]; key in s.entries && Expired(s.entries[key], Seconds(s.clock) - s.timeout)
    ensures var s := r.states[begin]; Pending(r.states[j], key, s.entries[key], Seconds(s.clock) - s.timeout)
  {
    hide Next, Enabled, Pending, Seconds, Expired, KeyOf;
    assert Follows(mac, r, j - 1);
    if j - 1 == begin {
      PendingAtBegin(mac, r.states[begin], r.steps[begin], key);
    } else {
      RunKeepsPending(mac, r, begin, end, key, j - 1);
      RunIsSafe(mac, r, j - 1);
      var s := r.states[begin];
      StepKeepsPending(mac, r.states[j - 1], r.steps[j - 1], key, s.entries[key], Seconds(s.clock) - s.timeout);
    }
  }

  /** An entry that has expired when a sweep begins, and that nobody fetches meanwhile, is gone when the sweep ends,
      whatever else goes on. */
  lemma SweepErases(mac: Mac, r: Run, begin: nat, end: nat, key: Bytes)
    requires IsRun(mac, r) && begin < end < |r.steps| && SweepWithout(r, begin, end, key)
    requires var s := r.states[begin]; key in s.entries && Expired(s.entries[key], Seconds(s.clock) - s.timeout)
    ensures key !in r.states[end].entries && key !in r.states[end + 1].entries
  {
    hide Seconds, Less;
    RunKeepsPending(mac, r, begin, end, key, end);
    assert Follows(mac, r, end);
  }

  /** So is every connection that nobody holds and that has been idle for more than the timeout in whole seconds. */
  lemma IdleIsErased(mac: Mac, r: Run, begin: nat, end: nat, key: Bytes)
    requires IsRun(mac, r) && begin < end < |r.steps| && SweepWithout(r, begin, end, key)
    requires var s := r.states[begin];
      key in s.entries && s.entries[key].connection.Some? && !Held(s, key)
    requires LastHint(mac, r, key, begin) == Some(DO_NOT_CACHE)
      || (LastTouch(mac, r, key, begin).Some?
          && Seconds(r.states[begin].clock) - r.states[begin].timeout > Seconds(LastTouch(mac, r, key, begin).value))
    ensures key !in r.states[end].entries && key !in r.states[end + 1].entries
  {
    hide Seconds, LastHint, LastTouch;
    var s := r.states[begin];
    RunIsSafe(mac, r, begin);
    RunKeepsTime(mac, r, key, begin);
    RunKeepsHint(mac, r, key, begin);
    assert EntryFreeOrStuck(s, key);
    hide Safe, TimeKept, Held;
    SweepErases(mac, r, begin, end, key);
  }

  /** A visit that erases sends the iterator back: every entry left, wherever it stands, is visited from then on. One
      that does not erase passes over this one entry only. */
  lemma ErasureStartsOver(mac: Mac, s: State, step: Step, key: Bytes)
    requires Safe(s) && Enabled(s, step) && step.VisitNext? && key in Next(mac, s, step).entries
    ensures var s', at := Next(mac, s, step), s.sweeper.at.value;
      && at in s.entries && s'.sweeper.Sweeping?
      && (at !in s'.entries ==> s'.sweeper.at.Some? && !Less(key, s'.sweeper.at.value))
      && (at in s'.entries && Less(at, key) ==> s'.sweeper.at.Some? && !Less(key, s'.sweeper.at.value))
      && (at in s'.entries ==> s'.sweeper.at.Some? ==> Less(at, s'.sweeper.at.value))
  {
    hide Less;
    var s' := Next(mac, s, step);
    NothingBeforeFirst(s'.entries);
    if s'.sweeper.at.Some? { LessTotal(key, s'.sweeper.at.value); }
  }
}
