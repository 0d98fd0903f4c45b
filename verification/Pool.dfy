/** The connection pool of indexed_connection_pool_with_expiry.hpp: what each operation does to the entries. */
module Pool {
  import opened Bytes
  import JwtEndToEnd

  /** Connecting and logging in are foreign; a connection records whom it was made for. */
  datatype Connection = Connection(user: Bytes)

  /** `connection_context`. Access times are whole seconds. */
  datatype Entry = Entry(inUse: bool, evictImmediately: bool, accessTime: int, connection: Option<Connection>)

  type Entries = map<Bytes, Entry>

  const FRESH := Entry(false, false, 0, None)

  /** The keyed hash under the configured signing key. */
  type Mac = Bytes -> Option<Bytes>

  /** A non-negative reading of the system clock, in ticks. */
  type Time = t: int | 0 <= t

  /** `now_in_seconds`. */
  function Seconds(t: Time): int {
    t / JwtEndToEnd.JwtVerifier.TICKS
  }

  // ---- keys ----

  /** "DO_NOT_CACHE_HINT" */
  const DO_NOT_CACHE: Bytes :=
    [0x44, 0x4F, 0x5F, 0x4E, 0x4F, 0x54, 0x5F, 0x43, 0x41, 0x43, 0x48, 0x45, 0x5F, 0x48, 0x49, 0x4E, 0x54]

  /** "___" */
  const SEPARATOR: Bytes := [0x5F, 0x5F, 0x5F]

  /** One character of `get_random_hint`. The random byte is a signed character and `%` truncates, so the letter may
      also lie before 'a'. */
  function HintCharacter(b: byte): byte {
    if b < 128 then 0x61 + b % 26 else 0x61 - (256 - b) % 26
  }

  function RandomHint(random: seq<byte>): Bytes {
    seq(|random|, i requires 0 <= i < |random| => HintCharacter(random[i]))
  }

  /** The part of a key after the token. */
  function Suffix(hint: Bytes, random: seq<byte>): Bytes {
    if hint == DO_NOT_CACHE then SEPARATOR + RandomHint(random) else hint
  }

  // ---- get ----

  /** `make_connection`: None where it throws. `login` says whether connecting and logging in succeed. */
  ghost function Connect(token: Bytes, mac: Mac, now: Time, login: bool): Option<Connection> {
    if login && JwtEndToEnd.PoolAccepts(token, mac, now) && JwtEndToEnd.UserClaim(token).Some?
    then Some(Connection(JwtEndToEnd.UserClaim(token).value))
    else None
  }

  /** How `get` ends: with a proxy, because the entry is in use, or because `make_connection` threw. */
  datatype Outcome = Granted | Busy | ConnectFailed

  function EntryAt(entries: Entries, key: Bytes): Entry {
    if key in entries then entries[key] else FRESH
  }

  ghost function GetOutcome(entries: Entries, token: Bytes, hint: Bytes, random: seq<byte>, mac: Mac, now: Time,
                            login: bool): Outcome {
    var e := EntryAt(entries, token + Suffix(hint, random));
    if e.inUse then Busy
    else if e.connection.None? && Connect(token, mac, now, login).None? then ConnectFailed
    else Granted
  }

  /** The entries after `get`. When making the connection fails, the entry stays in use without a connection. */
  ghost function EntriesAfterGet(entries: Entries, token: Bytes, hint: Bytes, random: seq<byte>, mac: Mac, now: Time,
                                 login: bool): Entries {
    var key := token + Suffix(hint, random);
    var e := EntryAt(entries, key);
    match GetOutcome(entries, token, hint, random, mac, now, login)
    case Busy => entries
    case ConnectFailed => entries[key := e.(inUse := true, evictImmediately := hint == DO_NOT_CACHE)]
    case Granted =>
      var connection := if e.connection.Some? then e.connection else Connect(token, mac, now, login);
      entries[key := Entry(true, hint == DO_NOT_CACHE, Seconds(now), connection)]
  }

  // ---- the sweep ----

  /** An entry that the sweep erases when it visits it. */
  predicate Expired(e: Entry, cutoff: int) {
    !e.inUse && (cutoff > e.accessTime || e.evictImmediately)
  }

  /** An iterator into the entries: a key, or the end. */
  type Position = Option<Bytes>

  /** `begin()`. */
  function First(entries: Entries): (p: Position)
    ensures p.Some? ==> p.value in entries && forall k | k in entries :: k == p.value || Less(p.value, k)
    ensures p.None? ==> entries == map[]
  {
    if entries == map[] then None else
      assert exists k :: k in entries;
      var m := Least(entries.Keys);
      assert forall k | k in entries :: k in entries.Keys;
      Some(m)
  }

  lemma NothingBeforeFirst(entries: Entries)
    ensures First(entries).Some? ==> forall k | k in entries :: !Less(k, First(entries).value)
  {
    if First(entries).Some? {
      forall k | k in entries ensures !Less(k, First(entries).value) { LessTotal(k, First(entries).value); }
    }
  }

  /** `++itr`. */
  function After(entries: Entries, key: Bytes): (p: Position)
    ensures p.Some? ==> p.value in entries && Less(key, p.value)
    ensures forall k | k in entries && Less(key, k) :: p.Some? && (k == p.value || Less(p.value, k))
  {
    var later := set k | k in entries && Less(key, k);
    assert forall k | k in entries && Less(key, k) :: k in later;
    if later == {} then None else Some(Least(later))
  }

  /** One visit of the sweep: the entries and the iterator after it. */
  function Visit(entries: Entries, cutoff: int, key: Bytes): (Entries, Position)
    requires key in entries
  {
    if Expired(entries[key], cutoff) then (entries - {key}, First(entries - {key}))
    else (entries, After(entries, key))
  }

  /** The entries that a sweep leaves. */
  function Unexpired(entries: Entries, cutoff: int): Entries {
    map k | k in entries && !Expired(entries[k], cutoff) :: entries[k]
  }

  class ConnectionPool {
    var entries: Entries

    constructor ()
      ensures entries == map[]
    {
      entries := map[];
    }

    /** `get`, under the lock. A granted connection is handed out through a proxy for the returned key. */
    method Get(token: Bytes, hint: Bytes, random: seq<byte>, mac: Mac, now: Time, login: bool)
      returns (outcome: Outcome, key: Bytes)
      modifies this
      ensures key == token + Suffix(hint, random)
      ensures outcome == GetOutcome(old(entries), token, hint, random, mac, now, login)
      ensures entries == EntriesAfterGet(old(entries), token, hint, random, mac, now, login)
    {
      hide JwtEndToEnd.PoolAccepts, JwtEndToEnd.UserClaim;
      var doNotCache := hint == DO_NOT_CACHE;
      key := token + (if doNotCache then SEPARATOR + RandomHint(random) else hint);
      if key !in entries {
        entries := entries[key := FRESH];
      }
      if entries[key].inUse {
        return Busy, key;
      }
      entries := entries[key := entries[key].(inUse := true)];
      entries := entries[key := entries[key].(evictImmediately := doNotCache)];
      if entries[key].connection.None? {
        var user := JwtEndToEnd.GetUserNameFromKey(token, mac, now);
        if user.None? || !login {
          return ConnectFailed, key;
        }
        entries := entries[key := entries[key].(connection := Some(Connection(user.value)))];
      }
      entries := entries[key := entries[key].(accessTime := Seconds(now))];
      outcome := Granted;
    }

    /** The two stores of `~connection_proxy`, which takes no lock. */
    method ReleaseTime(key: Bytes, now: Time)
      requires key in entries
      modifies this
      ensures entries == old(entries)[key := old(entries)[key].(accessTime := Seconds(now))]
    {
      entries := entries[key := entries[key].(accessTime := Seconds(now))];
    }

    method ReleaseFlag(key: Bytes)
      requires key in entries
      modifies this
      ensures entries == old(entries)[key := old(entries)[key].(inUse := false)]
    {
      entries := entries[key := entries[key].(inUse := false)];
    }

    /** One iteration of the loop of `manage_lifetimes`, under the lock. */
    method VisitEntry(cutoff: int, key: Bytes) returns (next: Position)
      requires key in entries
      modifies this
      ensures (entries, next) == Visit(old(entries), cutoff, key)
    {
      if !entries[key].inUse {
        if cutoff > entries[key].accessTime || entries[key].evictImmediately {
          entries := entries - {key};
          return First(entries);
        }
      }
      next := After(entries, key);
    }

    /** A sweep that nothing interrupts. Every erasure starts it over; it ends, and leaves exactly the entries that
        have not expired, unchanged. */
    method Sweep(cutoff: int)
      modifies this
      ensures entries == Unexpired(old(entries), cutoff)
    {
      var at := First(entries);
      NothingBeforeFirst(entries);
      while at.Some?
        invariant at.Some? ==> at.value in entries
        invariant Unexpired(entries, cutoff) == Unexpired(old(entries), cutoff)
        invariant forall k | k in entries && (at.Some? ==> Less(k, at.value)) :: !Expired(entries[k], cutoff)
        decreases |entries|, |Remaining(entries, at)|
      {
        var key := at.value;
        ghost var before := entries;
        at := VisitEntry(cutoff, key);
        VisitProgress(before, cutoff, key);
      }
      AllUnexpired(entries, cutoff);
    }
  }

  /** The keys that the sweep has still to visit. */
  ghost function Remaining(entries: Entries, at: Position): set<Bytes> {
    set k | k in entries && at.Some? && !Less(k, at.value)
  }

  lemma AllUnexpired(entries: Entries, cutoff: int)
    requires forall k | k in entries :: !Expired(entries[k], cutoff)
    ensures Unexpired(entries, cutoff) == entries
  {
  }

  lemma SubsetSize<T>(a: set<T>, b: set<T>)
    requires a < b
    ensures |a| < |b|
  {
    assert b == a + (b - a);
    assert |b| == |a| + |b - a|;
    var x :| x in b - a;
  }

  /** A visit makes the pool smaller or moves on; it keeps the unexpired entries and passes no expired one. */
  lemma VisitProgress(entries: Entries, cutoff: int, key: Bytes)
    requires key in entries
    requires forall k | k in entries && Less(k, key) :: !Expired(entries[k], cutoff)
    ensures var (e, next) := Visit(entries, cutoff, key);
      && Unexpired(e, cutoff) == Unexpired(entries, cutoff)
      && (next.Some? ==> next.value in e)
      && (forall k | k in e && (next.Some? ==> Less(k, next.value)) :: !Expired(e[k], cutoff))
      && (|e| < |entries| || (e == entries && |Remaining(e, next)| < |Remaining(entries, Some(key))|))
  {
    hide Expired;
    var (e, next) := Visit(entries, cutoff, key);
    if Expired(entries[key], cutoff) {
      assert e.Keys == entries.Keys - {key};
      SubsetSize(e.Keys, entries.Keys);
      NothingBeforeFirst(e);
    } else {
      forall k | k in e && (next.Some? ==> Less(k, next.value)) ensures !Expired(e[k], cutoff) {
        LessTotal(k, key);
        if Less(key, k) { LessTotal(k, next.value); }
      }
      forall k | k in Remaining(e, next) ensures k in Remaining(entries, Some(key)) {
        LessTotal(k, key);
        LessTotal(key, next.value);
        if Less(k, key) { LessTransitive(k, key, next.value); }
      }
      LessTotal(key, key);
      if next.Some? { LessTotal(key, next.value); }
      assert key in Remaining(entries, Some(key)) && key !in Remaining(e, next);
      SubsetSize(Remaining(e, next), Remaining(entries, Some(key)));
    }
  }
}
