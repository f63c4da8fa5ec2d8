/**
 The cache of storage configurations: what a load read from the database is kept in Redis for five
 minutes, without the credentials. Time is in nanoseconds.
 */
module ConfigCache {
  import opened Wrappers
  import opened Sealing
  import Store = StorageConfig

  const CONFIG_CACHE_TTL: nat := 300 * 1_000_000_000

  /** The part of a configuration that is not secret. */
  datatype Entry = Entry(backend: Store.BackendType, endpoint: string, bucket: string, region: string,
                         stsSupported: bool)

  function EntryOf(c: Store.Config): Entry { Entry(c.backend, c.endpoint, c.bucket, c.region, c.stsSupported) }

  /** What a hit is turned into: the credentials are not in the cache. */
  function FromEntry(e: Entry): Store.Config {
    Store.Config(e.backend, e.endpoint, e.bucket, e.region, EMPTY, EMPTY, e.stsSupported)
  }

  datatype Cached = Cached(entry: Entry, expiresAt: nat)

  type Cache = map<nat, Cached>

  function Hit(cache: Cache, user: nat, now: nat): Option<Entry> {
    if user in cache && now < cache[user].expiresAt then Some(cache[user].entry) else None
  }

  /** What an uninterrupted load answers, and the cache that it leaves; `readFails` says whether the database
      fails, `fails` whether Redis refuses the entry. */
  function Loaded(rows: Store.Rows, cache: Cache, cacheEnabled: bool, user: nat, masterKeys: Store.MasterKeys,
                  now: nat, readFails: bool, fails: bool): (Result<Store.Config>, Cache)
  {
    var hit := if cacheEnabled then Hit(cache, user, now) else None;
    var loaded := if readFails then Failure else Store.Load(rows, user, masterKeys);
    if hit.Some? then (Success(FromEntry(hit.value)), cache)
    else if loaded.Failure? || !cacheEnabled then (loaded, cache)
    else if fails then (Failure, cache)
    else (loaded, cache[user := Cached(EntryOf(loaded.value), now + CONFIG_CACHE_TTL)])
  }

  // ----- Choosing a backend -------------------------------------------------------------------

  datatype Backend = InternalStore | ExternalStore(config: Store.Config)

  predicate SchemeEndsAt(endpoint: string, i: nat) { i + 3 <= |endpoint| && endpoint[i..i + 3] == "://" }

  /** What the endpoint of an external store, blanks aside, must be for the check to let it pass, which parses
      it as a URL: https, in whatever case, and a host. Its other conditions, and the network, are `works`. */
  predicate IsHttpsUrl(endpoint: string) {
    |endpoint| > 8 && endpoint[0] in "hH" && endpoint[1] in "tT" && endpoint[2] in "tT" && endpoint[3] in "pP"
    && endpoint[4] in "sS" && SchemeEndsAt(endpoint, 5)
  }

  /** What it must be for the client to be made: a host without a scheme. */
  predicate IsBareHost(endpoint: string) {
    endpoint != "" && forall i: nat | i < |endpoint| :: !SchemeEndsAt(endpoint, i) && endpoint[i] !in "/?#"
  }

  predicate Dials(config: Store.Config, works: Store.Config -> bool) {
    IsHttpsUrl(config.endpoint) && IsBareHost(config.endpoint) && works(config)
  }

  function ExternalClient(config: Store.Config, dials: bool): (r: Result<Backend>)
    ensures r.Success? <==> dials
  {
    if dials then Success(ExternalStore(config)) else Failure
  }

  /** The backend of the configured type. */
  function Resolved(answer: Result<Store.Config>, works: Store.Config -> bool): Result<Backend> {
    if answer.Failure? then Failure
    else if answer.value.backend == Store.External then ExternalClient(answer.value, Dials(answer.value, works))
    else Success(InternalStore)
  }

  /** The external backend, whatever the configured type, if its credentials are there. */
  function ResolvedExternal(answer: Result<Store.Config>, works: Store.Config -> bool): Result<Backend> {
    if answer.Failure? then Failure
    else if answer.value.backend != Store.External && (answer.value.access == EMPTY || answer.value.secret == EMPTY)
    then Failure
    else ExternalClient(answer.value, Dials(answer.value, works))
  }

  class StorageFactory {
    var cache: Cache
    const cacheEnabled: bool

    constructor (cacheEnabled: bool)
      ensures cache == map[] && this.cacheEnabled == cacheEnabled
    {
      cache := map[];
      this.cacheEnabled := cacheEnabled;
    }

    method LoadCachedConfig(user: nat, now: nat) returns (entry: Option<Entry>)
      ensures entry == if cacheEnabled then Hit(cache, user, now) else None
    {
      if !cacheEnabled || user !in cache || cache[user].expiresAt <= now { return None; }
      entry := Some(cache[user].entry);
    }

    method CachedBackendConfig(user: nat, config: Store.Config, now: nat, fails: bool) returns (r: Result<()>)
      modifies this
      ensures r.Success? <==> cacheEnabled && !fails
      ensures cache == if r.Success? then old(cache)[user := Cached(EntryOf(config), now + CONFIG_CACHE_TTL)]
                       else old(cache)
    {
      if !cacheEnabled || fails { return Failure; }
      var entry := Entry(config.backend, config.endpoint, config.bucket, config.region, config.stsSupported);
      cache := cache[user := Cached(entry, now + CONFIG_CACHE_TTL)];
      r := Success(());
    }

    /** A load that nothing interrupts. On a hit the configuration comes without credentials, and without
        regard to whether the master key is unlocked. */
    method LoadConfig(configs: Store.Repository, user: nat, masterKeys: Store.MasterKeys, now: nat,
                      readFails: bool, fails: bool)
      returns (r: Result<Store.Config>)
      modifies this
      ensures (r, cache) == Loaded(configs.rows, old(cache), cacheEnabled, user, masterKeys, now, readFails, fails)
    {
      var cached := LoadCachedConfig(user, now);
      if cached.Some? {
        return Success(FromEntry(cached.value));
      }
      r := configs.StorageConfig(user, masterKeys, readFails);
      if r.Failure? { return; }
      if cacheEnabled {
        var stored := CachedBackendConfig(user, r.value, now, fails);
        if stored.Failure? { return Failure; }
      }
    }

    method Resolve(configs: Store.Repository, user: nat, masterKeys: Store.MasterKeys, now: nat,
                   readFails: bool, fails: bool, works: Store.Config -> bool)
      returns (r: Result<Backend>)
      modifies this
      ensures var (answer, after) :=
          Loaded(configs.rows, old(cache), cacheEnabled, user, masterKeys, now, readFails, fails);
        r == Resolved(answer, works) && cache == after
    {
      var cfg := LoadConfig(configs, user, masterKeys, now, readFails, fails);
      if cfg.Failure? { return Failure; }
      if cfg.value.backend == Store.External {
        return ExternalClient(cfg.value, Dials(cfg.value, works));
      }
      r := Success(InternalStore);
    }

    method ResolveByType(configs: Store.Repository, user: nat, backend: Store.BackendType,
                         masterKeys: Store.MasterKeys, now: nat, readFails: bool, fails: bool,
                         works: Store.Config -> bool)
      returns (r: Result<Backend>)
      modifies this
      ensures var (answer, after) :=
          Loaded(configs.rows, old(cache), cacheEnabled, user, masterKeys, now, readFails, fails);
        if backend == Store.Internal then r == Success(InternalStore) && cache == old(cache)
        else r == ResolvedExternal(answer, works) && cache == after
    {
      if backend == Store.Internal { return Success(InternalStore); }
      var cfg := LoadConfig(configs, user, masterKeys, now, readFails, fails);
      if cfg.Failure? { return Failure; }
      if cfg.value.backend != Store.External && (cfg.value.access == EMPTY || cfg.value.secret == EMPTY) {
        return Failure;
      }
      r := ExternalClient(cfg.value, Dials(cfg.value, works));
    }

    /** The closure that finds source and target of a migration, when no call of it fails by itself. */
    method ResolvePair(configs: Store.Repository, user: nat, masterKeys: Store.MasterKeys, now: nat,
                       works: Store.Config -> bool)
      returns (r: Result<(Backend, Backend)>)
      modifies this
      ensures r.Success? <==> PairResolves(configs.rows, old(cache), cacheEnabled, user, masterKeys, now, works)
      ensures r.Success? ==> r.value == (InternalStore, InternalStore)
    {
      var cfg := configs.StorageConfig(user, masterKeys, false);
      if cfg.Failure? { return Failure; }
      var targetType := if cfg.value.backend == Store.Internal then Store.External else Store.Internal;
      var source := Resolve(configs, user, masterKeys, now, false, false, works);
      if source.Failure? { return Failure; }
      var target := ResolveByType(configs, user, targetType, masterKeys, now, false, false, works);
      if target.Failure? { return Failure; }
      forall config ensures !Dials(config, works) {
        NothingDials(config, works);
      }
      r := Success((source.value, target.value));
    }
  }

  /** When source and target of a migration are found. A hit comes without credentials, and Resolve fills the
      cache before ResolveByType looks into it: with a cache, a user whose stored type is internal finds a
      target only by a stale hit of the other type. */
  predicate PairResolves(rows: Store.Rows, cache: Cache, cacheEnabled: bool, user: nat,
                         masterKeys: Store.MasterKeys, now: nat, works: Store.Config -> bool)
  {
    var hit := if cacheEnabled then Hit(cache, user, now) else None;
    var loaded := Store.Load(rows, user, masterKeys);
    loaded.Success? &&
    if hit.Some? then
      if hit.value.backend == Store.External then Dials(FromEntry(hit.value), works)
      else loaded.value.backend == Store.External
    else
      && Dials(loaded.value, works)
      && (loaded.value.backend == Store.Internal ==>
            !cacheEnabled && loaded.value.access != EMPTY && loaded.value.secret != EMPTY)
  }

  /** No endpoint passes both the check and the client. */
  lemma NothingDials(config: Store.Config, works: Store.Config -> bool)
    ensures !Dials(config, works)
  {
    if IsHttpsUrl(config.endpoint) {
      assert SchemeEndsAt(config.endpoint, 5);
    }
  }

  /** So source and target are found exactly when a stale hit says internal of a user whose configuration has
      become external; and then both are the internal store. */
  lemma PairResolvesIffStale(rows: Store.Rows, cache: Cache, cacheEnabled: bool, user: nat,
                             masterKeys: Store.MasterKeys, now: nat, works: Store.Config -> bool)
    ensures PairResolves(rows, cache, cacheEnabled, user, masterKeys, now, works)
            <==> && cacheEnabled && Hit(cache, user, now).Some?
                 && Hit(cache, user, now).value.backend == Store.Internal
                 && Store.Load(rows, user, masterKeys).Success?
                 && Store.StoredConfig(rows, user).backend == Store.External
  {
    var hit := if cacheEnabled then Hit(cache, user, now) else None;
    if hit.Some? {
      NothingDials(FromEntry(hit.value), works);
    }
    if Store.Load(rows, user, masterKeys).Success? {
      NothingDials(Store.Load(rows, user, masterKeys).value, works);
    }
  }

  // ----- The protocol -------------------------------------------------------------------------

  /** A load that missed: what it read from the database, and when. */
  datatype Pending = Pending(user: nat, entry: Entry, readAt: nat)

  datatype State = State(now: nat, db: map<nat, Entry>, cache: Cache, pending: map<nat, Pending>)

  const INITIAL_STATE := State(0, map[], map[], map[])

  function InDb(s: State, user: nat): Entry {
    if user in s.db then s.db[user] else EntryOf(Store.DEFAULT_CONFIG)
  }

  /** A load is two steps, between which others may act: Begin looks into the cache and on a miss reads
      the database, Finish writes the cache and answers. Redis may forget an entry at any time. */
  datatype Op =
    | Tick(elapsed: nat)
    | Save(user: nat, entry: Entry)
    | Begin(request: nat, user: nat)
    | Finish(request: nat)
    | Forget(user: nat)

  function Next(s: State, op: Op): State {
    match op
    case Tick(elapsed) => s.(now := s.now + elapsed)
    case Save(user, entry) => s.(db := s.db[user := entry])
    case Begin(request, user) =>
      if Hit(s.cache, user, s.now).Some? then s
      else s.(pending := s.pending[request := Pending(user, InDb(s, user), s.now)])
    case Finish(request) =>
      if request !in s.pending then s
      else
        var p := s.pending[request];
        s.(cache := s.cache[p.user := Cached(p.entry, s.now + CONFIG_CACHE_TTL)], pending := s.pending - {request})
    case Forget(user) => s.(cache := s.cache - {user})
  }

  /** The configuration that an operation answers to a load of `user`, if it answers one. */
  function Answer(s: State, op: Op, user: nat): Option<Entry> {
    match op
    case Begin(_, u) => if u == user then Hit(s.cache, user, s.now) else None
    case Finish(request) =>
      if request in s.pending && s.pending[request].user == user then Some(s.pending[request].entry) else None
    case _ => None
  }

  function After(ops: seq<Op>): State {
    if ops == [] then INITIAL_STATE else Next(After(ops[..|ops| - 1]), ops[|ops| - 1])
  }

  // ----- The methods are steps of the protocol ------------------------------------------------

  /** The protocol's database holds what is not secret of the stored rows. */
  ghost predicate Represents(s: State, rows: Store.Rows) {
    forall user: nat :: InDb(s, user) == EntryOf(Store.StoredConfig(rows, user))
  }

  /** A load that nothing interrupts is Begin and then Finish; on a hit, and when the credentials do not open or
      Redis refuses the entry, it is Begin alone, and then it answers a hit or an error. */
  lemma LoadIsBeginFinish(s: State, rows: Store.Rows, request: nat, user: nat, masterKeys: Store.MasterKeys,
                          readFails: bool, fails: bool)
    requires Represents(s, rows)
    ensures var begun := Next(s, Begin(request, user));
      var (answer, cache) := Loaded(rows, s.cache, true, user, masterKeys, s.now, readFails, fails);
      if Hit(s.cache, user, s.now).Some? then
        && answer.Success? && cache == begun.cache
        && Answer(s, Begin(request, user), user) == Some(EntryOf(answer.value))
      else if answer.Failure? then cache == begun.cache
      else
        && cache == Next(begun, Finish(request)).cache
        && Answer(begun, Finish(request), user) == Some(EntryOf(answer.value))
  {
    assert InDb(s, user) == EntryOf(Store.StoredConfig(rows, user));
  }

  /** A save of the repository is Save, of what is not secret of the row that it writes. */
  lemma SaveIsSave(s: State, rows: Store.Rows, user: nat, config: Store.Config, masterKeys: Store.MasterKeys,
                   nonces: (nat, nat))
    requires Represents(s, rows)
    ensures var saved := Store.Saved(user, config, masterKeys, nonces);
      && Represents(Next(s, Save(user, EntryOf(saved))), rows[user := saved])
      && EntryOf(saved) == EntryOf(config).(region := if config.backend == Store.Internal then "" else config.region)
  {
    var saved := Store.Saved(user, config, masterKeys, nonces);
    var s' := Next(s, Save(user, EntryOf(saved)));
    forall u: nat
      ensures InDb(s', u) == EntryOf(Store.StoredConfig(rows[user := saved], u))
    {
      assert InDb(s, u) == EntryOf(Store.StoredConfig(rows, u));
    }
  }

  /** On a miss, or without a cache, a load fails if and only if the database does, or the stored configuration
      does not load, or the cache is on and refuses the entry. Otherwise it answers the stored configuration with
      its credentials as their owner reads them, and with the cache on every load in the next five minutes,
      and none after that, is a hit on it that lacks the credentials. */
  lemma MissLoadsStored(rows: Store.Rows, cache: Cache, cacheEnabled: bool, user: nat, masterKeys: Store.MasterKeys,
                        now: nat, readFails: bool, fails: bool, later: nat)
    requires cacheEnabled ==> user !in cache || cache[user].expiresAt <= now
    requires now <= later
    ensures var (answer, after) := Loaded(rows, cache, cacheEnabled, user, masterKeys, now, readFails, fails);
      var stored := Store.Load(rows, user, masterKeys);
      && (answer.Failure? <==> readFails || stored.Failure? || (cacheEnabled && fails))
      && (answer.Success? ==> answer == stored)
      && (answer.Success? && cacheEnabled && later < now + 300_000_000_000 ==>
            Loaded(rows, after, true, user, masterKeys, later, true, true)
            == (Success(stored.value.(access := Raw(""), secret := Raw(""))), after))
      && (answer.Failure? || !cacheEnabled ==> after == cache)
      && (answer.Success? && cacheEnabled && now + 300_000_000_000 <= later ==> Hit(after, user, later).None?)
      && forall u | u != user :: Hit(after, u, later) == Hit(cache, u, later)
  {
  }

  /** Whatever the cache holds, a load resolves to the internal store exactly if it answers a configuration of
      that type, and a stored configuration does so on every first load. */
  lemma ResolvesIff(answer: Result<Store.Config>, works: Store.Config -> bool)
    ensures Resolved(answer, works)
            == if answer.Success? && answer.value.backend == Store.Internal then Success(InternalStore) else Failure
    ensures ResolvedExternal(answer, works).Failure?
  {
    if answer.Success? {
      NothingDials(answer.value, works);
    }
  }

  /** Between reading the database and writing the cache a load takes at most `delay`. */
  ghost predicate Prompt(ops: seq<Op>, delay: nat) {
    forall j | 0 <= j < |ops| && ops[j].Finish? && ops[j].request in After(ops[..j]).pending ::
      After(ops[..j]).now <= After(ops[..j]).pending[ops[j].request].readAt + delay
  }

  lemma StepAt(ops: seq<Op>, i: nat)
    requires i < |ops|
    ensures After(ops[..i + 1]) == Next(After(ops[..i]), ops[i])
  {
    assert ops[..i + 1][..i] == ops[..i];
  }

  /** The step at which a pending load read its entry. */
  lemma {:induction false} PendingSource(ops: seq<Op>, j: nat, request: nat) returns (k: nat)
    requires j <= |ops| && request in After(ops[..j]).pending
    ensures var p := After(ops[..j]).pending[request];
      k <= j && InDb(After(ops[..k]), p.user) == p.entry && After(ops[..k]).now == p.readAt
  {
    StepAt(ops, j - 1);
    var before := After(ops[..j - 1]);
    if ops[j - 1].Begin? && ops[j - 1].request == request && Hit(before.cache, ops[j - 1].user, before.now).None? {
      k := j - 1;
    } else {
      k := PendingSource(ops, j - 1, request);
    }
  }

  /** The step at which a cached entry was read; the entry expires a time to live after it, and the
      delay of its load. */
  lemma {:induction false} CacheSource(ops: seq<Op>, delay: nat, j: nat, user: nat) returns (k: nat)
    requires j <= |ops| && Prompt(ops, delay) && user in After(ops[..j]).cache
    ensures var c := After(ops[..j]).cache[user];
      k <= j && InDb(After(ops[..k]), user) == c.entry
      && c.expiresAt <= After(ops[..k]).now + delay + CONFIG_CACHE_TTL
  {
    StepAt(ops, j - 1);
    var before, op := After(ops[..j - 1]), ops[j - 1];
    if op.Finish? && op.request in before.pending && before.pending[op.request].user == user {
      k := PendingSource(ops, j - 1, op.request);
    } else {
      k := CacheSource(ops, delay, j - 1, user);
    }
  }

  /** Every answered configuration was in the database at some instant within the last five minutes and
      the longest delay of a load. */
  lemma BoundedStaleness(ops: seq<Op>, delay: nat, j: nat, user: nat) returns (k: nat)
    requires j < |ops| && Prompt(ops, delay) && Answer(After(ops[..j]), ops[j], user).Some?
    ensures k <= j && InDb(After(ops[..k]), user) == Answer(After(ops[..j]), ops[j], user).value
    ensures After(ops[..j]).now < After(ops[..k]).now + delay + CONFIG_CACHE_TTL
  {
    if ops[j].Begin? {
      k := CacheSource(ops, delay, j, user);
    } else {
      k := PendingSource(ops, j, ops[j].request);
    }
  }

  lemma {:induction false} ClockGrows(ops: seq<Op>, i: nat, j: nat)
    requires i <= j <= |ops|
    ensures After(ops[..i]).now <= After(ops[..j]).now
  {
    if i < j {
      ClockGrows(ops, i, j - 1);
      StepAt(ops, j - 1);
    }
  }

  lemma {:induction false} DbStays(ops: seq<Op>, i: nat, j: nat, user: nat)
    requires i <= j <= |ops|
    requires forall n | i <= n < j :: !(ops[n].Save? && ops[n].user == user)
    ensures InDb(After(ops[..i]), user) == InDb(After(ops[..j]), user)
  {
    if i < j {
      DbStays(ops, i, j - 1, user);
      StepAt(ops, j - 1);
    }
  }

  /** Hence the answer is the current configuration if nothing was saved for the user in that time. */
  lemma CurrentUnlessSaved(ops: seq<Op>, delay: nat, j: nat, user: nat)
    requires j < |ops| && Prompt(ops, delay) && Answer(After(ops[..j]), ops[j], user).Some?
    requires forall n | 0 <= n < j && ops[n].Save? && ops[n].user == user ::
      After(ops[..n]).now + delay + CONFIG_CACHE_TTL <= After(ops[..j]).now
    ensures Answer(After(ops[..j]), ops[j], user) == Some(InDb(After(ops[..j]), user))
  {
    var k := BoundedStaleness(ops, delay, j, user);
    forall n | k <= n < j
      ensures !(ops[n].Save? && ops[n].user == user)
    {
      ClockGrows(ops, k, n);
    }
    DbStays(ops, k, j, user);
  }

  /** A load reads, another configuration is saved, the load takes its time and caches what it read. */
  function StaleRun(user: nat, entry: Entry, delay: nat): seq<Op> {
    [Begin(0, user), Save(user, entry), Tick(delay), Finish(0), Tick(CONFIG_CACHE_TTL - 1), Begin(1, user)]
  }

  lemma StaleRunStates(user: nat, entry: Entry, delay: nat)
    ensures var ops, old' := StaleRun(user, entry, delay), EntryOf(Store.DEFAULT_CONFIG);
      && After(ops[..0]) == INITIAL_STATE
      && After(ops[..1]) == State(0, map[], map[], map[0 := Pending(user, old', 0)])
      && After(ops[..2]) == After(ops[..1]).(db := map[user := entry])
      && After(ops[..3]) == After(ops[..2]).(now := delay)
      && After(ops[..4]) == State(delay, map[user := entry], map[user := Cached(old', delay + CONFIG_CACHE_TTL)], map[])
      && After(ops[..5]) == After(ops[..4]).(now := delay + CONFIG_CACHE_TTL - 1)
  {
    var ops := StaleRun(user, entry, delay);
    assert ops[..0] == [];
    StepAt(ops, 0);
    StepAt(ops, 1);
    StepAt(ops, 2);
    StepAt(ops, 3);
    StepAt(ops, 4);
  }

  /** The bound is sharp: for every delay there is a run in which an answer was replaced in the database
      longer ago than any smaller bound allows. */
  lemma StalenessIsSharp(user: nat, entry: Entry, delay: nat)
    requires entry != EntryOf(Store.DEFAULT_CONFIG)
    ensures var ops := StaleRun(user, entry, delay);
      && Prompt(ops, delay)
      && After(ops[..5]).now == After(ops[..1]).now + delay + CONFIG_CACHE_TTL - 1
      && Answer(After(ops[..5]), ops[5], user) == Some(EntryOf(Store.DEFAULT_CONFIG))
      && forall k | 2 <= k <= 5 :: InDb(After(ops[..k]), user) == entry
  {
    StaleRunStates(user, entry, delay);
  }
}
