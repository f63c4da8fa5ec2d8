/**
 The life of a user's master key. It is generated once, wrapped in the database under a password, kept
 open in memory, and mirrored in Redis under the application's key so that it survives a restart.

 A wrap opens under the password and salt it was made with and no other; a Redis entry opens under the
 application key that sealed it. Keys are 32 bytes; the empty text stands for a lost one.
 */
module MasterKeys {
  import opened Wrappers
  import opened Rows

  const KEY_LENGTH: nat := 32
  const REDIS_TTL: nat := 24 * 3600

  type Key = string

  datatype Wrap = Wrap(password: string, salt: nat, key: Key)

  /** A row of user_auth: the password whose hash is stored, and the wrapped master key. */
  datatype Row = Row(password: string, wrap: Option<Wrap>)

  datatype Kept = Kept(appKey: Key, key: Key, expiresAt: nat)

  /** A creation that has passed its checks: the user, and the password that was checked. */
  datatype Creation = Creation(user: nat, password: string)

  datatype State = State(now: nat, rows: map<nat, Row>, cache: map<nat, Key>, redis: map<nat, Kept>, appKey: Key,
                         creating: map<nat, Creation>)

  predicate Live(s: State, user: nat) { user in s.redis && s.now < s.redis[user].expiresAt }

  /** The key in the database. */
  function KeyOf(s: State, user: nat): Option<Key> {
    if user in s.rows && s.rows[user].wrap.Some? then Some(s.rows[user].wrap.value.key) else None
  }

  // ----- The operations -----------------------------------------------------------------------

  /**
   A creation is two steps, between which others may act: its checks, and the generation and saving of the
   key. `transported` is None where the transported password does not decrypt; `saveOk` and `redisOk` tell
   whether the write to the database or to Redis succeeds. FinishCreate generates `raw`; Rewrap is given the
   user's copy of the key, empty if it is lost.
   */
  datatype Op =
    | BeginCreate(request: nat, user: nat, transported: Option<string>)
    | FinishCreate(request: nat, raw: Key, salt: nat, redisOk: bool, saveOk: bool)
    | Rewrap(user: nat, transported: Option<string>, raw: Key, salt: nat, saveOk: bool)
    | LogIn(user: nat, password: string, redisOk: bool)
    | SetPassword(user: nat, password: string)
    | RefreshTtl(user: nat)
    | Tick(seconds: nat)
    | Restart(appKey: Key)

  /** The key is put into memory and, if that works, into Redis. */
  function Unlock(s: State, user: nat, key: Key, redisOk: bool): State {
    s.(cache := s.cache[user := key],
       redis := if redisOk then s.redis[user := Kept(s.appKey, key, s.now + REDIS_TTL)] else s.redis)
  }

  function SaveWrap(s: State, user: nat, wrap: Option<Wrap>): State {
    if user in s.rows then s.(rows := s.rows[user := s.rows[user].(wrap := wrap)]) else s
  }

  /** A creation passes its checks: no key yet, and the right password. */
  predicate PassesChecks(s: State, user: nat, transported: Option<string>) {
    user in s.rows && s.rows[user].wrap.None? && transported == Some(s.rows[user].password)
  }

  /** A rewrap or reset passes its checks and writes the row. */
  predicate Rewraps(s: State, op: Op) {
    op.Rewrap? && op.saveOk && op.user in s.rows
    && (op.raw == "" || (op.transported.Some? && |op.raw| == KEY_LENGTH))
  }

  function Next(s: State, op: Op): State {
    match op
    case BeginCreate(request, user, transported) =>
      if request in s.creating || !PassesChecks(s, user, transported) then s
      else s.(creating := s.creating[request := Creation(user, transported.value)])
    case FinishCreate(request, raw, salt, redisOk, saveOk) =>
      if request !in s.creating then s
      else
        var c := s.creating[request];
        var unlocked := Unlock(s.(creating := s.creating - {request}), c.user, raw, redisOk);
        if saveOk then SaveWrap(unlocked, c.user, Some(Wrap(c.password, salt, raw))) else unlocked
    case Rewrap(user, transported, raw, salt, _) =>
      if !Rewraps(s, op) then s
      else SaveWrap(s, user, if raw == "" then None else Some(Wrap(transported.value, salt, raw)))
    case LogIn(user, password, redisOk) =>
      if KeyOf(s, user).Some? && s.rows[user].wrap.value.password == password
      then Unlock(s, user, KeyOf(s, user).value, redisOk) else s
    case SetPassword(user, password) =>
      if user in s.rows then s.(rows := s.rows[user := s.rows[user].(password := password)]) else s
    case RefreshTtl(user) =>
      if Live(s, user) then s.(redis := s.redis[user := s.redis[user].(expiresAt := s.now + REDIS_TTL)]) else s
    case Tick(seconds) => s.(now := s.now + seconds)
    case Restart(appKey) =>
      s.(appKey := appKey, creating := map[],
         cache := map u | u in s.redis && Live(s, u) && s.redis[u].appKey == appKey :: s.redis[u].key)
  }

  class Service {
    var now: nat
    var rows: map<nat, Row>
    var cache: map<nat, Key>
    var redis: map<nat, Kept>
    var appKey: Key
    ghost var creating: map<nat, Creation>

    ghost function Abs(): State
      reads this
    {
      State(now, rows, cache, redis, appKey, creating)
    }

    method SaveMasterKeyToRedis(user: nat, key: Key, redisOk: bool)
      modifies this`redis
      ensures redis == if redisOk then old(redis)[user := Kept(appKey, key, now + REDIS_TTL)] else old(redis)
    {
      if redisOk {
        redis := redis[user := Kept(appKey, key, now + REDIS_TTL)];
      }
    }

    method GenerateAndWrapMasterKey(user: nat, password: string, raw: Key, salt: nat, redisOk: bool)
      returns (wrap: Wrap)
      modifies this`cache, this`redis
      ensures wrap == Wrap(password, salt, raw) && Abs() == Unlock(old(Abs()), user, raw, redisOk)
    {
      wrap := Wrap(password, salt, raw);
      cache := cache[user := raw];
      SaveMasterKeyToRedis(user, raw, redisOk);
    }

    method WrapMasterKey(raw: Key, password: string, salt: nat) returns (r: Result<Wrap>)
      ensures r == if |raw| == KEY_LENGTH then Success(Wrap(password, salt, raw)) else Failure
    {
      if |raw| != KEY_LENGTH { return Failure; }
      r := Success(Wrap(password, salt, raw));
    }

    method LoadMasterKey(user: nat, password: string, wrap: Wrap, redisOk: bool) returns (r: Result<()>)
      modifies this`cache, this`redis
      ensures r.Success? <==> wrap.password == password
      ensures Abs() == if r.Success? then Unlock(old(Abs()), user, wrap.key, redisOk) else old(Abs())
    {
      if wrap.password != password { return Failure; }
      cache := cache[user := wrap.key];
      SaveMasterKeyToRedis(user, wrap.key, redisOk);
      r := Success(());
    }

    /** The checks of a creation; on success the password. */
    method CheckCreation(ghost request: nat, user: nat, transported: Option<string>) returns (r: Result<string>)
      requires request !in creating
      modifies this`creating
      ensures Abs() == Next(old(Abs()), BeginCreate(request, user, transported))
      ensures r.Success? <==> PassesChecks(old(Abs()), user, transported)
      ensures r.Success? ==> r.value == transported.value
    {
      if user in rows && rows[user].wrap.Some? { return Failure; }
      if user !in rows { return Failure; }
      if transported.None? { return Failure; }
      var password := transported.value;
      if rows[user].password != password { return Failure; }
      creating := creating[request := Creation(user, password)];
      r := Success(password);
    }

    /** The rest of a creation. `passesOk` tells whether the passes over the user's data, which come last, end
        without an error; if not, the caller gets no key although it is saved. */
    method FinishCreation(ghost request: nat, user: nat, password: string, raw: Key, salt: nat,
                          redisOk: bool, saveOk: bool, passesOk: bool)
      returns (r: Result<Key>)
      requires request in creating && creating[request] == Creation(user, password)
      modifies this`rows, this`cache, this`redis, this`creating
      ensures Abs() == Next(old(Abs()), FinishCreate(request, raw, salt, redisOk, saveOk))
      ensures r == if saveOk && passesOk then Success(raw) else Failure
    {
      creating := creating - {request};
      var wrap := GenerateAndWrapMasterKey(user, password, raw, salt, redisOk);
      var loaded := LoadMasterKey(user, password, wrap, redisOk);
      if loaded.Failure? { return Failure; }
      if !saveOk { return Failure; }
      if user in rows { rows := rows[user := rows[user].(wrap := Some(wrap))]; }
      if !passesOk { return Failure; }
      r := Success(raw);
    }

    /** A creation that nothing interrupts. */
    method CreateMasterKey(ghost request: nat, user: nat, transported: Option<string>, raw: Key, salt: nat,
                           redisOk: bool, saveOk: bool, passesOk: bool)
      returns (r: Result<Key>)
      requires request !in creating
      modifies this`rows, this`cache, this`redis, this`creating
      ensures Abs() == Next(Next(old(Abs()), BeginCreate(request, user, transported)),
                            FinishCreate(request, raw, salt, redisOk, saveOk))
      ensures r == if PassesChecks(old(Abs()), user, transported) && saveOk && passesOk then Success(raw) else Failure
    {
      var password := CheckCreation(request, user, transported);
      if password.Failure? { return Failure; }
      r := FinishCreation(request, user, password.value, raw, salt, redisOk, saveOk, passesOk);
    }

    method RewrapOrReset(user: nat, transported: Option<string>, raw: Key, salt: nat, saveOk: bool, deleteOk: bool)
      returns (r: Result<()>)
      modifies this`rows
      ensures Abs() == Next(old(Abs()), Rewrap(user, transported, raw, salt, saveOk))
      ensures r.Success? <==> saveOk && if raw == "" then deleteOk else transported.Some? && |raw| == 32
    {
      if raw == "" {
        if !saveOk { return Failure; }
        if user in rows { rows := rows[user := rows[user].(wrap := None)]; }
        if !deleteOk { return Failure; }
        return Success(());
      }
      if transported.None? { return Failure; }
      var wrap := WrapMasterKey(raw, transported.value, salt);
      if wrap.Failure? { return Failure; }
      if !saveOk { return Failure; }
      if user in rows { rows := rows[user := rows[user].(wrap := Some(wrap.value))]; }
      r := Success(());
    }

    /** At the start of the program memory is empty. */
    method LoadAllMasterKeysFromRedis()
      requires cache == map[] && creating == map[]
      modifies this`cache
      ensures Abs() == Next(old(Abs()), Restart(appKey))
    {
      var keys := Select(redis);
      for i := 0 to |keys|
        invariant forall u :: u in cache <==>
          u in redis && now < redis[u].expiresAt && redis[u].appKey == appKey && exists j | 0 <= j < i :: keys[j].0 == u
        invariant forall u | u in cache :: cache[u] == redis[u].key
      {
        var (user, entry) := keys[i];
        if now < entry.expiresAt && entry.appKey == appKey {
          cache := cache[user := entry.key];
        }
      }
      forall u | u in redis
        ensures exists j | 0 <= j < |keys| :: keys[j].0 == u
      {
        assert (u, redis[u]) in keys;
      }
    }
  }

  // ----- What single steps achieve ------------------------------------------------------------

  /** An uninterrupted creation makes a key if and only if the user exists, has none, and gave the account's
      own password; the key is wrapped under that password. Otherwise it changes nothing. */
  lemma CreatesIff(s: State, request: nat, user: nat, transported: Option<string>, raw: Key, salt: nat, redisOk: bool)
    requires request !in s.creating
    ensures var s' := Next(Next(s, BeginCreate(request, user, transported)),
                           FinishCreate(request, raw, salt, redisOk, true));
      if user in s.rows && KeyOf(s, user).None? && transported == Some(s.rows[user].password)
      then s'.rows == s.rows[user := Row(s.rows[user].password, Some(Wrap(s.rows[user].password, salt, raw)))]
           && user in s'.cache && s'.cache[user] == raw
      else s' == s
  {
  }

  /** A rewrap that succeeds makes the given key the user's, under the given password and no other; an empty key
      takes the user's away. Without a password, with a key of another length, or without the save, nothing
      happens. */
  lemma RewrapsIff(s: State, user: nat, transported: Option<string>, raw: Key, salt: nat, saveOk: bool)
    requires user in s.rows
    ensures var s' := Next(s, Rewrap(user, transported, raw, salt, saveOk));
      && s'.cache == s.cache && s'.redis == s.redis && s'.rows.Keys == s.rows.Keys
      && (forall u | u in s.rows && u != user :: s'.rows[u] == s.rows[u])
      && s'.rows[user].password == s.rows[user].password
      && s'.rows[user].wrap == if !saveOk then s.rows[user].wrap
                               else if raw == "" then None
                               else if transported.Some? && |raw| == 32 then Some(Wrap(transported.value, salt, raw))
                               else s.rows[user].wrap
  {
  }

  /** A login puts the user's key into memory if and only if its password is the one of the wrap; with another
      one, or without a key, nothing happens. */
  lemma LogInIff(s: State, user: nat, password: string, redisOk: bool)
    ensures var s' := Next(s, LogIn(user, password, redisOk));
      && s'.rows == s.rows
      && if user in s.rows && s.rows[user].wrap.Some? && s.rows[user].wrap.value.password == password
         then s'.cache == s.cache[user := s.rows[user].wrap.value.key] else s' == s
  {
  }

  /** A key that is unlocked and mirrored is live in Redis for 24 hours, and, with the time to live refreshed
      while it is live, for 24 hours from then; a restart with the same application key brings it back to memory
      exactly while it is live. */
  lemma SurvivesRestart(s: State, user: nat, key: Key, idle: nat, more: nat)
    ensures var waiting := Next(Unlock(s, user, key, true), Tick(idle));
      var refreshed := Next(Next(waiting, RefreshTtl(user)), Tick(more));
      && (Live(waiting, user) <==> idle < 86_400)
      && (Live(refreshed, user) <==> idle < 86_400 && more < 86_400)
      && (user in Next(refreshed, Restart(s.appKey)).cache <==> Live(refreshed, user))
      && (Live(refreshed, user) ==> Next(refreshed, Restart(s.appKey)).cache[user] == key)
      && (forall other | other != s.appKey :: user !in Next(refreshed, Restart(other)).cache)
  {
  }

  // ----- Which password opens a key -----------------------------------------------------------

  /** A creation under way was begun with the password that the user's row held, when there was no key. */
  lemma {:induction false} BegunWith(s: State, ops: seq<Op>, request: nat) returns (i: nat)
    requires s.creating == map[] && request in After(s, ops).creating
    ensures var c := After(s, ops).creating[request];
      && i < |ops| && ops[i] == BeginCreate(request, c.user, Some(c.password))
      && var then' := After(s, ops[..i]);
        c.user in then'.rows && then'.rows[c.user].password == c.password && then'.rows[c.user].wrap.None?
  {
    var front, op := ops[..|ops| - 1], ops[|ops| - 1];
    if op.BeginCreate? && op.request == request && request !in After(s, front).creating {
      i := |ops| - 1;
    } else {
      i := BegunWith(s, front, request);
      assert front[..i] == ops[..i];
    }
  }

  /** So in every run a creation saves a wrap only under the password that the row held when it was begun. */
  lemma WrapsCheckedPassword(s: State, ops: seq<Op>, request: nat, raw: Key, salt: nat, redisOk: bool) returns (i: nat)
    requires s.creating == map[] && request in After(s, ops).creating
    ensures i < |ops| && ops[i].BeginCreate?
    ensures var user, then' := ops[i].user, After(s, ops[..i]);
      var s' := Next(After(s, ops), FinishCreate(request, raw, salt, redisOk, true));
      && user in then'.rows && ops[i].transported == Some(then'.rows[user].password)
      && (user in After(s, ops).rows ==> s'.rows[user].wrap == Some(Wrap(then'.rows[user].password, salt, raw)))
  {
    i := BegunWith(s, ops, request);
  }

  /** The account's password and the password of the wrap are the same. */
  predicate Agrees(s: State, user: nat, key: Key) {
    user in s.rows && s.rows[user].wrap.Some? && s.rows[user].wrap.value.password == s.rows[user].password
    && s.rows[user].wrap.value.key == key
  }

  /** The step is no change of the user's password, no rewrap and no other creation of the user. */
  predicate LeavesPassword(s: State, op: Op, user: nat) {
    match op
    case SetPassword(u, _) => u != user
    case Rewrap(u, _, _, _, _) => u != user
    case FinishCreate(request, _, _, _, _) => request in s.creating ==> s.creating[request].user != user
    case _ => true
  }

  ghost predicate PasswordIsLeft(s: State, ops: seq<Op>, user: nat) {
    ops == [] || (PasswordIsLeft(s, ops[..|ops| - 1], user)
                  && LeavesPassword(After(s, ops[..|ops| - 1]), ops[|ops| - 1], user))
  }

  lemma StepAgrees(s: State, op: Op, user: nat, key: Key)
    requires Agrees(s, user, key) && LeavesPassword(s, op, user)
    ensures Agrees(Next(s, op), user, key) && Next(s, op).rows[user].password == s.rows[user].password
  {
  }

  /** From a creation on, restarts and logins of anybody included, the account's password opens the key that was
      created, and no other password does, until one of the user's passwords is changed. */
  lemma {:induction false} AccountPasswordOpensKey(s: State, ops: seq<Op>, user: nat, key: Key, password: string,
                                                   redisOk: bool)
    requires Agrees(s, user, key) && PasswordIsLeft(s, ops, user)
    ensures Agrees(After(s, ops), user, key) && After(s, ops).rows[user].password == s.rows[user].password
    ensures var s' := Next(After(s, ops), LogIn(user, password, redisOk));
      if password == s.rows[user].password then user in s'.cache && s'.cache[user] == key else s' == After(s, ops)
  {
    if ops != [] {
      AccountPasswordOpensKey(s, ops[..|ops| - 1], user, key, password, redisOk);
      StepAgrees(After(s, ops[..|ops| - 1]), ops[|ops| - 1], user, key);
    }
  }

  /** The account's password is the one last set. */
  function LastSet(ops: seq<Op>, user: nat, initial: string): string {
    if ops == [] then initial
    else if ops[|ops| - 1].SetPassword? && ops[|ops| - 1].user == user then ops[|ops| - 1].password
    else LastSet(ops[..|ops| - 1], user, initial)
  }

  lemma {:induction false} PasswordIsLastSet(s: State, ops: seq<Op>, user: nat)
    requires user in s.rows
    ensures user in After(s, ops).rows && After(s, ops).rows[user].password == LastSet(ops, user, s.rows[user].password)
  {
    if ops != [] {
      PasswordIsLastSet(s, ops[..|ops| - 1], user);
      StepSetsPassword(After(s, ops[..|ops| - 1]), ops[|ops| - 1], user);
    }
  }

  lemma StepSetsPassword(s: State, op: Op, user: nat)
    requires user in s.rows
    ensures user in Next(s, op).rows
    ensures Next(s, op).rows[user].password
            == if op.SetPassword? && op.user == user then op.password else s.rows[user].password
  {
  }

  // ----- One key for life ---------------------------------------------------------------------

  /** Memory and Redis hold nothing for a user, or the key that the database holds. */
  ghost predicate Consistent(s: State) {
    && (forall r | r in s.creating :: s.creating[r].user in s.rows)
    && (forall u | KeyOf(s, u).Some? :: |KeyOf(s, u).value| == KEY_LENGTH)
    && (forall u | u in s.cache :: KeyOf(s, u) == Some(s.cache[u]))
    && (forall u | Live(s, u) :: KeyOf(s, u) == Some(s.redis[u].key))
  }

  /** What is generated has the length of a key. */
  predicate WellFormed(op: Op) { op.FinishCreate? ==> |op.raw| == KEY_LENGTH }

  ghost predicate KeepsKeys(s: State, s': State) {
    forall u | KeyOf(s, u).Some? :: KeyOf(s', u) == KeyOf(s, u)
  }

  /** Nobody has given the user another key since the creation was checked, and the save of the new one
      succeeds; a user who has a key rewraps that key, and does not reset it. */
  predicate Legal(s: State, op: Op) {
    match op
    case FinishCreate(request, raw, _, _, saveOk) =>
      request in s.creating ==>
        var key := KeyOf(s, s.creating[request].user);
        key == Some(raw) || (key.None? && saveOk)
    case Rewrap(user, _, raw, _, _) => Rewraps(s, op) && KeyOf(s, user).Some? ==> KeyOf(s, user) == Some(raw)
    case _ => true
  }

  lemma LegalUnlock(s: State, user: nat, key: Key, redisOk: bool)
    requires Consistent(s) && KeyOf(s, user) == Some(key)
    ensures Consistent(Unlock(s, user, key, redisOk)) && KeepsKeys(s, Unlock(s, user, key, redisOk))
  {
    var s' := Unlock(s, user, key, redisOk);
    assert forall u :: KeyOf(s', u) == KeyOf(s, u);
    assert forall u | u != user :: Live(s', u) == Live(s, u);
  }

  lemma LegalSave(s: State, user: nat, wrap: Wrap)
    requires Consistent(s) && user in s.rows && |wrap.key| == KEY_LENGTH && KeyOf(s, user) in {None, Some(wrap.key)}
    ensures Consistent(SaveWrap(s, user, Some(wrap))) && KeepsKeys(s, SaveWrap(s, user, Some(wrap)))
  {
    var s' := SaveWrap(s, user, Some(wrap));
    assert forall u | u != user :: KeyOf(s', u) == KeyOf(s, u);
    assert forall u :: Live(s', u) == Live(s, u);
  }

  lemma LegalFinish(s: State, request: nat, raw: Key, salt: nat, redisOk: bool, saveOk: bool)
    requires Consistent(s) && |raw| == KEY_LENGTH && Legal(s, FinishCreate(request, raw, salt, redisOk, saveOk))
    ensures var s' := Next(s, FinishCreate(request, raw, salt, redisOk, saveOk)); Consistent(s') && KeepsKeys(s, s')
  {
    if request in s.creating {
      var c := s.creating[request];
      var saved := s.(creating := s.creating - {request});
      assert forall u :: KeyOf(saved, u) == KeyOf(s, u) && Live(saved, u) == Live(s, u);
      if saveOk {
        LegalSave(saved, c.user, Wrap(c.password, salt, raw));
        saved := SaveWrap(saved, c.user, Some(Wrap(c.password, salt, raw)));
      }
      LegalUnlock(saved, c.user, raw, redisOk);
    }
  }

  lemma LegalRewrap(s: State, op: Op)
    requires Consistent(s) && op.Rewrap? && Legal(s, op)
    ensures Consistent(Next(s, op)) && KeepsKeys(s, Next(s, op))
  {
    if Rewraps(s, op) && op.raw != "" {
      LegalSave(s, op.user, Wrap(op.transported.value, op.salt, op.raw));
    } else {
      assert Rewraps(s, op) ==> KeyOf(s, op.user).None?;
      assert forall u :: KeyOf(Next(s, op), u) == KeyOf(s, u) && Live(Next(s, op), u) == Live(s, u);
    }
  }

  /** Steps that save no key, and put none into memory or Redis that was not in Redis before. */
  lemma OtherStep(s: State, op: Op)
    requires Consistent(s) && !op.FinishCreate? && !op.Rewrap? && !op.LogIn?
    ensures Consistent(Next(s, op)) && KeepsKeys(s, Next(s, op))
  {
    var s' := Next(s, op);
    assert forall u :: KeyOf(s', u) == KeyOf(s, u);
    assert forall u | Live(s', u) :: Live(s, u) && s'.redis[u].key == s.redis[u].key;
  }

  lemma LegalStep(s: State, op: Op)
    requires Consistent(s) && WellFormed(op) && Legal(s, op)
    ensures Consistent(Next(s, op)) && KeepsKeys(s, Next(s, op))
  {
    match op
    case FinishCreate(request, raw, salt, redisOk, saveOk) => LegalFinish(s, request, raw, salt, redisOk, saveOk);
    case Rewrap(_, _, _, _, _) => LegalRewrap(s, op);
    case LogIn(user, password, redisOk) =>
      if Next(s, op) != s {
        LegalUnlock(s, user, KeyOf(s, user).value, redisOk);
      }
    case _ => OtherStep(s, op);
  }

  lemma IllegalStep(s: State, op: Op)
    requires Consistent(s) && WellFormed(op) && !Legal(s, op)
    ensures !(Consistent(Next(s, op)) && KeepsKeys(s, Next(s, op)))
  {
    var s' := Next(s, op);
    if op.FinishCreate? {
      var user := s.creating[op.request].user;
      assert user in s'.cache && s'.cache[user] == op.raw;
      assert KeyOf(s', user) == if op.saveOk then Some(op.raw) else KeyOf(s, user);
    } else {
      assert KeyOf(s, op.user).Some? && KeyOf(s', op.user) != KeyOf(s, op.user);
    }
  }

  /** Which operations keep everybody's key and keep the three places in agreement: from a consistent
      state exactly the legal ones. A failed save, a second creation, a reset and a rewrap with another key
      all break it. */
  lemma StepKeepsIffLegal(s: State, op: Op)
    requires Consistent(s) && WellFormed(op)
    ensures Consistent(Next(s, op)) && KeepsKeys(s, Next(s, op)) <==> Legal(s, op)
  {
    if Legal(s, op) {
      LegalStep(s, op);
    } else {
      IllegalStep(s, op);
    }
  }

  function After(s: State, ops: seq<Op>): State {
    if ops == [] then s else Next(After(s, ops[..|ops| - 1]), ops[|ops| - 1])
  }

  ghost predicate IsLegalRun(s: State, ops: seq<Op>) {
    ops == [] || (IsLegalRun(s, ops[..|ops| - 1]) && WellFormed(ops[|ops| - 1])
                  && Legal(After(s, ops[..|ops| - 1]), ops[|ops| - 1]))
  }

  /** The password that an operation wraps the user's key with, if it does. */
  function WrapsWith(s: State, op: Op, user: nat): Option<string> {
    if op.FinishCreate? && op.request in s.creating && s.creating[op.request].user == user && op.saveOk
    then Some(s.creating[op.request].password)
    else if op.Rewrap? && op.user == user && Rewraps(s, op) && op.raw != "" then op.transported
    else None
  }

  /** The password of the latest wrap in a run that starts with the password `initial`. */
  function LatestPassword(s: State, ops: seq<Op>, user: nat, initial: string): string {
    if ops == [] then initial
    else
      var front, op := ops[..|ops| - 1], ops[|ops| - 1];
      var given := WrapsWith(After(s, front), op, user);
      if given.Some? then given.value else LatestPassword(s, front, user, initial)
  }

  /** From the moment a user has a key: over any legal run, restarts included, the database keeps that
      key, wrapped under the latest password; memory and Redis hold nothing or that key; and a login with
      the latest password always brings it back. */
  lemma {:induction false} OneKeyForLife(s: State, ops: seq<Op>, user: nat, key: Key, redisOk: bool)
    requires Consistent(s) && IsLegalRun(s, ops)
    requires KeyOf(s, user) == Some(key)
    ensures var s', password := After(s, ops), LatestPassword(s, ops, user, s.rows[user].wrap.value.password);
      && Consistent(s')
      && KeyOf(s', user) == Some(key) && s'.rows[user].wrap.value.password == password
      && (user in s'.cache ==> s'.cache[user] == key)
      && (Live(s', user) ==> s'.redis[user].key == key)
      && user in Next(s', LogIn(user, password, redisOk)).cache
      && Next(s', LogIn(user, password, redisOk)).cache[user] == key
  {
    if ops != [] {
      OneKeyForLife(s, ops[..|ops| - 1], user, key, redisOk);
      LegalStep(After(s, ops[..|ops| - 1]), ops[|ops| - 1]);
      LegalWrap(After(s, ops[..|ops| - 1]), ops[|ops| - 1], user);
    }
  }

  lemma LegalWrap(s: State, op: Op, user: nat)
    requires Consistent(s) && WellFormed(op) && Legal(s, op) && KeyOf(s, user).Some?
    ensures KeyOf(Next(s, op), user).Some?
    ensures Next(s, op).rows[user].wrap.value.password
            == (if WrapsWith(s, op, user).Some? then WrapsWith(s, op, user).value else s.rows[user].wrap.value.password)
  {
    LegalStep(s, op);
  }

  // ----- Overlapping creations ----------------------------------------------------------------

  /** Whatever else was the case: of two creations for one user that both passed their checks, the second to
      finish replaces the key of the first, whose owner was told to keep it. */
  lemma OverlappingCreationsReplaceKey(s: State, user: nat, password: string, raw: Key, other: Key)
    requires PassesChecks(s, user, Some(password)) && 0 !in s.creating && 1 !in s.creating
    ensures var both := Next(Next(s, BeginCreate(0, user, Some(password))), BeginCreate(1, user, Some(password)));
      var first := Next(both, FinishCreate(0, raw, 0, true, true));
      && KeyOf(first, user) == Some(raw)
      && KeyOf(Next(first, FinishCreate(1, other, 0, true, true)), user) == Some(other)
  {
  }

  function CreationsOf(s: State, user: nat): set<nat> { set r | r in s.creating && s.creating[r].user == user }

  ghost predicate CreationsWithin(s: State, bound: nat) { forall user: nat :: |CreationsOf(s, user)| <= bound }

  /** All that callers see to, except that creations may overlap: saves succeed, and a rewrap is given the key
      that the user has. */
  predicate Careful(s: State, op: Op) {
    match op
    case FinishCreate(_, _, _, _, saveOk) => saveOk
    case Rewrap(user, _, raw, _, _) =>
      Rewraps(s, op) ==> KeyOf(s, user) == if raw == "" then None else Some(raw)
    case _ => true
  }

  /** At most `bound` creations of one user are under way at a time. */
  ghost predicate IsCarefulRun(s: State, ops: seq<Op>, bound: nat) {
    ops == [] || (IsCarefulRun(s, ops[..|ops| - 1], bound) && WellFormed(ops[|ops| - 1])
                  && Careful(After(s, ops[..|ops| - 1]), ops[|ops| - 1]) && CreationsWithin(After(s, ops), bound))
  }

  /** Nobody's key is ever lost or replaced, and the three places agree all the time. */
  ghost predicate KeptThroughout(s: State, ops: seq<Op>) {
    ops == [] || (KeptThroughout(s, ops[..|ops| - 1]) && Consistent(After(s, ops))
                  && KeepsKeys(After(s, ops[..|ops| - 1]), After(s, ops)))
  }

  /** Whoever a key is being created for has none yet. */
  ghost predicate CreatesFirstKeys(s: State) { forall r | r in s.creating :: KeyOf(s, s.creating[r].user).None? }

  lemma CarefulStep(s: State, op: Op)
    requires Consistent(s) && CreatesFirstKeys(s) && CreationsWithin(s, 1) && WellFormed(op) && Careful(s, op)
    ensures Legal(s, op) && Consistent(Next(s, op)) && KeepsKeys(s, Next(s, op)) && CreatesFirstKeys(Next(s, op))
  {
    LegalStep(s, op);
    if op.FinishCreate? && op.request in s.creating {
      forall r | r in s.creating && s.creating[r].user == s.creating[op.request].user
        ensures r == op.request
      {
        OnlyCreation(s, r, op.request);
      }
    }
  }

  lemma OnlyCreation(s: State, r: nat, other: nat)
    requires CreationsWithin(s, 1) && r in s.creating && other in s.creating
    requires s.creating[r].user == s.creating[other].user
    ensures r == other
  {
    var all := CreationsOf(s, s.creating[r].user);
    assert |all - {r}| == 0 && other in all;
  }

  lemma {:induction false} CarefulRun(s: State, ops: seq<Op>, bound: nat)
    requires Consistent(s) && s.creating == map[] && IsCarefulRun(s, ops, bound) && bound <= 1
    ensures KeptThroughout(s, ops) && Consistent(After(s, ops)) && CreatesFirstKeys(After(s, ops))
    ensures CreationsWithin(After(s, ops), 1)
  {
    if ops != [] {
      CarefulRun(s, ops[..|ops| - 1], bound);
      CarefulStep(After(s, ops[..|ops| - 1]), ops[|ops| - 1]);
    }
  }

  const UNKEYED := State(0, map[0 := Row("", None)], map[], map[], "", map[])

  function OverlappingRun(raw: Key, other: Key): seq<Op> {
    [BeginCreate(0, 0, Some(""))] + [BeginCreate(1, 0, Some(""))]
    + [FinishCreate(0, raw, 0, true, true)] + [FinishCreate(1, other, 0, true, true)]
  }

  lemma OverlappingRunLosesKey(raw: Key, other: Key, bound: nat)
    requires |raw| == |other| == KEY_LENGTH && raw != other && 2 <= bound
    ensures IsCarefulRun(UNKEYED, OverlappingRun(raw, other), bound)
    ensures !KeptThroughout(UNKEYED, OverlappingRun(raw, other))
  {
    var s := UNKEYED;
    var one := [BeginCreate(0, 0, Some(""))];
    var two := one + [BeginCreate(1, 0, Some(""))];
    var three := two + [FinishCreate(0, raw, 0, true, true)];
    assert [] + one == one;
    OneMore(s, [], one[0], bound);
    OneMore(s, one, BeginCreate(1, 0, Some("")), bound);
    OneMore(s, two, FinishCreate(0, raw, 0, true, true), bound);
    OneMore(s, three, FinishCreate(1, other, 0, true, true), bound);
    OverlappingCreationsReplaceKey(s, 0, "", raw, other);
    assert OverlappingRun(raw, other)[..3] == three;
    assert !KeepsKeys(After(s, three), After(s, OverlappingRun(raw, other)));
  }

  lemma OneMore(s: State, ops: seq<Op>, op: Op, bound: nat)
    requires IsCarefulRun(s, ops, bound) && WellFormed(op) && Careful(After(s, ops), op)
    requires Next(After(s, ops), op).creating.Keys <= {0, 1} && 2 <= bound
    ensures IsCarefulRun(s, ops + [op], bound) && After(s, ops + [op]) == Next(After(s, ops), op)
  {
    var longer := ops + [op];
    assert longer[..|ops|] == ops && longer[|ops|] == op;
    forall user: nat
      ensures |CreationsOf(After(s, longer), user)| <= bound
    {
      SubsetCardinality(CreationsOf(After(s, longer), user), {0, 1});
    }
  }

  lemma {:induction false} SubsetCardinality(a: set<nat>, b: set<nat>)
    requires a <= b
    ensures |a| <= |b|
  {
    if x :| x in a {
      SubsetCardinality(a - {x}, b - {x});
    }
  }

  /** If all callers are careful, everybody keeps one key for life in all runs with at most `bound` creations
      of one user at a time if and only if `bound` is at most 1: creations of one user must not overlap. */
  lemma OneKeyIffCreationsApart(bound: nat)
    ensures (forall s, ops | Consistent(s) && s.creating == map[] && IsCarefulRun(s, ops, bound) ::
               KeptThroughout(s, ops))
            <==> bound <= 1
  {
    if bound <= 1 {
      forall s, ops | Consistent(s) && s.creating == map[] && IsCarefulRun(s, ops, bound)
        ensures KeptThroughout(s, ops)
      {
        CarefulRun(s, ops, bound);
      }
    } else {
      var raw, other := seq(KEY_LENGTH, _ => 'a'), seq(KEY_LENGTH, _ => 'b');
      assert raw[0] != other[0];
      OverlappingRunLosesKey(raw, other, bound);
    }
  }
}
