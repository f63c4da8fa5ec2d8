/**
 The lease lock over Redis: one key per lock, holding its owner's token until it expires. Commands
 and Lua scripts run atomically; a key is live strictly before its expiry. Redis counts time in
 milliseconds, callers give a time to live in nanoseconds.
 */
module LeaseLock {
  import opened Wrappers

  const MILLISECOND: nat := 1_000_000

  datatype Entry = Entry(value: string, expiresAt: nat)

  type Store = map<string, Entry>

  predicate Live(store: Store, now: nat, key: string) {
    key in store && now < store[key].expiresAt
  }

  predicate Holds(store: Store, now: nat, key: string, token: string) {
    Live(store, now, key) && store[key].value == token
  }

  predicate ValidArgs(key: string, token: string, ttl: int) { key != "" && token != "" && 0 < ttl }

  /** The expiry that SETNX is sent with: at least one millisecond. */
  function AcquireMs(ttl: nat): nat { if ttl < MILLISECOND then 1 else ttl / MILLISECOND }

  /** The expiry that PEXPIRE is sent with: truncated, so possibly none. */
  function RenewMs(ttl: nat): nat { ttl / MILLISECOND }

  datatype Answer = Invalid | Refused | Done

  /** Each command: the store it leaves and its answer. */
  function AfterTryLock(store: Store, now: nat, key: string, token: string, ttl: int): (r: (Store, Answer)) {
    if !ValidArgs(key, token, ttl) then (store, Invalid)
    else if Live(store, now, key) then (store, Refused)
    else (store[key := Entry(token, now + AcquireMs(ttl))], Done)
  }

  function AfterRenewLock(store: Store, now: nat, key: string, token: string, ttl: int): (r: (Store, Answer)) {
    if !ValidArgs(key, token, ttl) then (store, Invalid)
    else if !Holds(store, now, key, token) then (store, Refused)
    else if RenewMs(ttl) == 0 then (store - {key}, Done)  // PEXPIRE with 0 deletes the key, and answers 1
    else (store[key := Entry(token, now + RenewMs(ttl))], Done)
  }

  function AfterUnlock(store: Store, now: nat, key: string, token: string): (r: (Store, Answer)) {
    if key == "" || token == "" then (store, Invalid)
    else if Holds(store, now, key, token) then (store - {key}, Done)
    else (store, Done)
  }

  class RedisClient {
    var now: nat
    var store: Store

    /** (true, nil) is Success(true), (false, nil) is Success(false), an error is Failure. */
    method TryLock(key: string, token: string, ttl: int) returns (acquired: Result<bool>)
      modifies this`store
      ensures var (after, answer) := AfterTryLock(old(store), now, key, token, ttl);
        store == after && acquired == (if answer == Invalid then Failure else Success(answer == Done))
    {
      if key == "" || token == "" || ttl <= 0 { return Failure; }
      if Live(store, now, key) { return Success(false); }
      store := store[key := Entry(token, now + if ttl < MILLISECOND then 1 else ttl / MILLISECOND)];
      acquired := Success(true);
    }

    method RenewLock(key: string, token: string, ttl: int) returns (r: Result<()>)
      modifies this`store
      ensures var (after, answer) := AfterRenewLock(old(store), now, key, token, ttl);
        store == after && (r.Success? <==> answer == Done)
    {
      if key == "" || token == "" || ttl <= 0 { return Failure; }
      var result := 0;
      if Live(store, now, key) && store[key].value == token {
        result := 1;
        var ms := ttl / MILLISECOND;
        if ms <= 0 {
          store := store - {key};
        } else {
          store := store[key := store[key].(expiresAt := now + ms)];
        }
      }
      r := if result != 1 then Failure else Success(());
    }

    method Unlock(key: string, token: string) returns (r: Result<()>)
      modifies this`store
      ensures var (after, answer) := AfterUnlock(old(store), now, key, token);
        store == after && (r.Success? <==> answer != Invalid)
    {
      if key == "" || token == "" { return Failure; }
      if Live(store, now, key) && store[key].value == token {
        store := store - {key};
      }
      r := Success(());
    }
  }

  // ----- Single commands ----------------------------------------------------------------------

  /** An attempt is granted exactly if its arguments are valid and the lock is free. The lock is then live, under
      the caller's token, for the time asked for in whole milliseconds, and for one if that is none. Nothing else
      changes. */
  lemma AcquiresIff(store: Store, now: nat, key: string, token: string, ttl: int, d: nat)
    ensures var (after, answer) := AfterTryLock(store, now, key, token, ttl);
      && answer == (if key == "" || token == "" || ttl <= 0 then Invalid
                    else if key in store && now < store[key].expiresAt then Refused else Done)
      && (answer != Done ==> after == store)
      && (answer == Done ==>
            && key in after && after[key].value == token && after - {key} == store - {key}
            && (Live(after, now + d, key) <==> if ttl < 1_000_000 then d == 0 else (d + 1) * 1_000_000 <= ttl))
  {
  }

  /** A renewal is granted exactly if its arguments are valid and the caller's token holds the lock, which stays
      live for the time asked for in whole milliseconds, possibly none. */
  lemma RenewsIff(store: Store, now: nat, key: string, token: string, ttl: int, d: nat)
    ensures var (after, answer) := AfterRenewLock(store, now, key, token, ttl);
      && answer == (if key == "" || token == "" || ttl <= 0 then Invalid
                    else if key in store && now < store[key].expiresAt && store[key].value == token then Done
                    else Refused)
      && (answer != Done ==> after == store)
      && (answer == Done ==>
            && (key in after ==> after[key].value == token) && after - {key} == store - {key}
            && (Live(after, now + d, key) <==> (d + 1) * 1_000_000 <= ttl))
  {
  }

  /** A release deletes the lock exactly if the caller's token holds it. */
  lemma ReleasesIff(store: Store, now: nat, key: string, token: string)
    ensures var (after, answer) := AfterUnlock(store, now, key, token);
      && (answer == Invalid <==> key == "" || token == "")
      && after == if key != "" && token != "" && key in store && now < store[key].expiresAt && store[key].value == token
                  then store - {key} else store
  {
  }

  /** A renewal leaves exactly the requested time if and only if that is a whole number of
      milliseconds; one of less than a millisecond reports success and gives the lock away. */
  lemma RenewedFor(store: Store, now: nat, key: string, token: string, ttl: nat)
    requires key != "" && token != "" && 0 < ttl && Holds(store, now, key, token)
    ensures var (after, answer) := AfterRenewLock(store, now, key, token, ttl);
      && answer == Done
      && (Live(after, now, key) <==> 1_000_000 <= ttl)
      && ((Live(after, now, key) && (after[key].expiresAt - now) * 1_000_000 == ttl) <==> ttl % 1_000_000 == 0)
  {
    assert ttl == RenewMs(ttl) * MILLISECOND + ttl % MILLISECOND;
  }

  // ----- The protocol -------------------------------------------------------------------------

  /** Redis; for each lock and token the time until which its holder counts on the lease; and the locks and
      tokens that a worker has given up. */
  datatype World = World(now: nat, store: Store, leases: map<(string, string), nat>, givenUp: set<(string, string)>)

  /**
   What can happen: time passes, a worker gives a lock up, by sending its release, or Redis executes a
   command. `sentAt` is when the worker sent it, from where the worker counts its lease; `replied` is false
   when the answer is lost on the way.
   */
  datatype Op =
    | Tick(ms: nat)
    | Acquire(key: string, token: string, ttl: int, sentAt: nat, replied: bool)
    | Renew(key: string, token: string, ttl: int, sentAt: nat, replied: bool)
    | GiveUp(key: string, token: string)
    | Release(key: string, token: string)

  function LeaseOf(w: World, key: string, token: string): nat {
    if (key, token) in w.leases then w.leases[(key, token)] else 0
  }

  function Min(a: nat, b: nat): nat { if a < b then a else b }

  /** A worker counts on a lease that was granted, on the shorter one while it does not know whether
      a renewal was, and on none after it gave the lock up or was told that it lost it. */
  function Next(w: World, op: Op): World {
    match op
    case Tick(ms) => w.(now := w.now + ms)
    case Acquire(key, token, ttl, sentAt, replied) =>
      var (store, answer) := AfterTryLock(w.store, w.now, key, token, ttl);
      w.(store := store,
         leases := if answer == Done && replied then w.leases[(key, token) := sentAt + AcquireMs(ttl)] else w.leases)
    case Renew(key, token, ttl, sentAt, replied) =>
      var (store, answer) := AfterRenewLock(w.store, w.now, key, token, ttl);
      w.(store := store,
         leases := if answer == Invalid then w.leases
                   else if !replied then
                     w.leases[(key, token) := Min(LeaseOf(w, key, token), sentAt + RenewMs(ttl))]
                   else if answer == Done then w.leases[(key, token) := sentAt + RenewMs(ttl)]
                   else w.leases - {(key, token)})
    case GiveUp(key, token) =>
      w.(leases := w.leases - {(key, token)}, givenUp := w.givenUp + {(key, token)})
    case Release(key, token) => w.(store := AfterUnlock(w.store, w.now, key, token).0)
  }

  const INITIAL_WORLD := World(0, map[], map[], {})

  /** The world after a run of operations. */
  function After(ops: seq<Op>): World {
    if ops == [] then INITIAL_WORLD else Next(After(ops[..|ops| - 1]), ops[|ops| - 1])
  }

  /** No command is executed before it was sent. */
  predicate Causal(w: World, op: Op) {
    match op
    case Acquire(_, _, _, sentAt, _) => sentAt <= w.now
    case Renew(_, _, _, sentAt, _) => sentAt <= w.now
    case Release(key, token) => (key, token) in w.givenUp
    case _ => true
  }

  ghost predicate IsRun(ops: seq<Op>) {
    ops == [] || (IsRun(ops[..|ops| - 1]) && Causal(After(ops[..|ops| - 1]), ops[|ops| - 1]))
  }

  predicate InsideLease(w: World, key: string, token: string) { w.now < LeaseOf(w, key, token) }

  /** From a granted and answered command on, a worker counts on its lease for the time it asked for, in whole
      milliseconds since it sent the command, and for one if an attempt asked for less. */
  lemma CountsOnLease(w: World, key: string, token: string, ttl: int, sentAt: nat, d: nat)
    requires sentAt <= w.now && key != "" && token != "" && 0 < ttl
    ensures !Live(w.store, w.now, key) ==>
      (InsideLease(Next(Next(w, Acquire(key, token, ttl, sentAt, true)), Tick(d)), key, token)
       <==> if ttl < 1_000_000 then w.now + d == sentAt else (w.now + d - sentAt + 1) * 1_000_000 <= ttl)
    ensures Holds(w.store, w.now, key, token) ==>
      (InsideLease(Next(Next(w, Renew(key, token, ttl, sentAt, true)), Tick(d)), key, token)
       <==> (w.now + d - sentAt + 1) * 1_000_000 <= ttl)
  {
  }

  /** Whoever is inside its lease holds the lock in Redis for at least as long. */
  predicate Backed(w: World, key: string, token: string) {
    InsideLease(w, key, token) ==>
      && key != "" && token != ""
      && Holds(w.store, w.now, key, token) && LeaseOf(w, key, token) <= w.store[key].expiresAt
  }

  ghost predicate LeasesBacked(w: World) { forall key, token :: Backed(w, key, token) }

  /** A release that Redis executes while its own sender is inside a lease again. */
  predicate HitsOwnLease(w: World, op: Op) { op.Release? && InsideLease(w, op.key, op.token) }

  lemma StepBackedIff(w: World, op: Op)
    requires LeasesBacked(w) && Causal(w, op)
    ensures LeasesBacked(Next(w, op)) <==> !HitsOwnLease(w, op)
  {
    if HitsOwnLease(w, op) {
      assert Backed(w, op.key, op.token) && !Backed(Next(w, op), op.key, op.token);
    } else {
      forall key, token
        ensures Backed(Next(w, op), key, token)
      {
        assert Backed(w, key, token);
        BackedAfter(w, op, key, token);
      }
    }
  }

  lemma BackedAfter(w: World, op: Op, key: string, token: string)
    requires Backed(w, key, token) && Causal(w, op) && !HitsOwnLease(w, op)
    ensures Backed(Next(w, op), key, token)
  {
  }

  ghost predicate BackedThroughout(ops: seq<Op>) {
    LeasesBacked(After(ops)) && (ops == [] || BackedThroughout(ops[..|ops| - 1]))
  }

  ghost predicate ReleasesMissLeases(ops: seq<Op>) {
    ops == [] || (ReleasesMissLeases(ops[..|ops| - 1]) && !HitsOwnLease(After(ops[..|ops| - 1]), ops[|ops| - 1]))
  }

  /** Every lease that a worker counts on is backed by Redis all through a run if and only if no release is
      executed while its own lock and token are inside a lease: lost replies, delays and foreign commands do
      no harm. */
  lemma {:induction false} BackedIffReleasesMiss(ops: seq<Op>)
    requires IsRun(ops)
    ensures BackedThroughout(ops) <==> ReleasesMissLeases(ops)
  {
    if ops != [] {
      BackedIffReleasesMiss(ops[..|ops| - 1]);
      if BackedThroughout(ops[..|ops| - 1]) {
        StepBackedIff(After(ops[..|ops| - 1]), ops[|ops| - 1]);
      }
    } else {
      assert forall key, token :: !InsideLease(After(ops), key, token);
    }
  }

  /** In such a run at most one worker is inside its lease of a lock, in every state. */
  lemma MutualExclusion(ops: seq<Op>, key: string, token: string, other: string)
    requires IsRun(ops) && ReleasesMissLeases(ops)
    requires InsideLease(After(ops), key, token) && InsideLease(After(ops), key, other)
    ensures token == other
  {
    BackedIffReleasesMiss(ops);
    assert Backed(After(ops), key, token) && Backed(After(ops), key, other);
  }

  /** In any other the first release that hits its own lease lets anybody else in, beside its sender. */
  lemma HitLeaseLetsOthersIn(w: World, op: Op, other: string, ttl: int)
    requires LeasesBacked(w) && HitsOwnLease(w, op) && other !in {"", op.token} && 0 < ttl
    ensures var w' := Next(Next(w, op), Acquire(op.key, other, ttl, w.now, true));
      InsideLease(w', op.key, op.token) && InsideLease(w', op.key, other)
  {
    assert Backed(w, op.key, op.token);
  }

  // ----- Fresh tokens -------------------------------------------------------------------------

  /** A worker that gave a lock up counts on no answer under that token any more: each attempt to acquire a
      lock has a token of its own. */
  predicate UsesFreshToken(w: World, op: Op) {
    (op.Acquire? || op.Renew?) && op.replied ==> (op.key, op.token) !in w.givenUp
  }

  ghost predicate UsesFreshTokens(ops: seq<Op>) {
    ops == [] || (UsesFreshTokens(ops[..|ops| - 1]) && UsesFreshToken(After(ops[..|ops| - 1]), ops[|ops| - 1]))
  }

  predicate LeaseIsKept(w: World, key: string, token: string) {
    InsideLease(w, key, token) ==> (key, token) !in w.givenUp
  }

  /** With fresh tokens nobody is inside a lease that it gave up, so that no release hits one. */
  lemma {:induction false} FreshTokensSuffice(ops: seq<Op>)
    requires IsRun(ops) && UsesFreshTokens(ops)
    ensures ReleasesMissLeases(ops)
    ensures forall key, token :: LeaseIsKept(After(ops), key, token)
  {
    if ops != [] {
      var w, op := After(ops[..|ops| - 1]), ops[|ops| - 1];
      FreshTokensSuffice(ops[..|ops| - 1]);
      assert op.Release? ==> LeaseIsKept(w, op.key, op.token);
      forall key, token
        ensures LeaseIsKept(Next(w, op), key, token)
      {
        assert LeaseIsKept(w, key, token);
      }
    }
  }

  /** They are not necessary, but without them a release can be late: a worker acquires a lock for a
      millisecond, gives it up, and acquires it again under the same token before its release arrives. */
  function ReusingRun(key: string, token: string, ttl: int): seq<Op> {
    [Acquire(key, token, 1, 0, true), GiveUp(key, token), Tick(1), Acquire(key, token, ttl, 1, true),
     Release(key, token)]
  }

  lemma ReusingWorlds(key: string, token: string, ttl: int)
    requires key != "" && token != "" && 0 < ttl
    ensures var ops, until := ReusingRun(key, token, ttl), 1 + AcquireMs(ttl);
      && After(ops[..0]) == INITIAL_WORLD
      && After(ops[..1]) == World(0, map[key := Entry(token, 1)], map[(key, token) := 1], {})
      && After(ops[..2]) == World(0, map[key := Entry(token, 1)], map[], {(key, token)})
      && After(ops[..3]) == After(ops[..2]).(now := 1)
      && After(ops[..4]) == World(1, map[key := Entry(token, until)], map[(key, token) := until], {(key, token)})
  {
    var ops := ReusingRun(key, token, ttl);
    assert ops[..0] == [];
    StepAt(ops, 0);
    StepAt(ops, 1);
    StepAt(ops, 2);
    StepAt(ops, 3);
  }

  lemma ReusedTokenHitsLease(key: string, token: string, ttl: int)
    requires key != "" && token != "" && 0 < ttl
    ensures IsRun(ReusingRun(key, token, ttl)) && !ReleasesMissLeases(ReusingRun(key, token, ttl))
  {
    var ops := ReusingRun(key, token, ttl);
    ReusingWorlds(key, token, ttl);
    assert ops[..5] == ops && ops[..0] == [];
    CausalPrefix(ops, 0);
    CausalPrefix(ops, 1);
    CausalPrefix(ops, 2);
    CausalPrefix(ops, 3);
    CausalPrefix(ops, 4);
  }

  lemma CausalPrefix(ops: seq<Op>, i: nat)
    requires i < |ops| && IsRun(ops[..i]) && Causal(After(ops[..i]), ops[i])
    ensures IsRun(ops[..i + 1])
  {
    assert ops[..i + 1][..i] == ops[..i];
  }

  lemma StepAt(ops: seq<Op>, i: nat)
    requires i < |ops|
    ensures After(ops[..i + 1]) == Next(After(ops[..i]), ops[i])
  {
    assert ops[..i + 1][..i] == ops[..i];
  }

  // ----- Held locks ---------------------------------------------------------------------------

  /** No command sent under another token changes a lock that is held, or any other lock. */
  lemma HeldLockIsSafe(w: World, op: Op, key: string, owner: string)
    requires Holds(w.store, w.now, key, owner)
    requires !op.Tick? && !(op.key == key && op.token == owner)
    ensures var w' := Next(w, op);
      Holds(w'.store, w'.now, key, owner) && w'.store[key] == w.store[key]
  {
  }

  /** While one worker is inside its lease, every attempt of another is refused. */
  lemma LeaseExcludes(ops: seq<Op>, key: string, owner: string, token: string, ttl: int)
    requires IsRun(ops) && ReleasesMissLeases(ops)
    requires InsideLease(After(ops), key, owner) && token != "" && 0 < ttl
    ensures var w := After(ops); AfterTryLock(w.store, w.now, key, token, ttl) == (w.store, Refused)
  {
    BackedIffReleasesMiss(ops);
    assert Backed(After(ops), key, owner);
  }

  // ----- Locks come free ----------------------------------------------------------------------

  predicate Extends(op: Op, key: string) { (op.Acquire? || op.Renew?) && op.key == key }

  lemma {:induction false} ExpiresWithin(ops: seq<Op>, key: string, maxTtl: nat)
    requires forall op | op in ops && Extends(op, key) :: op.ttl <= maxTtl
    ensures key in After(ops).store ==> After(ops).store[key].expiresAt <= After(ops).now + AcquireMs(maxTtl)
  {
    if ops != [] {
      ExpiresWithin(ops[..|ops| - 1], key, maxTtl);
      assert ops[|ops| - 1] in ops;
    }
  }

  /** The clock has gone on, and the lock expires no later than before. */
  predicate NotExtended(before: World, after: World, key: string) {
    before.now <= after.now
    && (key in after.store ==> key in before.store && after.store[key].expiresAt <= before.store[key].expiresAt)
  }

  lemma StepExtendsNothing(w: World, op: Op, key: string)
    requires !Extends(op, key)
    ensures NotExtended(w, Next(w, op), key)
  {
  }

  lemma {:induction false} NothingExtends(ops: seq<Op>, more: seq<Op>, key: string)
    requires forall op | op in more :: !Extends(op, key)
    ensures NotExtended(After(ops), After(ops + more), key)
  {
    if more == [] {
      assert ops + more == ops;
    } else {
      NothingExtends(ops, more[..|more| - 1], key);
      assert (ops + more)[..|ops + more| - 1] == ops + more[..|more| - 1];
      assert more[|more| - 1] in more;
      StepExtendsNothing(After(ops + more[..|more| - 1]), more[|more| - 1], key);
    }
  }

  /** A lock is never lost for good, whatever its holder does: in any run, lost replies and reused tokens
      included, it is free, and the next valid attempt acquires it, as soon as the longest time to live, in
      whole milliseconds and at least one, has passed since the last attempt to acquire or renew it. */
  lemma LockComesFree(ops: seq<Op>, more: seq<Op>, key: string, maxTtl: nat, token: string, ttl: int)
    requires forall op | op in ops && Extends(op, key) :: op.ttl <= maxTtl
    requires forall op | op in more :: !Extends(op, key)
    requires After(ops).now < After(ops + more).now
    requires maxTtl < (After(ops + more).now - After(ops).now + 1) * 1_000_000
    requires key != "" && token != "" && 0 < ttl
    ensures var w := After(ops + more);
      && !Live(w.store, w.now, key)
      && InsideLease(Next(w, Acquire(key, token, ttl, w.now, true)), key, token)
  {
    ExpiresWithin(ops, key, maxTtl);
    NothingExtends(ops, more, key);
    assert AcquireMs(maxTtl) <= After(ops + more).now - After(ops).now;
  }
}
