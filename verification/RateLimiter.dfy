/**
 The per-client rate limiter of the HTTP layer: a map of token buckets and a sweeper that deletes
 the buckets of idle clients.

 Time is in nanoseconds. Tokens are scaled so that a bucket refills by one unit a nanosecond: a
 request then costs COST units, and a full bucket holds CAP units. All arithmetic is exact.
 */
module RateLimiter {
  import opened Wrappers

  const RATE_LIMIT: nat := 5
  const RATE_BURST: nat := 10
  const SECOND: nat := 1_000_000_000
  const HOUR: nat := 3600 * SECOND
  const COST: nat := SECOND / RATE_LIMIT
  const CAP: nat := RATE_BURST * COST

  /** The longest pause between the two clock readings of one `Allow` that the sweeper tolerates. */
  const MAX_STALL: nat := HOUR + 1 - COST

  /** The state of one rate.Limiter. */
  datatype Bucket = Bucket(tokens: nat, last: nat)

  datatype Client = Client(bucket: Bucket, seen: nat)

  type Clients = map<nat, Client>

  const FRESH_BUCKET := Bucket(CAP, 0)

  /** What the bucket holds at time t. */
  function Level(b: Bucket, t: nat): (level: nat) {
    var refilled := b.tokens + (if t < b.last then 0 else t - b.last);
    if CAP < refilled then CAP else refilled
  }

  /** rate.Limiter.Allow: takes one request's worth of tokens, or leaves the bucket as it was. */
  function Take(b: Bucket, t: nat): (r: (Bucket, bool)) {
    if COST <= Level(b, t) then (Bucket(Level(b, t) - COST, t), true) else (b, false)
  }

  function BucketOf(clients: Clients, id: nat): Bucket {
    if id in clients then clients[id].bucket else FRESH_BUCKET
  }

  function AfterCall(clients: Clients, id: nat, seen: nat, at: nat): Clients {
    clients[id := Client(Take(BucketOf(clients, id), at).0, seen)]
  }

  function AfterSweep(clients: Clients, now: nat): Clients {
    map id | id in clients && !(clients[id].seen + HOUR < now) :: clients[id]
  }

  class Limiter {
    var limiters: Clients

    constructor ()
      ensures limiters == map[]
    {
      limiters := map[];
    }

    /** `seen` and `at` are the two readings of the clock that one call makes, in that order. */
    method Allow(respId: nat, seen: nat, at: nat) returns (ok: bool)
      modifies this
      ensures limiters == AfterCall(old(limiters), respId, seen, at)
      ensures ok == Take(BucketOf(old(limiters), respId), at).1
    {
      if respId !in limiters {
        limiters := limiters[respId := Client(FRESH_BUCKET, 0)];
      }
      var c := limiters[respId];
      c := c.(seen := seen);
      var taken := Take(c.bucket, at);
      limiters := limiters[respId := c.(bucket := taken.0)];
      ok := taken.1;
    }

    /** One tick of the sweeper. */
    method CleanupLimiter(now: nat)
      modifies this
      ensures limiters == AfterSweep(old(limiters), now)
    {
      var rest := limiters.Keys;
      while rest != {}
        invariant rest <= limiters.Keys <= old(limiters).Keys
        invariant forall id :: id in limiters ==> limiters[id] == old(limiters)[id]
        invariant forall id :: id in old(limiters) && id !in rest ==>
            (id in limiters <==> !(old(limiters)[id].seen + HOUR < now))
        decreases rest
      {
        var id :| id in rest;
        if now > limiters[id].seen + HOUR {
          limiters := limiters - {id};
        }
        rest := rest - {id};
      }
    }
  }

  // ----- Runs ---------------------------------------------------------------------------------

  datatype Op = Call(id: nat, seen: nat, at: nat) | Sweep(now: nat)

  function Start(op: Op): nat { if op.Call? then op.seen else op.now }

  function End(op: Op): nat { if op.Call? then op.at else op.now }

  /** The clock never goes back over the run: all its readings happen under one mutex. */
  ghost predicate Ordered(ops: seq<Op>, clock: nat) {
    ops == [] || (clock <= Start(ops[0]) <= End(ops[0]) && Ordered(ops[1..], End(ops[0])))
  }

  ghost predicate StallsWithin(ops: seq<Op>, bound: nat) {
    forall op :: op in ops ==> End(op) <= Start(op) + bound
  }

  /** One step; `sweeping` is false for the reference limiter, which never deletes a bucket. */
  function Next(clients: Clients, op: Op, sweeping: bool): Clients {
    match op
    case Call(id, seen, at) => AfterCall(clients, id, seen, at)
    case Sweep(now) => if sweeping then AfterSweep(clients, now) else clients
  }

  /** The answer given at each step of a run; a sweep answers nothing, which is recorded as false. */
  function Decisions(clients: Clients, ops: seq<Op>, sweeping: bool): (ds: seq<bool>)
    ensures |ds| == |ops|
    decreases ops
  {
    if ops == [] then []
    else [ops[0].Call? && Take(BucketOf(clients, ops[0].id), ops[0].at).1]
         + Decisions(Next(clients, ops[0], sweeping), ops[1..], sweeping)
  }

  // ----- Deletion cannot be observed ----------------------------------------------------------

  /** The first instant at which the bucket is full if nothing more is taken from it. */
  function FullAt(b: Bucket): int { b.last + CAP - b.tokens }

  /** The sweeping limiter against the reference: kept buckets agree and will be full by the time
      the sweeper may delete them, deleted ones are full by now. */
  ghost predicate Simulates(swept: Clients, ref: Clients, clock: nat) {
    && swept.Keys <= ref.Keys
    && (forall id :: id in ref ==> ref[id].bucket.tokens <= CAP && ref[id].bucket.last <= clock)
    && (forall id :: id in swept ==>
          swept[id] == ref[id] && FullAt(swept[id].bucket) <= swept[id].seen + HOUR + 1)
    && (forall id :: id in ref && id !in swept ==> FullAt(ref[id].bucket) <= clock)
  }

  lemma StepSimulates(swept: Clients, ref: Clients, op: Op, clock: nat)
    requires Simulates(swept, ref, clock)
    requires clock <= Start(op) <= End(op) <= Start(op) + MAX_STALL
    ensures Simulates(Next(swept, op, true), Next(ref, op, false), End(op))
    ensures op.Call? ==> Take(BucketOf(swept, op.id), op.at).1 == Take(BucketOf(ref, op.id), op.at).1
  {
    if op.Call? {
      assert Level(BucketOf(swept, op.id), op.at) == Level(BucketOf(ref, op.id), op.at);
    }
  }

  lemma {:induction false} RunSimulates(swept: Clients, ref: Clients, ops: seq<Op>, clock: nat)
    requires Simulates(swept, ref, clock)
    requires Ordered(ops, clock) && StallsWithin(ops, MAX_STALL)
    ensures Decisions(swept, ops, true) == Decisions(ref, ops, false)
    decreases ops
  {
    if ops != [] {
      StepSimulates(swept, ref, ops[0], clock);
      RunSimulates(Next(swept, ops[0], true), Next(ref, ops[0], false), ops[1..], End(ops[0]));
    }
  }

  // ----- The bound on a pause is the exact one ------------------------------------------------

  function Repeat(op: Op, n: nat): (ops: seq<Op>)
    ensures |ops| == n && forall x :: x in ops ==> x == op
  {
    if n == 0 then [] else [op] + Repeat(op, n - 1)
  }

  /** Of n calls at one instant, the last passes exactly when n requests' worth is in the bucket. */
  lemma {:induction false} BurstAtOnce(clients: Clients, id: nat, t: nat, n: nat, sweeping: bool)
    requires 0 < n
    ensures Decisions(clients, Repeat(Call(id, t, t), n), sweeping)[n - 1]
            <==> n * COST <= Level(BucketOf(clients, id), t)
    decreases n
  {
    var ops := Repeat(Call(id, t, t), n);
    assert ops[1..] == Repeat(Call(id, t, t), n - 1);
    if 1 < n {
      var after := Next(clients, ops[0], sweeping);
      BurstAtOnce(after, id, t, n - 1, sweeping);
      assert Decisions(clients, ops, sweeping)[n - 1] == Decisions(after, ops[1..], sweeping)[n - 2];
      AfterTake(BucketOf(clients, id), t);
      Scaled(n);
    }
  }

  /** A request that passes costs COST at once; one that does not leaves the level below COST. */
  lemma AfterTake(b: Bucket, t: nat)
    ensures var (after, ok) := Take(b, t);
      Level(after, t) == Level(b, t) - (if ok then COST else 0) && (ok <==> COST <= Level(b, t))
  {
  }

  lemma Scaled(n: nat)
    ensures n == 0 || (n - 1) * COST == n * COST - COST
    ensures 2 <= n ==> COST <= (n - 1) * COST
  {
    if 2 <= n {
      assert (n - 1) * COST == COST + (n - 2) * COST;
    }
  }

  lemma {:induction false} RepeatOrdered(id: nat, t: nat, n: nat)
    ensures Ordered(Repeat(Call(id, t, t), n), t)
  {
    if n != 0 {
      assert Repeat(Call(id, t, t), n)[1..] == Repeat(Call(id, t, t), n - 1);
      RepeatOrdered(id, t, n - 1);
    }
  }

  /** A client is deleted one unit short of a full bucket, and its next burst shows it. */
  function StalledRun(id: nat): seq<Op> {
    [Call(id, 0, MAX_STALL + 1), Sweep(HOUR + 1)] + Repeat(Call(id, HOUR + 1, HOUR + 1), RATE_BURST)
  }

  lemma StalledRunIsObserved(id: nat)
    ensures Ordered(StalledRun(id), 0) && StallsWithin(StalledRun(id), MAX_STALL + 1)
    ensures Decisions(map[], StalledRun(id), true) != Decisions(map[], StalledRun(id), false)
  {
    StalledRunOrdered(id);
    LastOfStalledRun(id, true);
    LastOfStalledRun(id, false);
  }

  lemma StalledRunOrdered(id: nat)
    ensures Ordered(StalledRun(id), 0) && StallsWithin(StalledRun(id), MAX_STALL + 1)
  {
    var ops, burst := StalledRun(id), Repeat(Call(id, HOUR + 1, HOUR + 1), RATE_BURST);
    assert ops[1..] == [Sweep(HOUR + 1)] + burst && ops[1..][1..] == burst;
    RepeatOrdered(id, HOUR + 1, RATE_BURST);
    assert Ordered(ops[1..], MAX_STALL + 1);
  }

  /** The last call of the burst passes only where the client's bucket was made anew. */
  lemma LastOfStalledRun(id: nat, sweeping: bool)
    ensures Decisions(map[], StalledRun(id), sweeping)[RATE_BURST + 1] <==> sweeping
  {
    var ops, burst := StalledRun(id), Repeat(Call(id, HOUR + 1, HOUR + 1), RATE_BURST);
    assert ops[1..] == [Sweep(HOUR + 1)] + burst && ops[1..][1..] == burst;
    var first := Next(map[], ops[0], sweeping);
    assert first[id] == Client(Bucket(CAP - COST, MAX_STALL + 1), 0);
    var second := Next(first, ops[1], sweeping);
    assert Level(BucketOf(second, id), HOUR + 1) == if sweeping then CAP else CAP - 1;
    BurstAtOnce(second, id, HOUR + 1, RATE_BURST, sweeping);
    assert Decisions(first, ops[1..], sweeping)[RATE_BURST] == Decisions(second, burst, sweeping)[RATE_BURST - 1];
  }

  /** Deleting idle buckets is unobservable in every run whose calls pause at most `bound` between
      their two clock readings if and only if `bound` is at most MAX_STALL (one nanosecond more than
      59 minutes 59.8 seconds). */
  lemma SweepUnobservable(bound: nat)
    ensures (forall ops: seq<Op> | Ordered(ops, 0) && StallsWithin(ops, bound) ::
               Decisions(map[], ops, true) == Decisions(map[], ops, false))
            <==> bound <= 3_599_800_000_001
  {
    if bound <= MAX_STALL {
      forall ops: seq<Op> | Ordered(ops, 0) && StallsWithin(ops, bound)
        ensures Decisions(map[], ops, true) == Decisions(map[], ops, false)
      {
        RunSimulates(map[], map[], ops, 0);
      }
    } else {
      StalledRunIsObserved(0);
      assert StallsWithin(StalledRun(0), bound);
    }
  }

  // ----- Traffic bound ------------------------------------------------------------------------

  /** The calls of `id` that passed at a time in [from, to]. */
  function Passed(ops: seq<Op>, ds: seq<bool>, id: nat, from: nat, to: nat): nat
    requires |ds| == |ops|
  {
    if ops == [] then 0
    else (if ops[0].Call? && ops[0].id == id && ds[0] && from <= ops[0].at <= to then 1 else 0)
         + Passed(ops[1..], ds[1..], id, from, to)
  }

  /** The units those calls took. */
  function Spent(ops: seq<Op>, ds: seq<bool>, id: nat, from: nat, to: nat): nat
    requires |ds| == |ops|
  {
    if ops == [] then 0
    else (if ops[0].Call? && ops[0].id == id && ds[0] && from <= ops[0].at <= to then COST else 0)
         + Spent(ops[1..], ds[1..], id, from, to)
  }

  lemma {:induction false} SpentIsPassed(ops: seq<Op>, ds: seq<bool>, id: nat, from: nat, to: nat)
    requires |ds| == |ops|
    ensures Spent(ops, ds, id, from, to) == Passed(ops, ds, id, from, to) * COST
  {
    if ops != [] {
      SpentIsPassed(ops[1..], ds[1..], id, from, to);
    }
  }

  /** The end times alone are ordered too. */
  ghost predicate EndsFrom(ops: seq<Op>, clock: nat) {
    ops == [] || (clock <= End(ops[0]) && EndsFrom(ops[1..], End(ops[0])))
  }

  lemma {:induction false} OrderedEnds(ops: seq<Op>, clock: nat)
    requires Ordered(ops, clock)
    ensures EndsFrom(ops, clock)
  {
    if ops != [] {
      OrderedEnds(ops[1..], End(ops[0]));
    }
  }

  lemma LevelGrows(b: Bucket, t: nat, later: nat)
    requires t <= later
    ensures Level(b, later) <= Level(b, t) + (later - t)
  {
  }

  lemma LevelRefills(b: Bucket, t: nat, later: nat)
    requires b.last <= t <= later
    ensures Level(b, later) == CAP || Level(b, later) == Level(b, t) + (later - t)
  {
  }

  /** From inside the window, what passes is paid by the bucket and by the refill still to come. */
  lemma {:induction false} SpentIsPaid(clients: Clients, ops: seq<Op>, id: nat, clock: nat, from: nat, to: nat)
    requires EndsFrom(ops, clock) && from <= clock
    ensures clock <= to ==> Spent(ops, Decisions(clients, ops, false), id, from, to)
                            <= Level(BucketOf(clients, id), clock) + (to - clock)
    ensures to < clock ==> Spent(ops, Decisions(clients, ops, false), id, from, to) == 0
    decreases ops
  {
    if ops != [] {
      var after := Next(clients, ops[0], false);
      SpentIsPaid(after, ops[1..], id, End(ops[0]), from, to);
      assert Decisions(clients, ops, false)[1..] == Decisions(after, ops[1..], false);
      AfterTake(BucketOf(clients, id), End(ops[0]));
      LevelGrows(BucketOf(clients, id), clock, End(ops[0]));
    }
  }

  lemma {:induction false} WindowBound(clients: Clients, ops: seq<Op>, id: nat, clock: nat, from: nat, to: nat)
    requires EndsFrom(ops, clock) && from <= to
    ensures Spent(ops, Decisions(clients, ops, false), id, from, to) <= CAP + (to - from)
    decreases ops
  {
    if ops != [] {
      if End(ops[0]) < from {
        var after := Next(clients, ops[0], false);
        WindowBound(after, ops[1..], id, End(ops[0]), from, to);
        assert Decisions(clients, ops, false)[1..] == Decisions(after, ops[1..], false);
      } else {
        assert EndsFrom(ops, from);
        SpentIsPaid(clients, ops, id, from, from, to);
      }
    }
  }

  /** In any run, deletions and re-creations included, at most 10 + 5 * T calls of one client pass
      in any window of T seconds. */
  lemma TrafficBound(ops: seq<Op>, id: nat, from: nat, seconds: nat)
    requires Ordered(ops, 0) && StallsWithin(ops, MAX_STALL)
    ensures Passed(ops, Decisions(map[], ops, true), id, from, from + seconds * SECOND)
            <= 10 + 5 * seconds
  {
    var to, ds := from + seconds * SECOND, Decisions(map[], ops, true);
    RunSimulates(map[], map[], ops, 0);
    OrderedEnds(ops, 0);
    WindowBound(map[], ops, id, 0, from, to);
    SpentIsPassed(ops, ds, id, from, to);
    InRequests(Passed(ops, ds, id, from, to), seconds);
  }

  lemma InRequests(passed: nat, seconds: nat)
    requires passed * COST <= CAP + seconds * SECOND
    ensures passed <= RATE_BURST + RATE_LIMIT * seconds
  {
    assert COST == 200_000_000 && SECOND == RATE_LIMIT * COST;
  }

  // ----- Which calls pass ---------------------------------------------------------------------

  function StateAfter(clients: Clients, ops: seq<Op>, sweeping: bool): Clients
    decreases ops
  {
    if ops == [] then clients else StateAfter(Next(clients, ops[0], sweeping), ops[1..], sweeping)
  }

  lemma {:induction false} LastDecision(clients: Clients, ops: seq<Op>, op: Op, sweeping: bool)
    requires op.Call?
    ensures Decisions(clients, ops + [op], sweeping)[|ops|]
            == Take(BucketOf(StateAfter(clients, ops, sweeping), op.id), op.at).1
    decreases ops
  {
    if ops != [] {
      assert (ops + [op])[1..] == ops[1..] + [op];
      LastDecision(Next(clients, ops[0], sweeping), ops[1..], op, sweeping);
    }
  }

  // ----- Which clients are kept ---------------------------------------------------------------

  /** When the client was last seen in a run, if at all. */
  function LastSeen(ops: seq<Op>, id: nat): Option<nat> {
    if ops == [] then None
    else if ops[|ops| - 1].Call? && ops[|ops| - 1].id == id then Some(ops[|ops| - 1].seen)
    else LastSeen(ops[..|ops| - 1], id)
  }

  /** Since the client was last seen, no sweep came more than an hour later. */
  predicate IsKept(ops: seq<Op>, id: nat) {
    if ops == [] then false
    else if ops[|ops| - 1].Call? && ops[|ops| - 1].id == id then true
    else
      && IsKept(ops[..|ops| - 1], id)
      && (ops[|ops| - 1].Sweep? ==> ops[|ops| - 1].now <= LastSeen(ops, id).UnwrapOr(0) + 3600 * 1_000_000_000)
  }

  lemma {:induction false} StateAfterLast(clients: Clients, ops: seq<Op>, op: Op, sweeping: bool)
    ensures StateAfter(clients, ops + [op], sweeping) == Next(StateAfter(clients, ops, sweeping), op, sweeping)
    decreases ops
  {
    if ops != [] {
      assert (ops + [op])[1..] == ops[1..] + [op];
      StateAfterLast(Next(clients, ops[0], sweeping), ops[1..], op, sweeping);
    }
  }

  /** Over any run the map holds exactly the clients that no sweep found idle for more than an hour. */
  lemma {:induction false} KeptIffSeen(ops: seq<Op>, id: nat)
    ensures var clients := StateAfter(map[], ops, true);
      && (id in clients <==> IsKept(ops, id))
      && (id in clients ==> LastSeen(ops, id) == Some(clients[id].seen))
  {
    if ops != [] {
      var front, op := ops[..|ops| - 1], ops[|ops| - 1];
      KeptIffSeen(front, id);
      StateAfterLast(map[], front, op, true);
      assert front + [op] == ops;
    }
  }

  lemma {:induction false} OrderedPrefix(ops: seq<Op>, op: Op, clock: nat)
    requires Ordered(ops + [op], clock)
    ensures Ordered(ops, clock) && EndsBy(ops, clock, End(op))
    decreases ops
  {
    assert ops != [] ==> (ops + [op])[1..] == ops[1..] + [op];
    if ops != [] {
      OrderedPrefix(ops[1..], op, End(ops[0]));
    }
  }

  ghost predicate EndsBy(ops: seq<Op>, clock: nat, t: nat) {
    if ops == [] then clock <= t else clock <= End(ops[0]) && EndsBy(ops[1..], End(ops[0]), t)
  }

  lemma {:induction false} SpentFromEarlier(ops: seq<Op>, ds: seq<bool>, id: nat, clock: nat, s: nat, t: nat)
    requires |ds| == |ops| && EndsBy(ops, clock, t) && s <= clock
    ensures Spent(ops, ds, id, s, t) == Spent(ops, ds, id, clock, t) && clock <= t
    decreases ops
  {
    if ops != [] {
      SpentFromEarlier(ops[1..], ds[1..], id, End(ops[0]), s, t);
      SpentFromEarlier(ops[1..], ds[1..], id, End(ops[0]), clock, t);
    }
  }

  /** What is left to take at t, seen over the window that opens at `from`. */
  function Allowance(ops: seq<Op>, ds: seq<bool>, id: nat, from: nat, t: nat): int
    requires |ds| == |ops|
  {
    CAP + (t - from) - Spent(ops, ds, id, from, t)
  }

  /** The level at the end of a run is the least of the allowances of all windows and of what the
      bucket started with; `from` is a window that attains it, unless the start does. */
  lemma {:induction false} LevelIsLeastAllowance(clients: Clients, ops: seq<Op>, id: nat, clock: nat, t: nat)
    returns (from: nat)
    requires EndsBy(ops, clock, t) && BucketOf(clients, id).last <= clock
    ensures clock <= from <= t
    ensures var ds := Decisions(clients, ops, false);
      var end := Level(BucketOf(StateAfter(clients, ops, false), id), t);
      var start := Level(BucketOf(clients, id), clock) + (t - clock) - Spent(ops, ds, id, clock, t);
      && end <= start
      && (forall s | clock <= s <= t :: end <= Allowance(ops, ds, id, s, t))
      && (end == start || end == Allowance(ops, ds, id, from, t))
    decreases ops
  {
    from := t;
    if ops != [] {
      var a, after := End(ops[0]), Next(clients, ops[0], false);
      var ds, ds' := Decisions(clients, ops, false), Decisions(after, ops[1..], false);
      from := LevelIsLeastAllowance(after, ops[1..], id, a, t);
      var end := Level(BucketOf(StateAfter(clients, ops, false), id), t);
      forall s | clock <= s <= t
        ensures end <= Allowance(ops, ds, id, s, t)
      {
        HeadSpent(clients, ops, id, clock, s, t);
        assert a < s ==> end <= Allowance(ops[1..], ds', id, s, t);
      }
      LevelRefills(BucketOf(clients, id), clock, a);
      HeadSpent(clients, ops, id, clock, clock, t);
      HeadSpent(clients, ops, id, clock, a, t);
      HeadSpent(clients, ops, id, clock, from, t);
      if end != Allowance(ops[1..], ds', id, from, t) && Level(BucketOf(clients, id), a) == CAP {
        from := a;
      }
    }
  }

  /** A window that is open at the first step pays for it and for all the rest; a later one for the
      rest from its opening on. */
  lemma HeadSpent(clients: Clients, ops: seq<Op>, id: nat, clock: nat, s: nat, t: nat)
    requires ops != [] && EndsBy(ops, clock, t) && clock <= s
    ensures var a, after := End(ops[0]), Next(clients, ops[0], false);
      var spent := Spent(ops, Decisions(clients, ops, false), id, s, t);
      var rest := Spent(ops[1..], Decisions(after, ops[1..], false), id, if s <= a then a else s, t);
      spent == rest + (if s <= a then Level(BucketOf(clients, id), a) - Level(BucketOf(after, id), a) else 0)
  {
    var a, after := End(ops[0]), Next(clients, ops[0], false);
    assert Decisions(clients, ops, false)[1..] == Decisions(after, ops[1..], false);
    AfterTake(BucketOf(clients, id), a);
    if s <= a {
      SpentFromEarlier(ops[1..], Decisions(after, ops[1..], false), id, a, s, t);
    }
  }

  /** The window from `from` to `at` has let at most 10 + 5 * T requests through, one more counted. */
  ghost predicate HasRoom(ops: seq<Op>, ds: seq<bool>, id: nat, from: nat, at: nat)
    requires |ds| == |ops| && from <= at
  {
    (Passed(ops, ds, id, from, at) + 1) * 1_000_000_000 <= 10 * 1_000_000_000 + 5 * (at - from)
  }

  /** The answer to the last call of a run. */
  function LastAnswer(ops: seq<Op>, call: Op, sweeping: bool): bool {
    Decisions(map[], ops + [call], sweeping)[|ops|]
  }

  ghost predicate NoWindowIsFull(ops: seq<Op>, id: nat, at: nat, sweeping: bool) {
    forall from | 0 <= from <= at :: HasRoom(ops, Decisions(map[], ops, sweeping), id, from, at)
  }

  lemma RoomByAllowance(ops: seq<Op>, ds: seq<bool>, id: nat, from: nat, at: nat)
    requires |ds| == |ops| && from <= at
    ensures HasRoom(ops, ds, id, from, at) <==> COST <= Allowance(ops, ds, id, from, at)
  {
    SpentIsPassed(ops, ds, id, from, at);
    assert COST == 200_000_000 && CAP == 2_000_000_000;
  }

  /** A call passes exactly when, counting it, no window that ends with it has let more than
      10 + 5 * T requests through: the bucket neither lets more pass nor turns a request away
      without a full window to show for it. Deletions by the sweeper change nothing. */
  lemma PassesIffNoWindowIsFull(ops: seq<Op>, call: Op)
    requires call.Call? && Ordered(ops + [call], 0) && StallsWithin(ops + [call], MAX_STALL)
    ensures LastAnswer(ops, call, true) <==> NoWindowIsFull(ops, call.id, call.at, true)
  {
    OrderedPrefix(ops, call, 0);
    RunSimulates(map[], map[], ops, 0);
    RunSimulates(map[], map[], ops + [call], 0);
    LastDecision(map[], ops, call, false);
    PassesByAllowance(ops, call.id, call.at);
    var ds := Decisions(map[], ops, false);
    forall from | 0 <= from <= call.at
      ensures HasRoom(ops, ds, call.id, from, call.at) <==> COST <= Allowance(ops, ds, call.id, from, call.at)
    {
      RoomByAllowance(ops, ds, call.id, from, call.at);
    }
  }

  lemma PassesByAllowance(ops: seq<Op>, id: nat, at: nat)
    requires EndsBy(ops, 0, at)
    ensures Take(BucketOf(StateAfter(map[], ops, false), id), at).1
            <==> forall from | 0 <= from <= at :: COST <= Allowance(ops, Decisions(map[], ops, false), id, from, at)
  {
    var from := LevelIsLeastAllowance(map[], ops, id, 0, at);
    AfterTake(BucketOf(StateAfter(map[], ops, false), id), at);
    assert COST <= CAP == Level(BucketOf(map[], id), 0);
    var ds := Decisions(map[], ops, false);
    assert Allowance(ops, ds, id, 0, at) == CAP + at - Spent(ops, ds, id, 0, at);
    assert Level(BucketOf(StateAfter(map[], ops, false), id), at) == Allowance(ops, ds, id, from, at)
        || Level(BucketOf(StateAfter(map[], ops, false), id), at) == Allowance(ops, ds, id, 0, at);
  }
}
