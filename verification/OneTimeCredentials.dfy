/**
 One-time credentials kept in memory: the registration key under which a password is sent, and the
 pending session between the two factors of a login. Time is in nanoseconds.

 Both stores follow one protocol: a credential is put, and then used by a reader that removes it. The
 pending session is loaded and deleted in one atomic step. The registration key is read first and
 deleted when the reader returns, so that other calls can come in between.
 */
module OneTimeCredentials {
  import opened Wrappers
  import PasswordTransport

  const SECOND: nat := 1_000_000_000
  const REG_KEY_TTL: nat := 30 * SECOND
  const TOTP_PENDING_TTL: nat := 300 * SECOND

  // ----- The protocol -------------------------------------------------------------------------

  /** `created` says when the live credential of an id was put; `dropping` counts, for each id, the
      readers that have not yet deleted it. */
  datatype State = State(created: map<nat, nat>, dropping: map<nat, nat>)

  const INITIAL_STATE := State(map[], map[])

  function Dropping(s: State, id: nat): nat { if id in s.dropping then s.dropping[id] else 0 }

  /** Put; take: load and delete at once; read: load, with the deletion to follow; drop: a reader's
      deletion; expire: a deletion by a timer or a sweep. */
  datatype Op =
    | Put(id: nat, at: nat)
    | Take(id: nat, at: nat)
    | Read(id: nat, at: nat)
    | Drop(id: nat, at: nat)
    | Expire(id: nat, at: nat)

  predicate Fresh(created: map<nat, nat>, id: nat, at: nat, ttl: nat) { id in created && at <= created[id] + ttl }

  function NextCreated(created: map<nat, nat>, op: Op): map<nat, nat> {
    match op
    case Put(id, at) => created[id := at]
    case Take(id, _) => created - {id}
    case Read(_, _) => created
    case Drop(id, _) => created - {id}
    case Expire(id, _) => created - {id}
  }

  function Next(s: State, op: Op): State {
    var dropping := match op
      case Read(id, _) => s.dropping[id := Dropping(s, id) + 1]
      case Drop(id, _) => s.dropping[id := if Dropping(s, id) == 0 then 0 else Dropping(s, id) - 1]
      case _ => s.dropping;
    State(NextCreated(s.created, op), dropping)
  }

  function After(ops: seq<Op>): State {
    if ops == [] then INITIAL_STATE else Next(After(ops[..|ops| - 1]), ops[|ops| - 1])
  }

  /** The last operation used the credential of `id`. */
  predicate LastUses(ops: seq<Op>, id: nat, ttl: nat)
    requires ops != []
  {
    var op := ops[|ops| - 1];
    (op.Take? || op.Read?) && op.id == id && Fresh(After(ops[..|ops| - 1]).created, id, op.at, ttl)
  }

  function Uses(ops: seq<Op>, id: nat, ttl: nat): nat {
    if ops == [] then 0
    else Uses(ops[..|ops| - 1], id, ttl) + (if LastUses(ops, id, ttl) then 1 else 0)
  }

  function Puts(ops: seq<Op>, id: nat): nat {
    if ops == [] then 0
    else Puts(ops[..|ops| - 1], id) + (if ops[|ops| - 1].Put? && ops[|ops| - 1].id == id then 1 else 0)
  }

  /** No credential of `id` is used while another reader of it has yet to delete it. */
  ghost predicate NoOverlap(ops: seq<Op>, id: nat, ttl: nat) {
    ops == [] || (NoOverlap(ops[..|ops| - 1], id, ttl)
                  && (LastUses(ops, id, ttl) ==> Dropping(After(ops[..|ops| - 1]), id) == 0))
  }

  /** Uses never exceed puts in any run without overlapping readers; a live credential that no reader
      is about to delete leaves one use to spare. */
  lemma {:induction false} UsedAtMostAsOftenAsPut(ops: seq<Op>, id: nat, ttl: nat)
    requires NoOverlap(ops, id, ttl)
    ensures var s := After(ops);
      Uses(ops, id, ttl) + (if id in s.created && Dropping(s, id) == 0 then 1 else 0) <= Puts(ops, id)
  {
    if ops != [] {
      UsedAtMostAsOftenAsPut(ops[..|ops| - 1], id, ttl);
    }
  }

  /** Every use happens at most `ttl` after a put of the same id. */
  lemma {:induction false} UsedInTime(ops: seq<Op>, id: nat, ttl: nat) returns (i: nat)
    requires ops != [] && LastUses(ops, id, ttl)
    ensures i < |ops| && ops[i].Put? && ops[i].id == id && ops[|ops| - 1].at <= ops[i].at + ttl
  {
    i := PutBefore(ops[..|ops| - 1], id);
  }

  lemma {:induction false} PutBefore(ops: seq<Op>, id: nat) returns (i: nat)
    requires id in After(ops).created
    ensures i < |ops| && ops[i] == Put(id, After(ops).created[id])
  {
    if ops[|ops| - 1].Put? && ops[|ops| - 1].id == id {
      i := |ops| - 1;
    } else {
      i := PutBefore(ops[..|ops| - 1], id);
    }
  }

  /** The step puts or removes the credential of `id`. */
  predicate Replaces(op: Op, id: nat) { !op.Read? && op.id == id }

  ghost predicate IsLeftAlone(ops: seq<Op>, id: nat) {
    ops == [] || (IsLeftAlone(ops[..|ops| - 1], id) && !Replaces(ops[|ops| - 1], id))
  }

  lemma {:induction false} PutStays(ops: seq<Op>, more: seq<Op>, id: nat, at: nat)
    requires IsLeftAlone(more, id)
    ensures id in After(ops + [Put(id, at)] + more).created && After(ops + [Put(id, at)] + more).created[id] == at
  {
    var begun := ops + [Put(id, at)];
    if more == [] {
      assert begun + more == begun && begun[..|ops|] == ops;
    } else {
      PutStays(ops, more[..|more| - 1], id, at);
      assert (begun + more)[..|begun + more| - 1] == begun + more[..|more| - 1];
    }
  }

  /** A credential that was put, and neither put again nor removed, is usable exactly until its time to live
      ends. */
  lemma UsableUntilExpiry(ops: seq<Op>, more: seq<Op>, id: nat, at: nat, use: Op, ttl: nat)
    requires IsLeftAlone(more, id) && (use.Read? || use.Take?) && use.id == id
    ensures LastUses(ops + [Put(id, at)] + more + [use], id, ttl) <==> use.at <= at + ttl
  {
    PutStays(ops, more, id, at);
    var before := ops + [Put(id, at)] + more;
    assert (before + [use])[..|before|] == before;
  }

  /** The times to live: 30 seconds for a registration key, five minutes for a pending session. */
  lemma TimesToLive(created: map<nat, nat>, id: nat, at: nat)
    ensures Fresh(created, id, at, REG_KEY_TTL) <==> id in created && at - created[id] <= 30_000_000_000
    ensures Fresh(created, id, at, TOTP_PENDING_TTL) <==> id in created && at - created[id] <= 300_000_000_000
  {
  }

  // ----- Atomic readers -----------------------------------------------------------------------

  lemma {:induction false} TakesDoNotOverlap(ops: seq<Op>, id: nat, ttl: nat)
    requires forall op | op in ops :: !op.Read?
    ensures NoOverlap(ops, id, ttl) && Dropping(After(ops), id) == 0
  {
    if ops != [] {
      TakesDoNotOverlap(ops[..|ops| - 1], id, ttl);
    }
  }

  /** Where loading and deleting is one step, a token lets at most as many codes be checked as it was
      stored times, so one; timers and sweeps may delete it at any moment. */
  lemma TakenAtMostOnce(ops: seq<Op>, token: nat)
    requires forall op | op in ops :: !op.Read?
    ensures Uses(ops, token, TOTP_PENDING_TTL) <= Puts(ops, token)
  {
    TakesDoNotOverlap(ops, token, TOTP_PENDING_TTL);
    UsedAtMostAsOftenAsPut(ops, token, TOTP_PENDING_TTL);
  }

  // ----- Readers that delete later ------------------------------------------------------------

  /** Overlapping readers: whatever happened before, a key that is put and read by two readers, before
      either has deleted it, is used twice. */
  lemma OverlappingReadersUseTwice(ops: seq<Op>, id: nat, at: nat, ttl: nat)
    ensures var run := ops + [Put(id, at), Read(id, at), Read(id, at)];
      && Uses(run, id, ttl) == Uses(ops, id, ttl) + 2
      && Puts(run, id) == Puts(ops, id) + 1
      && Dropping(After(run), id) == Dropping(After(ops), id) + 2
  {
    var one, two := ops + [Put(id, at)], ops + [Put(id, at), Read(id, at)];
    var run := ops + [Put(id, at), Read(id, at), Read(id, at)];
    assert one[..|one| - 1] == ops && two[..|two| - 1] == one && run[..|run| - 1] == two;
    assert After(one) == Next(After(ops), Put(id, at)) && After(two) == Next(After(one), Read(id, at));
    assert !LastUses(one, id, ttl) && LastUses(two, id, ttl) && LastUses(run, id, ttl);
    assert Uses(run, id, ttl) == Uses(two, id, ttl) + 1 && Uses(two, id, ttl) == Uses(one, id, ttl) + 1;
    assert Puts(run, id) == Puts(two, id) == Puts(one, id) == Puts(ops, id) + 1;
  }

  /** Every reader deletes later, and never more than `bound` of them are under way for one id. */
  ghost predicate ReadersWithin(ops: seq<Op>, id: nat, bound: nat) {
    ops == [] || (ReadersWithin(ops[..|ops| - 1], id, bound)
                  && !ops[|ops| - 1].Take? && Dropping(After(ops), id) <= bound)
  }

  lemma {:induction false} SingleReadersDoNotOverlap(ops: seq<Op>, id: nat, ttl: nat, bound: nat)
    requires ReadersWithin(ops, id, bound) && bound <= 1
    ensures NoOverlap(ops, id, ttl)
  {
    if ops != [] {
      SingleReadersDoNotOverlap(ops[..|ops| - 1], id, ttl, bound);
    }
  }

  lemma TwoReadersWithin(id: nat, at: nat, bound: nat)
    requires 2 <= bound
    ensures ReadersWithin([] + [Put(id, at), Read(id, at), Read(id, at)], id, bound)
  {
    var one, two, run := [Put(id, at)], [Put(id, at), Read(id, at)], [Put(id, at), Read(id, at), Read(id, at)];
    assert one[..0] == [] && two[..1] == one && run[..2] == two && [] + run == run;
    assert Dropping(After(one), id) == 0 && ReadersWithin(one, id, bound);
    assert Dropping(After(two), id) == 1 && ReadersWithin(two, id, bound);
    assert Dropping(After(run), id) == 2 && ReadersWithin(run, id, bound);
  }

  /** Keys are used at most as often as they are put in all runs with at most `bound` readers of one id at a
      time if and only if `bound` is at most 1: the calls for one client must come one after the other. */
  lemma UsesBoundedIff(ttl: nat, bound: nat)
    ensures (forall ops, id | ReadersWithin(ops, id, bound) :: Uses(ops, id, ttl) <= Puts(ops, id)) <==> bound <= 1
  {
    if bound <= 1 {
      forall ops, id | ReadersWithin(ops, id, bound)
        ensures Uses(ops, id, ttl) <= Puts(ops, id)
      {
        SingleReadersDoNotOverlap(ops, id, ttl, bound);
        UsedAtMostAsOftenAsPut(ops, id, ttl);
      }
    } else {
      var run := [] + [Put(0, 0), Read(0, 0), Read(0, 0)];
      OverlappingReadersUseTwice([], 0, 0, ttl);
      TwoReadersWithin(0, 0, bound);
      assert Uses(run, 0, ttl) == 2 && Puts(run, 0) == 1;
    }
  }

  // ----- The two stores -----------------------------------------------------------------------

  datatype RegData = RegData(created: nat, key: PasswordTransport.Bytes)

  class Exam {
    var regData: map<nat, RegData>

    function Created(): map<nat, nat>
      reads this
    {
      map id | id in regData :: regData[id].created
    }

    method AddRegUser(respId: nat, key: PasswordTransport.Bytes, now: nat)
      modifies this
      ensures regData == old(regData)[respId := RegData(now, key)]
      ensures Created() == NextCreated(old(Created()), Put(respId, now))
    {
      regData := regData[respId := RegData(now, key)];
    }

    /** The part of DecryptPassword before its deferred deletion: the key the password is opened with. */
    method ReadRegKey(respId: nat, now: nat) returns (key: Option<PasswordTransport.Bytes>)
      ensures key.Some? <==> Fresh(Created(), respId, now, REG_KEY_TTL)
      ensures key.Some? ==> key.value == regData[respId].key
    {
      if respId !in regData { return None; }
      if now > regData[respId].created + REG_KEY_TTL { return None; }
      key := Some(regData[respId].key);
    }

    /** The deferred deletion. */
    method DropRegKey(respId: nat, ghost now: nat)
      modifies this
      ensures regData == old(regData) - {respId}
      ensures Created() == NextCreated(old(Created()), Drop(respId, now))
    {
      regData := regData - {respId};
    }

    /** A call that nothing interrupts: the password opens only with a key that is in time, and the key
        is gone afterwards in any case. */
    method DecryptPassword(p: PasswordTransport.Primitives, respId: nat, message: Option<PasswordTransport.Bytes>,
                           now: nat, spare: nat)
      returns (r: PasswordTransport.Outcome)
      requires PasswordTransport.Sound(p)
      modifies this
      ensures regData == old(regData) - {respId}
      ensures r == if Fresh(old(Created()), respId, now, REG_KEY_TTL)
                   then PasswordTransport.Receive(p, message, old(regData)[respId].key)
                   else PasswordTransport.Rejected
    {
      var key := ReadRegKey(respId, now);
      r := PasswordTransport.Rejected;
      if key.Some? {
        r := OpenWith(p, message, key.value, spare);
      }
      DropRegKey(respId, now);
    }
  }

  method OpenWith(p: PasswordTransport.Primitives, message: Option<PasswordTransport.Bytes>,
                  key: PasswordTransport.Bytes, spare: nat)
    returns (r: PasswordTransport.Outcome)
    requires PasswordTransport.Sound(p)
    ensures r == PasswordTransport.Receive(p, message, key)
  {
    var passphrase := new bv8[|key|](i requires 0 <= i < |key| => key[i]);
    assert passphrase[..passphrase.Length] == key;
    r := PasswordTransport.DecryptAESPassword(p, message, passphrase, passphrase.Length, spare);
  }

  datatype PendingSession = PendingSession(userId: nat, respId: nat, created: nat, expiresAt: nat)

  class TotpStore {
    var pending: map<nat, PendingSession>

    function Created(): map<nat, nat>
      reads this
    {
      map token | token in pending :: pending[token].created
    }

    ghost predicate Valid()
      reads this
    {
      forall token | token in pending :: pending[token].expiresAt == pending[token].created + TOTP_PENDING_TTL
    }

    method StoreTotpPending(token: nat, userId: nat, respId: nat, now: nat)
      requires Valid()
      modifies this
      ensures Valid()
      ensures pending == old(pending)[token := PendingSession(userId, respId, now, now + TOTP_PENDING_TTL)]
      ensures Created() == NextCreated(old(Created()), Put(token, now))
    {
      pending := pending[token := PendingSession(userId, respId, now, now + TOTP_PENDING_TTL)];
    }

    method LoadAndDeleteTotpPending(token: nat, now: nat) returns (session: Option<PendingSession>)
      requires Valid()
      modifies this
      ensures Valid() && pending == old(pending) - {token}
      ensures Created() == NextCreated(old(Created()), Take(token, now))
      ensures session.Some? <==> Fresh(old(Created()), token, now, TOTP_PENDING_TTL)
      ensures session.Some? ==> session.value == old(pending)[token]
    {
      if token !in pending { return None; }
      var found := pending[token];
      pending := pending - {token};
      if now > found.expiresAt { return None; }
      session := Some(found);
    }

    /** One tick of the sweep: it removes exactly the sessions that could not be used any more. */
    method CleanupTotpPending(now: nat)
      requires Valid()
      modifies this
      ensures Valid()
      ensures pending == map token | token in old(pending) && now <= old(pending)[token].expiresAt ::
        old(pending)[token]
      ensures forall token, at | now <= at ::
        Fresh(Created(), token, at, TOTP_PENDING_TTL) <==> Fresh(old(Created()), token, at, TOTP_PENDING_TTL)
    {
      var rest := pending.Keys;
      while rest != {}
        invariant rest <= pending.Keys <= old(pending).Keys
        invariant forall t | t in pending :: pending[t] == old(pending)[t]
        invariant forall t | t in old(pending) && t !in rest :: t in pending <==> now <= old(pending)[t].expiresAt
        decreases rest
      {
        var token :| token in rest;
        if now > pending[token].expiresAt {
          pending := pending - {token};
        }
        rest := rest - {token};
      }
    }
  }
}
