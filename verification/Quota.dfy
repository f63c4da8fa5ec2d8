/**
 The storage quota ledger: one row per user with the bytes granted, used and reserved. The columns
 are BIGINT UNSIGNED, the handlers' sizes are int64; an UPDATE whose result leaves the column's range
 is an error of the database. Quota 0 means unlimited.
 */
module Quota {
  import opened Wrappers

  const UINT64: nat := 0x1_0000_0000_0000_0000
  const INT64: int := 0x8000_0000_0000_0000

  type uint64 = x: int | 0 <= x < UINT64
  type int64 = x: int | -INT64 <= x < INT64

  /** Go's subtraction of uint64 values. */
  function Sub(a: uint64, b: uint64): uint64 { (a - b) % UINT64 }

  datatype Row = Row(quota: uint64, used: uint64, reserved: uint64)

  type Rows = map<nat, Row>

  /** The test that ReserveStorage makes. */
  predicate Exceeds(row: Row, size: int64)
    requires 0 < size
  {
    row.quota > 0 && (row.used > row.quota || row.reserved > Sub(row.quota, row.used)
                      || size > Sub(Sub(row.quota, row.used), row.reserved))
  }

  /** The space that the quota handler advertises. */
  function AvailableQuota(row: Row): uint64 {
    if row.quota == 0 || row.used >= row.quota || row.reserved >= Sub(row.quota, row.used) then 0
    else Sub(Sub(row.quota, row.used), row.reserved)
  }

  /** For a limited user, what is advertised is what is accepted, and both are what unbounded
      arithmetic would say, although used + reserved + size need not fit in 64 bits. */
  lemma AdvertisedIsAccepted(row: Row, size: int64)
    requires 0 < size && 0 < row.quota
    ensures !Exceeds(row, size) <==> size <= AvailableQuota(row)
    ensures !Exceeds(row, size) <==> row.used + row.reserved + size <= row.quota
  {
    assert row.used <= row.quota ==> Sub(row.quota, row.used) == row.quota - row.used;
    assert row.used <= row.quota && row.reserved <= row.quota - row.used ==>
        Sub(Sub(row.quota, row.used), row.reserved) == row.quota - row.used - row.reserved;
  }

  /** For an unlimited user the two disagree on every size: everything is accepted that the column can
      hold, and nothing is advertised. */
  lemma UnlimitedAdvertisesNothing(row: Row, size: int64)
    requires 0 < size && row.quota == 0
    ensures !Exceeds(row, size) && AvailableQuota(row) == 0
  {
  }

  // ----- The operations -----------------------------------------------------------------------

  datatype Op =
    | Ensure(user: nat)
    | Reserve(user: nat, size: int64)
    | Commit(user: nat, size: int64)
    | Release(user: nat, size: int64)
    | ReleaseAll(user: nat)
    | Reset(user: nat)

  predicate InRange(x: int) { 0 <= x < UINT64 }

  /** Whether an operation succeeds; it changes nothing when it does not. */
  predicate Accepts(rows: Rows, op: Op) {
    op.user != 0 &&
    match op
    case Ensure(_) => true
    case Reserve(user, size) =>
      size > 0 && user in rows && !Exceeds(rows[user], size) && InRange(rows[user].reserved + size)
    case Commit(user, size) =>
      size > 0 && user in rows && rows[user].reserved >= size && InRange(rows[user].used + size)
    case Release(user, size) => size > 0 && user in rows && rows[user].reserved >= size
    case ReleaseAll(_) => true
    case Reset(_) => true
  }

  function Next(rows: Rows, op: Op): Rows {
    if !Accepts(rows, op) then rows
    else if op.user !in rows then (if op.Ensure? then rows[op.user := Row(0, 0, 0)] else rows)
    else
      var row := rows[op.user];
      match op
      case Ensure(_) => rows
      case Reserve(user, size) => rows[user := row.(reserved := row.reserved + size)]
      case Commit(user, size) => rows[user := row.(reserved := row.reserved - size, used := row.used + size)]
      case Release(user, size) => rows[user := row.(reserved := row.reserved - size)]
      case ReleaseAll(user) => rows[user := row.(reserved := 0)]
      case Reset(user) => rows[user := row.(used := 0, reserved := 0)]
  }

  /** Each method writes by one statement or transaction, whose outcome is a parameter. */
  class Repository {
    var rows: Rows

    method EnsureStorageQuota(user: nat, outcome: Outcome) returns (r: Result<()>)
      modifies this
      ensures rows == if outcome.NotApplied? then old(rows) else Next(old(rows), Ensure(user))
      ensures r.Success? <==> outcome.Applied? && Accepts(old(rows), Ensure(user))
    {
      if user == 0 { return Failure; }
      if outcome.NotApplied? { return Failure; }
      if user !in rows { rows := rows[user := Row(0, 0, 0)]; }
      r := Reply(outcome);
    }

    /** `readFails` tells whether the SELECT of the transaction fails, `outcome` what becomes of the rest. */
    method ReserveStorage(user: nat, size: int64, readFails: bool, outcome: Outcome) returns (r: Result<()>)
      modifies this
      ensures rows == if readFails || outcome.NotApplied? then old(rows) else Next(old(rows), Reserve(user, size))
      ensures r.Success? <==> !readFails && outcome.Applied? && Accepts(old(rows), Reserve(user, size))
    {
      if user == 0 || size <= 0 { return Failure; }
      if readFails { return Failure; }
      if user !in rows { return Failure; }
      var Row(quota, used, reserved) := rows[user];
      if quota > 0 && (used > quota || reserved > Sub(quota, used) || size > Sub(Sub(quota, used), reserved)) {
        return Failure;
      }
      if !InRange(reserved + size) || outcome.NotApplied? { return Failure; }
      rows := rows[user := Row(quota, used, reserved + size)];
      r := Reply(outcome);
    }

    method CommitStorage(user: nat, size: int64, outcome: Outcome) returns (r: Result<()>)
      modifies this
      ensures rows == if outcome.NotApplied? then old(rows) else Next(old(rows), Commit(user, size))
      ensures r.Success? <==> outcome.Applied? && Accepts(old(rows), Commit(user, size))
    {
      if user == 0 || size <= 0 { return Failure; }
      if outcome.NotApplied? { return Failure; }
      var rowsAffected := 0;
      if user in rows && rows[user].reserved >= size {
        var Row(quota, used, reserved) := rows[user];
        if !InRange(used + size) { return Failure; }
        rows := rows[user := Row(quota, used + size, reserved - size)];
        rowsAffected := 1;
      }
      if !outcome.Applied? { return Failure; }
      r := if rowsAffected != 1 then Failure else Success(());
    }

    method ReleaseStorage(user: nat, size: int64, outcome: Outcome) returns (r: Result<()>)
      modifies this
      ensures rows == if outcome.NotApplied? then old(rows) else Next(old(rows), Release(user, size))
      ensures r.Success? <==> outcome.Applied? && Accepts(old(rows), Release(user, size))
    {
      if user == 0 || size <= 0 { return Failure; }
      if outcome.NotApplied? { return Failure; }
      var rowsAffected := 0;
      if user in rows && rows[user].reserved >= size {
        rows := rows[user := rows[user].(reserved := rows[user].reserved - size)];
        rowsAffected := 1;
      }
      if !outcome.Applied? { return Failure; }
      r := if rowsAffected != 1 then Failure else Success(());
    }

    method ReleaseAllReservedStorage(user: nat, outcome: Outcome) returns (r: Result<()>)
      modifies this
      ensures rows == if outcome.NotApplied? then old(rows) else Next(old(rows), ReleaseAll(user))
      ensures r.Success? <==> outcome.Applied? && user != 0
    {
      if user == 0 { return Failure; }
      if outcome.NotApplied? { return Failure; }
      if user in rows { rows := rows[user := rows[user].(reserved := 0)]; }
      r := Reply(outcome);
    }

    method ResetStorageQuota(user: nat, outcome: Outcome) returns (r: Result<()>)
      modifies this
      ensures rows == if outcome.NotApplied? then old(rows) else Next(old(rows), Reset(user))
      ensures r.Success? <==> outcome.Applied? && user != 0
    {
      if user == 0 { return Failure; }
      if outcome.NotApplied? { return Failure; }
      if user in rows { rows := rows[user := rows[user].(used := 0, reserved := 0)]; }
      r := Reply(outcome);
    }
  }

  function Reply(outcome: Outcome): Result<()> { if outcome.Applied? then Success(()) else Failure }

  // ----- When operations succeed --------------------------------------------------------------

  /** For a limited user within the quota a reservation succeeds if and only if it fits the advertised space, and
      a commit or a release if and only if that much is reserved. */
  lemma SucceedsIff(rows: Rows, user: nat, size: int64)
    requires user != 0 && user in rows && 0 < rows[user].quota && WithinQuota(rows[user])
    ensures Accepts(rows, Reserve(user, size)) <==> 0 < size <= AvailableQuota(rows[user])
    ensures Accepts(rows, Reserve(user, size))
            <==> 0 < size <= rows[user].quota - rows[user].used - rows[user].reserved
    ensures Accepts(rows, Commit(user, size)) <==> 0 < size <= rows[user].reserved
    ensures Accepts(rows, Release(user, size)) <==> 0 < size <= rows[user].reserved
  {
    if 0 < size {
      AdvertisedIsAccepted(rows[user], size);
      NoWrap(rows[user], size);
    }
  }

  /** For any other user too: without a quota what the column can hold is accepted, and a user without a row, or
      the user 0, never gets anything. */
  lemma SucceedsOtherwise(rows: Rows, user: nat, size: int64)
    ensures user == 0 || user !in rows || size <= 0 ==>
      !Accepts(rows, Reserve(user, size)) && !Accepts(rows, Commit(user, size)) && !Accepts(rows, Release(user, size))
    ensures user != 0 && user in rows && 0 < size && rows[user].quota == 0 ==>
      (Accepts(rows, Reserve(user, size)) <==> rows[user].reserved + size < UINT64)
    ensures user != 0 && user in rows && 0 < size ==>
      && (Accepts(rows, Commit(user, size)) <==> size <= rows[user].reserved && rows[user].used + size < UINT64)
      && (Accepts(rows, Release(user, size)) <==> size <= rows[user].reserved)
    ensures forall op: Op | op.Ensure? || op.ReleaseAll? || op.Reset? :: Accepts(rows, op) <==> op.user != 0
  {
  }

  /** What an operation that succeeds does to the rows: it is about one user, whose row it creates with nothing in
      it, or moves bytes in; no operation ever changes a quota. */
  lemma StepMoves(rows: Rows, op: Op)
    ensures var after := Next(rows, op);
      && after.Keys == (if op.Ensure? && op.user != 0 then rows.Keys + {op.user} else rows.Keys)
      && (op.user in after && op.user !in rows ==> after[op.user] == Row(0, 0, 0))
      && (forall u | u in rows :: after[u].quota == rows[u].quota && (u != op.user ==> after[u] == rows[u]))
      && (!Accepts(rows, op) ==> after == rows)
    ensures op.user in rows && Accepts(rows, op) ==>
      var (row, after) := (rows[op.user], Next(rows, op)[op.user]);
      && after.used - row.used == (if op.Commit? then op.size else if op.Reset? then -(row.used as int) else 0)
      && after.reserved - row.reserved
         == (if op.Reserve? then op.size as int
             else if op.Commit? || op.Release? then -(op.size as int)
             else if op.Reset? || op.ReleaseAll? then -(row.reserved as int)
             else 0)
  {
  }

  // ----- Runs ---------------------------------------------------------------------------------

  function After(rows: Rows, ops: seq<Op>): Rows {
    if ops == [] then rows else Next(After(rows, ops[..|ops| - 1]), ops[|ops| - 1])
  }

  predicate WithinQuota(row: Row) { row.quota > 0 ==> row.used + row.reserved <= row.quota }

  function Max(a: int, b: int): int { if a < b then b else a }

  /** No sequence of operations, stale or repeated ones included, changes the quota of a limited user or
      takes its row over the quota; a row that already is over it never grows. */
  lemma {:induction false} StaysWithinQuota(rows: Rows, ops: seq<Op>, user: nat)
    requires user in rows && 0 < rows[user].quota
    ensures user in After(rows, ops)
    ensures var (before, after) := (rows[user], After(rows, ops)[user]);
      && after.quota == before.quota
      && after.used + after.reserved <= Max(before.quota, before.used + before.reserved)
      && (WithinQuota(before) ==> WithinQuota(after))
  {
    if ops != [] {
      StaysWithinQuota(rows, ops[..|ops| - 1], user);
      var op := ops[|ops| - 1];
      if op.Reserve? && op.user == user && op.size > 0 {
        AdvertisedIsAccepted(After(rows, ops[..|ops| - 1])[user], op.size);
      }
    }
  }

  /** For a limited user the database never meets a value out of range: an operation fails only because
      its arguments are wrong or the quota or the reservation does not suffice. */
  lemma NoWrap(row: Row, size: int64)
    requires 0 < size && 0 < row.quota && WithinQuota(row)
    ensures !Exceeds(row, size) ==> InRange(row.reserved + size)
    ensures size <= row.reserved ==> InRange(row.used + size) && InRange(row.reserved - size)
  {
    AdvertisedIsAccepted(row, size);
  }

  /** The bytes of the accepted operations of one kind and user over a run. */
  function Total(rows: Rows, ops: seq<Op>, user: nat, kind: Op -> bool, size: Op -> int): int {
    if ops == [] then 0
    else
      var front, op := ops[..|ops| - 1], ops[|ops| - 1];
      Total(rows, front, user, kind, size)
      + (if op.user == user && kind(op) && Accepts(After(rows, front), op) then size(op) else 0)
  }

  function Size(op: Op): int { if op.Reserve? || op.Commit? || op.Release? then op.size else 0 }

  predicate IsAny(op: Op) { true }

  predicate IsCommit(op: Op) { op.Commit? }

  predicate IsReset(op: Op) { op.Reset? }

  predicate ClearsReserved(op: Op) { op.Reset? || op.ReleaseAll? }

  /** What an operation adds to the reserved bytes. */
  function Change(op: Op): int {
    if op.Reserve? then op.size else if op.Commit? || op.Release? then -(op.size as int) else 0
  }

  lemma {:induction false} AfterPrefix(rows: Rows, ops: seq<Op>, k: nat)
    requires k <= |ops|
    ensures After(rows, ops) == After(After(rows, ops[..k]), ops[k..])
  {
    if k == |ops| {
      assert ops[..k] == ops;
    } else {
      var n := |ops| - 1;
      AfterPrefix(rows, ops[..n], k);
      assert ops[..n][..k] == ops[..k] && ops[..n][k..] == ops[k..][..n - k];
    }
  }

  lemma {:induction false} UsedIsCommitted(rows: Rows, ops: seq<Op>, user: nat)
    requires user in rows && forall op | op in ops && op.user == user :: !op.Reset?
    ensures user in After(rows, ops)
    ensures After(rows, ops)[user].used == rows[user].used + Total(rows, ops, user, IsCommit, Size)
  {
    if ops != [] {
      UsedIsCommitted(rows, ops[..|ops| - 1], user);
      assert ops[|ops| - 1] in ops;
    }
  }

  lemma {:induction false} ReservedIsOutstanding(rows: Rows, ops: seq<Op>, user: nat)
    requires user in rows && forall op | op in ops && op.user == user :: !op.Reset? && !op.ReleaseAll?
    ensures user in After(rows, ops)
    ensures After(rows, ops)[user].reserved
            == rows[user].reserved + Total(rows, ops, user, IsAny, Change)
  {
    if ops != [] {
      ReservedIsOutstanding(rows, ops[..|ops| - 1], user);
      assert ops[|ops| - 1] in ops;
    }
  }

  lemma {:induction false} RowStays(rows: Rows, ops: seq<Op>, user: nat)
    requires user in rows
    ensures user in After(rows, ops)
  {
    if ops != [] {
      RowStays(rows, ops[..|ops| - 1], user);
    }
  }

  /** How much of a run there is up to the last operation on the user that clears something; 0 if none does. */
  function LastClearing(ops: seq<Op>, user: nat, clears: Op -> bool): (k: nat)
    ensures k <= |ops|
    ensures 0 < k ==> ops[k - 1].user == user && clears(ops[k - 1])
  {
    if ops == [] then 0
    else if ops[|ops| - 1].user == user && clears(ops[|ops| - 1]) then |ops|
    else LastClearing(ops[..|ops| - 1], user, clears)
  }

  lemma {:induction false} NothingClearsSince(ops: seq<Op>, user: nat, clears: Op -> bool)
    ensures forall op | op in ops[LastClearing(ops, user, clears)..] && op.user == user :: !clears(op)
  {
    if LastClearing(ops, user, clears) < |ops| {
      NothingClearsSince(ops[..|ops| - 1], user, clears);
    }
  }

  lemma ClearedThen(rows: Rows, ops: seq<Op>, user: nat, k: nat)
    requires user in rows && user != 0 && 0 < k <= |ops| && ops[k - 1].user == user
    ensures user in After(rows, ops[..k])
    ensures ops[k - 1].Reset? ==> After(rows, ops[..k])[user].used == 0
    ensures ops[k - 1].Reset? || ops[k - 1].ReleaseAll? ==> After(rows, ops[..k])[user].reserved == 0
  {
    RowStays(rows, ops[..k - 1], user);
    assert ops[..k][..k - 1] == ops[..k - 1];
  }

  /** Conservation of what is used, over any run: it is what was committed since the last reset; other users'
      operations move nothing. */
  lemma UsedSinceReset(rows: Rows, ops: seq<Op>, user: nat, k: nat)
    requires user in rows && user != 0 && k == LastClearing(ops, user, IsReset)
    ensures user in After(rows, ops)
    ensures After(rows, ops)[user].used
            == (if k == 0 then rows[user].used else 0)
               + Total(After(rows, ops[..k]), ops[k..], user, IsCommit, Size)
  {
    AfterPrefix(rows, ops, k);
    if 0 < k {
      ClearedThen(rows, ops, user, k);
    }
    NothingClearsSince(ops, user, IsReset);
    UsedIsCommitted(After(rows, ops[..k]), ops[k..], user);
  }

  /** Conservation of what is reserved, over any run: it is what was reserved, less what was committed and
      released, since the last reset or release of everything. */
  lemma ReservedSinceClearing(rows: Rows, ops: seq<Op>, user: nat, k: nat)
    requires user in rows && user != 0 && k == LastClearing(ops, user, ClearsReserved)
    ensures user in After(rows, ops)
    ensures After(rows, ops)[user].reserved
            == (if k == 0 then rows[user].reserved else 0)
               + Total(After(rows, ops[..k]), ops[k..], user, IsAny, Change)
  {
    AfterPrefix(rows, ops, k);
    if 0 < k {
      ClearedThen(rows, ops, user, k);
    }
    NothingClearsSince(ops, user, ClearsReserved);
    ReservedIsOutstanding(After(rows, ops[..k]), ops[k..], user);
  }
}
