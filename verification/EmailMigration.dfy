/**
 The lazy migration of the table user_auth: a user's plain e-mail is replaced by a ciphertext and a
 keyed hash when the user next logs in, and once nobody is left the hash column becomes NOT NULL.

 Comparing e-mails ignores case, as the column's collation does; the hash is taken of the address in
 lower case and never collides, so that it is written as the text it was taken of.
 */
module EmailMigration {
  import opened Wrappers

  function LowerChar(c: char): char {
    if 'A' <= c <= 'Z' then (c as int + 32) as char else c
  }

  function Lower(s: string): (r: string)
    ensures |r| == |s|
  {
    seq(|s|, i requires 0 <= i < |s| => LowerChar(s[i]))
  }

  predicate SameLetter(a: char, b: char) {
    a == b || ('A' <= a <= 'Z' && b as int == a as int + 32) || ('A' <= b <= 'Z' && a as int == b as int + 32)
  }

  /** Two addresses are the same in lower case exactly if they differ in the case of letters only. */
  lemma LowerIff(s: string, t: string)
    ensures Lower(s) == Lower(t) <==> |s| == |t| && forall i | 0 <= i < |s| :: SameLetter(s[i], t[i])
  {
    if Lower(s) == Lower(t) {
      assert |s| == |Lower(s)| == |t|;
      forall i | 0 <= i < |s|
        ensures SameLetter(s[i], t[i])
      {
        assert Lower(s)[i] == Lower(t)[i];
      }
    }
  }

  datatype Email = Plain(address: string) | Encrypted(address: string, nonce: nat)

  datatype Hash = Hmac(text: string)

  function EmailHmac(address: string): Hash { Hmac(Lower(address)) }

  function EncryptEmail(address: string, nonce: nat): Email { Encrypted(Lower(address), nonce) }

  datatype Row = Row(sha: string, email: Email, emailHash: Option<Hash>, confirmed: bool, disabled: bool)

  type Rows = map<nat, Row>

  /** WHERE Email = ? OR EmailHash = ? */
  predicate Matches(row: Row, address: string) {
    || (row.email.Plain? && Lower(row.email.address) == Lower(address))
    || row.emailHash == Some(EmailHmac(address))
  }

  function Finds(rows: Rows, address: string): set<nat> { set u | u in rows && Matches(rows[u], address) }

  function Unmigrated(rows: Rows): set<nat> { set u | u in rows && rows[u].emailHash.None? }

  /** The unique index on the hash refuses a second row with it; NULLs do not count. */
  predicate HashTaken(rows: Rows, address: string, user: nat) {
    exists u | u in rows :: u != user && rows[u].emailHash == Some(EmailHmac(address))
  }

  // ----- The operations -----------------------------------------------------------------------

  /** The table and the schema; the flag that a process keeps in memory, and how many checks it has started
      that have not run yet. `alters` counts the changes of the schema over all time, `unreported` those of
      them that the program took for failed. */
  datatype State = State(rows: Rows, notNull: bool, migrationDone: bool, pending: nat, alters: nat, unreported: nat)

  /** `reported` tells whether the program learns of its update; if not, the update is done all the same. */
  datatype Op =
    | Migrate(user: nat, newHash: string, mail: string, nonce: nat, reported: bool)
    | CreateUser(user: nat, sha: string, mail: string, nonce: nat)
    | DeleteUser(user: nat)
    | UpdatePassword(mail: string, sha: string)
    | ConfirmMail(mail: string)
    | Finalize(countFails: bool, alter: Outcome)
    | Restart

  /** A migration that changes a row. */
  predicate TakesEffect(rows: Rows, op: Op) {
    op.Migrate? && op.user != 0 && op.newHash != "" && op.user in rows && rows[op.user].emailHash.None?
    && !HashTaken(rows, op.mail, op.user)
  }

  /** A registration that is accepted. The address is not looked up before; the unique index alone decides. */
  predicate Creates(rows: Rows, op: Op) {
    op.CreateUser? && op.user != 0 && op.user !in rows && !HashTaken(rows, op.mail, op.user)
  }

  function NextRows(rows: Rows, op: Op): Rows {
    match op
    case Migrate(user, newHash, mail, nonce, _) =>
      if TakesEffect(rows, op)
      then rows[user := rows[user].(sha := newHash, email := EncryptEmail(mail, nonce),
                                    emailHash := Some(EmailHmac(mail)))]
      else rows
    case CreateUser(user, sha, mail, nonce) =>
      if Creates(rows, op)
      then rows[user := Row(sha, EncryptEmail(mail, nonce), Some(EmailHmac(mail)), false, false)] else rows
    case DeleteUser(user) => if user == 0 then rows else rows - {user}
    case UpdatePassword(mail, sha) =>
      map u | u in rows :: if Matches(rows[u], mail) then rows[u].(sha := sha) else rows[u]
    case ConfirmMail(mail) =>
      map u | u in rows :: if Matches(rows[u], mail) then rows[u].(confirmed := true) else rows[u]
    case _ => rows
  }

  function Next(s: State, op: Op): State {
    match op
    case Migrate(_, _, _, _, reported) =>
      s.(rows := NextRows(s.rows, op),
         pending := if TakesEffect(s.rows, op) && reported then s.pending + 1 else s.pending)
    case Finalize(countFails, alter) =>
      var ran := s.(pending := if s.pending == 0 then 0 else s.pending - 1);
      if s.migrationDone || countFails || Unmigrated(s.rows) != {} || alter.NotApplied? then ran
      else ran.(notNull := true, migrationDone := alter.Applied?, alters := s.alters + 1,
                unreported := s.unreported + if alter.Unreported? then 1 else 0)
    case Restart => s.(migrationDone := false, pending := 0)
    case _ => s.(rows := NextRows(s.rows, op))
  }

  /** What a login reads. */
  datatype AuthData = AuthData(sha: string, user: nat, confirmed: bool, disabled: bool, isLegacy: bool)

  class Repository {
    var rows: Rows
    var notNull: bool
    var migrationDone: bool
    ghost var pending: nat
    ghost var alters: nat
    ghost var unreported: nat

    ghost function Abs(): State
      reads this
    {
      State(rows, notNull, migrationDone, pending, alters, unreported)
    }

    /** 0 stands for nobody; of several matches the database returns any. */
    method CheckEmail(address: string, fails: bool) returns (r: Result<nat>)
      requires 0 !in rows
      ensures r.Failure? <==> fails
      ensures r.Success? ==> if Finds(rows, address) == {} then r.value == 0 else r.value in Finds(rows, address)
    {
      if fails { return Failure; }
      var found := Finds(rows, address);
      if found == {} { return Success(0); }
      var user :| user in found;
      r := Success(user);
    }

    method GetAuthData(address: string, fails: bool) returns (r: Result<Option<AuthData>>)
      ensures r.Failure? <==> fails
      ensures r.Success? ==> (r.value.None? <==> Finds(rows, address) == {})
      ensures r.Success? && r.value.Some? ==>
        var data := r.value.value;
        && data.user in Finds(rows, address)
        && data == AuthData(rows[data.user].sha, data.user, rows[data.user].confirmed, rows[data.user].disabled,
                            data.user in Unmigrated(rows))
    {
      if fails { return Failure; }
      var found := Finds(rows, address);
      if found == {} { return Success(None); }
      var user :| user in found;
      var row := rows[user];
      r := Success(Some(AuthData(row.sha, user, row.confirmed, row.disabled, row.emailHash.None?)));
    }

    /** `check` tells whether a final check is started, to run later on its own. */
    method MigrateUserSecurity(user: nat, newHash: string, mail: string, nonce: nat, outcome: Outcome)
      returns (r: Result<()>, check: bool)
      modifies this
      ensures Abs() == if outcome.NotApplied? then old(Abs())
                       else Next(old(Abs()), Migrate(user, newHash, mail, nonce, outcome.Applied?))
      ensures check <==> outcome.Applied? && TakesEffect(old(rows), Migrate(user, newHash, mail, nonce, true))
      ensures r.Success? <==> user != 0 && newHash != "" && outcome.Applied?
                              && (user in Unmigrated(old(rows)) ==> !HashTaken(old(rows), mail, user))
    {
      if user == 0 || newHash == "" { return Failure, false; }
      var affected := 0;
      if user in rows && rows[user].emailHash == None {
        if HashTaken(rows, mail, user) || outcome.NotApplied? { return Failure, false; }
        rows := rows[user := rows[user].(sha := newHash, email := EncryptEmail(mail, nonce),
                                         emailHash := Some(EmailHmac(mail)))];
        affected := 1;
      }
      if !outcome.Applied? { return Failure, false; }
      if affected > 0 {
        pending := pending + 1;
      }
      r, check := Success(()), affected > 0;
    }

    method CheckAndFinalizeMigration(countFails: bool, alter: Outcome)
      modifies this
      ensures Abs() == Next(old(Abs()), Finalize(countFails, alter))
    {
      pending := if pending == 0 then 0 else pending - 1;
      if migrationDone { return; }
      if countFails { return; }
      if |Unmigrated(rows)| > 0 { return; }
      assert Unmigrated(rows) == {};
      if alter.NotApplied? { return; }
      notNull := true;
      alters := alters + 1;
      if alter.Unreported? {
        unreported := unreported + 1;
        return;
      }
      migrationDone := true;
    }

    /** `user` is the identifier that the database assigns; the transaction is rolled back on an error. */
    method InsertUser(user: nat, sha: string, mail: string, nonce: nat, outcome: Outcome) returns (r: Result<nat>)
      requires user != 0 && user !in rows
      modifies this
      ensures Abs() == if outcome.NotApplied? then old(Abs()) else Next(old(Abs()), CreateUser(user, sha, mail, nonce))
      ensures r == if outcome.Applied? && !HashTaken(old(rows), mail, user) then Success(user) else Failure
    {
      var tx := rows;
      if HashTaken(tx, mail, user) { return Failure; }
      tx := tx[user := Row(sha, EncryptEmail(mail, nonce), Some(EmailHmac(mail)), false, false)];
      if outcome.NotApplied? { return Failure; }
      rows := tx;
      r := if outcome.Applied? then Success(user) else Failure;
    }

    method DeleteAllUserData(user: nat, outcome: Outcome) returns (r: Result<()>)
      modifies this
      ensures Abs() == if outcome.NotApplied? then old(Abs()) else Next(old(Abs()), DeleteUser(user))
      ensures r.Success? <==> user != 0 && outcome.Applied?
    {
      if user == 0 { return Failure; }
      if outcome.NotApplied? { return Failure; }
      rows := rows - {user};
      r := if outcome.Applied? then Success(()) else Failure;
    }

    method ChangePassword(mail: string, sha: string, outcome: Outcome) returns (r: Result<()>)
      modifies this
      ensures Abs() == if outcome.NotApplied? then old(Abs()) else Next(old(Abs()), UpdatePassword(mail, sha))
      ensures r.Success? <==> outcome.Applied? && Finds(old(rows), mail) != {}
    {
      if outcome.NotApplied? { return Failure; }
      var found := Finds(rows, mail);
      rows := map u | u in rows :: if u in found then rows[u].(sha := sha) else rows[u];
      r := if found == {} || !outcome.Applied? then Failure else Success(());
    }

    method MarkConfirmed(mail: string, outcome: Outcome) returns (r: Result<()>)
      modifies this
      ensures Abs() == if outcome.NotApplied? then old(Abs()) else Next(old(Abs()), ConfirmMail(mail))
      ensures r.Failure? <==> !outcome.Applied? || forall u | u in Finds(old(rows), mail) :: old(rows)[u].confirmed
    {
      if outcome.NotApplied? { return Failure; }
      var unconfirmed := set u | u in Finds(rows, mail) && !rows[u].confirmed;
      r := if unconfirmed == {} || !outcome.Applied? then Failure else Success(());
      assert forall u | u in Finds(rows, mail) :: u in unconfirmed <==> !rows[u].confirmed;
      rows := map u | u in rows :: if u in unconfirmed then rows[u].(confirmed := true) else rows[u];
    }
  }

  // ----- Lookups ------------------------------------------------------------------------------

  function AddressOf(row: Row): string { Lower(row.email.address) }

  /** Each row is either untouched or migrated, and no two rows stand for one address. */
  ghost predicate Good(rows: Rows) {
    && 0 !in rows
    && (forall u | u in rows ::
          rows[u].emailHash == if rows[u].email.Plain? then None else Some(Hmac(AddressOf(rows[u]))))
    && (forall u, v | u in rows && v in rows && u != v :: AddressOf(rows[u]) != AddressOf(rows[v]))
  }

  lemma LowerTwice(s: string)
    ensures Lower(Lower(s)) == Lower(s)
  {
  }

  lemma FindsByAddress(rows: Rows, address: string)
    requires Good(rows)
    ensures forall u :: u in Finds(rows, address) <==> u in rows && AddressOf(rows[u]) == Lower(address)
    ensures forall u, v | u in Finds(rows, address) && v in Finds(rows, address) :: u == v
  {
  }

  /** A migration that takes effect leaves every lookup as it was if and only if the mail it was given is
      the user's own, up to case. */
  lemma MigrationKeepsLookups(rows: Rows, op: Op)
    requires Good(rows) && TakesEffect(rows, op)
    ensures (forall address :: Finds(NextRows(rows, op), address) == Finds(rows, address))
            <==> Lower(op.mail) == AddressOf(rows[op.user])
    ensures Lower(op.mail) == AddressOf(rows[op.user]) ==> Good(NextRows(rows, op))
  {
    LowerTwice(op.mail);
    var after := NextRows(rows, op);
    if Lower(op.mail) == AddressOf(rows[op.user]) {
      forall address
        ensures Finds(after, address) == Finds(rows, address)
      {
        FindsByAddress(rows, address);
        FindsByAddress(after, address);
      }
    } else {
      assert op.user in Finds(after, op.mail) && op.user !in Finds(rows, op.mail);
    }
  }

  /** An accepted registration keeps addresses unique if and only if its address finds nobody. It is accepted
      whenever its address finds nobody but unmigrated users. */
  lemma CreationKeepsUnique(rows: Rows, op: Op)
    requires Good(rows) && op.CreateUser? && op.user != 0 && op.user !in rows
    ensures Creates(rows, op) <==> Finds(rows, op.mail) <= Unmigrated(rows)
    ensures Creates(rows, op) ==> (Good(NextRows(rows, op)) <==> Finds(rows, op.mail) == {})
  {
    LowerTwice(op.mail);
    FindsByAddress(rows, op.mail);
    if u :| u in Finds(rows, op.mail) {
      var after := NextRows(rows, op);
      assert Creates(rows, op) ==> AddressOf(after[u]) == AddressOf(after[op.user]);
    }
  }

  /** The rows that are still there stand for the same addresses. */
  ghost predicate KeepsAddresses(before: Rows, after: Rows) {
    forall u | u in before && u in after :: AddressOf(after[u]) == AddressOf(before[u])
  }

  /** A user is migrated with its own address; an accepted registration finds nobody. */
  predicate Careful(rows: Rows, op: Op) {
    && (TakesEffect(rows, op) ==> Lower(op.mail) == AddressOf(rows[op.user]))
    && (Creates(rows, op) ==> Finds(rows, op.mail) == {})
  }

  lemma StepKeepsIff(rows: Rows, op: Op)
    requires Good(rows)
    ensures Good(NextRows(rows, op)) && KeepsAddresses(rows, NextRows(rows, op)) <==> Careful(rows, op)
  {
    var after := NextRows(rows, op);
    if TakesEffect(rows, op) {
      LowerTwice(op.mail);
      MigrationKeepsLookups(rows, op);
      assert AddressOf(after[op.user]) == Lower(op.mail);
    } else if Creates(rows, op) {
      CreationKeepsUnique(rows, op);
    } else {
      OthersKeep(rows, op);
    }
  }

  lemma OthersKeep(rows: Rows, op: Op)
    requires Good(rows) && !TakesEffect(rows, op) && !Creates(rows, op)
    ensures Good(NextRows(rows, op)) && KeepsAddresses(rows, NextRows(rows, op))
  {
    var after := NextRows(rows, op);
    assert forall u | u in after :: u in rows && after[u].email == rows[u].email
                                    && after[u].emailHash == rows[u].emailHash;
  }

  // ----- Runs ---------------------------------------------------------------------------------

  function After(s: State, ops: seq<Op>): State {
    if ops == [] then s else Next(After(s, ops[..|ops| - 1]), ops[|ops| - 1])
  }

  /** In every state of the run the table is good and stands for the same addresses as before. */
  ghost predicate KeptThroughout(s: State, ops: seq<Op>) {
    ops == [] || (KeptThroughout(s, ops[..|ops| - 1]) && Good(After(s, ops).rows)
                  && KeepsAddresses(After(s, ops[..|ops| - 1]).rows, After(s, ops).rows))
  }

  ghost predicate CarefulThroughout(s: State, ops: seq<Op>) {
    ops == [] || (CarefulThroughout(s, ops[..|ops| - 1])
                  && Careful(After(s, ops[..|ops| - 1]).rows, ops[|ops| - 1]))
  }

  /** A run keeps addresses unique and in place all the time if and only if every migration that took effect
      was given the user's own address and every registration that was accepted found nobody. Registrations
      that the index rejects do no harm. */
  lemma {:induction false} LookupsKeptIff(s: State, ops: seq<Op>)
    requires Good(s.rows)
    ensures KeptThroughout(s, ops) <==> CarefulThroughout(s, ops)
    ensures KeptThroughout(s, ops) ==> Good(After(s, ops).rows)
  {
    if ops != [] {
      var front, op := ops[..|ops| - 1], ops[|ops| - 1];
      LookupsKeptIff(s, front);
      if KeptThroughout(s, front) {
        RowsAfter(After(s, front), op);
        StepKeepsIff(After(s, front).rows, op);
      }
    }
  }

  /** So each address keeps finding the user it found at the start, and that one alone, until it is deleted. */
  lemma RunKeepsLookups(s: State, ops: seq<Op>, address: string, user: nat)
    requires Good(s.rows) && CarefulThroughout(s, ops) && user in Finds(s.rows, address)
    requires IsNotDeleted(ops, user)
    ensures Finds(After(s, ops).rows, address) == {user}
  {
    AddressStays(s, ops, user);
    LookupsKeptIff(s, ops);
    FindsByAddress(s.rows, address);
    FindsByAddress(After(s, ops).rows, address);
    assert user in Finds(After(s, ops).rows, address);
  }

  ghost predicate IsNotDeleted(ops: seq<Op>, user: nat) {
    ops == [] || (IsNotDeleted(ops[..|ops| - 1], user) && !(ops[|ops| - 1].DeleteUser? && ops[|ops| - 1].user == user))
  }

  lemma RowsAfter(s: State, op: Op)
    ensures Next(s, op).rows == NextRows(s.rows, op)
  {
  }

  lemma {:induction false} AddressStays(s: State, ops: seq<Op>, user: nat)
    requires Good(s.rows) && CarefulThroughout(s, ops) && user in s.rows
    requires IsNotDeleted(ops, user)
    ensures user in After(s, ops).rows && AddressOf(After(s, ops).rows[user]) == AddressOf(s.rows[user])
  {
    if ops != [] {
      var front, op := ops[..|ops| - 1], ops[|ops| - 1];
      AddressStays(s, front, user);
      LookupsKeptIff(s, front);
      StepAddressStays(After(s, front).rows, op, user);
      RowsAfter(After(s, front), op);
    }
  }

  lemma StepAddressStays(rows: Rows, op: Op, user: nat)
    requires Good(rows) && Careful(rows, op) && user in rows && !(op.DeleteUser? && op.user == user)
    ensures user in NextRows(rows, op) && AddressOf(NextRows(rows, op)[user]) == AddressOf(rows[user])
  {
    StepKeepsIff(rows, op);
  }

  // ----- What is stored for a user ------------------------------------------------------------

  /** The step stores a password hash for the user: an accepted registration, a migration that takes effect, or
      a change of password under an address that finds the user. */
  predicate StoresSha(rows: Rows, op: Op, user: nat) {
    match op
    case CreateUser(u, _, _, _) => u == user && Creates(rows, op)
    case Migrate(u, _, _, _, _) => u == user && TakesEffect(rows, op)
    case UpdatePassword(mail, _) => user in Finds(rows, mail)
    case _ => false
  }

  function GivenSha(op: Op): string
    requires op.CreateUser? || op.Migrate? || op.UpdatePassword?
  {
    if op.Migrate? then op.newHash else op.sha
  }

  /** What the table ought to hold for a user after a run, if anything: what was stored last. */
  function LastSha(s: State, ops: seq<Op>, user: nat): Option<string> {
    if ops == [] then if user in s.rows then Some(s.rows[user].sha) else None
    else
      var front, op := ops[..|ops| - 1], ops[|ops| - 1];
      if op.DeleteUser? && op.user == user && user != 0 then None
      else if StoresSha(After(s, front).rows, op, user) then Some(GivenSha(op))
      else LastSha(s, front, user)
  }

  function LastConfirmed(s: State, ops: seq<Op>, user: nat): bool {
    if ops == [] then user in s.rows && s.rows[user].confirmed
    else
      var front, op := ops[..|ops| - 1], ops[|ops| - 1];
      if op.CreateUser? && op.user == user && Creates(After(s, front).rows, op) then false
      else if op.ConfirmMail? && user in Finds(After(s, front).rows, op.mail) then true
      else LastConfirmed(s, front, user)
  }

  lemma StepStores(rows: Rows, op: Op, user: nat)
    ensures user in NextRows(rows, op)
            <==> (user in rows && !(op.DeleteUser? && op.user == user && user != 0)) || StoresSha(rows, op, user)
    ensures user in NextRows(rows, op) ==>
      NextRows(rows, op)[user].sha == if StoresSha(rows, op, user) then GivenSha(op) else rows[user].sha
    ensures user in NextRows(rows, op) ==>
      NextRows(rows, op)[user].confirmed
      == if Creates(rows, op) && op.user == user then false
         else rows[user].confirmed || (op.ConfirmMail? && user in Finds(rows, op.mail))
    ensures user in NextRows(rows, op) ==>
      NextRows(rows, op)[user].disabled == if Creates(rows, op) && op.user == user then false else rows[user].disabled
  {
  }

  /** After any run a user is in the table exactly if it was there or registered, and not deleted since; its hash
      is the one that was stored last, by a registration, a migration or a change of password that reached it, and
      it is confirmed exactly if a confirmation reached it since it registered. */
  lemma {:induction false} StoredIsLastGiven(s: State, ops: seq<Op>, user: nat)
    ensures var rows := After(s, ops).rows;
      && (user in rows <==> LastSha(s, ops, user).Some?)
      && (user in rows ==> LastSha(s, ops, user) == Some(rows[user].sha))
      && (user in rows ==> rows[user].confirmed == LastConfirmed(s, ops, user))
  {
    if ops != [] {
      var front, op := ops[..|ops| - 1], ops[|ops| - 1];
      StoredIsLastGiven(s, front, user);
      StepStores(After(s, front).rows, op, user);
      RowsAfter(After(s, front), op);
    }
  }

  /** A change of password reaches exactly the users that the address finds; each keeps being found. */
  lemma ChangeReachesFound(rows: Rows, mail: string, sha: string)
    ensures var after := NextRows(rows, UpdatePassword(mail, sha));
      && after.Keys == rows.Keys
      && (forall address :: Finds(after, address) == Finds(rows, address))
      && (forall u | u in rows :: after[u].sha == if u in Finds(rows, mail) then sha else rows[u].sha)
  {
    var after := NextRows(rows, UpdatePassword(mail, sha));
    forall address
      ensures Finds(after, address) == Finds(rows, address)
    {
      assert forall u | u in rows :: Matches(after[u], address) == Matches(rows[u], address);
    }
  }

  // ----- Who is left --------------------------------------------------------------------------

  /** The users that a step takes out of those without a hash. */
  function Leaves(rows: Rows, op: Op): set<nat> {
    if TakesEffect(rows, op) || (op.DeleteUser? && op.user != 0 && op.user in Unmigrated(rows)) then {op.user}
    else {}
  }

  lemma StepMigrates(s: State, op: Op)
    ensures Unmigrated(Next(s, op).rows) == Unmigrated(s.rows) - Leaves(s.rows, op)
    ensures Leaves(s.rows, op) <= Unmigrated(s.rows)
  {
  }

  /** The users that were migrated or deleted over a run. */
  function Gone(s: State, ops: seq<Op>): set<nat> {
    if ops == [] then {} else Gone(s, ops[..|ops| - 1]) + Leaves(After(s, ops[..|ops| - 1]).rows, ops[|ops| - 1])
  }

  /** Over every run whatever the users without a hash are those that were without one and have been neither
      migrated nor deleted. */
  lemma {:induction false} RunMigrates(s: State, ops: seq<Op>)
    ensures Gone(s, ops) <= Unmigrated(s.rows)
    ensures Unmigrated(After(s, ops).rows) == Unmigrated(s.rows) - Gone(s, ops)
  {
    if ops != [] {
      RunMigrates(s, ops[..|ops| - 1]);
      StepMigrates(After(s, ops[..|ops| - 1]), ops[|ops| - 1]);
    }
  }

  /** Their number never rises, and falls by one with each user migrated or deleted. */
  lemma UnmigratedFall(s: State, ops: seq<Op>)
    ensures |Unmigrated(After(s, ops).rows)| + |Gone(s, ops)| == |Unmigrated(s.rows)|
  {
    RunMigrates(s, ops);
    var left, gone := Unmigrated(After(s, ops).rows), Gone(s, ops);
    assert Unmigrated(s.rows) == left + gone && left !! gone;
  }

  /** Nobody has touched the address of a user who is still without a hash. */
  lemma {:induction false} UnmigratedUntouched(s: State, ops: seq<Op>, user: nat)
    requires user in Unmigrated(After(s, ops).rows)
    ensures user in s.rows && After(s, ops).rows[user].email == s.rows[user].email
  {
    if ops != [] {
      StepMigrates(After(s, ops[..|ops| - 1]), ops[|ops| - 1]);
      UnmigratedUntouched(s, ops[..|ops| - 1], user);
    }
  }

  /** The login of a user of the old kind. */
  predicate LogsIn(s: State, op: Op, user: nat) {
    op.Migrate? && op.user == user && op.newHash != "" && user in s.rows && Lower(op.mail) == AddressOf(s.rows[user])
  }

  /** Nobody is left at the end of a careful run in which every user of the old kind logs in once. */
  lemma MigrationFinishes(s: State, ops: seq<Op>)
    requires Good(s.rows) && CarefulThroughout(s, ops)
    requires forall u | u in Unmigrated(s.rows) :: exists i :: 0 <= i < |ops| && LogsIn(s, ops[i], u)
    ensures Unmigrated(After(s, ops).rows) == {}
  {
    RunMigrates(s, ops);
    forall u | u in Unmigrated(s.rows)
      ensures u in Gone(s, ops)
    {
      var i :| 0 <= i < |ops| && LogsIn(s, ops[i], u);
      LoginMigrates(s, ops, i, u);
    }
  }

  lemma {:induction false} LoginMigrates(s: State, ops: seq<Op>, i: nat, user: nat)
    requires Good(s.rows) && CarefulThroughout(s, ops) && i < |ops|
    requires user in Unmigrated(s.rows) && LogsIn(s, ops[i], user)
    ensures user in Gone(s, ops)
  {
    var front, op := ops[..|ops| - 1], ops[|ops| - 1];
    if i == |ops| - 1 {
      RunMigrates(s, front);
      LookupsKeptIff(s, front);
      if user in Unmigrated(After(s, front).rows) {
        UnmigratedUntouched(s, front, user);
        LowerTwice(op.mail);
        assert TakesEffect(After(s, front).rows, op);
      }
    } else {
      assert front[i] == ops[i];
      LoginMigrates(s, front, i, user);
    }
  }

  // ----- The change of the schema -------------------------------------------------------------

  /** A check runs only if it was started. */
  ghost predicate IsRun(s: State, ops: seq<Op>) {
    ops == [] || (IsRun(s, ops[..|ops| - 1]) && Started(After(s, ops[..|ops| - 1]), ops[|ops| - 1]))
  }

  predicate Started(s: State, op: Op) { op.Finalize? ==> 0 < s.pending }

  /** The program changes the schema at most once to its knowledge, and then nobody is left. The process that
      did so knows; a later one has no check to run. */
  ghost predicate SchemaSettled(s: State) {
    && (s.notNull <==> 0 < s.alters)
    && s.unreported <= s.alters <= s.unreported + 1
    && (s.migrationDone ==> s.alters == s.unreported + 1)
    && (s.notNull ==> Unmigrated(s.rows) == {})
    && (s.alters == s.unreported + 1 && !s.migrationDone ==> s.pending == 0)
  }

  /** A check that counts nobody and changes the schema. */
  predicate Closes(s: State, op: Op) {
    op.Finalize? && !op.countFails && !op.alter.NotApplied? && Unmigrated(s.rows) == {}
  }

  lemma StepSettles(s: State, op: Op)
    requires Started(s, op) && SchemaSettled(s)
    ensures SchemaSettled(Next(s, op))
    ensures Next(s, op).notNull <==> s.notNull || Closes(s, op)
  {
    StepMigrates(s, op);
  }

  /** Over every run, restarts and registrations of any kind included, the schema is changed only with nobody
      left, and at most once more than changes were taken for failed: once, if none was. */
  lemma {:induction false} SchemaChangesOnce(s: State, ops: seq<Op>)
    requires SchemaSettled(s) && IsRun(s, ops)
    ensures SchemaSettled(After(s, ops)) && After(s, ops).alters <= After(s, ops).unreported + 1
  {
    if ops != [] {
      SchemaChangesOnce(s, ops[..|ops| - 1]);
      StepSettles(After(s, ops[..|ops| - 1]), ops[|ops| - 1]);
    }
  }

  /** At some point of the run a check runs without failing when nobody is left. */
  ghost predicate SomeCheckCloses(s: State, ops: seq<Op>) {
    ops != [] && (SomeCheckCloses(s, ops[..|ops| - 1]) || Closes(After(s, ops[..|ops| - 1]), ops[|ops| - 1]))
  }

  /** The column becomes NOT NULL if and only if one of the checks that were started runs, without failing,
      when nobody is left. */
  lemma {:induction false} ColumnClosesIff(s: State, ops: seq<Op>)
    requires SchemaSettled(s) && !s.notNull && IsRun(s, ops)
    ensures After(s, ops).notNull <==> SomeCheckCloses(s, ops)
  {
    if ops != [] {
      var front, op := ops[..|ops| - 1], ops[|ops| - 1];
      ColumnClosesIff(s, front);
      SchemaChangesOnce(s, front);
      StepSettles(After(s, front), op);
    }
  }

  /** A migration that takes effect starts a check if and only if the program learns of it, and that check
      closes the column, unless it fails, exactly if the user was the last. */
  lemma LastLoginStartsCheck(s: State, op: Op)
    requires SchemaSettled(s) && TakesEffect(s.rows, op)
    ensures Next(s, op).pending == s.pending + 1 <==> op.reported
    ensures Next(Next(s, op), Finalize(false, Applied)).notNull <==> Unmigrated(s.rows) == {op.user}
  {
    StepMigrates(s, op);
    assert op.user in Unmigrated(s.rows);
  }

  /** Nobody is left, the column is nullable, and no check is under way. */
  predicate Stuck(s: State) { Unmigrated(s.rows) == {} && !s.notNull && s.pending == 0 }

  /** Exactly what makes the migration get stuck. With nobody left: a restart, or a failure of the last check.
      With no check under way: the last user is deleted, or is migrated and the program does not learn of it. */
  lemma GetsStuckIff(s: State, op: Op)
    requires Started(s, op) && SchemaSettled(s) && !Stuck(s)
    ensures Stuck(Next(s, op))
            <==> && !s.notNull && Unmigrated(s.rows) == Leaves(s.rows, op)
                 && if Unmigrated(s.rows) == {}
                    then op.Restart? || (op.Finalize? && s.pending == 1 && (op.countFails || op.alter.NotApplied?))
                    else s.pending == 0 && !(op.Migrate? && op.reported)
  {
    StepMigrates(s, op);
  }

  /** It stays stuck for good: no run ever makes the column NOT NULL again. */
  lemma {:induction false} StuckForGood(s: State, ops: seq<Op>)
    requires SchemaSettled(s) && IsRun(s, ops) && Stuck(s)
    ensures Stuck(After(s, ops))
  {
    if ops != [] {
      var front, op := ops[..|ops| - 1], ops[|ops| - 1];
      StuckForGood(s, front);
      SchemaChangesOnce(s, front);
      StepMigrates(After(s, front), op);
      StepSettles(After(s, front), op);
    }
  }

  // ----- Registrations beside an unmigrated row -----------------------------------------------

  /** The address of an unmigrated user whose hash belongs to another row. */
  predicate Blocked(rows: Rows, user: nat, email: Email, other: nat) {
    && user in Unmigrated(rows) && rows[user].email == email
    && other in rows && other != user && rows[other].emailHash == Some(EmailHmac(email.address))
  }

  /** A registration that is accepted although the address finds somebody blocks whoever it finds. */
  lemma CreationBlocks(rows: Rows, op: Op, user: nat)
    requires Good(rows) && Creates(rows, op) && user in Finds(rows, op.mail)
    ensures Blocked(NextRows(rows, op), user, rows[user].email, op.user)
  {
    LowerTwice(op.mail);
    var after := NextRows(rows, op);
    assert op.user in after && after[op.user].emailHash == Some(EmailHmac(op.mail));
    assert user in Unmigrated(rows) && after[user] == rows[user];
    assert EmailHmac(rows[user].email.address) == EmailHmac(op.mail);
  }

  /** Logging in does not help; only the deletion of one of the two does. */
  lemma StaysBlockedIff(rows: Rows, op: Op, user: nat, email: Email, other: nat)
    requires Blocked(rows, user, email, other)
    requires op.Migrate? && op.user == user ==> Lower(op.mail) == Lower(email.address)
    ensures Blocked(NextRows(rows, op), user, email, other)
            <==> !(op.DeleteUser? && op.user != 0 && op.user in {user, other})
  {
    if !(op.DeleteUser? && op.user != 0 && op.user in {user, other}) {
      assert HashTaken(rows, email.address, user);
      assert other in NextRows(rows, op) && NextRows(rows, op)[other].emailHash == rows[other].emailHash;
    }
  }

  /** If another row has taken the hash of an unmigrated user's address, the user is never migrated with its
      own address, whatever happens, and the migration never finishes, unless one of the two is deleted. */
  lemma {:induction false} TakenAddressBlocks(s: State, ops: seq<Op>, user: nat, email: Email, other: nat)
    requires Blocked(s.rows, user, email, other)
    requires forall op | op in ops && op.Migrate? && op.user == user :: Lower(op.mail) == Lower(email.address)
    requires IsNotDeleted(ops, user) && IsNotDeleted(ops, other)
    ensures Blocked(After(s, ops).rows, user, email, other)
    ensures !s.notNull ==> !After(s, ops).notNull
  {
    if ops != [] {
      var front, op := ops[..|ops| - 1], ops[|ops| - 1];
      TakenAddressBlocks(s, front, user, email, other);
      assert op in ops;
      StaysBlockedIff(After(s, front).rows, op, user, email, other);
    }
  }
}
