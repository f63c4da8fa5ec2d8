/**
 The passes that encrypt a user's stored fields in place, right after the master key was created. Each
 pass skips a field that cannot be encrypted or written and goes on; readers may come at any moment and
 read every field through decrypt-if-prefixed.

 `fails` says which of a pass's calls fail, counted from 0. The ghost result `writes` of a pass is the
 table after each of its writes.
 */
module EncryptPasses {
  import opened Wrappers
  import opened Sealing
  import opened Rows

  const CHANNEL_COLUMNS: nat := 6

  /** One field of a user: an API key by provider, one of the channel columns, a dialog by its number,
      the access or the refresh token of Google. */
  datatype Cell =
    | ApiKey(user: nat, provider: string)
    | Channel(user: nat, column: nat)
    | Dialog(user: nat, id: nat)
    | GoogleToken(user: nat, refresh: bool)

  /** None is NULL. */
  type Cells = map<Cell, Option<Text>>

  predicate IsEncrypted(value: Text) { HasPrefix(UserMasterKey, value) }

  /** What a reader with the user's master key sees. */
  function Read(masterKey: Key, value: Option<Text>): Result<Text> {
    if value.None? then Success(EMPTY)
    else if IsEncrypted(value.value) then Open(UserMasterKey, masterKey, value.value)
    else Success(value.value)
  }

  /** The fields that a pass encrypts: an empty API key too, but none under the application's key. */
  predicate Eligible(cell: Cell, value: Option<Text>) {
    value.Some? && !IsEncrypted(value.value)
    && (if cell.ApiKey? then !HasPrefix(AppKey, value.value) else value.value != EMPTY)
  }

  /** The fields that a pass is about. */
  datatype Scope =
    | ApiKeys(user: nat)
    | Channels(user: nat)
    | Dialogs(user: nat)
    | GoogleTokens(user: nat)
    | All(user: nat)

  predicate InScope(scope: Scope, cell: Cell) {
    cell.user == scope.user &&
    match scope
    case ApiKeys(_) => cell.ApiKey?
    case Channels(_) => cell.Channel?
    case Dialogs(_) => cell.Dialog?
    case GoogleTokens(_) => cell.GoogleToken?
    case All(_) => true
  }

  predicate IsSealedFrom(masterKey: Key, before: Option<Text>, after: Option<Text>) {
    before.Some? && after.Some? && after.value.Sealed? && after.value.scheme == UserMasterKey
    && after.value.key == masterKey && after.value.plain == before.value
  }

  /** Some eligible fields in the scope were encrypted, and nothing else happened. */
  ghost predicate Progress(masterKey: Key, scope: Scope, before: Cells, after: Cells) {
    && after.Keys == before.Keys
    && forall c | c in before :: after[c] == before[c]
         || (InScope(scope, c) && Eligible(c, before[c]) && IsSealedFrom(masterKey, before[c], after[c]))
  }

  ghost predicate NoneEligible(scope: Scope, cells: Cells) {
    forall c | c in cells && InScope(scope, c) :: !Eligible(c, cells[c])
  }

  /** What a pass promises: after each of its writes it has only made progress, and it ends with the last
      of them. */
  ghost predicate PassDone(masterKey: Key, scope: Scope, before: Cells, after: Cells, writes: seq<Cells>) {
    && (forall i | 0 <= i < |writes| :: Progress(masterKey, scope, before, writes[i]))
    && after == (if writes == [] then before else writes[|writes| - 1])
    && Progress(masterKey, scope, before, after)
  }

  /** One more write. */
  lemma PassGoesOn(masterKey: Key, scope: Scope, before: Cells, mid: Cells, after: Cells, writes: seq<Cells>)
    requires PassDone(masterKey, scope, before, mid, writes) && Progress(masterKey, scope, mid, after)
    ensures PassDone(masterKey, scope, before, after, writes + [after])
  {
    ProgressTransitive(masterKey, scope, scope, before, mid, after);
  }

  /** What is no longer eligible never becomes so again. */
  lemma StaysCleared(masterKey: Key, scope: Scope, before: Cells, after: Cells, cleared: Scope)
    requires Progress(masterKey, scope, before, after) && NoneEligible(cleared, before)
    ensures NoneEligible(cleared, after)
  {
  }

  /** A field is read as it is, NULL as empty, unless it looks encrypted: then it reads as what was sealed with the
      reader's key, and everything else is an error. */
  lemma ReadsIff(masterKey: Key, value: Option<Text>, plain: Text)
    ensures Read(masterKey, value) == Success(plain)
            <==> if value.None? then plain == Raw("")
                 else if !IsEncrypted(value.value) then plain == value.value
                 else exists nonce :: value.value == Sealed(UserMasterKey, masterKey, nonce, plain)
  {
    if value.Some? && value.value.Sealed? {
      var v := value.value;
      assert v == Sealed(v.scheme, v.key, v.nonce, v.plain);
    }
  }

  /** What a pass without failures achieves: of the user's API keys in its scope all are encrypted, under the
      user's or the application's key, and of the other fields all that are not empty. */
  lemma ClearedMeansEncrypted(user: nat, cells: Cells)
    ensures NoneEligible(ApiKeys(user), cells) <==>
      forall p, key: Text | ApiKey(user, p) in cells && cells[ApiKey(user, p)] == Some(key) ::
        HasPrefix(UserMasterKey, key) || HasPrefix(AppKey, key)
    ensures NoneEligible(Channels(user), cells) <==>
      forall c, v: Text | Channel(user, c) in cells && cells[Channel(user, c)] == Some(v) && v != Raw("") ::
        HasPrefix(UserMasterKey, v)
    ensures NoneEligible(Dialogs(user), cells) <==>
      forall d, v: Text | Dialog(user, d) in cells && cells[Dialog(user, d)] == Some(v) && v != Raw("") ::
        HasPrefix(UserMasterKey, v)
    ensures NoneEligible(GoogleTokens(user), cells) <==>
      forall b, v: Text | GoogleToken(user, b) in cells && cells[GoogleToken(user, b)] == Some(v) && v != Raw("") ::
        HasPrefix(UserMasterKey, v)
    ensures NoneEligible(All(user), cells) <==>
      NoneEligible(ApiKeys(user), cells) && NoneEligible(Channels(user), cells)
      && NoneEligible(Dialogs(user), cells) && NoneEligible(GoogleTokens(user), cells)
  {
  }

  /** Only the user's own fields change, and only those of the kind that the pass is about. */
  lemma ProgressIsTheUsers(masterKey: Key, scope: Scope, before: Cells, after: Cells, cell: Cell)
    requires Progress(masterKey, scope, before, after) && cell in before
    ensures cell.user != scope.user ==> after[cell] == before[cell]
    ensures scope.ApiKeys? && !cell.ApiKey? ==> after[cell] == before[cell]
    ensures scope.Channels? && !cell.Channel? ==> after[cell] == before[cell]
    ensures scope.Dialogs? && !cell.Dialog? ==> after[cell] == before[cell]
    ensures scope.GoogleTokens? && !cell.GoogleToken? ==> after[cell] == before[cell]
  {
  }

  // ----- What readers see ---------------------------------------------------------------------

  /** Progress is invisible to the user's readers, whatever fields were reached. */
  lemma ProgressIsInvisible(masterKey: Key, scope: Scope, before: Cells, after: Cells)
    requires Progress(masterKey, scope, before, after)
    ensures after.Keys == before.Keys
    ensures forall c | c in before :: Read(masterKey, after[c]) == Read(masterKey, before[c])
  {
  }

  lemma ProgressTransitive(masterKey: Key, scope: Scope, wider: Scope, a: Cells, b: Cells, c: Cells)
    requires Progress(masterKey, wider, a, b) && Progress(masterKey, scope, b, c)
    requires forall cell | InScope(scope, cell) :: InScope(wider, cell)
    ensures Progress(masterKey, wider, a, c)
  {
    forall cell | cell in a
      ensures c[cell] == a[cell]
        || (InScope(wider, cell) && Eligible(cell, a[cell]) && IsSealedFrom(masterKey, a[cell], c[cell]))
    {
      assert IsSealedFrom(masterKey, a[cell], b[cell]) ==> !Eligible(cell, b[cell]);
    }
  }

  /** So over a whole sequence of passes no reader ever sees a field change. */
  lemma PassIsInvisible(masterKey: Key, scope: Scope, before: Cells, after: Cells, writes: seq<Cells>)
    requires PassDone(masterKey, scope, before, after, writes)
    ensures forall i, c | 0 <= i < |writes| && c in before ::
      c in writes[i] && Read(masterKey, writes[i][c]) == Read(masterKey, before[c])
    ensures forall c | c in before :: c in after && Read(masterKey, after[c]) == Read(masterKey, before[c])
  {
    forall i | 0 <= i < |writes|
      ensures forall c | c in before :: c in writes[i] && Read(masterKey, writes[i][c]) == Read(masterKey, before[c])
    {
      ProgressIsInvisible(masterKey, scope, before, writes[i]);
    }
  }

  lemma SealedReadsIff(masterKey: Key, other: Key, before: Option<Text>, after: Option<Text>)
    requires IsSealedFrom(masterKey, before, after) && !IsEncrypted(before.value)
    ensures Read(other, after) == Read(other, before) <==> other == masterKey
  {
  }

  /** To a reader with whatever key a pass is invisible if and only if it is the key of the pass, or the pass
      wrote nothing: the passes must be given the key that the readers hold. */
  lemma InvisibleIffKeyHeld(masterKey: Key, other: Key, scope: Scope, before: Cells, after: Cells)
    requires Progress(masterKey, scope, before, after)
    ensures (forall c | c in before :: Read(other, after[c]) == Read(other, before[c]))
            <==> other == masterKey || after == before
  {
    forall c | c in before
      ensures Read(other, after[c]) == Read(other, before[c]) <==> other == masterKey || after[c] == before[c]
    {
      if after[c] != before[c] {
        SealedReadsIff(masterKey, other, before[c], after[c]);
      }
    }
  }

  // ----- Edits by others while a pass runs ----------------------------------------------------

  /** A pass writes, one after the other, what it read and encrypted; in between others edit fields, or add and
      remove them. None is a removal. */
  datatype Step = Edit(cell: Cell, value: Option<Option<Text>>) | Write(cell: Cell, nonce: nat)

  /** The write of a field that the pass read as `read` and found eligible; nothing happens to a field that is
      gone. */
  function Written(masterKey: Key, read: Cells, cells: Cells, cell: Cell, nonce: nat): Cells {
    if cell in cells && cell in read && Eligible(cell, read[cell])
    then cells[cell := Some(Seal(UserMasterKey, masterKey, nonce, read[cell].value))]
    else cells
  }

  function Edited(cells: Cells, cell: Cell, value: Option<Option<Text>>): Cells {
    if value.Some? then cells[cell := value.value] else cells - {cell}
  }

  function AfterSteps(masterKey: Key, read: Cells, steps: seq<Step>): Cells {
    if steps == [] then read
    else
      var cells, step := AfterSteps(masterKey, read, steps[..|steps| - 1]), steps[|steps| - 1];
      if step.Edit? then Edited(cells, step.cell, step.value)
      else Written(masterKey, read, cells, step.cell, step.nonce)
  }

  /** What the fields would be without the pass. */
  function AfterEdits(read: Cells, steps: seq<Step>): Cells {
    if steps == [] then read
    else
      var cells, step := AfterEdits(read, steps[..|steps| - 1]), steps[|steps| - 1];
      if step.Edit? then Edited(cells, step.cell, step.value) else cells
  }

  /** Readers cannot tell the two apart. */
  ghost predicate ReadsAlike(masterKey: Key, a: Cells, b: Cells) {
    a.Keys == b.Keys && forall c | c in a :: Read(masterKey, a[c]) == Read(masterKey, b[c])
  }

  ghost predicate InvisibleThroughout(masterKey: Key, read: Cells, steps: seq<Step>) {
    ReadsAlike(masterKey, AfterSteps(masterKey, read, steps), AfterEdits(read, steps))
    && (steps == [] || InvisibleThroughout(masterKey, read, steps[..|steps| - 1]))
  }

  /** The write loses no edit: the field, if the pass writes it, still reads as when the pass read it. */
  predicate LosesNothing(masterKey: Key, read: Cells, cells: Cells, step: Step) {
    step.Write? && step.cell in cells && step.cell in read && Eligible(step.cell, read[step.cell]) ==>
      Read(masterKey, cells[step.cell]) == Success(read[step.cell].value)
  }

  ghost predicate LosesNothingThroughout(masterKey: Key, read: Cells, steps: seq<Step>) {
    steps == []
    || (LosesNothingThroughout(masterKey, read, steps[..|steps| - 1])
        && LosesNothing(masterKey, read, AfterEdits(read, steps[..|steps| - 1]), steps[|steps| - 1]))
  }

  lemma WriteAlikeIff(masterKey: Key, read: Cells, cells: Cells, edits: Cells, step: Step)
    requires ReadsAlike(masterKey, cells, edits) && step.Write?
    ensures ReadsAlike(masterKey, Written(masterKey, read, cells, step.cell, step.nonce), edits)
            <==> LosesNothing(masterKey, read, edits, step)
  {
    var after := Written(masterKey, read, cells, step.cell, step.nonce);
    assert forall c | c in cells && c != step.cell :: after[c] == cells[c];
  }

  lemma EditAlike(masterKey: Key, a: Cells, b: Cells, cell: Cell, value: Option<Option<Text>>)
    requires ReadsAlike(masterKey, a, b)
    ensures ReadsAlike(masterKey, Edited(a, cell, value), Edited(b, cell, value))
  {
  }

  /** A pass is invisible all the time, beside whatever others do to the fields, if and only if each of its
      writes meets a field that still reads as it did when the pass read it: any other edit is lost. */
  lemma {:induction false} DisturbedPassInvisibleIff(masterKey: Key, read: Cells, steps: seq<Step>)
    ensures InvisibleThroughout(masterKey, read, steps) <==> LosesNothingThroughout(masterKey, read, steps)
  {
    if steps != [] {
      var front, step := steps[..|steps| - 1], steps[|steps| - 1];
      DisturbedPassInvisibleIff(masterKey, read, front);
      if InvisibleThroughout(masterKey, read, front) {
        var cells, edits := AfterSteps(masterKey, read, front), AfterEdits(read, front);
        if step.Edit? {
          EditAlike(masterKey, cells, edits, step.cell, step.value);
        } else {
          WriteAlikeIff(masterKey, read, cells, edits, step);
        }
      }
    }
  }

  // ----- What the passes collect and leave ----------------------------------------------------

  /** One of the Google tokens is to be encrypted, and its encryption succeeds. */
  ghost predicate Encrypts(cells: Cells, user: nat, refresh: bool, fails: nat -> bool) {
    var token := GoogleToken(user, refresh);
    token in cells && Eligible(token, cells[token]) && !fails(if refresh then 1 else 0)
  }

  /** The k-th field that a pass goes through is still to be encrypted exactly if it was and its own
      encryption or update failed. */
  ghost predicate LeftPlain(before: Cells, after: Cells, cell: Cell, k: nat, fails: nat -> bool) {
    && cell in before && cell in after
    && (Eligible(cell, after[cell]) <==> Eligible(cell, before[cell]) && (fails(2 * k) || fails(2 * k + 1)))
  }

  /** Eligible fields of the scope, none twice, in the order in which a pass goes through them. */
  ghost predicate Chosen(collected: seq<(Cell, Option<Text>)>, scope: Scope, cells: Cells) {
    && (forall i | 0 <= i < |collected| ::
          var (c, v) := collected[i]; c in cells && cells[c] == v && InScope(scope, c) && Eligible(c, v))
    && (forall i, j | 0 <= i < j < |collected| :: collected[i].0 != collected[j].0)
  }

  /** They are all of them. */
  ghost predicate ChosenAll(collected: seq<(Cell, Option<Text>)>, scope: Scope, cells: Cells) {
    && Chosen(collected, scope, cells)
    && (forall c | c in cells && InScope(scope, c) && Eligible(c, cells[c]) :: (c, cells[c]) in collected)
  }

  /** A row of channels has all its columns, and a row of Google tokens both, which are NOT NULL. */
  ghost predicate RowsComplete(cells: Cells) {
    && (forall u: nat, c: nat | Channel(u, c) in cells :: c < CHANNEL_COLUMNS && Channel(u, 0) in cells)
    && (forall u: nat, c: nat | Channel(u, 0) in cells && c < CHANNEL_COLUMNS :: Channel(u, c) in cells)
    && (forall u: nat, b, d | GoogleToken(u, b) in cells :: GoogleToken(u, d) in cells)
    && (forall u: nat, b | GoogleToken(u, b) in cells :: cells[GoogleToken(u, b)].Some?)
  }

  lemma RowsStayComplete(masterKey: Key, scope: Scope, before: Cells, after: Cells)
    requires RowsComplete(before) && Progress(masterKey, scope, before, after)
    ensures RowsComplete(after)
  {
  }

  // ----- The passes ---------------------------------------------------------------------------

  class Repository {
    var cells: Cells

    ghost predicate Valid()
      reads this
    {
      RowsComplete(cells)
    }

    /** One field of a pass that began with the table `before`: encrypted and written, or skipped. */
    method EncryptCell(cell: Cell, scope: Scope, masterKey: Key, nonce: nat, encryptFails: bool, updateFails: bool,
                       ghost before: Cells, ghost writes: seq<Cells>)
      returns (written: bool, ghost writes': seq<Cells>)
      requires cell in cells && InScope(scope, cell) && Eligible(cell, cells[cell])
      requires PassDone(masterKey, scope, before, cells, writes)
      modifies this
      ensures PassDone(masterKey, scope, before, cells, writes')
      ensures cells.Keys == old(cells).Keys && forall c | c in cells && c != cell :: cells[c] == old(cells)[c]
      ensures written <==> !encryptFails && !updateFails
      ensures if written then !Eligible(cell, cells[cell]) && |writes'| == |writes| + 1
              else cells == old(cells) && writes' == writes
      ensures written ==> cells == Written(masterKey, old(cells), old(cells), cell, nonce)
    {
      writes' := writes;
      if encryptFails { return false, writes; }
      var encrypted := Seal(UserMasterKey, masterKey, nonce, cells[cell].value);
      if updateFails { return false, writes; }
      cells := cells[cell := Some(encrypted)];
      PassGoesOn(masterKey, scope, before, old(cells), cells, writes);
      written, writes' := true, writes + [cells];
    }

    /** The loop over collected fields, which the passes over API keys and dialogs share. */
    method EncryptCollected(collected: seq<(Cell, Option<Text>)>, scope: Scope, masterKey: Key,
                            nonces: nat -> nat, fails: nat -> bool)
      returns (encrypted: nat, ghost writes: seq<Cells>)
      requires Chosen(collected, scope, cells)
      modifies this
      ensures encrypted == |writes| <= |collected|
      ensures PassDone(masterKey, scope, old(cells), cells, writes)
      ensures forall k | 0 <= k < |collected| :: LeftPlain(old(cells), cells, collected[k].0, k, fails)
    {
      encrypted, writes := 0, [];
      for i := 0 to |collected|
        invariant encrypted == |writes| <= i
        invariant PassDone(masterKey, scope, old(cells), cells, writes)
        invariant cells.Keys == old(cells).Keys
        invariant forall j | i <= j < |collected| :: cells[collected[j].0] == collected[j].1
        invariant forall k | 0 <= k < i :: LeftPlain(old(cells), cells, collected[k].0, k, fails)
      {
        var written;
        written, writes := EncryptCell(collected[i].0, scope, masterKey, nonces(i), fails(2 * i), fails(2 * i + 1),
                                       old(cells), writes);
        if written {
          encrypted := encrypted + 1;
        }
      }
    }

    /** The first loop of those passes: the eligible fields of the scope. */
    method Collect(scope: Scope) returns (collected: seq<(Cell, Option<Text>)>)
      ensures ChosenAll(collected, scope, cells)
    {
      var selected := map c | c in cells && InScope(scope, c) :: cells[c];
      var rows := Select(selected);
      WhereLists(rows, selected, Eligible);
      collected := [];
      for i := 0 to |rows|
        invariant collected == Where(rows[..i], Eligible)
      {
        assert rows[..i + 1][..i] == rows[..i];
        var (cell, value) := rows[i];
        if !Eligible(cell, value) { continue; }
        collected := collected + [(cell, value)];
      }
      assert rows[..|rows|] == rows;
      forall c | c in cells && InScope(scope, c) && Eligible(c, cells[c])
        ensures (c, cells[c]) in collected
      {
        assert c in selected && selected[c] == cells[c];
      }
    }

    /** Used for API keys and for dialogs. */
    method EncryptRows(scope: Scope, masterKey: Key, nonces: nat -> nat, queryFails: bool, fails: nat -> bool)
      returns (r: Result<nat>, ghost writes: seq<Cells>, ghost collected: seq<(Cell, Option<Text>)>)
      requires Valid() && (scope.ApiKeys? || scope.Dialogs?)
      modifies this
      ensures Valid() && PassDone(masterKey, scope, old(cells), cells, writes)
      ensures r == if queryFails then Failure else Success(|writes|)
      ensures r.Success? ==>
        && ChosenAll(collected, scope, old(cells))
        && forall k | 0 <= k < |collected| :: LeftPlain(old(cells), cells, collected[k].0, k, fails)
      ensures r.Success? && (forall n :: !fails(n)) ==> NoneEligible(scope, cells)
      ensures NoneEligible(scope, old(cells)) || queryFails ==> writes == []
    {
      writes, collected := [], [];
      if queryFails { return Failure, [], []; }
      var selected := Collect(scope);
      collected := selected;
      if |selected| == 0 { return Success(0), [], []; }
      assert collected[0].0 in cells && Eligible(collected[0].0, cells[collected[0].0]);
      ghost var before := cells;
      var encrypted;
      encrypted, writes := EncryptCollected(selected, scope, masterKey, nonces, fails);
      RowsStayComplete(masterKey, scope, before, cells);
      forall c | c in cells && InScope(scope, c) && (forall n :: !fails(n))
        ensures !Eligible(c, cells[c])
      {
        if Eligible(c, before[c]) {
          assert (c, before[c]) in collected;
        }
      }
      r := Success(encrypted);
    }

    /** The loop over the channel columns, `cols` as they were read. */
    method EncryptColumns(user: nat, cols: seq<Option<Text>>, masterKey: Key, nonces: nat -> nat, fails: nat -> bool)
      returns (encrypted: nat, ghost writes: seq<Cells>)
      requires |cols| == CHANNEL_COLUMNS
      requires forall c: nat | c < CHANNEL_COLUMNS :: Channel(user, c) in cells && cells[Channel(user, c)] == cols[c]
      modifies this
      ensures encrypted == |writes|
      ensures PassDone(masterKey, Channels(user), old(cells), cells, writes)
      ensures forall c: nat | c < CHANNEL_COLUMNS :: LeftPlain(old(cells), cells, Channel(user, c), c, fails)
      ensures NoneEligible(Channels(user), old(cells)) ==> writes == []
    {
      ghost var start := cells;
      encrypted, writes := 0, [];
      for col := 0 to CHANNEL_COLUMNS
        invariant cells.Keys == start.Keys && encrypted == |writes|
        invariant PassDone(masterKey, Channels(user), start, cells, writes)
        invariant forall c: nat | col <= c < CHANNEL_COLUMNS :: cells[Channel(user, c)] == start[Channel(user, c)]
        invariant forall c: nat | c < col :: LeftPlain(start, cells, Channel(user, c), c, fails)
        invariant NoneEligible(Channels(user), start) ==> writes == []
      {
        if cols[col].None? || cols[col].value == EMPTY || IsEncrypted(cols[col].value) { continue; }
        assert Eligible(Channel(user, col), start[Channel(user, col)]);
        var written;
        written, writes := EncryptCell(Channel(user, col), Channels(user), masterKey, nonces(col),
                                       fails(2 * col), fails(2 * col + 1), start, writes);
        if written {
          encrypted := encrypted + 1;
        }
      }
    }

    /** The six columns of the user's row, read at once and written one by one. */
    method EncryptChannels(user: nat, masterKey: Key, nonces: nat -> nat, queryFails: bool, fails: nat -> bool)
      returns (r: Result<nat>, ghost writes: seq<Cells>)
      requires Valid()
      modifies this
      ensures Valid() && PassDone(masterKey, Channels(user), old(cells), cells, writes)
      ensures r.Success? ==> r.value == |writes|
      ensures r.Failure? <==> queryFails
      ensures r.Success? ==> forall c: nat | Channel(user, c) in cells ::
        LeftPlain(old(cells), cells, Channel(user, c), c, fails)
      ensures NoneEligible(Channels(user), old(cells)) || queryFails ==> writes == []
    {
      writes := [];
      if queryFails { return Failure, []; }
      if Channel(user, 0) !in cells { return Success(0), []; }
      var cols := seq(CHANNEL_COLUMNS, c requires 0 <= c < CHANNEL_COLUMNS && Channel(user, c) in cells reads this =>
        cells[Channel(user, c)]);
      var encrypted;
      encrypted, writes := EncryptColumns(user, cols, masterKey, nonces, fails);
      RowsStayComplete(masterKey, Channels(user), old(cells), cells);
      r := Success(encrypted);
    }

    /** Both tokens in one UPDATE; a token whose encryption fails is written back as it is. */
    method EncryptGoogleToken(user: nat, masterKey: Key, nonces: nat -> nat, queryFails: bool, fails: nat -> bool)
      returns (r: Result<bool>, ghost writes: seq<Cells>)
      requires Valid()
      modifies this
      ensures Valid() && PassDone(masterKey, GoogleTokens(user), old(cells), cells, writes)
      ensures r.Success? ==> (r.value <==> |writes| == 1)
      ensures r.Failure? ==> writes == []
      ensures r.Failure? <==>
        || queryFails
        || (fails(2) && (Encrypts(old(cells), user, false, fails) || Encrypts(old(cells), user, true, fails)))
      ensures r.Success? ==> forall b | GoogleToken(user, b) in cells ::
        (Eligible(GoogleToken(user, b), cells[GoogleToken(user, b)])
         <==> Eligible(GoogleToken(user, b), old(cells)[GoogleToken(user, b)]) && fails(if b then 1 else 0))
      ensures NoneEligible(GoogleTokens(user), old(cells)) || queryFails ==> writes == []
    {
      writes := [];
      if queryFails { return Failure, []; }
      var access, refresh := GoogleToken(user, false), GoogleToken(user, true);
      if access !in cells { return Success(false), []; }
      var newAccess, newRefresh := cells[access], cells[refresh];
      var changed := false;
      if newAccess.value != EMPTY && !IsEncrypted(newAccess.value) {
        assert Eligible(access, cells[access]);
        if !fails(0) {
          newAccess, changed := Some(Seal(UserMasterKey, masterKey, nonces(0), newAccess.value)), true;
        }
      }
      if newRefresh.value != EMPTY && !IsEncrypted(newRefresh.value) {
        assert Eligible(refresh, cells[refresh]);
        if !fails(1) {
          newRefresh, changed := Some(Seal(UserMasterKey, masterKey, nonces(1), newRefresh.value)), true;
        }
      }
      if changed {
        if fails(2) { return Failure, []; }
        cells := cells[access := newAccess][refresh := newRefresh];
        writes := [cells];
      }
      r := Success(changed);
    }

    method EncryptKeysAndChannels(user: nat, masterKey: Key, nonces: (nat, nat) -> nat,
                                  queryFails: nat -> bool, fails: (nat, nat) -> bool)
      returns (r: Result<()>, ghost writes: seq<Cells>)
      requires Valid()
      modifies this
      ensures Valid() && PassDone(masterKey, All(user), old(cells), cells, writes)
      ensures r.Success? && (forall p, n :: !fails(p, n)) ==>
        NoneEligible(ApiKeys(user), cells) && NoneEligible(Channels(user), cells)
      ensures r.Success? <==> !queryFails(0) && !queryFails(1)
      ensures NoneEligible(All(user), old(cells)) ==> writes == []
    {
      var counted: Result<nat>;
      ghost var more: seq<Cells>;
      ghost var before := cells;
      ghost var collected;
      counted, writes, collected := EncryptRows(ApiKeys(user), masterKey, (n: nat) => nonces(0, n), queryFails(0),
                                                (n: nat) => fails(0, n));
      Widen(masterKey, ApiKeys(user), before, cells, writes);
      if counted.Failure? { return Failure, writes; }
      ghost var mid := cells;
      counted, more := EncryptChannels(user, masterKey, (n: nat) => nonces(1, n), queryFails(1),
                                       (n: nat) => fails(1, n));
      Then(masterKey, Channels(user), before, mid, cells, writes, more);
      writes := writes + more;
      if counted.Failure? { return Failure, writes; }
      if NoneEligible(ApiKeys(user), mid) {
        StaysCleared(masterKey, Channels(user), mid, cells, ApiKeys(user));
      }
      r := Success(());
    }

    method EncryptDialogsAndTokens(user: nat, masterKey: Key, nonces: (nat, nat) -> nat,
                                   queryFails: nat -> bool, fails: (nat, nat) -> bool)
      returns (r: Result<()>, ghost writes: seq<Cells>)
      requires Valid()
      modifies this
      ensures Valid() && PassDone(masterKey, All(user), old(cells), cells, writes)
      ensures r.Success? && (forall p, n :: !fails(p, n)) ==>
        NoneEligible(Dialogs(user), cells) && NoneEligible(GoogleTokens(user), cells)
      ensures r.Failure? ==> queryFails(2) || queryFails(3) || fails(3, 2)
      ensures NoneEligible(All(user), old(cells)) ==> writes == []
    {
      var counted: Result<nat>;
      ghost var before := cells;
      ghost var collected;
      counted, writes, collected := EncryptRows(Dialogs(user), masterKey, (n: nat) => nonces(2, n), queryFails(2),
                                                (n: nat) => fails(2, n));
      Widen(masterKey, Dialogs(user), before, cells, writes);
      if counted.Failure? { return Failure, writes; }
      ghost var mid := cells;
      var changed: Result<bool>;
      ghost var more: seq<Cells>;
      changed, more := EncryptGoogleToken(user, masterKey, (n: nat) => nonces(3, n), queryFails(3),
                                          (n: nat) => fails(3, n));
      Then(masterKey, GoogleTokens(user), before, mid, cells, writes, more);
      writes := writes + more;
      if changed.Failure? { return Failure, writes; }
      if NoneEligible(Dialogs(user), mid) {
        StaysCleared(masterKey, GoogleTokens(user), mid, cells, Dialogs(user));
      }
      r := Success(());
    }

    /** The four passes as the creation of a master key runs them: API keys, channels, dialogs, Google
        tokens; an error of one ends the sequence. */
    method EncryptUserData(user: nat, masterKey: Key, nonces: (nat, nat) -> nat,
                           queryFails: nat -> bool, fails: (nat, nat) -> bool)
      returns (r: Result<()>, ghost writes: seq<Cells>)
      requires Valid()
      modifies this
      ensures Valid() && PassDone(masterKey, All(user), old(cells), cells, writes)
      ensures r.Success? && (forall p, n :: !fails(p, n)) ==> NoneEligible(All(user), cells)
      ensures r.Failure? ==> (exists p: nat :: p < 4 && queryFails(p)) || fails(3, 2)
      ensures NoneEligible(All(user), old(cells)) ==> writes == []
    {
      ghost var before := cells;
      r, writes := EncryptKeysAndChannels(user, masterKey, nonces, queryFails, fails);
      if r.Failure? { return; }
      ghost var mid := cells;
      ghost var more: seq<Cells>;
      r, more := EncryptDialogsAndTokens(user, masterKey, nonces, queryFails, fails);
      Then(masterKey, All(user), before, mid, cells, writes, more);
      writes := writes + more;
      if NoneEligible(ApiKeys(user), mid) && NoneEligible(Channels(user), mid) {
        StaysCleared(masterKey, All(user), mid, cells, ApiKeys(user));
        StaysCleared(masterKey, All(user), mid, cells, Channels(user));
      }
    }
  }

  lemma Widen(masterKey: Key, scope: Scope, before: Cells, after: Cells, writes: seq<Cells>)
    requires PassDone(masterKey, scope, before, after, writes)
    ensures PassDone(masterKey, All(scope.user), before, after, writes)
  {
  }

  /** A pass that follows others keeps what they promised together. */
  lemma Then(masterKey: Key, scope: Scope, c0: Cells, c1: Cells, c2: Cells, writes: seq<Cells>, more: seq<Cells>)
    requires PassDone(masterKey, All(scope.user), c0, c1, writes)
    requires PassDone(masterKey, scope, c1, c2, more)
    ensures PassDone(masterKey, All(scope.user), c0, c2, writes + more)
  {
    ProgressTransitive(masterKey, scope, All(scope.user), c0, c1, c2);
    forall i | 0 <= i < |more|
      ensures Progress(masterKey, All(scope.user), c0, more[i])
    {
      ProgressTransitive(masterKey, scope, All(scope.user), c0, c1, more[i]);
    }
  }
}
