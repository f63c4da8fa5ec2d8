/**
 The app_config table: settings whose sensitive values are stored encrypted, their soft migration to
 the encrypted form, and the one-shot change of the master key.

 A method's parameter `fails` says which of its calls to the database or to the random generator
 fail, counted from 0: whatever a method promises holds for every pattern of failures.
 */
module AppConfig {
  import opened Wrappers
  import opened Sealing
  import opened Rows

  type Table = map<string, Text>

  const SENSITIVE_PREFIXES: seq<string> :=
    ["auth.", "smtp.", "google_oauth.", "tg.", "oper.", "svc.", "widg."]

  predicate IsSensitive(key: string) {
    exists i | 0 <= i < |SENSITIVE_PREFIXES| :: SENSITIVE_PREFIXES[i] <= key
  }

  lemma SensitiveIff(key: string)
    ensures IsSensitive(key) <==>
      "auth." <= key || "smtp." <= key || "google_oauth." <= key || "tg." <= key || "oper." <= key || "svc." <= key
      || "widg." <= key
  {
    assert SENSITIVE_PREFIXES[0] == "auth." && SENSITIVE_PREFIXES[1] == "smtp.";
    assert SENSITIVE_PREFIXES[2] == "google_oauth." && SENSITIVE_PREFIXES[3] == "tg.";
    assert SENSITIVE_PREFIXES[4] == "oper." && SENSITIVE_PREFIXES[5] == "svc." && SENSITIVE_PREFIXES[6] == "widg.";
  }

  predicate IsEncrypted(value: Text) { HasPrefix(AppConfigV1, value) }

  predicate IsBlank(c: char) { c in " \t\n\U{0B}\U{0C}\r" }

  function TrimLeft(s: string): string { if s != "" && IsBlank(s[0]) then TrimLeft(s[1..]) else s }

  function TrimRight(s: string): string {
    if s != "" && IsBlank(s[|s| - 1]) then TrimRight(s[..|s| - 1]) else s
  }

  function TrimSpace(s: string): string { TrimRight(TrimLeft(s)) }

  /** The environment allows a rekey: both keys are set, and differ by more than blanks. */
  predicate RekeyConfigured(oldKey: Key, newKey: Option<Key>) {
    oldKey != "" && newKey.Some? && newKey.value != "" && TrimSpace(oldKey) != TrimSpace(newKey.value)
  }

  // ----- Blanks around a key ------------------------------------------------------------------

  predicate AllBlank(s: string) { forall i | 0 <= i < |s| :: IsBlank(s[i]) }

  predicate IsTrimmed(s: string) { s == "" || (!IsBlank(s[0]) && !IsBlank(s[|s| - 1])) }

  /** `s` is `core` with blanks around it. */
  ghost predicate Pads(s: string, core: string) {
    exists left, right :: AllBlank(left) && AllBlank(right) && s == left + core + right
  }

  lemma {:induction false} TrimLeftIff(s: string, left: string, rest: string)
    requires s == left + rest && AllBlank(left) && (rest == "" || !IsBlank(rest[0]))
    ensures TrimLeft(s) == rest
  {
    if left != "" {
      assert s[0] == left[0] && s[1..] == left[1..] + rest;
      TrimLeftIff(s[1..], left[1..], rest);
    } else {
      assert s == rest;
    }
  }

  lemma {:induction false} TrimRightIff(s: string, rest: string, right: string)
    requires s == rest + right && AllBlank(right) && (rest == "" || !IsBlank(rest[|rest| - 1]))
    ensures TrimRight(s) == rest
  {
    if right != "" {
      assert s[|s| - 1] == right[|right| - 1] && s[..|s| - 1] == rest + right[..|right| - 1];
      TrimRightIff(s[..|s| - 1], rest, right[..|right| - 1]);
    } else {
      assert s == rest;
    }
  }

  lemma {:induction false} LeftBlanks(s: string) returns (left: string, rest: string)
    ensures s == left + rest && AllBlank(left) && (rest == "" || !IsBlank(rest[0]))
  {
    if s != "" && IsBlank(s[0]) {
      left, rest := LeftBlanks(s[1..]);
      left := [s[0]] + left;
    } else {
      left, rest := "", s;
    }
  }

  lemma {:induction false} RightBlanks(s: string) returns (rest: string, right: string)
    ensures s == rest + right && AllBlank(right) && (rest == "" || !IsBlank(rest[|rest| - 1]))
  {
    if s != "" && IsBlank(s[|s| - 1]) {
      rest, right := RightBlanks(s[..|s| - 1]);
      right := right + [s[|s| - 1]];
      assert s == s[..|s| - 1] + [s[|s| - 1]];
    } else {
      rest, right := s, "";
    }
  }

  /** Trimming yields the one core without blanks at its ends. */
  lemma TrimIsCore(s: string)
    ensures IsTrimmed(TrimSpace(s)) && Pads(s, TrimSpace(s))
  {
    var left, rest := LeftBlanks(s);
    var core, right := RightBlanks(rest);
    TrimLeftIff(s, left, rest);
    TrimRightIff(rest, core, right);
    assert core != "" ==> core[0] == rest[0];
    assert s == left + core + right;
  }

  lemma CoreIsTrim(s: string, core: string)
    requires IsTrimmed(core) && Pads(s, core)
    ensures TrimSpace(s) == core
  {
    var left, right :| AllBlank(left) && AllBlank(right) && s == left + core + right;
    if core == "" {
      assert s == (left + right) + "";
      TrimLeftIff(s, left + right, "");
    } else {
      assert s == left + (core + right);
      TrimLeftIff(s, left, core + right);
      TrimRightIff(core + right, core, right);
    }
  }

  /** A rekey is refused exactly if a key is missing or the two are one core with blanks around it. */
  lemma RekeyRefusedIff(oldKey: Key, newKey: Option<Key>)
    ensures !RekeyConfigured(oldKey, newKey)
            <==> oldKey == "" || newKey.None? || newKey.value == ""
                 || exists core :: IsTrimmed(core) && Pads(oldKey, core) && Pads(newKey.value, core)
  {
    if newKey.Some? {
      TrimIsCore(oldKey);
      TrimIsCore(newKey.value);
      forall core | IsTrimmed(core) && Pads(oldKey, core) && Pads(newKey.value, core)
        ensures TrimSpace(oldKey) == core == TrimSpace(newKey.value)
      {
        CoreIsTrim(oldKey, core);
        CoreIsTrim(newKey.value, core);
      }
    }
  }

  // ----- Reading and writing one value --------------------------------------------------------

  /** What a reader makes of a stored value; the empty master key stands for none. */
  function Decode(masterKey: Key, value: Text): Result<Text> {
    if value == EMPTY || !IsEncrypted(value) then Success(value)
    else if masterKey == "" then Failure
    else Open(AppConfigV1, masterKey, value)
  }

  function Get(masterKey: Key, table: Table, key: string): Result<Text> {
    if key in table then Decode(masterKey, table[key]) else Success(EMPTY)
  }

  /** A missing setting reads as empty; a stored one as it is, unless it looks encrypted: then it reads as
      what was sealed with the current master key, and everything else is an error. */
  lemma GetIff(masterKey: Key, table: Table, key: string, value: Text)
    ensures Get(masterKey, table, key) == Success(value)
            <==> if key !in table then value == Raw("")
                 else if !IsEncrypted(table[key]) then value == table[key]
                 else masterKey != "" && exists nonce :: table[key] == Sealed(AppConfigV1, masterKey, nonce, value)
  {
    if key in table && table[key].Sealed? {
      assert table[key] == Sealed(table[key].scheme, table[key].key, table[key].nonce, table[key].plain);
    }
  }

  function Prepare(masterKey: Key, key: string, value: Text, nonce: nat): Text {
    if value == EMPTY || !IsSensitive(key) || IsEncrypted(value) || masterKey == "" then value
    else Seal(AppConfigV1, masterKey, nonce, value)
  }

  /** Set-then-get gives the value back exactly when it does not itself look encrypted; no other key
      reads differently. */
  lemma SetThenGet(masterKey: Key, table: Table, key: string, value: Text, nonce: nat)
    ensures var after := table[key := Prepare(masterKey, key, value, nonce)];
      && (Get(masterKey, after, key) == Success(value) <==> !IsEncrypted(value))
      && forall k | k != key :: Get(masterKey, after, k) == Get(masterKey, table, k)
  {
    if value.Sealed? {
      assert value.plain < value;
    }
  }

  // ----- What the two rewrites do to the table ------------------------------------------------

  /** A row that the rekey rewrites. */
  predicate IsTarget(key: string, value: Text) { IsSensitive(key) && value != EMPTY }

  /** A row that the soft migration rewrites. */
  predicate IsPlaintextSecret(key: string, value: Text) { IsTarget(key, value) && !IsEncrypted(value) }

  predicate IsSealedAs(value: Text, masterKey: Key, plain: Text) {
    value.Sealed? && value.scheme == AppConfigV1 && value.key == masterKey && value.plain == plain
  }

  /** The soft migration selects the rows before its transaction begins: `read` is the table that it read,
      `before` the one that it then wrote to. */
  ghost predicate SoftEncrypted(read: Table, before: Table, after: Table, masterKey: Key) {
    && after.Keys == before.Keys
    && forall k | k in before ::
         if k in read && IsPlaintextSecret(k, read[k]) then IsSealedAs(after[k], masterKey, read[k])
         else after[k] == before[k]
  }

  ghost predicate AllTargetsOpen(table: Table, oldKey: Key) {
    forall k | k in table && IsTarget(k, table[k]) :: Decode(oldKey, table[k]).Success?
  }

  ghost predicate Rekeyed(before: Table, after: Table, oldKey: Key, newKey: Key) {
    && after.Keys == before.Keys
    && AllTargetsOpen(before, oldKey)
    && forall k | k in before ::
         if IsTarget(k, before[k]) then IsSealedAs(after[k], newKey, Decode(oldKey, before[k]).value)
         else after[k] == before[k]
  }

  datatype RekeyResult = RekeyResult(count: nat, keys: seq<string>, dryRun: bool)

  datatype RekeyItem = RekeyItem(key: string, plaintext: Text, newValue: Text)

  /** The report names exactly the rows that the rekey rewrites, each once. */
  ghost predicate Reports(result: RekeyResult, table: Table) {
    && result.count == |result.keys|
    && (forall k :: k in result.keys <==> k in table && IsSensitive(k) && table[k] != Raw(""))
    && (forall i, j | 0 <= i < j < |result.keys| :: result.keys[i] != result.keys[j])
  }

  class Repository {
    var table: Table

    method SetAppConfig(masterKey: Key, key: string, value: Text, nonce: nat, fails: nat -> bool)
      returns (r: Result<()>)
      modifies this
      ensures r.Success? ==> table == old(table)[key := Prepare(masterKey, key, value, nonce)]
      ensures r.Failure? ==> table == old(table) && (fails(0) || fails(1))
    {
      var storedValue := value;
      if value != EMPTY && IsSensitive(key) && !IsEncrypted(value) && masterKey != "" {
        if fails(0) { return Failure; }
        storedValue := Seal(AppConfigV1, masterKey, nonce, value);
      }
      if fails(1) { return Failure; }
      table := table[key := storedValue];
      r := Success(());
    }

    method GetAppConfig(masterKey: Key, key: string, fails: nat -> bool) returns (r: Result<Text>)
      ensures r == if fails(0) then Failure else Get(masterKey, table, key)
    {
      if fails(0) { return Failure; }
      if key !in table { return Success(EMPTY); }
      r := Decode(masterKey, table[key]);
    }

    /** All settings decoded, or an error as soon as one of them cannot be. */
    method GetAllAppConfig(masterKey: Key, fails: nat -> bool) returns (r: Result<Table>)
      ensures r.Failure? ==> (exists k :: k in table && Decode(masterKey, table[k]).Failure?) || exists n :: fails(n)
      ensures r.Success? ==> r.value.Keys == table.Keys
      ensures r.Success? ==> forall k | k in table :: Decode(masterKey, table[k]) == Success(r.value[k])
    {
      if fails(0) { return Failure; }
      var rows := Select(table);
      var result: Table := map[];
      for i := 0 to |rows|
        invariant result.Keys == set j | 0 <= j < i :: rows[j].0
        invariant forall j | 0 <= j < i :: Decode(masterKey, rows[j].1) == Success(result[rows[j].0])
      {
        if fails(1 + i) { return Failure; }
        var decoded := Decode(masterKey, rows[i].1);
        if decoded.Failure? {
          assert Decode(masterKey, table[rows[i].0]).Failure?;
          return Failure;
        }
        result := result[rows[i].0 := decoded.value];
      }
      forall k | k in table
        ensures k in result && Decode(masterKey, table[k]) == Success(result[k])
      {
        assert (k, table[k]) in rows;
      }
      if fails(1 + |rows|) { return Failure; }
      r := Success(result);
    }

    /** Encrypts every plain sensitive value in one transaction. Without a master key it does nothing.
        `others` is what other connections do to the table between the SELECT and the transaction. */
    method EncryptAppConfigSensitiveValues(masterKey: Key, nonces: nat -> nat, fails: nat -> bool,
                                           others: Table -> Table)
      returns (r: Result<()>)
      modifies this
      ensures r.Success? && masterKey == "" ==> table == old(table)
      ensures r.Success? && masterKey != "" ==> SoftEncrypted(old(table), others(old(table)), table, masterKey)
      ensures r.Failure? ==> table in {old(table), others(old(table))} && exists n :: fails(n)
    {
      if masterKey == "" { return Success(()); }
      if fails(0) { return Failure; }
      var rows := Select(table);
      WhereLists(rows, table, IsPlaintextSecret);
      var collected := CollectPlaintext(rows, masterKey, nonces, (n: nat) => fails(1 + n));
      if collected.Failure? { return Failure; }
      table := others(table);
      var updates := collected.value;
      if updates == [] {
        assert Where(rows, IsPlaintextSecret) == [];
        return Success(());
      }
      var base := 2 * |rows| + 2;
      if fails(base) { return Failure; }
      var written := OverwriteCollected(table, updates, (n: nat) => fails(base + 1 + n));
      if written.Failure? { return Failure; }
      if fails(base + 1 + |updates|) { return Failure; }
      OverwrittenIsSoftEncrypted(old(table), rows, updates, table, written.value, masterKey);
      table := written.value;
      r := Success(());
    }

    /** Re-encrypts the sensitive values under a new master key, in one transaction. Any error, at
        whatever step, and any dry run leave the table as it was. */
    method RekeyAppConfigSensitiveValues(oldKey: Key, newMasterKey: Option<Key>, dryRun: bool,
                                         nonces: nat -> nat, fails: nat -> bool)
      returns (r: Result<RekeyResult>)
      modifies this
      ensures r.Failure? || dryRun ==> table == old(table)
      ensures r.Success? ==> RekeyConfigured(oldKey, newMasterKey) && AllTargetsOpen(old(table), oldKey)
      ensures r.Success? ==> r.value.dryRun == dryRun && Reports(r.value, old(table))
      ensures r.Success? && !dryRun ==> Rekeyed(old(table), table, oldKey, newMasterKey.value)
      ensures r.Failure? && RekeyConfigured(oldKey, newMasterKey) && AllTargetsOpen(old(table), oldKey) ==>
                exists n :: fails(n)
    {
      if !RekeyConfigured(oldKey, newMasterKey) { return Failure; }
      var newKey := newMasterKey.value;
      if fails(0) || fails(1) { return Failure; }
      var rows := Select(table);
      var collected := CollectRekeyItems(rows, oldKey, newKey, nonces, (n: nat) => fails(2 + n));
      if collected.Failure? { return Failure; }
      var updates := collected.value;
      var result := RekeyResult(|updates|, seq(|updates|, i requires 0 <= i < |updates| => updates[i].key), dryRun);
      CollectedIsReported(table, rows, updates, result);
      var base := 2 * |rows| + 3;
      if |updates| == 0 || dryRun {
        // Rolled back, or committed with nothing in it.
        if fails(base) { return Failure; }
        AppliedIsRekeyed(table, rows, updates, oldKey, newKey, table);
        return Success(result);
      }
      WhereLists(rows, table, IsTarget);
      var applied := ApplyRekeyItems(table, updates, newKey, (n: nat) => fails(base + n));
      if applied.Failure? { return Failure; }
      if fails(base + 2 * |updates|) { return Failure; }
      AppliedIsRekeyed(table, rows, updates, oldKey, newKey, applied.value);
      table := applied.value;
      r := Success(result);
    }
  }

  /** The rows that the updates name and that still exist have their new values. */
  ghost predicate Overwritten(before: Table, updates: seq<(string, Text)>, after: Table) {
    && after.Keys == before.Keys
    && (forall j | 0 <= j < |updates| && updates[j].0 in before :: after[updates[j].0] == updates[j].1)
    && (forall k | k in before && (forall j | 0 <= j < |updates| :: updates[j].0 != k) :: after[k] == before[k])
  }

  ghost predicate SealedFrom(rows: seq<(string, Text)>, updates: seq<(string, Text)>, masterKey: Key) {
    && |updates| == |Where(rows, IsPlaintextSecret)|
    && forall j | 0 <= j < |updates| ::
         var (key, value) := Where(rows, IsPlaintextSecret)[j];
         updates[j].0 == key && IsSealedAs(updates[j].1, masterKey, value)
  }

  lemma OverwrittenIsSoftEncrypted(read: Table, rows: seq<(string, Text)>, updates: seq<(string, Text)>,
                                   before: Table, after: Table, masterKey: Key)
    requires Lists(rows, read) && SealedFrom(rows, updates, masterKey) && Overwritten(before, updates, after)
    ensures SoftEncrypted(read, before, after, masterKey)
  {
    WhereLists(rows, read, IsPlaintextSecret);
    forall k | k in before
      ensures if k in read && IsPlaintextSecret(k, read[k]) then IsSealedAs(after[k], masterKey, read[k])
              else after[k] == before[k]
    {
      if k in read && IsPlaintextSecret(k, read[k]) {
        var j :| 0 <= j < |updates| && Where(rows, IsPlaintextSecret)[j] == (k, read[k]);
        assert updates[j].0 == k;
      }
    }
  }

  ghost predicate CollectedFrom(rows: seq<(string, Text)>, updates: seq<RekeyItem>, oldKey: Key, newKey: Key) {
    && |updates| == |Where(rows, IsTarget)|
    && forall j | 0 <= j < |updates| ::
         var (key, value) := Where(rows, IsTarget)[j];
         && updates[j].key == key
         && Decode(oldKey, value) == Success(updates[j].plaintext)
         && IsSealedAs(updates[j].newValue, newKey, updates[j].plaintext)
  }

  lemma CollectedIsReported(table: Table, rows: seq<(string, Text)>, updates: seq<RekeyItem>, result: RekeyResult)
    requires Lists(rows, table) && |updates| == |Where(rows, IsTarget)|
    requires forall j | 0 <= j < |updates| :: updates[j].key == Where(rows, IsTarget)[j].0
    requires result.count == |result.keys| == |updates|
    requires forall j | 0 <= j < |updates| :: result.keys[j] == updates[j].key
    ensures Reports(result, table)
  {
    WhereLists(rows, table, IsTarget);
    forall k | k in table && IsTarget(k, table[k])
      ensures k in result.keys
    {
      var j :| 0 <= j < |updates| && Where(rows, IsTarget)[j] == (k, table[k]);
      assert result.keys[j] == k;
    }
  }

  /** Writing what was collected is the rekey, and every row it rewrites did open. */
  lemma AppliedIsRekeyed(table: Table, rows: seq<(string, Text)>, updates: seq<RekeyItem>,
                         oldKey: Key, newKey: Key, after: Table)
    requires Lists(rows, table) && CollectedFrom(rows, updates, oldKey, newKey)
    ensures AllTargetsOpen(table, oldKey)
    ensures Applied(table, updates, after) ==> Rekeyed(table, after, oldKey, newKey)
  {
    WhereLists(rows, table, IsTarget);
    forall k | k in table && IsTarget(k, table[k])
      ensures Decode(oldKey, table[k]).Success?
      ensures Applied(table, updates, after) ==> IsSealedAs(after[k], newKey, Decode(oldKey, table[k]).value)
    {
      var j :| 0 <= j < |updates| && Where(rows, IsTarget)[j] == (k, table[k]);
      assert updates[j].key == k;
    }
  }

  ghost predicate Applied(table: Table, updates: seq<RekeyItem>, after: Table) {
    && after.Keys == table.Keys
    && (forall i | 0 <= i < |updates| :: updates[i].key in table && after[updates[i].key] == updates[i].newValue)
    && (forall k | k in table && (forall i | 0 <= i < |updates| :: updates[i].key != k) :: after[k] == table[k])
  }

  /** The first loop of the soft migration: the plain secrets, encrypted. */
  method CollectPlaintext(rows: seq<(string, Text)>, masterKey: Key, nonces: nat -> nat, fails: nat -> bool)
    returns (r: Result<seq<(string, Text)>>)
    ensures r.Failure? ==> exists n :: fails(n)
    ensures r.Success? ==> SealedFrom(rows, r.value, masterKey)
  {
    var updates: seq<(string, Text)> := [];
    for i := 0 to |rows|
      invariant SealedFrom(rows[..i], updates, masterKey)
    {
      assert rows[..i + 1][..i] == rows[..i];
      if fails(2 * i) { return Failure; }
      var (key, value) := rows[i];
      if IsSensitive(key) && value != EMPTY && !IsEncrypted(value) {
        if fails(2 * i + 1) { return Failure; }
        updates := updates + [(key, Seal(AppConfigV1, masterKey, nonces(i), value))];
      }
    }
    assert rows[..|rows|] == rows;
    if fails(2 * |rows|) { return Failure; }
    r := Success(updates);
  }

  /** The second loop of the soft migration. */
  method OverwriteCollected(table: Table, updates: seq<(string, Text)>, fails: nat -> bool) returns (r: Result<Table>)
    requires forall i, j | 0 <= i < j < |updates| :: updates[i].0 != updates[j].0
    ensures r.Failure? ==> exists n :: fails(n)
    ensures r.Success? ==> Overwritten(table, updates, r.value)
  {
    var tx := table;
    for i := 0 to |updates|
      invariant Overwritten(table, updates[..i], tx)
    {
      if fails(i) { return Failure; }
      if updates[i].0 in tx {
        tx := tx[updates[i].0 := updates[i].1];
      }
    }
    assert updates[..|updates|] == updates;
    r := Success(tx);
  }

  /** The first loop of the rekey: the sensitive values, decrypted, encrypted anew and checked. */
  method CollectRekeyItems(rows: seq<(string, Text)>, oldKey: Key, newKey: Key,
                           nonces: nat -> nat, fails: nat -> bool)
    returns (r: Result<seq<RekeyItem>>)
    requires oldKey != ""
    ensures r.Failure? && (forall row | row in rows && IsTarget(row.0, row.1) :: Decode(oldKey, row.1).Success?) ==>
              exists n :: fails(n)
    ensures r.Success? ==> CollectedFrom(rows, r.value, oldKey, newKey)
  {
    var updates: seq<RekeyItem> := [];
    for i := 0 to |rows|
      invariant CollectedFrom(rows[..i], updates, oldKey, newKey)
    {
      assert rows[..i + 1][..i] == rows[..i];
      if fails(2 * i) { return Failure; }
      var (key, value) := rows[i];
      if IsSensitive(key) && value != EMPTY {
        var plaintext := value;
        if IsEncrypted(value) {
          var decrypted := Open(AppConfigV1, oldKey, value);
          if decrypted.Failure? { return Failure; }
          plaintext := decrypted.value;
        }
        if fails(2 * i + 1) { return Failure; }
        var reencoded := Seal(AppConfigV1, newKey, nonces(i), plaintext);
        if Open(AppConfigV1, newKey, reencoded).Failure? { return Failure; }
        updates := updates + [RekeyItem(key, plaintext, reencoded)];
      }
    }
    assert rows[..|rows|] == rows;
    if fails(2 * |rows|) { return Failure; }
    r := Success(updates);
  }

  /** The second loop of the rekey: each new value is written, read back and opened. */
  method ApplyRekeyItems(table: Table, updates: seq<RekeyItem>, newKey: Key, fails: nat -> bool)
    returns (r: Result<Table>)
    requires forall i | 0 <= i < |updates| :: updates[i].key in table
    requires forall i, j | 0 <= i < j < |updates| :: updates[i].key != updates[j].key
    requires forall i | 0 <= i < |updates| :: IsSealedAs(updates[i].newValue, newKey, updates[i].plaintext)
    ensures r.Failure? ==> exists n :: fails(n)
    ensures r.Success? ==> Applied(table, updates, r.value)
  {
    var tx := table;
    for i := 0 to |updates|
      invariant Applied(table, updates[..i], tx)
    {
      var item := updates[i];
      if fails(2 * i) { return Failure; }
      tx := tx[item.key := item.newValue];
      if fails(2 * i + 1) { return Failure; }
      var storedValue := tx[item.key];
      if !IsEncrypted(storedValue) { return Failure; }
      var decoded := Open(AppConfigV1, newKey, storedValue);
      if decoded.Failure? || decoded.value != item.plaintext { return Failure; }
    }
    assert updates[..|updates|] == updates;
    r := Success(tx);
  }

  // ----- The soft migration -------------------------------------------------------------------

  /** Every sensitive value that is not empty is encrypted. */
  predicate NoPlainSecrets(table: Table) {
    forall k | k in table && IsSensitive(k) && table[k] != Raw("") :: IsEncrypted(table[k])
  }

  /** Undisturbed, no reader sees a difference, no plain secret is left, and a second migration changes
      nothing. */
  lemma SoftMigration(before: Table, after: Table, masterKey: Key)
    requires masterKey != "" && SoftEncrypted(before, before, after, masterKey)
    ensures forall key :: Get(masterKey, after, key) == Get(masterKey, before, key)
    ensures NoPlainSecrets(after)
    ensures forall again | SoftEncrypted(after, after, again, masterKey) :: again == after
  {
    forall again | SoftEncrypted(after, after, again, masterKey)
      ensures again == after
    {
      assert forall k | k in after :: !IsPlaintextSecret(k, after[k]) && again[k] == after[k];
    }
  }

  /** Every secret that the migration selected in the clear still reads as it did then. */
  predicate Undisturbed(read: Table, before: Table, masterKey: Key) {
    forall k | k in before && k in read && IsPlaintextSecret(k, read[k]) ::
      Decode(masterKey, before[k]) == Success(read[k])
  }

  /** With writes of others in between, no reader sees the migration if and only if none of them gave a
      selected secret another value: such a write is lost. */
  lemma DisturbedMigration(read: Table, before: Table, after: Table, masterKey: Key)
    requires SoftEncrypted(read, before, after, masterKey) && masterKey != ""
    ensures (forall key :: Get(masterKey, after, key) == Get(masterKey, before, key))
            <==> Undisturbed(read, before, masterKey)
  {
    forall k | k in before
      ensures Get(masterKey, after, k) == Get(masterKey, before, k)
              <==> (k in read && IsPlaintextSecret(k, read[k]) ==> Decode(masterKey, before[k]) == Success(read[k]))
    {
    }
  }

  // ----- The change of key --------------------------------------------------------------------

  /** An encrypted value under a key that the rekey does not touch, although one of the two master
      keys opens it. */
  predicate Misplaced(table: Table, key: string, oldKey: Key, newKey: Key)
    requires key in table
  {
    !IsSensitive(key) && table[key].Sealed? && table[key].scheme == AppConfigV1
    && table[key].key in {oldKey, newKey}
  }

  /** After a committed rekey every sensitive value that is not empty is sealed with the new master key. */
  lemma RekeySealsAll(before: Table, after: Table, oldKey: Key, newKey: Key)
    requires Rekeyed(before, after, oldKey, newKey)
    ensures NoPlainSecrets(after)
    ensures forall k | k in before && IsSensitive(k) && before[k] != Raw("") ::
      IsSealedAs(after[k], newKey, if IsEncrypted(before[k]) then before[k].plain else before[k])
  {
  }

  /** A committed rekey makes every key read under the new master key as it read under the old one
      if and only if no encrypted value that either key opens sits under a key that is not sensitive. */
  lemma RekeyPreservesReads(before: Table, after: Table, oldKey: Key, newKey: Key)
    requires oldKey != "" && newKey != "" && oldKey != newKey
    requires Rekeyed(before, after, oldKey, newKey)
    ensures (forall key :: Get(newKey, after, key) == Get(oldKey, before, key))
            <==> forall k | k in before :: !Misplaced(before, k, oldKey, newKey)
  {
    forall k | k in before
      ensures Get(newKey, after, k) == Get(oldKey, before, k) <==> !Misplaced(before, k, oldKey, newKey)
    {
    }
  }

  // ----- Whole runs: the encrypted table against a plain one ----------------------------------

  /** The table together with the master key that the program runs with; none at first, perhaps. */
  datatype State = State(masterKey: Key, table: Table)

  /** The settings as their users see them. */
  type Settings = map<string, Text>

  /** What may happen: a setting is written; the program is given its first master key; a soft migration,
      which selected its rows from the table `read`, commits; a rekey commits and the program restarts with
      the new key. */
  datatype Op =
    | Set(key: string, value: Text, nonce: nat)
    | Configure(newKey: Key)
    | Migrate(read: Table)
    | Rekey(newKey: Key)

  ghost predicate Next(s: State, op: Op, s': State) {
    match op
    case Set(key, value, nonce) =>
      s' == s.(table := s.table[key := Prepare(s.masterKey, key, value, nonce)])
    case Configure(newKey) => s.masterKey == "" && newKey != "" && s' == s.(masterKey := newKey)
    case Migrate(read) =>
      && s'.masterKey == s.masterKey
      && if s.masterKey == "" then s'.table == s.table else SoftEncrypted(read, s.table, s'.table, s.masterKey)
    case Rekey(newKey) =>
      && s.masterKey != "" && s'.masterKey == newKey && newKey != "" && newKey != s.masterKey
      && Rekeyed(s.table, s'.table, s.masterKey, newKey)
  }

  /** Nobody sets a value that looks encrypted, or changes a secret under a running soft migration. */
  predicate Legal(s: State, op: Op) {
    match op
    case Set(_, value, _) => !IsEncrypted(value)
    case Migrate(read) => Undisturbed(read, s.table, s.masterKey)
    case _ => true
  }

  function NextSettings(settings: Settings, op: Op): Settings {
    if op.Set? then settings[op.key := op.value] else settings
  }

  function SettingsAfter(start: Settings, ops: seq<Op>): Settings {
    if ops == [] then start else NextSettings(SettingsAfter(start, ops[..|ops| - 1]), ops[|ops| - 1])
  }

  ghost predicate IsRun(states: seq<State>, ops: seq<Op>) {
    && |states| == |ops| + 1
    && (forall i | 0 <= i < |ops| :: Next(states[i], ops[i], states[i + 1]) && Legal(states[i], ops[i]))
  }

  /** The table stores the settings: readable under the current key, encrypted only where secret. */
  ghost predicate Stores(s: State, settings: Settings) {
    && s.table.Keys == settings.Keys
    && (forall k | k in settings :: Get(s.masterKey, s.table, k) == Success(settings[k]))
    && (forall k | k in s.table && IsEncrypted(s.table[k]) :: IsSensitive(k))
  }

  lemma StepStores(s: State, op: Op, s': State, settings: Settings)
    requires Stores(s, settings) && Next(s, op, s') && Legal(s, op)
    ensures Stores(s', NextSettings(settings, op))
  {
    match op
    case Set(key, value, nonce) => SetThenGet(s.masterKey, s.table, key, value, nonce);
    case Configure(_) =>
      assert forall k | k in settings :: Get("", s.table, k) == Success(settings[k]) && !IsEncrypted(s.table[k]);
    case Migrate(read) =>
      if s.masterKey != "" {
        DisturbedMigration(read, s.table, s'.table, s.masterKey);
      }
    case Rekey(newKey) =>
      forall k | k in s.table
        ensures !Misplaced(s.table, k, s.masterKey, newKey)
      {
        assert Misplaced(s.table, k, s.masterKey, newKey) ==> IsEncrypted(s.table[k]);
      }
      RekeyPreservesReads(s.table, s'.table, s.masterKey, newKey);
  }

  /** From any table that stores some settings, in the clear or not, over any run of writes, soft migrations
      and rekeys, the encrypted table refines a plain map: each reader gets the value last written, whichever
      master key is current. */
  lemma {:induction false} TableRefinesPlainSettings(states: seq<State>, ops: seq<Op>, start: Settings)
    requires IsRun(states, ops) && Stores(states[0], start)
    ensures Stores(states[|ops|], SettingsAfter(start, ops))
  {
    if ops != [] {
      var n := |ops| - 1;
      TableRefinesPlainSettings(states[..n + 1], ops[..n], start);
      StepStores(states[n], ops[n], states[n + 1], SettingsAfter(start, ops[..n]));
    }
  }

  /** Once a master key is configured and no secret is in the clear, no secret ever is again. */
  lemma {:induction false} SecretsStaySealed(states: seq<State>, ops: seq<Op>, i: nat)
    requires IsRun(states, ops) && i <= |ops|
    requires states[i].masterKey != "" && NoPlainSecrets(states[i].table)
    ensures states[|ops|].masterKey != "" && NoPlainSecrets(states[|ops|].table)
  {
    if i < |ops| {
      var n := |ops| - 1;
      SecretsStaySealed(states[..n + 1], ops[..n], i);
      StepStaysSealed(states[n], ops[n], states[n + 1]);
    }
  }

  lemma StepStaysSealed(s: State, op: Op, s': State)
    requires Next(s, op, s') && s.masterKey != "" && NoPlainSecrets(s.table)
    ensures s'.masterKey != "" && NoPlainSecrets(s'.table)
  {
  }

  /** So it is from the first undisturbed soft migration on. */
  lemma MigrationSealsForGood(states: seq<State>, ops: seq<Op>, i: nat)
    requires IsRun(states, ops) && i < |ops| && ops[i] == Migrate(states[i].table) && states[i].masterKey != ""
    ensures NoPlainSecrets(states[|ops|].table)
  {
    SoftMigration(states[i].table, states[i + 1].table, states[i].masterKey);
    SecretsStaySealed(states, ops, i + 1);
  }
}
