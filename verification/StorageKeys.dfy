/**
 Object keys of the file storage. Every object of a user lives under `users/<id>/`; a key names one
 object of one user.
 */
module StorageKeys {
  // ----- Decimal numbers ----------------------------------------------------------------------

  function Digit(d: nat): char
    requires d < 10
  {
    "0123456789"[d]
  }

  function Decimal(n: nat): string {
    if n < 10 then [Digit(n)] else Decimal(n / 10) + [Digit(n % 10)]
  }

  /** The last digit stands for the remainder, the digits before it for the rest. */
  lemma DecimalDigits(n: nat, d: nat)
    requires d < 10
    ensures Decimal(d) == ["0123456789"[d]]
    ensures 0 < n ==> Decimal(10 * n + d) == Decimal(n) + ["0123456789"[d]]
  {
    assert (10 * n + d) / 10 == n && (10 * n + d) % 10 == d;
  }

  function DigitValue(c: char): nat { if '0' <= c <= '9' then c as nat - '0' as nat else 0 }

  function Value(s: string): nat {
    if s == "" then 0 else 10 * Value(s[..|s| - 1]) + DigitValue(s[|s| - 1])
  }

  /** Reading back what was printed; so no two numbers print alike. */
  lemma {:induction false} DecimalRoundTrip(n: nat)
    ensures Value(Decimal(n)) == n
    ensures '/' !in Decimal(n)
  {
    if 10 <= n {
      DecimalRoundTrip(n / 10);
      assert Decimal(n)[..|Decimal(n)| - 1] == Decimal(n / 10);
    } else {
      assert Decimal(n)[..0] == "";
    }
  }

  // ----- Valid keys ---------------------------------------------------------------------------

  function UserPrefix(user: nat): string { "users/" + Decimal(user) + "/" }

  /** The parts between slashes. */
  function Split(s: string): (parts: seq<string>)
    ensures parts != []
  {
    if s == "" then [""]
    else
      var rest := Split(s[1..]);
      if s[0] == '/' then [""] + rest else [[s[0]] + rest[0]] + rest[1..]
  }

  predicate ContainsAny(s: string, chars: string) { exists i | 0 <= i < |s| :: s[i] in chars }

  predicate ValidStorageKey(user: nat, key: string) {
    && UserPrefix(user) <= key
    && !ContainsAny(key, "\\\0\r\n")
    && forall part | part in Split(key[|UserPrefix(user)|..]) :: part !in {"", ".", ".."}
  }

  /** Where the user's number and the slash after it are in a key. */
  lemma KeyCharacter(user: nat, key: string, i: nat)
    requires UserPrefix(user) <= key && 6 <= i <= 6 + |Decimal(user)|
    ensures i < |key| && key[i] == if i < 6 + |Decimal(user)| then Decimal(user)[i - 6] else '/'
  {
    var prefix := UserPrefix(user);
    assert key[i] == prefix[i];
  }

  /** The parts with slashes between them. */
  function Join(parts: seq<string>): string {
    if parts == [] then "" else if |parts| == 1 then parts[0] else parts[0] + "/" + Join(parts[1..])
  }

  predicate IsPart(part: string) { '/' !in part }

  /** Splitting and joining are inverse to each other. */
  lemma {:induction false} JoinSplit(s: string)
    ensures Join(Split(s)) == s && forall part | part in Split(s) :: IsPart(part)
  {
    if s != "" {
      JoinSplit(s[1..]);
      var rest := Split(s[1..]);
      if s[0] == '/' {
        assert Split(s)[1..] == rest;
        assert s == "" + "/" + s[1..];
      } else {
        JoinGrows(s[0], rest);
        assert IsPart(rest[0]);
        assert s == [s[0]] + s[1..];
      }
    }
  }

  lemma JoinGrows(c: char, parts: seq<string>)
    requires parts != []
    ensures Join([[c] + parts[0]] + parts[1..]) == [c] + Join(parts)
  {
    var longer := [[c] + parts[0]] + parts[1..];
    assert longer[1..] == parts[1..];
    if |parts| != 1 {
      assert [c] + (parts[0] + "/" + Join(parts[1..])) == [c] + parts[0] + "/" + Join(parts[1..]);
    }
  }

  lemma {:induction false} SplitJoin(parts: seq<string>)
    requires parts != [] && forall part | part in parts :: IsPart(part)
    ensures Split(Join(parts)) == parts
  {
    assert IsPart(parts[0]);
    if |parts| == 1 {
      SplitWithoutSlash(parts[0]);
    } else {
      SplitJoin(parts[1..]);
      SplitAtSlash(parts[0], Join(parts[1..]));
    }
  }

  lemma {:induction false} SplitAtSlash(first: string, rest: string)
    requires IsPart(first)
    ensures Split(first + "/" + rest) == [first] + Split(rest)
  {
    if first == "" {
      assert (first + "/" + rest)[1..] == rest;
    } else {
      SplitAtSlash(first[1..], rest);
      assert (first + "/" + rest)[1..] == first[1..] + "/" + rest;
      assert [first[0]] + first[1..] == first;
    }
  }

  /** A part that may stand in a key: not empty, and no step within or out of a directory. */
  predicate IsPlainPart(part: string) { IsPart(part) && part != "" && part != "." && part != ".." }

  predicate IsControl(c: char) { c == '\\' || c == '\0' || c == '\r' || c == '\n' }

  ghost predicate IsPathOf(parts: seq<string>, user: nat, key: string) {
    && parts != [] && (forall part | part in parts :: IsPlainPart(part))
    && key == "users/" + Decimal(user) + "/" + Join(parts)
  }

  /** The valid keys of a user are exactly the paths of plain parts under the user's directory, without
      backslashes and control characters. */
  lemma ValidKeyIff(user: nat, key: string)
    ensures ValidStorageKey(user, key)
            <==> (exists parts :: IsPathOf(parts, user, key)) && forall i | 0 <= i < |key| :: !IsControl(key[i])
  {
    var prefix := UserPrefix(user);
    assert ContainsAny(key, "\\\0\r\n") <==> exists i :: 0 <= i < |key| && IsControl(key[i]);
    if ValidStorageKey(user, key) {
      JoinSplit(key[|prefix|..]);
      assert key == prefix + key[|prefix|..];
      assert IsPathOf(Split(key[|prefix|..]), user, key);
    }
    forall parts | IsPathOf(parts, user, key)
      ensures prefix <= key && Split(key[|prefix|..]) == parts
    {
      assert key == prefix + Join(parts) && key[|prefix|..] == Join(parts);
      forall part | part in parts ensures IsPart(part) {
        assert IsPlainPart(part);
      }
      SplitJoin(parts);
    }
  }

  /** In a key of a user the first slash after "users/" ends the user's number. */
  lemma NumberInKey(user: nat, key: string)
    requires UserPrefix(user) <= key
    ensures var d := Decimal(user);
      && 6 + |d| < |key| && key[6..6 + |d|] == d && key[6 + |d|] == '/'
      && (forall i | 6 <= i < 6 + |d| :: key[i] != '/')
  {
    var d := Decimal(user);
    DecimalRoundTrip(user);
    KeyCharacter(user, key, 6 + |d|);
    forall i | 6 <= i < 6 + |d|
      ensures key[i] == d[i - 6] && key[i] != '/'
    {
      KeyCharacter(user, key, i);
      assert d[i - 6] in d;
    }
  }

  /** No key begins with the prefixes of two users, so none is valid for both. */
  lemma KeySpacesDisjoint(user: nat, other: nat, key: string)
    requires UserPrefix(user) <= key && UserPrefix(other) <= key
    ensures user == other
  {
    NumberInKey(user, key);
    NumberInKey(other, key);
    DecimalRoundTrip(user);
    DecimalRoundTrip(other);
    assert |Decimal(user)| == |Decimal(other)|;
  }

  // ----- Keys of uploads ----------------------------------------------------------------------

  function StripSlashes(s: string): string {
    if s != "" && s[|s| - 1] == '/' then StripSlashes(s[..|s| - 1]) else s
  }

  function AfterLastSlash(s: string): string {
    if s == "" || s[|s| - 1] == '/' then "" else AfterLastSlash(s[..|s| - 1]) + [s[|s| - 1]]
  }

  /** filepath.Base */
  function Base(path: string): string {
    if path == "" then "."
    else if AfterLastSlash(StripSlashes(path)) == "" then "/" else AfterLastSlash(StripSlashes(path))
  }

  predicate IsBlank(s: string) { forall i | 0 <= i < |s| :: s[i] in " \t\n\U{0B}\U{0C}\r" }

  /** The checks of the upload handler on the file name; characters stand for bytes. */
  predicate AcceptsFileName(name: string) {
    !IsBlank(name) && name == Base(name) && !ContainsAny(name, "\\/\0\r\n") && |name| <= 255
  }

  /** The text form of a UUID. */
  predicate IsObjectId(id: string) {
    |id| == 36 && forall i | 0 <= i < |id| :: id[i] in "0123456789abcdef-"
  }

  function UploadKey(user: nat, objectId: string, name: string): string {
    UserPrefix(user) + objectId + "-" + Base(name)
  }

  lemma {:induction false} SplitWithoutSlash(s: string)
    requires '/' !in s
    ensures Split(s) == [s]
  {
    if s != "" {
      SplitWithoutSlash(s[1..]);
      assert [s[0]] + s[1..] == s;
    }
  }

  /** The test on the characters subsumes the one on the base name. */
  lemma {:induction false} BaseOfPlainName(name: string)
    requires '/' !in name
    ensures AfterLastSlash(name) == name
    ensures name != "" ==> Base(name) == name
  {
    if name != "" {
      BaseOfPlainName(name[..|name| - 1]);
    }
  }

  lemma PlainConcat(a: string, b: string, chars: string)
    requires !ContainsAny(a, chars) && !ContainsAny(b, chars)
    ensures !ContainsAny(a + b, chars)
  {
  }

  lemma PrefixIsPlain(user: nat)
    ensures !ContainsAny(UserPrefix(user), "\\\0\r\n")
  {
    DecimalPlain(user);
    PlainConcat("users/", Decimal(user), "\\\0\r\n");
    PlainConcat("users/" + Decimal(user), "/", "\\\0\r\n");
  }

  /** A file name is accepted exactly if it has a character that is no blank, none that may not stand in a key, and
      at most 255 of them. */
  lemma AcceptsIff(name: string)
    ensures AcceptsFileName(name)
            <==> && |name| <= 255 && '/' !in name && (forall i | 0 <= i < |name| :: !IsControl(name[i]))
                 && exists i :: 0 <= i < |name| && name[i] !in " \t\n\U{0B}\U{0C}\r"
  {
    assert ContainsAny(name, "\\/\0\r\n") <==> exists i :: 0 <= i < |name| && (IsControl(name[i]) || name[i] == '/');
    if '/' !in name {
      BaseOfPlainName(name);
    }
  }

  /** Every key built for an upload that passed the checks is valid for its owner. */
  lemma UploadKeyIsValid(user: nat, objectId: string, name: string)
    requires IsObjectId(objectId) && AcceptsFileName(name)
    ensures ValidStorageKey(user, UploadKey(user, objectId, name))
  {
    var bad := "\\\0\r\n";
    var key, part := UploadKey(user, objectId, name), objectId + "-" + name;
    NameAndIdPlain(objectId, name);
    BaseOfPlainName(name);
    SplitWithoutSlash(part);
    assert key == UserPrefix(user) + part && key[|UserPrefix(user)|..] == part;
    PrefixIsPlain(user);
    PlainConcat(UserPrefix(user), part, bad);
  }

  lemma NameAndIdPlain(objectId: string, name: string)
    requires IsObjectId(objectId) && AcceptsFileName(name)
    ensures '/' !in name && '/' !in objectId + "-" + name
    ensures !ContainsAny(objectId + "-" + name, "\\\0\r\n")
  {
    assert forall i | 0 <= i < |name| :: name[i] !in "\\/\0\r\n";
    assert forall i | 0 <= i < |objectId| :: objectId[i] in "0123456789abcdef-";
    PlainConcat(objectId, "-", "\\\0\r\n");
    PlainConcat(objectId + "-", name, "\\\0\r\n");
  }

  lemma {:induction false} DecimalPlain(n: nat)
    ensures forall i | 0 <= i < |Decimal(n)| :: '0' <= Decimal(n)[i] <= '9'
  {
    if 10 <= n {
      DecimalPlain(n / 10);
    }
  }

  /** Different uploads get different keys: the key determines the user, the object and the name. */
  lemma UploadKeyInjective(user: nat, id: string, name: string, user': nat, id': string, name': string)
    requires IsObjectId(id) && IsObjectId(id') && AcceptsFileName(name) && AcceptsFileName(name')
    requires UploadKey(user, id, name) == UploadKey(user', id', name')
    ensures user == user' && id == id' && name == name'
  {
    UploadKeyParts(user, id, name);
    UploadKeyParts(user', id', name');
    KeySpacesDisjoint(user, user', UploadKey(user, id, name));
  }

  lemma UploadKeyParts(user: nat, id: string, name: string)
    requires IsObjectId(id) && AcceptsFileName(name)
    ensures var key, n := UploadKey(user, id, name), |UserPrefix(user)|;
      UserPrefix(user) <= key && n + 37 <= |key| && key[n..n + 36] == id && key[n + 37..] == name
  {
    var prefix := UserPrefix(user);
    assert UploadKey(user, id, name) == prefix + (id + ("-" + name));
  }

  // ----- Deleting everything ------------------------------------------------------------------

  /** How many of the listed keys are valid for the user. */
  function CountValid(user: nat, listing: seq<string>): nat {
    if listing == [] then 0
    else CountValid(user, listing[..|listing| - 1]) + (if ValidStorageKey(user, listing[|listing| - 1]) then 1 else 0)
  }

  function ValidAt(user: nat, listing: seq<string>): set<nat> {
    set i: nat | i < |listing| && ValidStorageKey(user, listing[i])
  }

  lemma ValidAtLast(user: nat, listing: seq<string>)
    requires listing != []
    ensures var n := |listing| - 1;
      ValidAt(user, listing)
      == ValidAt(user, listing[..n]) + (if ValidStorageKey(user, listing[n]) then {n} else {})
  {
    var n := |listing| - 1;
    forall i: nat | i < n
      ensures i in ValidAt(user, listing[..n]) <==> i in ValidAt(user, listing)
    {
      assert listing[..n][i] == listing[i];
    }
  }

  lemma {:induction false} CountsValidKeys(user: nat, listing: seq<string>)
    ensures CountValid(user, listing) == |ValidAt(user, listing)|
  {
    if listing != [] {
      var n := |listing| - 1;
      CountsValidKeys(user, listing[..n]);
      ValidAtLast(user, listing);
      assert n !in ValidAt(user, listing[..n]);
    }
  }

  class Backend {
    var objects: set<string>

    /** `listing` is what the backend listed under the user's prefix, `fails` says which deletions it
        refuses. The loop stops at the first refusal and reports what was deleted before. */
    method DeleteAllStorageObjects(user: nat, listing: seq<string>, fails: nat -> bool)
      returns (deleted: nat, ok: bool, ghost done: nat)
      modifies this
      ensures done <= |listing| && deleted == CountValid(user, listing[..done])
      ensures forall key :: key in objects <==>
        key in old(objects) && !(key in listing[..done] && ValidStorageKey(user, key))
      ensures ok ==> done == |listing|
      ensures !ok ==> done < |listing| && ValidStorageKey(user, listing[done]) && fails(done)
      ensures forall other, key | other != user && key in old(objects) && UserPrefix(other) <= key :: key in objects
    {
      deleted, done := 0, 0;
      for i := 0 to |listing|
        invariant done == i && deleted == CountValid(user, listing[..i])
        invariant forall key :: key in objects <==>
          key in old(objects) && !(key in listing[..i] && ValidStorageKey(user, key))
      {
        assert listing[..i + 1][..i] == listing[..i];
        if ValidStorageKey(user, listing[i]) {
          if fails(i) {
            OnlyOwnObjectsDeleted(old(objects), objects, user, listing, i);
            return deleted, false, i;
          }
          objects := objects - {listing[i]};
          deleted := deleted + 1;
        }
        done := i + 1;
      }
      OnlyOwnObjectsDeleted(old(objects), objects, user, listing, done);
      ok := true;
    }
  }

  /** What a run of the loop leaves: nobody else's objects are touched, and after a run to the end none
      of the listed objects of the user is left. */
  lemma OnlyOwnObjectsDeleted(before: set<string>, after: set<string>, user: nat, listing: seq<string>, done: nat)
    requires done <= |listing|
    requires forall key :: key in after <==> key in before && !(key in listing[..done] && ValidStorageKey(user, key))
    ensures forall other, key | other != user && key in before && UserPrefix(other) <= key :: key in after
    ensures done == |listing| ==> forall key | key in listing && ValidStorageKey(user, key) :: key !in after
  {
    forall other, key | other != user && key in before && UserPrefix(other) <= key
      ensures key in after
    {
      if UserPrefix(user) <= key {
        KeySpacesDisjoint(user, other, key);
      }
    }
    assert listing[..|listing|] == listing;
  }
}
