/**
 Rotation of refresh tokens: a token that was exchanged for a new pair goes on a blacklist in Redis,
 and is still accepted for a short grace period so that parallel requests do not fail. Time is in
 nanoseconds; the blacklist and the claims of a token keep whole seconds.
 */
module RefreshTokens {
  import opened Wrappers

  const SECOND: nat := 1_000_000_000
  const ACCESS_TOKEN_TTL: nat := 30 * 60 * SECOND
  const REFRESH_TOKEN_TTL: nat := 7 * 24 * 3600 * SECOND
  const GRACE: nat := 10 * SECOND

  /** A token is its claims and whether its signature is genuine: the same user and client get the same
      string twice within one second. */
  datatype Token = Token(signed: bool, user: nat, resp: nat, iat: nat, exp: nat)

  /** A blacklist entry: the second it was written, and when Redis drops it. */
  datatype Mark = Mark(stamp: nat, expiresAt: nat)

  /** `issued` are the genuine tokens handed out so far; `pending` the tokens of the refreshes that have passed
      their checks, by request. */
  datatype State = State(blacklist: map<Token, Mark>, issued: set<Token>, pending: map<nat, Token>)

  const INITIAL_STATE := State(map[], {}, map[])

  predicate IsBlacklisted(blacklist: map<Token, Mark>, token: Token, now: nat) {
    && token in blacklist
    && now < blacklist[token].expiresAt
    && blacklist[token].stamp * SECOND + GRACE <= now
  }

  /** The signature holds and the token is not past its exp claim, whether it is a long token or a short one. */
  predicate Verifies(token: Token, now: nat) { token.signed && now < token.exp * SECOND }

  predicate Accepts(s: State, token: Token, now: nat) {
    !IsBlacklisted(s.blacklist, token, now) && Verifies(token, now)
  }

  function NewToken(user: nat, resp: nat, now: nat, ttl: nat): Token {
    Token(true, user, resp, now / SECOND, (now + ttl) / SECOND)
  }

  function NewRefreshToken(user: nat, resp: nat, now: nat): Token { NewToken(user, resp, now, REFRESH_TOKEN_TTL) }

  function Issue(s: State, user: nat, resp: nat, now: nat): State {
    s.(issued := s.issued + {NewToken(user, resp, now, ACCESS_TOKEN_TTL), NewRefreshToken(user, resp, now)})
  }

  function Blacklist(s: State, token: Token, now: nat): State {
    s.(blacklist := s.blacklist[token := Mark(now / SECOND, now + REFRESH_TOKEN_TTL)])
  }

  /** A refresh is two steps, between which others may act: its checks, and the exchange of the token. */
  datatype Op =
    | Login(user: nat, resp: nat, at: nat)
    | Check(request: nat, token: Token, at: nat)
    | Exchange(request: nat, at: nat)
    | Logout(token: Token, at: nat)

  function Next(s: State, op: Op): State {
    match op
    case Login(user, resp, at) => Issue(s, user, resp, at)
    case Check(request, token, at) =>
      if request !in s.pending && Accepts(s, token, at) then s.(pending := s.pending[request := token]) else s
    case Exchange(request, at) =>
      if request !in s.pending then s
      else
        var token := s.pending[request];
        Blacklist(Issue(s.(pending := s.pending - {request}), token.user, token.resp, at), token, at)
    case Logout(token, at) => Blacklist(s, token, at)
  }

  class Exam {
    var blacklist: map<Token, Mark>
    ghost var issued: set<Token>
    ghost var pending: map<nat, Token>

    ghost function Abs(): State
      reads this
    {
      State(blacklist, issued, pending)
    }

    method BlacklistToken(token: Token, expiration: nat, now: nat)
      modifies this`blacklist
      ensures blacklist == old(blacklist)[token := Mark(now / SECOND, now + expiration)]
    {
      blacklist := blacklist[token := Mark(now / SECOND, now + expiration)];
    }

    method CheckBlacklist(token: Token, now: nat) returns (blacklisted: bool)
      ensures blacklisted == IsBlacklisted(blacklist, token, now)
    {
      if token !in blacklist || blacklist[token].expiresAt <= now { return false; }
      var timestamp := blacklist[token].stamp;
      if now - timestamp * SECOND < GRACE { return false; }
      blacklisted := true;
    }

    method GenerateAccessToken(user: nat, resp: nat, now: nat) returns (sta: Token, lta: Token)
      modifies this`issued
      ensures Abs() == Issue(old(Abs()), user, resp, now)
      ensures sta == NewToken(user, resp, now, ACCESS_TOKEN_TTL) && lta == NewRefreshToken(user, resp, now)
    {
      sta := Token(true, user, resp, now / SECOND, (now + ACCESS_TOKEN_TTL) / SECOND);
      lta := Token(true, user, resp, now / SECOND, (now + REFRESH_TOKEN_TTL) / SECOND);
      issued := issued + {sta, lta};
    }

    /** The checks of a refresh. */
    method CheckRefresh(ghost request: nat, token: Token, now: nat) returns (ok: bool)
      requires request !in pending
      modifies this`pending
      ensures Abs() == Next(old(Abs()), Check(request, token, now))
      ensures ok <==> Accepts(old(Abs()), token, now)
    {
      var blacklisted := CheckBlacklist(token, now);
      if blacklisted { return false; }
      if !token.signed || token.exp * SECOND <= now { return false; }
      pending := pending[request := token];
      ok := true;
    }

    /** The rest of a refresh: the new tokens are made, and the old one is marked. */
    method ExchangeToken(ghost request: nat, token: Token, now: nat) returns (sta: Token, lta: Token)
      requires request in pending && pending[request] == token
      modifies this
      ensures Abs() == Next(old(Abs()), Exchange(request, now))
      ensures sta == NewToken(token.user, token.resp, now, ACCESS_TOKEN_TTL)
      ensures lta == NewRefreshToken(token.user, token.resp, now)
    {
      pending := pending - {request};
      sta, lta := GenerateAccessToken(token.user, token.resp, now);
      BlacklistToken(token, REFRESH_TOKEN_TTL, now);
    }

    /** The handler of a refresh that nothing interrupts: the new tokens, or a failure that leaves everything as
        it was. */
    method RefreshToken(ghost request: nat, token: Token, checkedAt: nat, exchangedAt: nat)
      returns (r: Result<(Token, Token)>)
      requires request !in pending
      modifies this
      ensures Abs() == Next(Next(old(Abs()), Check(request, token, checkedAt)), Exchange(request, exchangedAt))
      ensures r.Success? <==> Accepts(old(Abs()), token, checkedAt)
      ensures r.Success? ==> r.value == (NewToken(token.user, token.resp, exchangedAt, ACCESS_TOKEN_TTL),
                                         NewRefreshToken(token.user, token.resp, exchangedAt))
    {
      var ok := CheckRefresh(request, token, checkedAt);
      if !ok { return Failure; }
      var sta, lta := ExchangeToken(request, token, exchangedAt);
      r := Success((sta, lta));
    }

    /** The handler of a logout: it blacklists whatever the cookie holds, unchecked. */
    method Logout(token: Token, now: nat)
      modifies this
      ensures Abs() == Next(old(Abs()), Op.Logout(token, now))
    {
      BlacklistToken(token, REFRESH_TOKEN_TTL, now);
    }
  }

  // ----- Runs ---------------------------------------------------------------------------------

  function After(ops: seq<Op>): State {
    if ops == [] then INITIAL_STATE else Next(After(ops[..|ops| - 1]), ops[|ops| - 1])
  }

  /** The clock does not go back, and nobody presents a genuine token before it was issued: signatures
      cannot be guessed. Tokens with a false signature may be presented at will. */
  ghost predicate IsRun(ops: seq<Op>) {
    && (forall i, j | 0 <= i <= j < |ops| :: InOrder(ops, i, j))
    && (forall i | 0 <= i < |ops| :: Honest(ops, i))
  }

  predicate InOrder(ops: seq<Op>, i: nat, j: nat)
    requires i < |ops| && j < |ops|
  {
    ops[i].at <= ops[j].at
  }

  ghost predicate Honest(ops: seq<Op>, i: nat)
    requires i < |ops|
  {
    (ops[i].Check? || ops[i].Logout?) && ops[i].token.signed ==> ops[i].token in After(ops[..i]).issued
  }

  predicate IsCheck(op: Op, token: Token) { op.Check? && op.token == token }

  /** The step marks the token: a logout with it, or the exchange of a refresh that has passed its checks. */
  predicate Marks(s: State, op: Op, token: Token) {
    || (op.Logout? && op.token == token)
    || (op.Exchange? && op.request in s.pending && s.pending[op.request] == token)
  }

  predicate MarksAt(ops: seq<Op>, i: nat, token: Token)
    requires i < |ops|
  {
    Marks(After(ops[..i]), ops[i], token)
  }

  predicate Accepted(ops: seq<Op>, i: nat, token: Token)
    requires i < |ops|
  {
    IsCheck(ops[i], token) && Accepts(After(ops[..i]), token, ops[i].at)
  }

  /** Between two steps of a run the token is not marked. */
  ghost predicate Untouched(ops: seq<Op>, i: int, j: nat, token: Token)
    requires j <= |ops|
  {
    forall n: nat | i < n < j :: !MarksAt(ops, n, token)
  }

  lemma StepAt(ops: seq<Op>, i: nat)
    requires i < |ops|
    ensures After(ops[..i + 1]) == Next(After(ops[..i]), ops[i])
  {
    assert ops[..i + 1][..i] == ops[..i];
  }

  /** A mark on a genuine token lives at least as long as the token. */
  ghost predicate Inv(s: State, now: nat) {
    && (forall t | t in s.issued :: t.exp * SECOND <= now + REFRESH_TOKEN_TTL)
    && (forall r | r in s.pending :: s.pending[r] in s.issued)
    && (forall t | t in s.blacklist && t.signed :: t in s.issued && t.exp * SECOND <= s.blacklist[t].expiresAt)
  }

  lemma StepInv(s: State, op: Op, later: nat)
    requires Inv(s, op.at) && op.at <= later
    requires (op.Check? || op.Logout?) && op.token.signed ==> op.token in s.issued
    ensures Inv(Next(s, op), later)
  {
  }

  lemma {:induction false} RunInv(ops: seq<Op>, i: nat)
    requires i < |ops| && IsRun(ops)
    ensures Inv(After(ops[..i]), ops[i].at)
  {
    if 0 < i {
      RunInv(ops, i - 1);
      StepAt(ops, i - 1);
      assert Honest(ops, i - 1) && InOrder(ops, i - 1, i);
      StepInv(After(ops[..i - 1]), ops[i - 1], ops[i].at);
    }
  }

  // ----- Which tokens are accepted at all -----------------------------------------------------

  /** In every run only tokens are accepted that were handed out, before they expire: a week after a refresh token
      was issued, half an hour after an access token. Without a mark they are. */
  lemma AcceptsIssuedOnly(ops: seq<Op>, i: nat, token: Token)
    requires i < |ops| && IsRun(ops) && IsCheck(ops[i], token)
    ensures Accepted(ops, i, token) ==>
      token.signed && token in After(ops[..i]).issued && ops[i].at < token.exp * 1_000_000_000
    ensures token !in After(ops[..i]).blacklist ==>
      (Accepted(ops, i, token) <==> token.signed && ops[i].at < token.exp * 1_000_000_000)
  {
    assert Honest(ops, i);
  }

  /** The claims of new tokens. */
  lemma NewTokenClaims(user: nat, resp: nat, at: nat)
    ensures NewRefreshToken(user, resp, at) == Token(true, user, resp, at / 1_000_000_000, at / 1_000_000_000 + 604_800)
    ensures NewToken(user, resp, at, ACCESS_TOKEN_TTL)
            == Token(true, user, resp, at / 1_000_000_000, at / 1_000_000_000 + 1_800)
  {
  }

  /** A login and an exchange hand out both tokens; an exchange, for the user and client of the old one, which it
      marks for a week. Nothing else hands out or marks anything, except a logout. */
  lemma StepHandsOut(s: State, op: Op)
    ensures var s' := Next(s, op);
      var hands := op.Login? || (op.Exchange? && op.request in s.pending);
      var (user, resp) := if op.Login? then (op.user, op.resp)
                          else if op.Exchange? && op.request in s.pending
                          then (s.pending[op.request].user, s.pending[op.request].resp) else (0, 0);
      && s'.issued == s.issued + (if hands then {NewRefreshToken(user, resp, op.at),
                                                 NewToken(user, resp, op.at, ACCESS_TOKEN_TTL)} else {})
      && (forall t :: t in s'.blacklist <==> t in s.blacklist || Marks(s, op, t))
      && (forall t | t in s'.blacklist ::
            s'.blacklist[t] == if Marks(s, op, t) then Mark(op.at / 1_000_000_000, op.at + 604_800_000_000_000)
                               else s.blacklist[t])
  {
  }

  // ----- Rejected for ever --------------------------------------------------------------------

  /** Past its exp claim, or marked for at least the grace period by a mark that will outlive it. */
  predicate Dead(s: State, token: Token, now: nat) {
    || token.exp * SECOND <= now
    || (token in s.blacklist
        && s.blacklist[token].stamp * SECOND + GRACE <= now && token.exp * SECOND <= s.blacklist[token].expiresAt)
  }

  lemma RejectedIffDead(s: State, token: Token, now: nat)
    requires Inv(s, now) && token.signed
    ensures Accepts(s, token, now) <==> !Dead(s, token, now)
  {
  }

  /** What a step does to a dead token: a new mark makes it live again, before its exp claim, and nothing else
      does. */
  lemma RevivedIffMarked(s: State, token: Token, op: Op)
    requires Inv(s, op.at) && token.signed && Dead(s, token, op.at)
    ensures Dead(Next(s, op), token, op.at) <==> !(Marks(s, op, token) && op.at < token.exp * SECOND)
    ensures Marks(s, op, token) && op.at < token.exp * SECOND ==> Accepts(Next(s, op), token, op.at)
  {
  }

  lemma StepStaysDead(s: State, token: Token, op: Op, later: nat)
    requires Inv(s, op.at) && token.signed && Dead(s, token, op.at) && !Marks(s, op, token) && op.at <= later
    ensures Dead(Next(s, op), token, later)
  {
    RevivedIffMarked(s, token, op);
  }

  lemma {:induction false} StaysDead(ops: seq<Op>, i: nat, j: nat, token: Token)
    requires i <= j < |ops| && IsRun(ops)
    requires token.signed && Dead(After(ops[..i]), token, ops[i].at) && Untouched(ops, i - 1, j, token)
    ensures Dead(After(ops[..j]), token, ops[j].at)
  {
    if i < j {
      StaysDead(ops, i, j - 1, token);
      assert !MarksAt(ops, j - 1, token);
      DeadAt(ops, j, token);
    }
  }

  lemma DeadAt(ops: seq<Op>, j: nat, token: Token)
    requires 0 < j < |ops| && IsRun(ops) && token.signed
    requires Dead(After(ops[..j - 1]), token, ops[j - 1].at) && !MarksAt(ops, j - 1, token)
    ensures Dead(After(ops[..j]), token, ops[j].at)
  {
    StepAt(ops, j - 1);
    RunInv(ops, j - 1);
    assert InOrder(ops, j - 1, j);
    StepStaysDead(After(ops[..j - 1]), token, ops[j - 1], ops[j].at);
  }

  /** Once a token is rejected, it is rejected for ever, unless it is marked once more in between. */
  lemma RejectedForever(ops: seq<Op>, i: nat, j: nat, token: Token)
    requires i < j < |ops| && IsRun(ops)
    requires IsCheck(ops[i], token) && !Accepted(ops, i, token) && Untouched(ops, i, j, token)
    ensures !Accepted(ops, j, token)
  {
    if token.signed {
      RunInv(ops, i);
      RunInv(ops, j);
      StaysDead(ops, i, j, token);
    }
  }

  /** The exception is real: a mark at any point of a run, by a logout or by a slow refresh, makes an unexpired
      genuine token acceptable at once, however long it has been rejected. */
  lemma MarkReopensGrace(ops: seq<Op>, i: nat, token: Token)
    requires i < |ops| && IsRun(ops) && token.signed && ops[i].at < token.exp * SECOND && MarksAt(ops, i, token)
    ensures Accepts(After(ops[..i + 1]), token, ops[i].at)
  {
    StepAt(ops, i);
  }

  predicate IsUnderWay(s: State, token: Token) { exists r | r in s.pending :: s.pending[r] == token }

  ghost predicate NoLogout(ops: seq<Op>, i: nat, j: nat, token: Token)
    requires j <= |ops|
  {
    forall n | i < n < j :: !(ops[n].Logout? && ops[n].token == token)
  }

  /** Without a logout, and with no refresh of it under way when it is rejected, a token is never marked again:
      no later refresh passes its checks. */
  lemma {:induction false} NothingUnderWay(ops: seq<Op>, i: nat, j: nat, token: Token)
    requires i < j <= |ops| && IsRun(ops) && token.signed
    requires IsCheck(ops[i], token) && !Accepted(ops, i, token) && NoLogout(ops, i, j, token)
    requires !IsUnderWay(After(ops[..i]), token)
    ensures Untouched(ops, i, j, token) && !IsUnderWay(After(ops[..j]), token)
  {
    if i + 1 < j {
      NothingUnderWay(ops, i, j - 1, token);
      RejectedForever(ops, i, j - 1, token);
    }
    IdleAt(ops, j, token);
  }

  lemma IdleAt(ops: seq<Op>, j: nat, token: Token)
    requires 0 < j <= |ops| && !IsUnderWay(After(ops[..j - 1]), token)
    requires !Accepted(ops, j - 1, token) && !(ops[j - 1].Logout? && ops[j - 1].token == token)
    ensures !MarksAt(ops, j - 1, token) && !IsUnderWay(After(ops[..j]), token)
  {
    StepAt(ops, j - 1);
    StaysIdle(After(ops[..j - 1]), ops[j - 1], token);
  }

  lemma StaysIdle(s: State, op: Op, token: Token)
    requires !IsUnderWay(s, token) && !(IsCheck(op, token) && Accepts(s, token, op.at))
    requires !(op.Logout? && op.token == token)
    ensures !Marks(s, op, token) && !IsUnderWay(Next(s, op), token)
  {
  }

  /** So a rejection is final in every run in which the token is not logged out with and had no refresh under
      way when it was rejected. */
  lemma RejectionIsFinal(ops: seq<Op>, i: nat, j: nat, token: Token)
    requires i < j < |ops| && IsRun(ops)
    requires IsCheck(ops[i], token) && !Accepted(ops, i, token) && NoLogout(ops, i, j, token)
    requires !IsUnderWay(After(ops[..i]), token)
    ensures !Accepted(ops, j, token)
  {
    if token.signed {
      NothingUnderWay(ops, i, j, token);
      RejectedForever(ops, i, j, token);
    }
  }

  ghost predicate NeverAccepted(ops: seq<Op>, i: nat, token: Token) {
    forall j | i < j < |ops| :: !Accepted(ops, j, token)
  }

  lemma InOrderMore(ops: seq<Op>, op: Op, i: nat, j: nat)
    requires ops != [] && ops[|ops| - 1].at <= op.at && i <= j <= |ops|
    requires forall k, l | 0 <= k <= l < |ops| :: InOrder(ops, k, l)
    ensures InOrder(ops + [op], i, j)
  {
    if j < |ops| {
      assert InOrder(ops, i, j);
    } else if i < |ops| {
      assert InOrder(ops, i, |ops| - 1);
    }
  }

  lemma HonestMore(ops: seq<Op>, op: Op, i: nat)
    requires i <= |ops| && (i < |ops| ==> Honest(ops, i))
    requires (op.Check? || op.Logout?) && op.token.signed ==> op.token in After(ops).issued
    ensures Honest(ops + [op], i)
  {
    var more := ops + [op];
    assert more[..|ops|] == ops && more[..i] == ops[..i];
  }

  /** One more step of a run. */
  lemma OneMore(ops: seq<Op>, op: Op)
    requires ops != [] && IsRun(ops) && ops[|ops| - 1].at <= op.at
    requires (op.Check? || op.Logout?) && op.token.signed ==> op.token in After(ops).issued
    ensures IsRun(ops + [op]) && After(ops + [op]) == Next(After(ops), op)
  {
    var more := ops + [op];
    forall i, j | 0 <= i <= j < |more|
      ensures InOrder(more, i, j)
    {
      InOrderMore(ops, op, i, j);
    }
    forall i | 0 <= i < |more|
      ensures Honest(more, i)
    {
      HonestMore(ops, op, i);
    }
    assert more[..|ops|] == ops;
  }

  /** A slow refresh of the token exchanges it after the rejection, and the next check passes. */
  lemma SlowRefreshRevives(ops: seq<Op>, token: Token, request: nat)
    requires ops != [] && IsRun(ops) && IsCheck(ops[|ops| - 1], token) && !Accepted(ops, |ops| - 1, token)
    requires request in After(ops).pending && After(ops).pending[request] == token
    requires token.signed && ops[|ops| - 1].at < token.exp * SECOND
    ensures var at := ops[|ops| - 1].at;
      var more := ops + [Exchange(request, at)] + [Check(request, token, at)];
      IsRun(more) && Accepted(more, |ops| + 1, token)
  {
    var n, at := |ops|, ops[|ops| - 1].at;
    RunInv(ops, n - 1);
    StepAt(ops, n - 1);
    assert ops[..n] == ops && token in After(ops).issued;
    OneMore(ops, Exchange(request, at));
    OneMore(ops + [Exchange(request, at)], Check(request, token, at));
    var more := ops + [Exchange(request, at)] + [Check(request, token, at)];
    assert more[..n + 1] == ops + [Exchange(request, at)];
  }

  /** A run that begins with `ops`, and in which nobody logs out with the token after its last step. */
  ghost predicate GoesOn(ops: seq<Op>, more: seq<Op>, token: Token)
    requires ops != []
  {
    ops <= more && IsRun(more) && NoLogout(more, |ops| - 1, |more|, token)
  }

  lemma StaysRejected(ops: seq<Op>, more: seq<Op>, token: Token, j: nat)
    requires ops != [] && GoesOn(ops, more, token) && |ops| <= j < |more|
    requires IsCheck(ops[|ops| - 1], token) && !Accepted(ops, |ops| - 1, token)
    requires !IsUnderWay(After(ops), token) || token.exp * SECOND <= ops[|ops| - 1].at
    ensures !Accepted(more, j, token)
  {
    var i := |ops| - 1;
    assert more[..i] == ops[..i] && more[i] == ops[i];
    if !IsUnderWay(After(ops), token) {
      StepAt(ops, i);
      assert ops[..i + 1] == ops;
      RejectionIsFinal(more, i, j, token);
    } else {
      assert InOrder(more, i, j);
    }
  }

  /** When a token was just rejected, every run goes on without accepting it, as long as nobody logs out with
      it, if and only if no refresh of it is under way or it has expired. */
  lemma RejectionIsFinalIff(ops: seq<Op>, token: Token)
    requires ops != [] && IsRun(ops) && IsCheck(ops[|ops| - 1], token) && !Accepted(ops, |ops| - 1, token)
    requires token.signed
    ensures (forall more | GoesOn(ops, more, token) :: NeverAccepted(more, |ops| - 1, token))
            <==> !IsUnderWay(After(ops), token) || token.exp * SECOND <= ops[|ops| - 1].at
  {
    if !IsUnderWay(After(ops), token) || token.exp * SECOND <= ops[|ops| - 1].at {
      forall more, j | GoesOn(ops, more, token) && |ops| <= j < |more|
        ensures !Accepted(more, j, token)
      {
        StaysRejected(ops, more, token, j);
      }
    } else {
      RejectionIsNotFinal(ops, token);
    }
  }

  lemma RejectionIsNotFinal(ops: seq<Op>, token: Token)
    requires ops != [] && IsRun(ops) && IsCheck(ops[|ops| - 1], token) && !Accepted(ops, |ops| - 1, token)
    requires token.signed && IsUnderWay(After(ops), token) && ops[|ops| - 1].at < token.exp * SECOND
    ensures exists more :: GoesOn(ops, more, token) && !NeverAccepted(more, |ops| - 1, token)
  {
    var request :| request in After(ops).pending && After(ops).pending[request] == token;
    SlowRefreshRevives(ops, token, request);
    var at := ops[|ops| - 1].at;
    var more := ops + [Exchange(request, at)] + [Check(request, token, at)];
    EndsWithoutLogout(ops, more, token, request, at);
    assert !NeverAccepted(more, |ops| - 1, token);
  }

  lemma EndsWithoutLogout(ops: seq<Op>, more: seq<Op>, token: Token, request: nat, at: nat)
    requires ops != [] && IsCheck(ops[|ops| - 1], token) && IsRun(more)
    requires more == ops + [Exchange(request, at)] + [Check(request, token, at)]
    ensures GoesOn(ops, more, token)
  {
    assert ops <= more;
  }

  // ----- When a token is accepted -------------------------------------------------------------

  /** A mark lasts as long as nothing renews it; nor does one appear. */
  lemma {:induction false} MarkStays(ops: seq<Op>, i: nat, j: nat, token: Token)
    requires i < j < |ops| && Untouched(ops, i, j, token)
    ensures var before, after := After(ops[..i + 1]).blacklist, After(ops[..j]).blacklist;
      token in after <==> token in before
    ensures var before, after := After(ops[..i + 1]).blacklist, After(ops[..j]).blacklist;
      token in before ==> after[token] == before[token]
  {
    if i + 1 < j {
      MarkStays(ops, i, j - 1, token);
      StepAt(ops, j - 1);
      assert !MarksAt(ops, j - 1, token);
    }
  }

  /** After step i, and unmarked since, a genuine token is accepted if and only if it has not expired and the
      mark that it may have had then is still within its grace period. */
  lemma AcceptedByMark(ops: seq<Op>, i: nat, j: nat, token: Token)
    requires i < j < |ops| && IsRun(ops) && Untouched(ops, i, j, token)
    requires IsCheck(ops[j], token) && token.signed
    ensures var marks, at := After(ops[..i + 1]).blacklist, ops[j].at;
      Accepted(ops, j, token)
      <==> at < token.exp * SECOND && (token in marks ==> at < marks[token].stamp * SECOND + GRACE)
  {
    MarkStays(ops, i, j, token);
    RunInv(ops, j);
  }

  /** A token that was exchanged, or logged out with, is accepted again, unmarked in between, exactly before its
      expiry and before the tenth full second after that mark: always less than 10 seconds later. */
  lemma SuccessiveAcceptances(ops: seq<Op>, i: nat, j: nat, token: Token)
    requires i < j < |ops| && IsRun(ops) && Untouched(ops, i, j, token) && token.signed
    requires MarksAt(ops, i, token) && IsCheck(ops[j], token)
    ensures Accepted(ops, j, token)
            <==> && ops[j].at < token.exp * 1_000_000_000
                 && ops[j].at < ops[i].at / 1_000_000_000 * 1_000_000_000 + 10_000_000_000
    ensures Accepted(ops, j, token) ==> ops[j].at - ops[i].at < 10_000_000_000
  {
    StepAt(ops, i);
    assert InOrder(ops, i, j);
    AcceptedByMark(ops, i, j, token);
  }

  /** So the grace period slides: each refresh opens it in full again, whatever was left of the last one. */
  lemma GraceSlides(s: State, token: Token, request: nat, at: nat, later: nat)
    requires Inv(s, at) && token in s.issued && request !in s.pending && Accepts(s, token, at) && at <= later
    ensures Accepts(Next(Next(s, Check(request, token, at)), Exchange(request, at)), token, later)
            <==> later < token.exp * SECOND && later < at / SECOND * SECOND + GRACE
  {
  }

  // ----- What becomes of the new token --------------------------------------------------------

  /** A genuine token is not marked before the second it was issued in. */
  ghost predicate MarksNotOlder(s: State, now: nat) {
    && (forall t | t in s.issued :: t.iat <= now / SECOND)
    && (forall t | t in s.blacklist && t.signed :: t.iat <= s.blacklist[t].stamp <= now / SECOND)
  }

  lemma StepNotOlder(s: State, op: Op, later: nat)
    requires Inv(s, op.at) && MarksNotOlder(s, op.at) && op.at <= later
    requires (op.Check? || op.Logout?) && op.token.signed ==> op.token in s.issued
    ensures MarksNotOlder(Next(s, op), later)
  {
    assert op.at / SECOND <= later / SECOND;
  }

  lemma {:induction false} MarksAreNotOlder(ops: seq<Op>, i: nat)
    requires i < |ops| && IsRun(ops)
    ensures MarksNotOlder(After(ops[..i]), ops[i].at)
  {
    if 0 < i {
      MarksAreNotOlder(ops, i - 1);
      StepAt(ops, i - 1);
      RunInv(ops, i - 1);
      assert Honest(ops, i - 1) && InOrder(ops, i - 1, i);
      StepNotOlder(After(ops[..i - 1]), ops[i - 1], ops[i].at);
    }
  }

  /** The refresh token handed out at step i in exchange for another works until it expires, as long as it is
      neither exchanged nor logged out with, if and only if it is another string and was not marked before in
      that same second; otherwise its session ends within the grace period. */
  lemma HandedOutTokenWorks(ops: seq<Op>, i: nat, j: nat, token: Token, handedOut: Token)
    requires i < j < |ops| && IsRun(ops)
    requires ops[i].Exchange? && MarksAt(ops, i, token)
    requires handedOut == NewRefreshToken(token.user, token.resp, ops[i].at)
    requires Untouched(ops, i, j, handedOut) && IsCheck(ops[j], handedOut)
    ensures Accepted(ops, j, handedOut)
            <==> && ops[j].at < handedOut.exp * SECOND
                 && (handedOut == token || handedOut in After(ops[..i]).blacklist ==>
                       ops[j].at < ops[i].at / SECOND * SECOND + GRACE)
  {
    StepAt(ops, i);
    MarksAreNotOlder(ops, i);
    AcceptedByMark(ops, i, j, handedOut);
  }

  /** It is the same string exactly if the old token is a refresh token of the same second. */
  lemma SameStringIff(token: Token, at: nat)
    requires token.signed
    ensures NewRefreshToken(token.user, token.resp, at) == token
            <==> token.iat == at / SECOND && token.exp == token.iat + REFRESH_TOKEN_TTL / SECOND
  {
  }
}
