// Refresh tokens: one session per user, rotated by every refresh.
module AuthSessions {
  import opened Documents

  datatype TokenType = Access | Refresh

  datatype Secret = AccessSecret | RefreshSecret

  // A signed token is its claims and the secret; the issue time is in whole seconds, so two tokens
  // signed for one user in the same second are the same value. Anything else fails verification.
  datatype Token =
    | Signed(sub: Id, phone: string, kind: TokenType, secret: Secret, issuedAt: int, expiresAt: int)
    | Unsigned(text: string)

  // The stored hash is taken to determine the token, so the token stands for it.
  datatype User = User(phone: string, refreshToken: Option<Token>)

  datatype RefreshOutcome = TokenMissing | InvalidToken | InvalidType | NoSession | SessionReplaced | Refreshed(token: Token)

  datatype Event =
    | Login(phone: string, otpValid: bool, newId: Id, time: int, issued: Option<Token>)
    | Renew(token: Option<Token>, time: int, outcome: RefreshOutcome)
    | Logout(userId: Id, found: bool)
    | Erase(userId: Id)

  type Users = map<Id, User>

  function RefreshTokenFor(userId: Id, phone: string, now: int, lifetime: int): Token {
    Signed(userId, phone, Refresh, RefreshSecret, now, now + lifetime)
  }

  // `jwtService.verify` with the refresh secret.
  predicate Verifies(t: Token, now: int) {
    t.Signed? && t.secret == RefreshSecret && now < t.expiresAt
  }

  /******* The calls *******/

  predicate HasPhone(users: Users, phone: string) {
    exists u :: u in users && users[u].phone == phone
  }

  // Phones are unique among the users.
  ghost predicate PhonesUnique(users: Users) {
    forall u, v :: u in users && v in users && users[u].phone == users[v].phone ==> u == v
  }

  // A sign-in: the user of the phone, created if need be, gets a new token that replaces any other.
  ghost predicate LoggedIn(users: Users, phone: string, newId: Id, now: int, lifetime: int, users': Users, u: Id) {
    && (if HasPhone(users, phone) then u in users && users[u].phone == phone else u == newId && newId !in users)
    && users' == users[u := User(phone, Some(RefreshTokenFor(u, phone, now, lifetime)))]
  }

  function RefreshedBy(users: Users, token: Option<Token>, now: int, lifetime: int): RefreshOutcome {
    if token.None? then TokenMissing
    else if !Verifies(token.value, now) then InvalidToken
    else if token.value.kind != Refresh then InvalidType
    else if token.value.sub !in users || users[token.value.sub].refreshToken.None? then NoSession
    else if users[token.value.sub].refreshToken.value != token.value then SessionReplaced
    else Refreshed(RefreshTokenFor(token.value.sub, token.value.phone, now, lifetime))
  }

  function WithToken(users: Users, u: Id, token: Option<Token>): Users {
    if u in users then users[u := users[u].(refreshToken := token)] else users
  }

  // One call, with what it answered, takes the users to `users'`.
  ghost predicate Step(lifetime: int, users: Users, e: Event, users': Users) {
    match e
    case Login(phone, otpValid, newId, now, issued) =>
      if !otpValid then issued.None? && users' == users
      else exists u :: LoggedIn(users, phone, newId, now, lifetime, users', u) && issued == Some(RefreshTokenFor(u, phone, now, lifetime))
    case Renew(token, now, outcome) =>
      && outcome == RefreshedBy(users, token, now, lifetime)
      && users' == if outcome.Refreshed? then WithToken(users, token.value.sub, Some(outcome.token)) else users
    case Logout(u, found) => found == (u in users) && users' == WithToken(users, u, None)
    case Erase(u) => users' == users - {u}
  }

  /******* Runs *******/

  // The users after each call, starting from none.
  ghost predicate IsRun(lifetime: int, events: seq<Event>, states: seq<Users>) {
    && |states| == |events| + 1 && states[0] == map[]
    && forall n :: 0 <= n < |events| ==> Step(lifetime, states[n], events[n], states[n + 1])
  }

  // The event issues `t` to user u.
  predicate Issues(e: Event, u: Id, t: Token) {
    match e
    case Login(_, _, _, _, issued) => issued == Some(t) && t.Signed? && t.sub == u
    case Renew(_, _, outcome) => outcome == Refreshed(t) && t.Signed? && t.sub == u
    case _ => false
  }

  // The event ends u's session: a newer token, a logout or the end of the account.
  predicate Ends(e: Event, u: Id) {
    match e
    case Login(_, _, _, _, issued) => issued.Some? && issued.value.Signed? && issued.value.sub == u
    case Renew(_, _, outcome) => outcome.Refreshed? && outcome.token.Signed? && outcome.token.sub == u
    case Logout(v, _) => v == u
    case Erase(v) => v == u
  }

  /** Token t is the one most recently issued to u before the n-th call, with no logout or deletion since. */
  ghost predicate LatestToken(events: seq<Event>, u: Id, t: Token, n: nat)
    requires n <= |events|
  {
    exists i :: 0 <= i < n && Issues(events[i], u, t) && forall j :: i < j < n ==> !Ends(events[j], u)
  }

  lemma StepKeepsSessions(lifetime: int, users: Users, e: Event, users': Users, u: Id, t: Token)
    requires Step(lifetime, users, e, users')
    ensures Issues(e, u, t) ==> u in users' && users'[u].refreshToken == Some(t)
    ensures Ends(e, u) && !Issues(e, u, t) ==> !(u in users' && users'[u].refreshToken == Some(t))
    ensures !Ends(e, u) ==> (u in users' && users'[u].refreshToken == Some(t) <==> u in users && users[u].refreshToken == Some(t))
  {
  }

  // The stored token is the latest, and it belongs to its user.
  lemma {:induction false} StoredIsLatest(lifetime: int, events: seq<Event>, states: seq<Users>, n: nat, u: Id, t: Token)
    requires IsRun(lifetime, events, states) && n <= |events|
    ensures u in states[n] && states[n][u].refreshToken == Some(t) <==> LatestToken(events, u, t, n)
  {
    if n > 0 {
      StoredIsLatest(lifetime, events, states, n - 1, u, t);
      var e := events[n - 1];
      StepKeepsSessions(lifetime, states[n - 1], e, states[n], u, t);
      if Issues(e, u, t) {
        assert LatestToken(events, u, t, n);
      } else if !Ends(e, u) {
        if i :| 0 <= i < n - 1 && Issues(events[i], u, t) && forall j :: i < j < n - 1 ==> !Ends(events[j], u) {
          assert forall j :: i < j < n ==> !Ends(events[j], u);
        }
      } else {
        assert forall i :: 0 <= i < n && Issues(events[i], u, t) ==> i < n - 1;
      }
    }
  }

  /**
   * A refresh succeeds exactly for the unexpired token most recently issued to its user, with no logout since: any
   * other is rejected.
   */
  lemma RefreshAcceptsLatestOnly(lifetime: int, events: seq<Event>, states: seq<Users>, n: nat)
    requires IsRun(lifetime, events, states) && n < |events| && events[n].Renew?
    ensures events[n].outcome.Refreshed? <==>
            && events[n].token.Some? && events[n].token.value.Signed?
            && LatestToken(events, events[n].token.value.sub, events[n].token.value, n)
            && events[n].time < events[n].token.value.expiresAt
  {
    var e := events[n];
    assert Step(lifetime, states[n], e, states[n + 1]);
    if e.token.Some? && e.token.value.Signed? {
      StoredIsLatest(lifetime, events, states, n, e.token.value.sub, e.token.value);
      IssuedAreRefreshTokens(lifetime, events, states, n, e.token.value.sub, e.token.value);
    }
  }

  // Only refresh tokens are ever issued for a session.
  lemma IssuedAreRefreshTokens(lifetime: int, events: seq<Event>, states: seq<Users>, n: nat, u: Id, t: Token)
    requires IsRun(lifetime, events, states) && n <= |events| && t.Signed?
    ensures LatestToken(events, u, t, n) ==> t.kind == Refresh && t.secret == RefreshSecret
  {
    if i :| 0 <= i < n && Issues(events[i], u, t) && forall j :: i < j < n ==> !Ends(events[j], u) {
      assert Step(lifetime, states[i], events[i], states[i + 1]);
    }
  }

  /** In every state of a run at most one token value is accepted for a user, at any time: the latest one issued. */
  lemma OneSession(lifetime: int, events: seq<Event>, states: seq<Users>, n: nat, t: Token, now: int, other: Token, later: int)
    requires IsRun(lifetime, events, states) && n <= |events|
    requires RefreshedBy(states[n], Some(t), now, lifetime).Refreshed?
    requires RefreshedBy(states[n], Some(other), later, lifetime).Refreshed?
    requires t.sub == other.sub
    ensures t == other && LatestToken(events, t.sub, t, n)
  {
    StoredIsLatest(lifetime, events, states, n, t.sub, t);
  }

  /** A token that a refresh has rotated out is not accepted again, unless it was signed anew in the same second. */
  lemma RotatedTokenIsDead(lifetime: int, events: seq<Event>, states: seq<Users>, n: nat, m: nat, t: Token)
    requires IsRun(lifetime, events, states) && n < m < |events|
    requires events[n].Renew? && events[n].outcome.Refreshed? && events[m].Renew? && t.Signed?
    requires events[n].token == Some(t) && events[m].token == Some(t)
    requires forall j :: n <= j < m ==> !Issues(events[j], t.sub, t)
    ensures !events[m].outcome.Refreshed?
  {
    RefreshAcceptsLatestOnly(lifetime, events, states, n);
    RefreshAcceptsLatestOnly(lifetime, events, states, m);
    assert Step(lifetime, states[n], events[n], states[n + 1]);
    assert Ends(events[n], t.sub);
  }
}

module AuthService {
  import opened Documents
  import opened AuthSessions

  class AuthService {
    const lifetime: int
    var users: Users

    constructor (lifetime: int)
      ensures this.lifetime == lifetime && users == map[]
    {
      this.lifetime, users := lifetime, map[];
    }

    /** One sign-in step of a run; unsuccessful without a valid code. */
    method VerifyOtp(phone: string, otpValid: bool, newId: Id, now: int) returns (issued: Option<Token>)
      requires newId !in users
      modifies this
      ensures Step(lifetime, old(users), Login(phone, otpValid, newId, now, issued), users)
      ensures issued.Some? <==> otpValid
      ensures issued.None? ==> users == old(users)
      ensures issued.Some? ==> exists u ::
                && issued == Some(Signed(u, phone, Refresh, RefreshSecret, now, now + lifetime))
                && users == old(users)[u := User(phone, issued)]
                && if u in old(users) then old(users)[u].phone == phone
                   else u == newId && forall v :: v in old(users) ==> old(users)[v].phone != phone
      ensures PhonesUnique(old(users)) ==> PhonesUnique(users)
    {
      if !otpValid {
        return None;
      }
      var userId := newId;
      if u :| u in users && users[u].phone == phone {
        userId := u;
      } else {
        users := users[newId := User(phone, None)];
      }
      var refreshToken := RefreshTokenFor(userId, phone, now, lifetime);
      users := users[userId := users[userId].(refreshToken := Some(refreshToken))];
      assert LoggedIn(old(users), phone, newId, now, lifetime, users, userId);
      return Some(refreshToken);
    }

    /** One refresh step of a run. */
    method RefreshToken(token: Option<Token>, now: int) returns (outcome: RefreshOutcome)
      modifies this
      ensures Step(lifetime, old(users), Renew(token, now, outcome), users)
      ensures outcome.TokenMissing? <==> token.None?
      ensures outcome.InvalidToken? <==>
              token.Some? && !(token.value.Signed? && token.value.secret == RefreshSecret && now < token.value.expiresAt)
      ensures outcome.InvalidType? <==>
              && token.Some? && token.value.Signed? && token.value.secret == RefreshSecret && now < token.value.expiresAt
              && token.value.kind == Access
      ensures outcome.SessionReplaced? ==>
                && token.Some? && token.value.Signed? && token.value.sub in old(users)
                && old(users)[token.value.sub].refreshToken.Some? && old(users)[token.value.sub].refreshToken != token
      ensures outcome.NoSession? ==>
                && token.Some? && token.value.Signed?
                && (token.value.sub !in old(users) || old(users)[token.value.sub].refreshToken == None)
      ensures outcome.Refreshed? <==>
              && token.Some? && token.value.Signed? && token.value.secret == RefreshSecret && now < token.value.expiresAt
              && token.value.kind == Refresh && token.value.sub in old(users) && old(users)[token.value.sub].refreshToken == token
      ensures outcome.Refreshed? ==>
                var u := token.value.sub;
                && outcome.token == Signed(u, token.value.phone, Refresh, RefreshSecret, now, now + lifetime)
                && users == old(users)[u := old(users)[u].(refreshToken := Some(outcome.token))]
      ensures !outcome.Refreshed? ==> users == old(users)
    {
      if token.None? {
        return TokenMissing;
      }
      var presented := token.value;
      if !Verifies(presented, now) {
        return InvalidToken;
      }
      if presented.kind != Refresh {
        return InvalidType;
      }
      if presented.sub !in users || users[presented.sub].refreshToken.None? {
        return NoSession;
      }
      if users[presented.sub].refreshToken != Some(presented) {
        return SessionReplaced;
      }
      var refreshToken := RefreshTokenFor(presented.sub, presented.phone, now, lifetime);
      users := users[presented.sub := users[presented.sub].(refreshToken := Some(refreshToken))];
      return Refreshed(refreshToken);
    }

    /** One logout step of a run. */
    method LogOut(userId: Id) returns (found: bool)
      modifies this
      ensures Step(lifetime, old(users), Logout(userId, found), users)
      ensures found <==> userId in old(users)
      ensures users == if found then old(users)[userId := old(users)[userId].(refreshToken := None)] else old(users)
    {
      if userId !in users {
        return false;
      }
      users := users[userId := users[userId].(refreshToken := None)];
      return true;
    }
  }
}
