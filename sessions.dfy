/** AuthService: the in-memory session token store behind login and logout. */
module Sessions {
  import opened Results
  import opened Entities
  import opened Text
  import opened Repositories

  /** The store's two maps: token to user id, and user id to that user's token. */
  datatype Tokens = Tokens(active: map<string, Id>, byUser: map<Id, string>)

  /** The two maps are mutual inverses. */
  ghost predicate Inverse(t: Tokens) {
    && (forall tok :: tok in t.active ==> t.active[tok] in t.byUser && t.byUser[t.active[tok]] == tok)
    && (forall u :: u in t.byUser ==> t.byUser[u] in t.active && t.active[t.byUser[u]] == u)
  }

  /** The state change of a successful login: retire the user's previous token,
      if any, then record the new token in both directions. */
  function Issue(t: Tokens, userId: Id, token: string): (r: Tokens)
    ensures token in r.active && r.active[token] == userId
    ensures userId in r.byUser && r.byUser[userId] == token
    ensures userId in t.byUser && t.byUser[userId] != token ==> t.byUser[userId] !in r.active
  {
    var byUser := t.byUser - {userId};
    var active := if userId in t.byUser then t.active - {t.byUser[userId]} else t.active;
    Tokens(active[token := userId], byUser[userId := token])
  }

  /** The state change of a logout: forget a live token in both directions;
      a missing or unknown token changes nothing. */
  function Revoke(t: Tokens, token: Option<string>): (r: Tokens)
    ensures token.Some? ==> token.value !in r.active
    ensures token.Some? && token.value in t.active ==> t.active[token.value] !in r.byUser
    ensures token.None? || token.value !in t.active ==> r == t
    ensures token.Some? && token.value in t.active ==>
      && (forall tok :: tok in t.active && tok != token.value ==> tok in r.active && r.active[tok] == t.active[tok])
      && (forall u :: u in t.byUser && u != t.active[token.value] ==> u in r.byUser && r.byUser[u] == t.byUser[u])
  {
    if token.None? || token.value !in t.active then t
    else Tokens(t.active - {token.value}, t.byUser - {t.active[token.value]})
  }

  /** With a fresh token, login keeps the maps inverse. */
  lemma IssueKeepsInverse(t: Tokens, userId: Id, token: string)
    requires Inverse(t) && token !in t.active
    ensures Inverse(Issue(t, userId, token))
  {
    var r := Issue(t, userId, token);
    forall tok | tok in r.active
      ensures r.active[tok] in r.byUser && r.byUser[r.active[tok]] == tok
    {
      if tok != token {
        assert tok in t.active;
        assert t.active[tok] != userId;
      }
    }
    forall u | u in r.byUser
      ensures r.byUser[u] in r.active && r.active[r.byUser[u]] == u
    {
      if u != userId {
        assert u in t.byUser;
        assert t.byUser[u] != token;
      }
    }
  }

  /** Logout keeps the maps inverse. */
  lemma RevokeKeepsInverse(t: Tokens, token: Option<string>)
    requires Inverse(t)
    ensures Inverse(Revoke(t, token))
  {
    var r := Revoke(t, token);
    if token.Some? && token.value in t.active {
      var u0 := t.active[token.value];
      forall u | u in r.byUser
        ensures r.byUser[u] in r.active && r.active[r.byUser[u]] == u
      {
        assert u != u0;
        assert t.byUser[u] != token.value;
      }
    }
  }

  /** Login by one user changes no other user's session: every other token
      still resolves to the same user, and every other user keeps their token. */
  lemma IssueLeavesOthers(t: Tokens, userId: Id, token: string)
    requires Inverse(t) && token !in t.active
    ensures var r := Issue(t, userId, token);
      && (forall tok :: tok in t.active && t.active[tok] != userId ==>
            tok in r.active && r.active[tok] == t.active[tok])
      && (forall u :: u != userId ==>
            (u in r.byUser <==> u in t.byUser) && (u in t.byUser ==> r.byUser[u] == t.byUser[u]))
  {
    var r := Issue(t, userId, token);
    forall tok | tok in t.active && t.active[tok] != userId
      ensures tok in r.active && r.active[tok] == t.active[tok]
    {
      assert userId in t.byUser ==> t.byUser[userId] != tok;
    }
  }

  /** Logout ends one session only: every other user who had a live token
      still has it, and it still resolves to them. */
  lemma RevokeLeavesOthers(t: Tokens, token: Option<string>, u: Id)
    requires Inverse(t)
    requires u in t.byUser && (token.None? || t.byUser[u] != token.value)
    ensures var r := Revoke(t, token);
      && u in r.byUser && r.byUser[u] == t.byUser[u]
      && t.byUser[u] in r.active && r.active[t.byUser[u]] == u
  {
    if token.Some? && token.value in t.active {
      assert t.active[token.value] != u;
    }
  }

  /** Inverse maps give every user at most one live token. */
  lemma {:induction false} SingleActiveSession(t: Tokens, tok1: string, tok2: string)
    requires Inverse(t)
    requires tok1 in t.active && tok2 in t.active && t.active[tok1] == t.active[tok2]
    ensures tok1 == tok2
  {
    assert t.byUser[t.active[tok1]] == tok1;
  }

  /** Two logins in a row by the same user: the first token no longer
      resolves, the second resolves to the user. */
  lemma LoginTwice(t: Tokens, userId: Id, first: string, second: string)
    requires Inverse(t) && first !in t.active && second !in t.active && first != second
    ensures var t2 := Issue(Issue(t, userId, first), userId, second);
      && first !in t2.active
      && second in t2.active && t2.active[second] == userId
      && Inverse(t2)
  {
    IssueKeepsInverse(t, userId, first);
    IssueKeepsInverse(Issue(t, userId, first), userId, second);
  }

  /** The credential check of `login`: the user stored under the normalised
      email, provided the password encoder accepts the plain password. */
  function Authenticate(users: seq<User>, email: string, plainTextPassword: string,
                        matches: (string, string) -> bool): (r: Result<User>)
    ensures r.Ok? ==> r.value in users && r.value.email == NormalizeEmail(email)
                      && matches(plainTextPassword, r.value.password)
    ensures r.Err? ==> r.error == AuthenticationFailed
    ensures UniqueEmails(users) ==>
      (r.Ok? <==> exists u :: u in users && u.email == NormalizeEmail(email)
                              && matches(plainTextPassword, u.password))
  {
    match FindUserByEmail(users, NormalizeEmail(email))
    case None => Err(AuthenticationFailed)
    case Some(user) =>
      if !matches(plainTextPassword, user.password) then Err(AuthenticationFailed)
      else Ok(user)
  }

  /** The token store itself: a service object whose two map fields are
      updated in place by login and logout. */
  class AuthService {
    var activeTokens: map<string, Id>
    var userActiveTokens: map<Id, string>

    function State(): Tokens
      reads this
    {
      Tokens(activeTokens, userActiveTokens)
    }

    ghost predicate Valid()
      reads this
    {
      Inverse(State())
    }

    constructor ()
      ensures Valid()
      ensures activeTokens == map[] && userActiveTokens == map[]
    {
      activeTokens := map[];
      userActiveTokens := map[];
    }

    /** `login`. `freshToken` is the value `UUID.randomUUID()` produces: never
        blank, and not a token already in use. */
    method Login(users: seq<User>, email: string, plainTextPassword: string,
                 matches: (string, string) -> bool, freshToken: string) returns (r: Result<string>)
      requires Valid()
      requires freshToken !in activeTokens && !IsBlank(freshToken)
      modifies this
      ensures Valid()
      ensures Authenticate(users, email, plainTextPassword, matches).Err? ==>
        r == Err(AuthenticationFailed) && State() == old(State())
      ensures Authenticate(users, email, plainTextPassword, matches).Ok? ==>
        var user := Authenticate(users, email, plainTextPassword, matches).value;
        && r == Ok(freshToken)
        && State() == Issue(old(State()), user.id, freshToken)
        && GetUserIdFromToken(Some(freshToken)) == Some(user.id)
    {
      var found := FindUserByEmail(users, NormalizeEmail(email));
      if found.None? {
        return Err(AuthenticationFailed);
      }
      var user := found.value;
      if !matches(plainTextPassword, user.password) {
        return Err(AuthenticationFailed);
      }
      ghost var before := State();
      // Map.remove returns the previous value, or null when there was none.
      var existingToken := if user.id in userActiveTokens then Some(userActiveTokens[user.id]) else None;
      userActiveTokens := userActiveTokens - {user.id};
      if existingToken.Some? {
        activeTokens := activeTokens - {existingToken.value};
      }
      activeTokens := activeTokens[freshToken := user.id];
      userActiveTokens := userActiveTokens[user.id := freshToken];
      IssueKeepsInverse(before, user.id, freshToken);
      r := Ok(freshToken);
    }

    /** `getUserIdFromToken`: nothing for a missing or blank token, otherwise
        the user the token is live for, if any. */
    function GetUserIdFromToken(token: Option<string>): (r: Option<Id>)
      reads this
      ensures r.Some? <==> token.Some? && !IsBlank(token.value) && token.value in activeTokens
      ensures r.Some? ==> r.value == activeTokens[token.value]
    {
      if token.None? || IsBlank(token.value) then None
      else if token.value in activeTokens then Some(activeTokens[token.value])
      else None
    }

    /** `logout`. */
    method Logout(token: Option<string>)
      requires Valid()
      modifies this
      ensures Valid()
      ensures State() == Revoke(old(State()), token)
    {
      RevokeKeepsInverse(State(), token);
      if token.Some? {
        if token.value in activeTokens {
          var userId := activeTokens[token.value];
          activeTokens := activeTokens - {token.value};
          userActiveTokens := userActiveTokens - {userId};
        }
      }
    }
  }
}
