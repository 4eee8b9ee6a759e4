/**
 * helpers/auth.php: resolve a bearer token to its user and decide whether that
 * user is an administrator. Both functions only SELECT, so they are functions of
 * the tables they read; the `$con` global is replaced by explicit arguments.
 */
module Auth {
  import opened Store

  /** `getUserIdByToken($token)`: the `user_id` of the token row whose `token` equals the argument, else null. */
  function GetUserIdByToken(tokens: map<string, nat>, token: string): (userId: Option<nat>)
    ensures userId.Some? <==> token in tokens
    ensures userId.Some? ==> userId.value == tokens[token]
  {
    if token in tokens then Some(tokens[token]) else None
  }

  /** PHP's `!$user_id`: null, or the id "0". */
  predicate Falsy(userId: Option<nat>): (falsy: bool)
    ensures !falsy <==> userId.Some? && userId.value >= 1
  {
    userId.None? || userId.value == 0
  }

  /** The `role` of every `users` row with this `user_id` (at most one in a well-formed database). */
  function RolesOf(users: map<string, User>, userId: nat): (roles: set<string>)
    ensures forall e :: e in users && users[e].id == userId ==> users[e].role in roles
    ensures forall r :: r in roles ==> exists e :: e in users && users[e].id == userId && users[e].role == r
  {
    set e | e in users && users[e].id == userId :: users[e].role
  }

  /** `isAdmin($token)`: false for a falsy resolved id (users is not consulted),
      false when no user row has that id, otherwise whether its role is 'admin'. */
  function IsAdmin(users: map<string, User>, tokens: map<string, nat>, token: string): (admin: bool)
    ensures Falsy(GetUserIdByToken(tokens, token)) ==> !admin
    ensures admin ==> token in tokens && tokens[token] != 0
    ensures admin <==>
      !Falsy(GetUserIdByToken(tokens, token)) &&
      exists e :: e in users && users[e].id == tokens[token] && users[e].role == AdminRole
  {
    var userId := GetUserIdByToken(tokens, token);
    if Falsy(userId) then false
    else AdminRole in RolesOf(users, userId.value)
  }

  /** In a well-formed database a resolvable token's verdict is decided by its one
      owner's role: 'admin' gives true, anything else ('user' included) false. */
  lemma IsAdminOfOwner(t: Tables, token: string, email: string)
    requires WellFormed(t)
    requires token in t.tokens && email in t.users && t.users[email].id == t.tokens[token]
    ensures IsAdmin(t.users, t.tokens, token) <==> t.users[email].role == AdminRole
  {
    if IsAdmin(t.users, t.tokens, token) {
      var e :| e in t.users && t.users[e].id == t.tokens[token] && t.users[e].role == AdminRole;
      assert e == email;
    }
  }

  /** A token resolves in a well-formed database exactly when it was issued, and never to the falsy id. */
  lemma ResolvedIdIsTruthy(t: Tables, token: string)
    requires WellFormed(t)
    ensures !Falsy(GetUserIdByToken(t.tokens, token)) <==> token in t.tokens
  {
    if token in t.tokens {
      var e :| e in t.users && t.users[e].id == t.tokens[token];
    }
  }
}
