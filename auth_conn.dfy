/**
 * helpers/Auth.php: a second copy of the token lookup and the admin check,
 * differing from helpers/auth.php only in naming the connection global `$conn`.
 * With the connection passed explicitly the two copies agree on every database.
 */
module AuthConn {
  import opened Store
  import Auth

  /** `getUserIdByToken($token)` of helpers/Auth.php. */
  function GetUserIdByToken(tokens: map<string, nat>, token: string): (userId: Option<nat>)
    ensures userId.Some? <==> token in tokens
    ensures userId.Some? ==> userId.value == tokens[token]
  {
    if token in tokens then Some(tokens[token]) else None
  }

  /** `isAdmin($token)` of helpers/Auth.php. */
  function IsAdmin(users: map<string, User>, tokens: map<string, nat>, token: string): (admin: bool)
    ensures Auth.Falsy(GetUserIdByToken(tokens, token)) ==> !admin
    ensures admin <==>
      !Auth.Falsy(GetUserIdByToken(tokens, token)) &&
      exists e :: e in users && users[e].id == tokens[token] && users[e].role == AdminRole
  {
    var userId := GetUserIdByToken(tokens, token);
    if Auth.Falsy(userId) then false
    else AdminRole in (set e | e in users && users[e].id == userId.value :: users[e].role)
  }

  /** Both helper files give the same answers on the same tables. */
  lemma SameAsAuth(users: map<string, User>, tokens: map<string, nat>, token: string)
    ensures GetUserIdByToken(tokens, token) == Auth.GetUserIdByToken(tokens, token)
    ensures IsAdmin(users, tokens, token) == Auth.IsAdmin(users, tokens, token)
  {
  }
}
