/** The credential decision of the basic-authentication filter: the user is looked up by
    the supplied nickname and a principal named by that nickname is returned exactly when
    the supplied password equals the stored one. */
module Authentication {
  import opened Common
  import opened Entities
  import opened Calendar
  import opened BusinessChecks
  import opened UserStorage
  import opened UserApi

  datatype Principal = Principal(name: string)

  /** What `AuthenticateAsync` ends with: a principal, null, the cancellation exception
      raised after a successful comparison, or the null-reference fault raised when no user
      is found for the nickname. */
  datatype Authenticated = Granted(principal: Principal) | NoPrincipal | Canceled | Faulted

  /** `AuthenticateAsync`. The user found for the nickname is dereferenced without a check,
      so an unregistered nickname faults. Passwords are compared ordinally, and two nulls
      are equal. */
  function AuthenticateAsync(users: Users, nickname: string, password: Text, cancellationRequested: bool): (r: Authenticated)
    ensures r == Faulted <==> nickname !in users
    ensures r.Granted? <==> nickname in users && password == users[nickname].password && !cancellationRequested
    ensures r.Granted? ==> r.principal == Principal(nickname)
    ensures r == NoPrincipal <==> nickname in users && password != users[nickname].password
    ensures r == Canceled <==> nickname in users && password == users[nickname].password && cancellationRequested
  {
    if nickname !in users then Faulted
    else
      var stored := users[nickname];
      if password == stored.password then
        if cancellationRequested then Canceled else Granted(Principal(nickname))
      else NoPrincipal
  }

  /** After a user is stored with a password, that password authenticates them and any
      other password does not. */
  lemma {:induction false} StoredPasswordAuthenticates(users: Users, user: UserBll, password: Text)
    ensures AuthenticateAsync(users[user.nickname := user], user.nickname, user.password, false) ==
            Granted(Principal(user.nickname))
    ensures password != user.password ==>
            AuthenticateAsync(users[user.nickname := user], user.nickname, password, false) == NoPrincipal
  {
  }

  /** A user registered through the user controller authenticates with the password that
      was posted, and not with any other; a nickname never registered faults. */
  method RegisterThenAuthenticate(checks: Checks, user: User, now: DateTime, wrong: Text, stranger: string)
    returns (granted: Authenticated, refused: Authenticated, unknown: Authenticated)
    requires user.nickname.Some? && wrong != user.password && stranger != user.nickname.value
    ensures granted == Granted(Principal(user.nickname.value))
    ensures refused == NoPrincipal
    ensures unknown == Faulted
  {
    var storage := new UserStore();
    var controller := new UserController(storage, checks);
    var _ := controller.ExecutePost(user, now);
    granted := AuthenticateAsync(storage.users, user.nickname.value, user.password, false);
    refused := AuthenticateAsync(storage.users, user.nickname.value, wrong, false);
    unknown := AuthenticateAsync(storage.users, stranger, user.password, false);
  }
}
