/** The user store the user controller and the authentication filter work against: users
    keyed by nickname. Its interface is not part of this model; this is a reference
    in-memory store with the operations the controller calls. */
module UserStorage {
  import opened Common
  import opened Entities

  class UserStore {
    var users: map<string, UserBll>

    constructor ()
      ensures users == map[]
    {
      users := map[];
    }

    /** `AddUser`: the user is stored under its nickname. */
    method AddUser(user: UserBll)
      modifies this
      ensures users == old(users)[user.nickname := user]
    {
      users := users[user.nickname := user];
    }

    /** `GetUser(nickname)`: the stored user, or null. */
    method GetUser(nickname: Text) returns (r: Option<UserBll>)
      ensures r.Some? <==> nickname.Some? && nickname.value in users
      ensures r.Some? ==> r.value == users[nickname.value]
    {
      r := if nickname.Some? && nickname.value in users then Some(users[nickname.value]) else None;
    }

    /** `UpdateUser`: a registered user is replaced; an unregistered one changes nothing. */
    method UpdateUser(user: UserBll)
      modifies this
      ensures user.nickname in old(users) ==> users == old(users)[user.nickname := user]
      ensures user.nickname !in old(users) ==> users == old(users)
    {
      if user.nickname in users {
        users := users[user.nickname := user];
      }
    }

    /** `DeleteUser`: the user with that nickname is removed. */
    method DeleteUser(user: UserBll)
      modifies this
      ensures users == old(users) - {user.nickname}
    {
      users := users - {user.nickname};
    }
  }
}
