/** The user controller: the ordered validation of each user operation, and the operations
    on the user store. Of the operations only delete runs its validation; get, post and
    patch reach the store directly. */
module UserApi {
  import opened Common
  import opened Calendar
  import opened Entities
  import opened InputValidation
  import opened UserStorage
  import opened BusinessChecks

  const BadUser := InputFailure(BadUserFormat)
  const NotRegistered := BusinessFailure(NotFound, UserNotFound)
  const AlreadyRegistered := BusinessFailure(BadRequest, UserAlreadyRegistered)
  const OtherUser := BusinessFailure(Unauthorized, NotAuthorized)

  /** `ValidateGetOperation`: the nickname format (400), then the user is registered (404). */
  function ValidateGetUserOperation(users: Users, checks: Checks, userId: Text): (r: Outcome)
    ensures r.Ok? <==> IsValidNickName(userId) && checks.isValidGetUser(users, userId)
    ensures !IsValidNickName(userId) ==> r == Fail(BadUser)
    ensures IsValidNickName(userId) && r.Fail? ==> r == Fail(NotRegistered)
  {
    if !IsValidNickName(userId) then Fail(BadUser)
    else if !checks.isValidGetUser(users, userId) then Fail(NotRegistered)
    else Ok
  }

  /** `ValidatePostNewsOperation`: the user format (400), then the user is not yet
      registered (400). */
  function ValidatePostUserOperation(users: Users, checks: Checks, user: Option<User>, matchesPattern: string -> bool): (r: Outcome)
    ensures r.Ok? <==> IsValidUser(user, matchesPattern) && checks.isValidCreateUser(users, user.value)
    ensures r.Fail? ==> r.failure.status == BadRequest
    ensures !IsValidUser(user, matchesPattern) ==> r == Fail(BadUser)
    ensures IsValidUser(user, matchesPattern) && r.Fail? ==> r == Fail(AlreadyRegistered)
  {
    if !IsValidUser(user, matchesPattern) then Fail(BadUser)
    else if !checks.isValidCreateUser(users, user.value) then Fail(AlreadyRegistered)
    else Ok
  }

  /** `ValidatePatchNewsOperation`: the nickname in the route (400), the body (400), the
      requester is that user (401), then the body's user is registered (404). */
  function ValidatePatchUserOperation(users: Users, checks: Checks, requester: string, userId: Text, user: Option<User>,
                                      matchesPattern: string -> bool): (r: Outcome)
    ensures r.Ok? <==> IsValidNickName(userId) && IsValidUser(user, matchesPattern) &&
                       checks.isAuthorizedUser(requester, userId) && checks.isValidUpdateUser(users, user.value)
    ensures !IsValidNickName(userId) ==> r == Fail(BadUser)
    ensures IsValidNickName(userId) && !IsValidUser(user, matchesPattern) ==> r == Fail(BadUser)
    ensures IsValidNickName(userId) && IsValidUser(user, matchesPattern) ==>
              (!checks.isAuthorizedUser(requester, userId) <==> r == Fail(OtherUser))
    ensures IsValidNickName(userId) && IsValidUser(user, matchesPattern) && checks.isAuthorizedUser(requester, userId) ==>
              (!checks.isValidUpdateUser(users, user.value) <==> r == Fail(NotRegistered))
  {
    if !IsValidNickName(userId) then Fail(BadUser)
    else if !IsValidUser(user, matchesPattern) then Fail(BadUser)
    else if !checks.isAuthorizedUser(requester, userId) then Fail(OtherUser)
    else if !checks.isValidUpdateUser(users, user.value) then Fail(NotRegistered)
    else Ok
  }

  /** `ValidateDeleteNewsOperation`: the nickname (400), the requester is that user (401),
      then the user is registered (404). */
  function ValidateDeleteUserOperation(users: Users, checks: Checks, requester: string, userId: Text): (r: Outcome)
    ensures r.Ok? <==> IsValidNickName(userId) && checks.isAuthorizedUser(requester, userId) &&
                       checks.isValidDeleteUser(users, userId)
    ensures !IsValidNickName(userId) ==> r == Fail(BadUser)
    ensures IsValidNickName(userId) ==> (!checks.isAuthorizedUser(requester, userId) <==> r == Fail(OtherUser))
    ensures IsValidNickName(userId) && checks.isAuthorizedUser(requester, userId) ==>
              (!checks.isValidDeleteUser(users, userId) <==> r == Fail(NotRegistered))
  {
    if !IsValidNickName(userId) then Fail(BadUser)
    else if !checks.isAuthorizedUser(requester, userId) then Fail(OtherUser)
    else if !checks.isValidDeleteUser(users, userId) then Fail(NotRegistered)
    else Ok
  }

  /** The record a registration stores: the body's fields with the registration date set. */
  function Registered(user: User, now: DateTime): (u: UserBll)
    requires user.nickname.Some?
    ensures u.nickname == user.nickname.value && u.password == user.password && u.city == user.city
    ensures u.name == user.name && u.email == user.email && u.birthDate == user.birthDate
    ensures u.registrationDate == Some(now)
  {
    ToUserBll(user).(registrationDate := Some(now))
  }

  class UserController {
    const storage: UserStore
    const checks: Checks

    constructor (storage: UserStore, checks: Checks)
      ensures this.storage == storage && this.checks == checks
    {
      this.storage := storage;
      this.checks := checks;
    }

    /** `ExecuteGetAsync`: the stored user, answered 200; nothing is validated or changed. */
    method ExecuteGet(userId: Text) returns (reply: Reply<Option<UserBll>>)
      ensures reply.Answer? && reply.status == OK && reply.location == None
      ensures reply.body.Some? <==> userId.Some? && userId.value in storage.users
      ensures reply.body.Some? ==> reply.body.value == storage.users[userId.value]
    {
      var user := storage.GetUser(userId);
      reply := Answer(OK, None, user);
    }

    /** `ExecutePostAsync`: the user is stored with the registration date `now`, and 201 is
        answered with the user's link; nothing is validated. */
    method ExecutePost(user: User, now: DateTime) returns (reply: Reply<()>)
      requires user.nickname.Some?
      modifies storage
      ensures storage.users == old(storage.users)[user.nickname.value := Registered(user, now)]
      ensures reply == Answer(Created, Some(UserSelf(user.nickname.value)), ())
    {
      var userToAdd := ToUserBll(user);
      userToAdd := userToAdd.(registrationDate := Some(now));
      storage.AddUser(userToAdd);
      reply := Answer(Created, Some(UserSelf(user.nickname.value)), ());
    }

    /** `ExecutePatchAsync`: the user named in the body replaces its stored record, and 204
        is answered; nothing is validated, and the nickname in the route plays no part. */
    method ExecutePatch(user: User) returns (reply: Reply<()>)
      requires user.nickname.Some?
      modifies storage
      ensures user.nickname.value in old(storage.users) ==>
                storage.users == old(storage.users)[user.nickname.value := ToUserBll(user)]
      ensures user.nickname.value !in old(storage.users) ==> storage.users == old(storage.users)
      ensures reply == Answer(NoContent, None, ())
    {
      storage.UpdateUser(ToUserBll(user));
      reply := Answer(NoContent, None, ());
    }

    /** `ExecuteDeleteAsync`: validate, then remove the user and answer 204. */
    method ExecuteDelete(requester: string, userId: Text) returns (reply: Reply<()>)
      modifies storage
      ensures var v := ValidateDeleteUserOperation(old(storage.users), checks, requester, userId);
              if v.Fail? then reply == Rejected(v.failure) && storage.users == old(storage.users)
              else reply == Answer(NoContent, None, ()) && storage.users == old(storage.users) - {userId.value}
    {
      var v := ValidateDeleteUserOperation(storage.users, checks, requester, userId);
      if v.Fail? {
        return Rejected(v.failure);
      }
      storage.DeleteUser(ToUserBll(User(userId, None, None, None, None, None)));
      reply := Answer(NoContent, None, ());
    }
  }

  /** When authorization means acting on oneself, a well-formed patch or delete aimed at
      another user is refused with 401, whatever the store holds. */
  lemma {:induction false} OtherUserRefused(users: Users, checks: Checks, requester: string, userId: Text, user: Option<User>,
                                            matchesPattern: string -> bool)
    requires AuthorizedIffSame(checks)
    requires IsValidNickName(userId) && userId.value != requester
    ensures ValidateDeleteUserOperation(users, checks, requester, userId) == Fail(OtherUser)
    ensures IsValidUser(user, matchesPattern) ==>
              ValidatePatchUserOperation(users, checks, requester, userId, user, matchesPattern) == Fail(OtherUser)
  {
    assert !checks.isAuthorizedUser(requester, userId);
  }

  /** When registration is allowed exactly for new nicknames, a user that passes post
      validation is not yet stored, and once stored the same post is refused with 400. */
  lemma {:induction false} RegistrationIsOnce(users: Users, checks: Checks, user: Option<User>, matchesPattern: string -> bool,
                                              now: DateTime)
    requires CreateUserIffAbsent(checks)
    requires ValidatePostUserOperation(users, checks, user, matchesPattern).Ok?
    ensures user.value.nickname.value !in users
    ensures var stored := users[user.value.nickname.value := Registered(user.value, now)];
            ValidatePostUserOperation(stored, checks, user, matchesPattern) == Fail(AlreadyRegistered)
  {
    var stored := users[user.value.nickname.value := Registered(user.value, now)];
    assert checks.isValidCreateUser(users, user.value);
    assert !checks.isValidCreateUser(stored, user.value);
  }

  /** Registering and then deleting oneself, on a store with no users: the post answers 201
      with the user's link and stores the registration date; another user's delete is
      refused with 401 and leaves the user; the user's own delete answers 204 and removes
      it. */
  method RegisterThenDelete(checks: Checks, user: User, now: DateTime, another: string)
    returns (posted: Reply<()>, registeredOn: Option<DateTime>, deniedDelete: Reply<()>, stillThere: bool,
             deleted: Reply<()>, gone: bool)
    requires AuthorizedIffSame(checks)
    requires IsValidNickName(user.nickname) && another != user.nickname.value
    requires checks.isValidDeleteUser(map[user.nickname.value := Registered(user, now)], user.nickname)
    ensures posted == Answer(Created, Some(UserSelf(user.nickname.value)), ())
    ensures registeredOn == Some(now)
    ensures deniedDelete == Rejected(OtherUser) && stillThere
    ensures deleted == Answer(NoContent, None, ()) && gone
  {
    var storage := new UserStore();
    var controller := new UserController(storage, checks);
    posted := controller.ExecutePost(user, now);
    registeredOn := storage.users[user.nickname.value].registrationDate;
    assert !checks.isAuthorizedUser(another, user.nickname);
    deniedDelete := controller.ExecuteDelete(another, user.nickname);
    stillThere := user.nickname.value in storage.users;
    assert checks.isAuthorizedUser(user.nickname.value, user.nickname);
    deleted := controller.ExecuteDelete(user.nickname.value, user.nickname);
    gone := user.nickname.value !in storage.users;
  }
}
