/**
 * The decision logic of API/Controllers/UsersController.cs that does not
 * change the table: the caller checks shared by the actions, and the four
 * read-only actions (Login, GetUsersOlderThan, GetUsersByLogin,
 * GetActiveUsers), each a function of the table.
 */
module Policy {
  import opened Wrappers
  import opened Models
  import opened Dtos
  import opened UsersTable

  // ---------------------------------------------------------------------
  // Responses
  // ---------------------------------------------------------------------

  /** The distinct messages the controller answers with. */
  datatype Reason =
    | OnlyAdminCanCreateAdmin   // registration, admin flag refused
    | UserAlreadyExists         // registration, login collision
    | UserDoesNotExist          // unknown login or missing target
    | UserWasDeleted            // login of a revoked account
    | WrongPassword
    | AdminRightsRequired       // the admin check of five actions
    | WrongUserName             // lookup by login, missing target
    | AlreadySoftDeleted
    | AlreadyActive             // unblock of a row that is not revoked
    | PleaseSignIn              // update by a caller that resolves to no row
    | AccountBlocked            // update by a revoked non-admin of their own row
    | InsufficientRights        // update by a non-admin of another row
    | LoginAlreadyTaken         // rename collision

  /** The profile returned by registration and login (API/DTOs/UserDto.cs). */
  datatype UserDto = UserDto(
    guid: Guid, login: string, name: string, gender: string,
    birthday: Option<DateTime>, admin: bool, token: string)

  /** The answer of the lookup by login. */
  datatype RequestByLoginDto = RequestByLoginDto(
    name: string, gender: string, birthday: Option<DateTime>, active: bool)

  datatype Body =
    | Empty
    | Profile(profile: UserDto)
    | UserList(users: seq<User>)
    | UserInfo(info: RequestByLoginDto)

  /** The result of an action: its kind and, when it succeeds, its body. */
  datatype Response =
    | Ok(body: Body)
    | NoContent
    | BadRequest(reason: Reason)
    | Unauthorized(reason: Reason)

  // ---------------------------------------------------------------------
  // Caller checks
  // ---------------------------------------------------------------------

  /** Under unique logins, the lookup finds precisely the row a member with that login is. */
  lemma FindLoginAgreesWithMembers(users: seq<User>, login: string)
    requires UniqueLogins(users)
    ensures forall u | u in users && u.login == login ::
      FindLogin(users, login).Some? && users[FindLogin(users, login).value] == u
  {
  }

  /**
   * The check that opens GetUsersOlderThan, GetUsersByLogin, GetActiveUsers,
   * DeleteUser and UpdateUnblockUser: the caller's claim, compared exactly,
   * names an admin row. An anonymous caller matches no row.
   */
  function IsAdminCaller(users: seq<User>, actor: Option<string>): (r: bool)
    requires UniqueLogins(users)
    ensures r <==> actor.Some? && exists u :: u in users && u.login == actor.value && u.admin
  {
    match actor
    case None => false
    case Some(login) =>
      FindLoginAgreesWithMembers(users, login);
      match FindLogin(users, login)
      case None => false
      case Some(i) => assert users[i] in users; users[i].admin
  }

  /**
   * The check that opens the three update actions for the row named
   * `target`: `None` lets the action go on, `Some(reason)` refuses it.
   */
  function MutationGate(users: seq<User>, actor: Option<string>, target: string): (r: Option<Reason>)
    requires UniqueLogins(users)
    ensures (actor.None? || !LoginTaken(users, actor.value)) ==> r == Some(PleaseSignIn)
    ensures forall c | c in users && Some(c.login) == actor ::
      && (c.admin ==> r.None?)
      && (!c.admin && c.login == target && c.revokedOn.Some? ==> r == Some(AccountBlocked))
      && (!c.admin && c.login == target && c.revokedOn.None? ==> r.None?)
      && (!c.admin && c.login != target ==> r == Some(InsufficientRights))
  {
    match actor
    case None => Some(PleaseSignIn)
    case Some(login) =>
      FindLoginAgreesWithMembers(users, login);
      FindLoginMissing(users, login);
      match FindLogin(users, login)
      case None => Some(PleaseSignIn)
      case Some(i) =>
        var caller := users[i];
        if caller.admin then None
        else if caller.login == target && caller.revokedOn.Some? then Some(AccountBlocked)
        else if caller.login != target then Some(InsufficientRights)
        else None
  }

  /**
   * The update check passes exactly for an admin caller, whatever the
   * target, and for an active non-admin caller naming their own row.
   */
  lemma MutationGatePasses(users: seq<User>, actor: Option<string>, target: string)
    requires UniqueLogins(users)
    ensures MutationGate(users, actor, target).None? <==>
      exists c :: c in users && Some(c.login) == actor && (c.admin || (c.login == target && c.revokedOn.None?))
  {
  }

  /**
   * Registration's admin-flag rule (UsersController.cs:29-52), with the
   * creator's claim lowercased before the lookup: the flag is refused for an
   * anonymous caller and for a caller resolving to a non-admin. A caller
   * whose claim resolves to no row is not checked at all.
   */
  function RefusesAdminFlag(users: seq<User>, creator: Option<string>, wantsAdmin: bool): (r: bool)
    requires UniqueLogins(users)
    ensures r <==> (wantsAdmin &&
      (creator.None? || exists c :: c in users && c.login == ToLower(creator.value) && !c.admin))
    ensures creator.Some? && !LoginTaken(users, ToLower(creator.value)) ==> !r
  {
    match creator
    case None => wantsAdmin
    case Some(login) =>
      FindLoginAgreesWithMembers(users, ToLower(login));
      match FindLogin(users, ToLower(login))
      case None => false
      case Some(i) => assert users[i] in users; !users[i].admin && wantsAdmin
  }

  /** Registration is admin-assisted when the creator's lowercased claim names a row. */
  predicate CreatorResolves(users: seq<User>, creator: Option<string>)
  {
    creator.Some? && LoginTaken(users, ToLower(creator.value))
  }

  // ---------------------------------------------------------------------
  // Login (UsersController.cs:103-128)
  // ---------------------------------------------------------------------

  /** The profile a login answers with; the gender is spelled by `Gender.ToString()`. */
  function LoginProfile(u: User, token: string): (r: UserDto)
    ensures r.guid == u.guid && r.login == u.login && r.admin == u.admin && r.token == token
    ensures r.gender != "Gender"
  {
    assert "Gender"[0] == 'G';
    UserDto(u.guid, u.login, u.name, GenderText(u.gender), u.birthday, u.admin, token)
  }

  /**
   * Checks, in this order: an exact login match, the revocation, the
   * password. A revoked account is refused even with the right password.
   */
  function Login(users: seq<User>, dto: LoginDto, createToken: User -> string): (r: Response)
    requires UniqueLogins(users)
    ensures r == Unauthorized(UserDoesNotExist) <==> !LoginTaken(users, dto.login)
    ensures r == BadRequest(UserWasDeleted) <==>
      exists u :: u in users && u.login == dto.login && u.revokedOn.Some?
    ensures r == Unauthorized(WrongPassword) <==>
      exists u :: u in users && u.login == dto.login && u.revokedOn.None? && u.password != dto.password
    ensures r.Ok? <==>
      exists u :: u in users && u.login == dto.login && u.revokedOn.None? && u.password == dto.password
    ensures forall u | u in users && u.login == dto.login && r.Ok? ::
      r == Ok(Profile(LoginProfile(u, createToken(u))))
  {
    FindLoginAgreesWithMembers(users, dto.login);
    FindLoginMissing(users, dto.login);
    match FindLogin(users, dto.login)
    case None => Unauthorized(UserDoesNotExist)
    case Some(i) =>
      var u := users[i];
      assert u in users;
      if u.revokedOn.Some? then BadRequest(UserWasDeleted)
      else if dto.password != u.password then Unauthorized(WrongPassword)
      else Ok(Profile(LoginProfile(u, createToken(u))))
  }

  // ---------------------------------------------------------------------
  // GetUsersOlderThan (UsersController.cs:132-155)
  // ---------------------------------------------------------------------

  /** Age in whole years, counted by month: the day of the month is ignored. */
  function YearsByMonth(birthday: DateTime, today: DateTime): (r: int)
    ensures birthday.year + r < today.year || (birthday.year + r == today.year && birthday.month <= today.month)
    ensures today.year < birthday.year + r + 1 || (today.year == birthday.year + r + 1 && today.month < birthday.month)
  {
    today.year - birthday.year - (if birthday.month > today.month then 1 else 0)
  }

  predicate OlderThan(u: User, today: DateTime, age: int): (r: bool)
    ensures u.birthday.None? ==> !r
  {
    u.birthday.Some? && YearsByMonth(u.birthday.value, today) > age
  }

  /**
   * A row passes the age filter iff it has a birthday and at least `age + 1`
   * years have passed by month: the birthday year is before
   * `today.year - age - 1`, or equals it with the birthday month not after
   * today's month.
   */
  lemma OlderThanByMonth(u: User, today: DateTime, age: int)
    ensures OlderThan(u, today, age) <==>
      u.birthday.Some? &&
      (u.birthday.value.year < today.year - age - 1 ||
       (u.birthday.value.year == today.year - age - 1 && u.birthday.value.month <= today.month))
  {
  }

  /** The days of the month play no part in the age filter. */
  lemma OlderThanIgnoresDays(u: User, today: DateTime, age: int, d: int, e: int)
    requires u.birthday.Some?
    ensures OlderThan(u, today, age) == OlderThan(u.(birthday := Some(u.birthday.value.(day := d))), today.(day := e), age)
  {
  }

  function GetUsersOlderThan(users: seq<User>, actor: Option<string>, age: int, today: DateTime): (r: Response)
    requires UniqueLogins(users)
    ensures !IsAdminCaller(users, actor) ==> r == Unauthorized(AdminRightsRequired)
    ensures IsAdminCaller(users, actor) ==> r.Ok? && r.body.UserList?
    ensures r.Ok? ==> forall u :: u in r.body.users <==> u in users && OlderThan(u, today, age)
    ensures r.Ok? ==> forall u :: multiset(r.body.users)[u] == if u in users && OlderThan(u, today, age) then 1 else 0
  {
    if !IsAdminCaller(users, actor) then Unauthorized(AdminRightsRequired)
    else
      UniqueLoginsOnce(users);
      Ok(UserList(Where(users, u => OlderThan(u, today, age))))
  }

  // ---------------------------------------------------------------------
  // GetUsersByLogin (UsersController.cs:159-184)
  // ---------------------------------------------------------------------

  function GetUsersByLogin(users: seq<User>, actor: Option<string>, login: string): (r: Response)
    requires UniqueLogins(users)
    ensures !IsAdminCaller(users, actor) ==> r == Unauthorized(AdminRightsRequired)
    ensures IsAdminCaller(users, actor) && !LoginTaken(users, login) ==> r == BadRequest(WrongUserName)
    ensures IsAdminCaller(users, actor) ==> forall u | u in users && u.login == login ::
      r == Ok(UserInfo(RequestByLoginDto(u.name, GenderText(u.gender), u.birthday, u.revokedOn.None?)))
  {
    if !IsAdminCaller(users, actor) then Unauthorized(AdminRightsRequired)
    else
      FindLoginAgreesWithMembers(users, login);
      FindLoginMissing(users, login);
      match FindLogin(users, login)
      case None => BadRequest(WrongUserName)
      case Some(i) =>
        var u := users[i];
        Ok(UserInfo(RequestByLoginDto(u.name, GenderText(u.gender), u.birthday, u.revokedOn.None?)))
  }

  // ---------------------------------------------------------------------
  // GetActiveUsers (UsersController.cs:188-205)
  // ---------------------------------------------------------------------

  predicate IsActive(u: User)
  {
    u.revokedOn.None?
  }

  function GetActiveUsers(users: seq<User>, actor: Option<string>): (r: Response)
    requires UniqueLogins(users)
    ensures !IsAdminCaller(users, actor) ==> r == Unauthorized(AdminRightsRequired)
    ensures IsAdminCaller(users, actor) ==> r.Ok? && r.body.UserList?
    ensures r.Ok? ==> SortedByCreatedOn(r.body.users)
    ensures r.Ok? ==> forall u :: u in r.body.users <==> u in users && u.revokedOn.None?
    ensures r.Ok? ==> forall u :: multiset(r.body.users)[u] == if u in users && u.revokedOn.None? then 1 else 0
  {
    if !IsAdminCaller(users, actor) then Unauthorized(AdminRightsRequired)
    else
      UniqueLoginsOnce(users);
      var kept := Where(users, IsActive);
      var active := SortByCreatedOn(kept);
      assert forall u :: u in active <==> u in kept by {
        forall u ensures u in active <==> u in kept {
          assert u in active <==> u in multiset(active);
          assert u in kept <==> u in multiset(kept);
        }
      }
      Ok(UserList(active))
  }
}
