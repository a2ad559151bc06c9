/**
 * The state-changing actions of API/Controllers/UsersController.cs. The
 * data context holds the Users table; each action looks rows up, assigns
 * fields of the row it found, or adds or removes a row, and every action
 * keeps the table invariant of module UsersTable.
 */
module Controller {
  import opened Wrappers
  import opened Models
  import opened Dtos
  import opened UsersTable
  import opened Policy

  /** The `DataContext`, reduced to its `Users` table. */
  class DataContext {
    var users: seq<User>

    ghost predicate Valid()
      reads this
    {
      TableInvariant(users)
    }

    constructor (seed: seq<User>)
      requires TableInvariant(seed)
      ensures Valid() && users == seed
    {
      users := seed;
    }
  }

  /**
   * The controller. `actor` stands for the login claim of the caller's
   * token (`User.GetLogin()`), `now` for `DateTime.UtcNow`, and
   * `tokenService` for the token issuer.
   */
  class UsersController {
    const db: DataContext
    const tokenService: User -> string

    constructor (db: DataContext, tokenService: User -> string)
      ensures this.db == db && this.tokenService == tokenService
    {
      this.db := db;
      this.tokenService := tokenService;
    }

    /** The row registration creates; the audit pair is stamped with `stamp`. */
    static function NewUser(dto: RegisterDto, id: Guid, now: DateTime, stamp: string): (r: User)
      ensures ValidRegisterDto(dto) ==> WellFormedRow(r)
      ensures r.login == ToLower(dto.login) && forall i | 0 <= i < |r.login| :: !('A' <= r.login[i] <= 'Z')
      ensures r.guid == id && r.revokedOn.None? && r.revokedBy.None?
      ensures r.createdOn == r.modifiedOn == now && r.createdBy == r.modifiedBy == stamp
    {
      var u := User(id, ToLower(dto.login), dto.password, dto.name, dto.gender, Some(dto.birthday), dto.admin,
                    now, stamp, now, stamp, None, None);
      if ValidRegisterDto(dto) then ToLowerKeepsLatinAlnum(dto.login); u else u
    }

    /**
     * Register (UsersController.cs:27-99). `newId` stands for
     * `Guid.NewGuid()` and is required to be a key the table does not hold.
     */
    method Register(actor: Option<string>, dto: RegisterDto, newId: Guid, now: DateTime) returns (r: Response)
      requires db.Valid() && ValidRegisterDto(dto)
      requires forall u | u in db.users :: u.guid != newId
      modifies db
      ensures db.Valid()
      ensures RefusesAdminFlag(old(db.users), actor, dto.admin) ==>
        r == BadRequest(OnlyAdminCanCreateAdmin) && db.users == old(db.users)
      ensures !RefusesAdminFlag(old(db.users), actor, dto.admin) && LoginTaken(old(db.users), ToLower(dto.login)) ==>
        r == BadRequest(UserAlreadyExists) && db.users == old(db.users)
      ensures r.Ok? <==> !RefusesAdminFlag(old(db.users), actor, dto.admin) && !LoginTaken(old(db.users), ToLower(dto.login))
      ensures r.Ok? ==>
        var stamp := if CreatorResolves(old(db.users), actor) then actor.value else ToLower(dto.login);
        var n := NewUser(dto, newId, now, stamp);
        && db.users == old(db.users) + [n]
        && r == Ok(Profile(UserDto(newId, n.login, dto.name, "Gender", Some(dto.birthday), dto.admin, tokenService(n))))
    {
      var isDifferentUser := false;
      var creatorLogin := actor;
      if creatorLogin.Some? {
        var creator := FindLogin(db.users, ToLower(creatorLogin.value));
        FindLoginMissing(db.users, ToLower(creatorLogin.value));
        if creator.Some? {
          isDifferentUser := true;
          if !db.users[creator.value].admin && dto.admin {
            return BadRequest(OnlyAdminCanCreateAdmin);
          }
        }
      } else {
        if dto.admin {
          return BadRequest(OnlyAdminCanCreateAdmin);
        }
      }
      FindLoginMissing(db.users, ToLower(dto.login));
      if FindLogin(db.users, ToLower(dto.login)).Some? {
        return BadRequest(UserAlreadyExists);
      }
      var stamp := if isDifferentUser then creatorLogin.value else ToLower(dto.login);
      var appUser := NewUser(dto, newId, now, stamp);
      ToLowerKeepsLatinAlnum(dto.login);
      AppendKeepsInvariant(db.users, appUser);
      db.users := db.users + [appUser];
      r := Ok(Profile(UserDto(appUser.guid, appUser.login, appUser.name, "Gender", appUser.birthday,
                              appUser.admin, tokenService(appUser))));
    }

    /** DeleteUser (UsersController.cs:208-243): soft delete or removal of the row. */
    method DeleteUser(actor: Option<string>, login: string, softDelete: bool, now: DateTime) returns (r: Response)
      requires db.Valid()
      modifies db
      ensures db.Valid()
      ensures !IsAdminCaller(old(db.users), actor) ==>
        r == Unauthorized(AdminRightsRequired) && db.users == old(db.users)
      ensures IsAdminCaller(old(db.users), actor) && !LoginTaken(old(db.users), login) ==>
        r == BadRequest(UserDoesNotExist) && db.users == old(db.users)
      ensures IsAdminCaller(old(db.users), actor) ==>
        forall i | 0 <= i < |old(db.users)| && old(db.users)[i].login == login ::
          var before := old(db.users);
          && (softDelete && before[i].revokedOn.Some? ==>
                r == BadRequest(AlreadySoftDeleted) && db.users == before)
          && (softDelete && before[i].revokedOn.None? ==>
                r == Ok(Empty) && db.users == before[i := Revoke(before[i], now, actor.value)])
          && (!softDelete ==>
                r == Ok(Empty) && db.users == before[..i] + before[i + 1..])
    {
      if !IsAdminCaller(db.users, actor) {
        return Unauthorized(AdminRightsRequired);
      }
      var found := FindLogin(db.users, login);
      FindLoginMissing(db.users, login);
      if found.None? {
        return BadRequest(UserDoesNotExist);
      }
      var i := found.value;
      assert forall j | 0 <= j < |db.users| && db.users[j].login == login :: j == i;
      if db.users[i].revokedOn.Some? && softDelete {
        return BadRequest(AlreadySoftDeleted);
      }
      if softDelete {
        var revoked := Revoke(db.users[i], now, actor.value);
        ReplaceKeepsInvariant(db.users, i, revoked);
        db.users := db.users[i := revoked];
      } else {
        RemoveKeepsInvariant(db.users, i);
        db.users := db.users[..i] + db.users[i + 1..];
      }
      r := Ok(Empty);
    }

    /** UpdateUnblockUser (UsersController.cs:247-275): clears the revocation pair. */
    method UpdateUnblockUser(actor: Option<string>, login: string) returns (r: Response)
      requires db.Valid()
      modifies db
      ensures db.Valid()
      ensures !IsAdminCaller(old(db.users), actor) ==>
        r == Unauthorized(AdminRightsRequired) && db.users == old(db.users)
      ensures IsAdminCaller(old(db.users), actor) && !LoginTaken(old(db.users), login) ==>
        r == BadRequest(UserDoesNotExist) && db.users == old(db.users)
      ensures IsAdminCaller(old(db.users), actor) ==>
        forall i | 0 <= i < |old(db.users)| && old(db.users)[i].login == login ::
          var before := old(db.users);
          && (before[i].revokedOn.None? || before[i].revokedBy.None? ==>
                r == BadRequest(AlreadyActive) && db.users == before)
          && (before[i].revokedOn.Some? && before[i].revokedBy.Some? ==>
                r == NoContent && db.users == before[i := Unrevoke(before[i])])
    {
      if !IsAdminCaller(db.users, actor) {
        return Unauthorized(AdminRightsRequired);
      }
      var found := FindLogin(db.users, login);
      FindLoginMissing(db.users, login);
      if found.None? {
        return BadRequest(UserDoesNotExist);
      }
      var i := found.value;
      assert forall j | 0 <= j < |db.users| && db.users[j].login == login :: j == i;
      assert db.users[i] in db.users;
      if db.users[i].revokedOn.None? || db.users[i].revokedBy.None? {
        return BadRequest(AlreadyActive);
      }
      var unrevoked := Unrevoke(db.users[i]);
      ReplaceKeepsInvariant(db.users, i, unrevoked);
      db.users := db.users[i := unrevoked];
      r := NoContent;
    }

    /** UpdatUserFields (UsersController.cs:279-319): the profile fields of a row. */
    method UpdateUserFields(actor: Option<string>, dto: UpdateUserDto, now: DateTime) returns (r: Response)
      requires db.Valid() && ValidUpdateUserDto(dto)
      modifies db
      ensures db.Valid()
      ensures MutationGate(old(db.users), actor, dto.login).Some? ==>
        r == Unauthorized(MutationGate(old(db.users), actor, dto.login).value) && db.users == old(db.users)
      ensures MutationGate(old(db.users), actor, dto.login).None? && !LoginTaken(old(db.users), dto.login) ==>
        r == BadRequest(UserDoesNotExist) && db.users == old(db.users)
      ensures MutationGate(old(db.users), actor, dto.login).None? ==>
        forall i | 0 <= i < |old(db.users)| && old(db.users)[i].login == dto.login ::
          var before := old(db.users);
          r == NoContent &&
          db.users == before[i := before[i].(name := dto.name, birthday := Some(dto.birthday), gender := dto.gender,
                                             modifiedBy := actor.value, modifiedOn := now)]
    {
      var refusal := MutationGate(db.users, actor, dto.login);
      if refusal.Some? {
        return Unauthorized(refusal.value);
      }
      var found := FindLogin(db.users, dto.login);
      FindLoginMissing(db.users, dto.login);
      if found.None? {
        return BadRequest(UserDoesNotExist);
      }
      var i := found.value;
      assert forall j | 0 <= j < |db.users| && db.users[j].login == dto.login :: j == i;
      assert db.users[i] in db.users;
      var updated := db.users[i].(name := dto.name, birthday := Some(dto.birthday), gender := dto.gender,
                                  modifiedBy := actor.value, modifiedOn := now);
      ReplaceKeepsInvariant(db.users, i, updated);
      db.users := db.users[i := updated];
      r := NoContent;
    }

    /** UpdatePassword (UsersController.cs:322-360). */
    method UpdatePassword(actor: Option<string>, dto: UpdatePasswordDto, now: DateTime) returns (r: Response)
      requires db.Valid() && ValidUpdatePasswordDto(dto)
      modifies db
      ensures db.Valid()
      ensures MutationGate(old(db.users), actor, dto.login).Some? ==>
        r == Unauthorized(MutationGate(old(db.users), actor, dto.login).value) && db.users == old(db.users)
      ensures MutationGate(old(db.users), actor, dto.login).None? && !LoginTaken(old(db.users), dto.login) ==>
        r == BadRequest(UserDoesNotExist) && db.users == old(db.users)
      ensures MutationGate(old(db.users), actor, dto.login).None? ==>
        forall i | 0 <= i < |old(db.users)| && old(db.users)[i].login == dto.login ::
          var before := old(db.users);
          r == NoContent &&
          db.users == before[i := before[i].(password := dto.password, modifiedBy := actor.value, modifiedOn := now)]
    {
      var refusal := MutationGate(db.users, actor, dto.login);
      if refusal.Some? {
        return Unauthorized(refusal.value);
      }
      var found := FindLogin(db.users, dto.login);
      FindLoginMissing(db.users, dto.login);
      if found.None? {
        return BadRequest(UserDoesNotExist);
      }
      var i := found.value;
      assert forall j | 0 <= j < |db.users| && db.users[j].login == dto.login :: j == i;
      assert db.users[i] in db.users;
      var updated := db.users[i].(password := dto.password, modifiedBy := actor.value, modifiedOn := now);
      ReplaceKeepsInvariant(db.users, i, updated);
      db.users := db.users[i := updated];
      r := NoContent;
    }

    /**
     * UpdateLogin (UsersController.cs:363-407): renames a row. The new login
     * is compared exactly against every row, the target's own included, and
     * is stored as given; the audit `modifiedBy` gets the new login.
     */
    method UpdateLogin(actor: Option<string>, dto: UpdateLoginDto, now: DateTime) returns (r: Response)
      requires db.Valid() && ValidUpdateLoginDto(dto)
      modifies db
      ensures db.Valid()
      ensures MutationGate(old(db.users), actor, dto.login).Some? ==>
        r == Unauthorized(MutationGate(old(db.users), actor, dto.login).value) && db.users == old(db.users)
      ensures MutationGate(old(db.users), actor, dto.login).None? && !LoginTaken(old(db.users), dto.login) ==>
        r == BadRequest(UserDoesNotExist) && db.users == old(db.users)
      ensures MutationGate(old(db.users), actor, dto.login).None? ==>
        forall i | 0 <= i < |old(db.users)| && old(db.users)[i].login == dto.login ::
          var before := old(db.users);
          && (LoginTaken(before, dto.newLogin) ==>
                r == BadRequest(LoginAlreadyTaken) && db.users == before)
          && (!LoginTaken(before, dto.newLogin) ==>
                r == NoContent &&
                db.users == before[i := before[i].(login := dto.newLogin, modifiedBy := dto.newLogin, modifiedOn := now)])
    {
      var refusal := MutationGate(db.users, actor, dto.login);
      if refusal.Some? {
        return Unauthorized(refusal.value);
      }
      var found := FindLogin(db.users, dto.login);
      FindLoginMissing(db.users, dto.login);
      if found.None? {
        return BadRequest(UserDoesNotExist);
      }
      var i := found.value;
      assert forall j | 0 <= j < |db.users| && db.users[j].login == dto.login :: j == i;
      assert db.users[i] in db.users;
      FindLoginMissing(db.users, dto.newLogin);
      if FindLogin(db.users, dto.newLogin).Some? {
        return BadRequest(LoginAlreadyTaken);
      }
      var renamed := db.users[i].(login := dto.newLogin, modifiedBy := dto.newLogin, modifiedOn := now);
      ReplaceKeepsInvariant(db.users, i, renamed);
      db.users := db.users[i := renamed];
      r := NoContent;
    }
  }
}
