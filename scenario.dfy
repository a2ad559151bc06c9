/**
 * Clients of the controller: sequences of actions whose outcomes follow
 * from the actions' contracts alone. Each step method states the table it
 * starts from and the table it leaves.
 */
module Scenario {
  import opened Wrappers
  import opened Models
  import opened Dtos
  import opened UsersTable
  import opened Policy
  import opened Controller

  /** The administrator every scenario starts from. */
  function Root(t: DateTime): User
  {
    User(1, "root", "rootpw", "Root", Male, None, true, t, "root", t, "root", None, None)
  }

  function AliceDto(birthday: DateTime): RegisterDto
  {
    RegisterDto("alice", "secret1", "Alice", Female, birthday, false)
  }

  /** The row a self-registration of `alice` stores. */
  function Alice(t: DateTime, birthday: DateTime): User
  {
    UsersController.NewUser(AliceDto(birthday), 2, t, "alice")
  }

  lemma RootTable(t: DateTime)
    ensures TableInvariant([Root(t)])
  {
    assert !IsWhiteSpace("root"[0]);
  }

  lemma AliceLowered()
    ensures ToLower("alice") == "alice" && ToLower("ALICE") == "alice"
  {
  }

  lemma AliceDtoValid(birthday: DateTime)
    ensures ValidRegisterDto(AliceDto(birthday))
    ensures ValidRegisterDto(AliceDto(birthday).(login := "ALICE"))
  {
    assert !IsWhiteSpace("alice"[0]) && !IsWhiteSpace("ALICE"[0]);
    assert !IsWhiteSpace("secret1"[0]) && !IsWhiteSpace("Alice"[0]);
  }

  method RegisterAlice(c: UsersController, t0: DateTime, t1: DateTime, birthday: DateTime)
    returns (r1: Response, r2: Response)
    requires c.db.Valid() && c.db.users == [Root(t0)]
    modifies c.db
    ensures c.db.Valid() && c.db.users == [Root(t0), Alice(t1, birthday)]
    ensures r1 == BadRequest(OnlyAdminCanCreateAdmin)
    ensures r2.Ok? && r2.body.Profile? && r2.body.profile.login == "alice" && r2.body.profile.gender == "Gender"
  {
    AliceDtoValid(birthday);
    AliceLowered();
    r1 := c.Register(None, AliceDto(birthday).(admin := true), 2, t1);
    r2 := c.Register(None, AliceDto(birthday), 2, t1);
  }

  method SoftDeleteAlice(c: UsersController, t0: DateTime, t1: DateTime, t2: DateTime, birthday: DateTime)
    returns (r3: Response, r4: Response, r5: Response)
    requires c.db.Valid() && c.db.users == [Root(t0), Alice(t1, birthday)]
    modifies c.db
    ensures c.db.Valid() && c.db.users == [Root(t0), Revoke(Alice(t1, birthday), t2, "root")]
    ensures r3 == Unauthorized(WrongPassword)
    ensures r4 == Ok(Empty)
    ensures r5 == BadRequest(UserWasDeleted)
  {
    AliceLowered();
    assert c.db.users[0] in c.db.users && c.db.users[1] in c.db.users;
    r3 := Login(c.db.users, LoginDto("alice", "wrong"), c.tokenService);
    r4 := c.DeleteUser(Some("root"), "alice", true, t2);
    assert c.db.users[1] in c.db.users;
    r5 := Login(c.db.users, LoginDto("alice", "secret1"), c.tokenService);
  }

  method UnblockAlice(c: UsersController, t0: DateTime, t1: DateTime, t2: DateTime, birthday: DateTime)
    returns (r6: Response, r7: Response, r8: Response)
    requires c.db.Valid() && c.db.users == [Root(t0), Revoke(Alice(t1, birthday), t2, "root")]
    modifies c.db
    ensures c.db.Valid() && c.db.users == [Root(t0), Alice(t1, birthday)]
    ensures r6 == NoContent
    ensures r7 == BadRequest(AlreadyActive)
    ensures r8.Ok? && r8.body.Profile? && r8.body.profile.gender == "Female"
  {
    AliceLowered();
    assert c.db.users[0] in c.db.users && c.db.users[1] in c.db.users;
    r6 := c.UpdateUnblockUser(Some("root"), "alice");
    assert c.db.users == [Root(t0), Alice(t1, birthday)];
    assert c.db.users[0] in c.db.users && c.db.users[1] in c.db.users;
    r7 := c.UpdateUnblockUser(Some("root"), "alice");
    r8 := Login(c.db.users, LoginDto("alice", "secret1"), c.tokenService);
  }

  /**
   * An anonymous admin registration is refused; `alice` registers; a wrong
   * password is refused; `root` soft-deletes her and her right password is
   * then refused as deleted; `root` unblocks her, a second unblock is
   * refused, and she logs in again; registering `ALICE` collides with her.
   */
  method AccountLifecycle(tokenService: User -> string, t0: DateTime, t1: DateTime, t2: DateTime, birthday: DateTime)
    returns (r1: Response, r2: Response, r3: Response, r4: Response, r5: Response,
             r6: Response, r7: Response, r8: Response, r9: Response)
    ensures r1 == BadRequest(OnlyAdminCanCreateAdmin)
    ensures r2.Ok? && r2.body.Profile? && r2.body.profile.login == "alice" && r2.body.profile.gender == "Gender"
    ensures r3 == Unauthorized(WrongPassword)
    ensures r4 == Ok(Empty)
    ensures r5 == BadRequest(UserWasDeleted)
    ensures r6 == NoContent
    ensures r7 == BadRequest(AlreadyActive)
    ensures r8.Ok? && r8.body.Profile? && r8.body.profile.gender == "Female"
    ensures r9 == BadRequest(UserAlreadyExists)
  {
    RootTable(t0);
    var db := new DataContext([Root(t0)]);
    var c := new UsersController(db, tokenService);
    r1, r2 := RegisterAlice(c, t0, t1, birthday);
    r3, r4, r5 := SoftDeleteAlice(c, t0, t1, t2, birthday);
    r6, r7, r8 := UnblockAlice(c, t0, t1, t2, birthday);
    AliceDtoValid(birthday);
    AliceLowered();
    assert db.users[1] in db.users;
    r9 := c.Register(None, AliceDto(birthday).(login := "ALICE"), 3, t2);
  }

  /**
   * `alice` renames herself to `Alice` (stored as given, stamped by the new
   * login); renaming to her current login is refused; an anonymous caller
   * can then register `alice` again, because logins are compared exactly.
   */
  method RenameLifecycle(tokenService: User -> string, t0: DateTime, t1: DateTime, t2: DateTime, birthday: DateTime)
    returns (r1: Response, r2: Response, r3: Response, renamed: User)
    ensures r1 == NoContent
    ensures renamed.login == "Alice" && renamed.modifiedBy == "Alice" && renamed.createdBy == "alice"
    ensures r2 == BadRequest(LoginAlreadyTaken)
    ensures r3.Ok?
  {
    RootTable(t0);
    var db := new DataContext([Root(t0)]);
    var c := new UsersController(db, tokenService);
    var _, _ := RegisterAlice(c, t0, t0, birthday);
    r1, r2, renamed := RenameAlice(c, t0, t1, t2, birthday);
    AliceDtoValid(birthday);
    AliceLowered();
    r3 := c.Register(None, AliceDto(birthday), 3, t2);
  }

  method RenameAlice(c: UsersController, t0: DateTime, t1: DateTime, t2: DateTime, birthday: DateTime)
    returns (r1: Response, r2: Response, renamed: User)
    requires c.db.Valid() && c.db.users == [Root(t0), Alice(t0, birthday)]
    modifies c.db
    ensures c.db.Valid() && c.db.users == [Root(t0), renamed]
    ensures r1 == NoContent
    ensures renamed == Alice(t0, birthday).(login := "Alice", modifiedBy := "Alice", modifiedOn := t1)
    ensures r2 == BadRequest(LoginAlreadyTaken)
  {
    AliceLowered();
    assert c.db.users[0] in c.db.users && c.db.users[1] in c.db.users;
    assert !IsWhiteSpace("Alice"[0]) && !IsWhiteSpace("alice"[0]);
    r1 := c.UpdateLogin(Some("alice"), UpdateLoginDto("alice", "Alice"), t1);
    renamed := Alice(t0, birthday).(login := "Alice", modifiedBy := "Alice", modifiedOn := t1);
    assert c.db.users == [Root(t0), renamed];
    assert c.db.users[0] in c.db.users && c.db.users[1] in c.db.users;
    r2 := c.UpdateLogin(Some("Alice"), UpdateLoginDto("Alice", "Alice"), t2);
  }
}
