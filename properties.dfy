/**
 * Properties that relate several actions of the controller: how the
 * revocation state machine, registration and rename show up at login, and
 * who can obtain an admin row through registration.
 */
module Properties {
  import opened Wrappers
  import opened Models
  import opened Dtos
  import opened UsersTable
  import opened Policy

  /** After a soft delete the account cannot log in, even with its own password. */
  lemma {:induction false} LoginAfterSoftDelete(
    users: seq<User>, i: nat, now: DateTime, revoker: string, createToken: User -> string)
    requires TableInvariant(users) && i < |users|
    ensures Login(users[i := Revoke(users[i], now, revoker)], LoginDto(users[i].login, users[i].password), createToken)
            == BadRequest(UserWasDeleted)
  {
    var revoked := Revoke(users[i], now, revoker);
    assert users[i] in users;
    ReplaceKeepsInvariant(users, i, revoked);
    assert users[i := revoked][i] in users[i := revoked];
  }

  /** After an unblock the account logs in again with its password and gets its own profile. */
  lemma {:induction false} LoginAfterUnblock(users: seq<User>, i: nat, createToken: User -> string)
    requires TableInvariant(users) && i < |users|
    ensures var u := Unrevoke(users[i]);
      Login(users[i := u], LoginDto(users[i].login, users[i].password), createToken)
      == Ok(Profile(LoginProfile(u, createToken(u))))
  {
    var u := Unrevoke(users[i]);
    assert users[i] in users;
    ReplaceKeepsInvariant(users, i, u);
    assert users[i := u][i] in users[i := u];
  }

  /** A row added with a fresh login can log in with the login and password it was stored with. */
  lemma LoginAfterRegister(users: seq<User>, n: User, createToken: User -> string)
    requires TableInvariant(users) && WellFormedRow(n)
    requires !LoginTaken(users, n.login) && forall u | u in users :: u.guid != n.guid
    requires n.revokedOn.None?
    ensures Login(users + [n], LoginDto(n.login, n.password), createToken) == Ok(Profile(LoginProfile(n, createToken(n))))
  {
  }

  /**
   * After a rename the new login opens the account with the old password,
   * and the old login no longer names any row.
   */
  lemma {:induction false} LoginAfterRename(
    users: seq<User>, i: nat, newLogin: string, now: DateTime, password: string, createToken: User -> string)
    requires TableInvariant(users) && i < |users| && RequiredLatinAlnum(newLogin)
    requires !LoginTaken(users, newLogin) && users[i].revokedOn.None?
    ensures var t := users[i := users[i].(login := newLogin, modifiedBy := newLogin, modifiedOn := now)];
      && Login(t, LoginDto(newLogin, users[i].password), createToken).Ok?
      && Login(t, LoginDto(users[i].login, password), createToken) == Unauthorized(UserDoesNotExist)
  {
    var renamed := users[i].(login := newLogin, modifiedBy := newLogin, modifiedOn := now);
    var t := users[i := renamed];
    assert users[i] in users;
    ReplaceKeepsInvariant(users, i, renamed);
    assert t[i] in t;
    forall u | u in t ensures u.login != users[i].login {
      var k :| 0 <= k < |t| && t[k] == u;
      if k != i {
        assert users[k] == u;
      }
    }
  }

  /**
   * Registration yields an admin row only for a creator whose lowercased
   * claim names an admin, or whose claim names no row at all.
   */
  lemma AdminRowNeedsAdminOrUnknownCreator(users: seq<User>, creator: Option<string>)
    requires UniqueLogins(users)
    requires !RefusesAdminFlag(users, creator, true)
    ensures creator.Some?
    ensures !CreatorResolves(users, creator) ||
            exists c :: c in users && c.login == ToLower(creator.value) && c.admin
  {
  }

  /** An anonymous caller, or one naming a non-admin row, never obtains an admin row. */
  lemma NonAdminCannotCreateAdmin(users: seq<User>, creator: Option<string>, c: User)
    requires UniqueLogins(users)
    requires creator.None? || (c in users && c.login == ToLower(creator.value) && !c.admin)
    ensures RefusesAdminFlag(users, creator, true)
  {
  }

  /**
   * Login uniqueness is case-sensitive: a table may hold `Alice` (stored by
   * a rename) and `alice` (stored by a registration) side by side.
   */
  lemma CaseVariantsCoexist(u: User, v: User)
    requires WellFormedRow(u) && WellFormedRow(v) && u.guid != v.guid
    ensures TableInvariant([u.(login := "Alice"), v.(login := "alice")])
  {
    assert !IsWhiteSpace("Alice"[0]);
    assert !IsWhiteSpace("alice"[0]);
  }
}
