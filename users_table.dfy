/**
 * The `Users` table of the data context, seen as a sequence of rows, with the
 * lookups and record updates the controller performs on it and the invariant
 * every controller action keeps.
 */
module UsersTable {
  import opened Wrappers
  import opened Models
  import opened Dtos

  // ---------------------------------------------------------------------
  // Lowercasing (`string.ToLower()`, used by registration only)
  // ---------------------------------------------------------------------

  function LowerChar(c: char): char
  {
    if 'A' <= c <= 'Z' then (c as int + 32) as char else c
  }

  function ToLower(s: string): (r: string)
    ensures |r| == |s|
    ensures forall i | 0 <= i < |s| :: r[i] == LowerChar(s[i])
  {
    seq(|s|, i requires 0 <= i < |s| => LowerChar(s[i]))
  }

  /**
   * Lowercasing a login that passed registration's validation gives a login
   * that would pass it again and has no upper-case letter.
   */
  lemma ToLowerKeepsLatinAlnum(s: string)
    requires RequiredLatinAlnum(s)
    ensures RequiredLatinAlnum(ToLower(s))
    ensures forall i | 0 <= i < |s| :: !('A' <= ToLower(s)[i] <= 'Z')
    ensures ToLower(ToLower(s)) == ToLower(s)
  {
  }

  // ---------------------------------------------------------------------
  // Lookup by login (`SingleOrDefault(u => u.Login == login)`)
  // ---------------------------------------------------------------------

  /** Position of the first row whose login equals `login` exactly (case-sensitive). */
  function FindLogin(users: seq<User>, login: string): (r: Option<nat>)
    ensures r.Some? ==> r.value < |users| && users[r.value].login == login
    ensures r.Some? ==> forall j | 0 <= j < r.value :: users[j].login != login
    ensures r.None? <==> forall j | 0 <= j < |users| :: users[j].login != login
    decreases |users|
  {
    if |users| == 0 then None
    else if users[0].login == login then Some(0)
    else match FindLogin(users[1..], login)
      case None => None
      case Some(k) => Some(k + 1)
  }

  /** True when some row carries exactly this login (`Any(u => u.Login == login)`). */
  predicate LoginTaken(users: seq<User>, login: string)
  {
    exists u :: u in users && u.login == login
  }

  // ---------------------------------------------------------------------
  // The table invariant
  // ---------------------------------------------------------------------

  /** No two rows share a login string (exact comparison). */
  predicate UniqueLogins(users: seq<User>)
  {
    forall i, j | 0 <= i < |users| && 0 <= j < |users| && users[i].login == users[j].login :: i == j
  }

  /** No two rows share a primary key. */
  predicate UniqueIds(users: seq<User>)
  {
    forall i, j | 0 <= i < |users| && 0 <= j < |users| && users[i].guid == users[j].guid :: i == j
  }

  /**
   * What every action keeps of each row: the revocation pair is set and
   * cleared together, the login is one that passed a login validator, and
   * the gender code is one a validator admitted.
   */
  predicate WellFormedRow(u: User)
  {
    u.revokedOn.Some? == u.revokedBy.Some?
    && RequiredLatinAlnum(u.login)
    && 0 <= u.gender <= 3
  }

  predicate TableInvariant(users: seq<User>)
  {
    UniqueLogins(users) && UniqueIds(users) && forall u | u in users :: WellFormedRow(u)
  }

  /** Under the invariant a stored login names exactly one row, so `SingleOrDefault` never throws. */
  lemma FindLoginOfRow(users: seq<User>, i: nat)
    requires UniqueLogins(users) && i < |users|
    ensures FindLogin(users, users[i].login) == Some(i)
  {
  }

  lemma FindLoginMissing(users: seq<User>, login: string)
    ensures FindLogin(users, login).None? <==> !LoginTaken(users, login)
  {
  }

  // ---------------------------------------------------------------------
  // Record updates the controller applies to a tracked row
  // ---------------------------------------------------------------------

  /** Soft delete (UsersController.cs:229-230). */
  function Revoke(u: User, now: DateTime, revoker: string): (r: User)
    ensures r.revokedOn == Some(now) && r.revokedBy == Some(revoker)
    ensures r.(revokedOn := u.revokedOn, revokedBy := u.revokedBy) == u
  {
    u.(revokedOn := Some(now), revokedBy := Some(revoker))
  }

  /** Unblock (UsersController.cs:266-267). */
  function Unrevoke(u: User): (r: User)
    ensures r.revokedOn.None? && r.revokedBy.None?
    ensures r.(revokedOn := u.revokedOn, revokedBy := u.revokedBy) == u
  {
    u.(revokedOn := None, revokedBy := None)
  }

  /** Unblocking a row that was active before a soft delete gives the row back unchanged. */
  lemma UnrevokeUndoesRevoke(u: User, now: DateTime, revoker: string)
    requires u.revokedOn.None? && u.revokedBy.None?
    ensures Unrevoke(Revoke(u, now, revoker)) == u
  {
  }

  /**
   * Unblock refuses when either revocation field is empty; under the
   * invariant that is the same as "the row is active".
   */
  lemma UnblockCheckIsActive(users: seq<User>, i: nat)
    requires TableInvariant(users) && i < |users|
    ensures (users[i].revokedOn.None? || users[i].revokedBy.None?) <==> users[i].revokedOn.None?
  {
    assert users[i] in users;
  }

  // ---------------------------------------------------------------------
  // Which table changes keep the invariant
  // ---------------------------------------------------------------------

  lemma AppendKeepsInvariant(users: seq<User>, n: User)
    requires TableInvariant(users) && WellFormedRow(n)
    requires !LoginTaken(users, n.login)
    requires forall u | u in users :: u.guid != n.guid
    ensures TableInvariant(users + [n])
  {
  }

  lemma ReplaceKeepsInvariant(users: seq<User>, i: nat, n: User)
    requires TableInvariant(users) && i < |users| && WellFormedRow(n)
    requires n.guid == users[i].guid
    requires n.login == users[i].login || !LoginTaken(users, n.login)
    ensures TableInvariant(users[i := n])
  {
  }

  lemma RemoveKeepsInvariant(users: seq<User>, i: nat)
    requires TableInvariant(users) && i < |users|
    ensures TableInvariant(users[..i] + users[i + 1..])
  {
  }

  // ---------------------------------------------------------------------
  // Filtering and ordering (`Where`, `OrderBy`)
  // ---------------------------------------------------------------------

  /** The rows that satisfy `keep`, in table order. */
  function Where(users: seq<User>, keep: User -> bool): (r: seq<User>)
    ensures forall u :: u in r <==> u in users && keep(u)
    ensures forall u :: multiset(r)[u] == if keep(u) then multiset(users)[u] else 0
    ensures |r| <= |users|
    decreases |users|
  {
    if |users| == 0 then []
    else
      assert users == [users[0]] + users[1..];
      if keep(users[0]) then [users[0]] + Where(users[1..], keep)
      else Where(users[1..], keep)
  }

  /** Under unique logins no row occurs twice in the table. */
  lemma {:induction false} UniqueLoginsOnce(users: seq<User>)
    requires UniqueLogins(users)
    ensures forall u :: multiset(users)[u] == if u in users then 1 else 0
    decreases |users|
  {
    if |users| > 0 {
      var rest := users[1..];
      assert users == [users[0]] + rest;
      assert UniqueLogins(rest) by {
        forall i, j | 0 <= i < |rest| && 0 <= j < |rest| && rest[i].login == rest[j].login ensures i == j {
          assert users[i + 1].login == users[j + 1].login;
        }
      }
      UniqueLoginsOnce(rest);
    }
  }

  predicate SortedByCreatedOn(s: seq<User>)
  {
    forall i, j | 0 <= i < j < |s| :: AtOrBefore(s[i].createdOn, s[j].createdOn)
  }

  /** A row that is no later than every row of a sorted list may lead it. */
  lemma PrependSorted(x: User, s: seq<User>)
    requires SortedByCreatedOn(s)
    requires forall y | y in s :: AtOrBefore(x.createdOn, y.createdOn)
    ensures SortedByCreatedOn([x] + s)
  {
  }

  /** Insert `u` into a list ordered by creation time. */
  function InsertByCreatedOn(u: User, s: seq<User>): (r: seq<User>)
    requires SortedByCreatedOn(s)
    ensures SortedByCreatedOn(r)
    ensures multiset(r) == multiset(s) + multiset{u}
    decreases |s|
  {
    if |s| == 0 then [u]
    else if AtOrBefore(u.createdOn, s[0].createdOn) then
      HeadIsLeast(u, s);
      PrependSorted(u, s);
      [u] + s
    else
      var rest := InsertByCreatedOn(u, s[1..]);
      InsertedRowsFollowHead(u, s, rest);
      PrependSorted(s[0], rest);
      assert s == [s[0]] + s[1..];
      [s[0]] + rest
  }

  lemma HeadIsLeast(u: User, s: seq<User>)
    requires SortedByCreatedOn(s) && |s| > 0 && AtOrBefore(u.createdOn, s[0].createdOn)
    ensures forall y | y in s :: AtOrBefore(u.createdOn, y.createdOn)
  {
  }

  lemma InsertedRowsFollowHead(u: User, s: seq<User>, rest: seq<User>)
    requires SortedByCreatedOn(s) && |s| > 0 && !AtOrBefore(u.createdOn, s[0].createdOn)
    requires multiset(rest) == multiset(s[1..]) + multiset{u}
    ensures forall y | y in rest :: AtOrBefore(s[0].createdOn, y.createdOn)
  {
    AtOrBeforeTotal(u.createdOn, s[0].createdOn);
    forall y | y in rest ensures AtOrBefore(s[0].createdOn, y.createdOn) {
      assert y in multiset(rest);
      if y != u {
        assert y in s[1..];
        var j :| 0 <= j < |s[1..]| && s[1..][j] == y;
        assert s[j + 1] == y;
      }
    }
  }

  /** `OrderBy(u => u.CreatedOn)`: the same rows, in ascending creation time. */
  function SortByCreatedOn(s: seq<User>): (r: seq<User>)
    ensures SortedByCreatedOn(r)
    ensures multiset(r) == multiset(s)
    decreases |s|
  {
    if |s| == 0 then []
    else
      assert s == [s[0]] + s[1..];
      InsertByCreatedOn(s[0], SortByCreatedOn(s[1..]))
  }
}
