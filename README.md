# Account policy engine of the ATON user service, in Dafny

This project models the account-policy engine of a small ASP.NET Core user
service: the `UsersController` actions that register, authenticate, list,
look up, soft-delete, hard-delete, unblock, update and rename users. It also
models the validation attributes of the four request bodies those actions
accept.

The Entity Framework `Users` table is a `seq<User>` held by the class
`Controller.DataContext`. Each `User` is a value with the fields of
`API/Models/User.cs`. The controller's other inputs become parameters:

- the caller's login claim (`User.GetLogin()`) is `actor: Option<string>`;
- `DateTime.UtcNow` is `now`;
- `Guid.NewGuid()` is `newId`;
- the token service is a function `User -> string`.

Every action answers with a `Policy.Response`: `Ok(body)`, `NoContent`,
`BadRequest(reason)` or `Unauthorized(reason)`. Each distinct message of the
controller is one `Reason`.

Modules:

- `Models`: the `User` row, the `DateTime` value and gender codes.
- `Dtos`: the four request bodies and their validation attributes as
  predicates.
- `UsersTable`: exact-match lookup by login, lowercasing, the record updates,
  `Where` and `OrderBy(CreatedOn)`, and the table invariant.
- `Policy`: the admin check, the self-or-admin check, registration's
  admin-flag rule, and the four read-only actions as functions of the table.
- `Controller`: the `DataContext` and `UsersController` classes. The six
  state-changing actions are methods there, each with `modifies db`. Each one
  keeps the table invariant and states the whole new table for every branch.
- `Properties`: lemmas that relate several actions.
- `Scenario`: clients that chain actions and derive their outcomes from the
  contracts alone.

The table invariant (`UsersTable.TableInvariant`) holds before and after
every action. It says:

- no two rows share a login (compared exactly, case-sensitive);
- no two rows share a key;
- `RevokedOn` and `RevokedBy` are set together and cleared together;
- every stored login is non-empty Latin letters and digits;
- every gender code lies in 0..3.

The invariant is what makes every `SingleOrDefault` lookup well defined. The
schema declares no unique index on `Login`, so the controller's pre-checks
are the only thing that keeps logins unique.

Quirks of the code that the model keeps as written:

- Only registration lowercases. It lowercases both the candidate login and
  the creator's claim before looking them up (UsersController.cs:36, 55).
  Every other lookup is an exact, case-sensitive comparison.
- A creator claim that names no row may set `admin = true`: the flag is
  checked only when the claim is absent or names a row
  (UsersController.cs:33-51). The record is then stamped with the new
  user's own login. See `Policy.RefusesAdminFlag`.
- Registration stamps `CreatedBy`/`ModifiedBy` with the creator's claim as
  given, not lowercased (UsersController.cs:62-78).
- Rename refuses a new login that any row holds, the target's own row
  included (UsersController.cs:391-395). It stores the new login as given
  and stamps `ModifiedBy` with the new login, not with the caller
  (UsersController.cs:397-399).
- Logins are unique only under exact comparison: rename compares case
  sensitively (UsersController.cs:391-395), so `Alice` and `alice` can both
  be stored. See `Properties.CaseVariantsCoexist` and
  `Scenario.RenameLifecycle`.
- Registration answers with the literal gender text `"Gender"`. Login and
  lookup answer with `Gender.ToString()`.
- The profile update accepts gender code 3, which names no member of the
  enumeration (UpdateUserDto.cs:17-18). `ToString()` then gives `"3"`.
- The age filter counts whole years by year and month and keeps a row only
  when that count exceeds `age` (UsersController.cs:148-151). A user one
  month past their `age`-th birthday month is therefore not listed; at least
  `age + 1` years must have passed. See `Policy.OlderThanByMonth`.
- `[Required]` on a string rejects the empty string and strings made only
  of white space, as ASP.NET's `RequiredAttribute` does (`Dtos.Required`).
  For the Latin-letters-and-digits fields this is the same as "non-empty"
  (`Dtos.LatinAlnumFieldRule`); for a name it rejects a name of spaces only
  (`Dtos.BlankNameRejected`).

## Model

| member | source | states |
|---|---|---|
| `Dtos.LatinAlnumFieldRule` | API/DTOs/RegisterDto.cs:7-19 | A registration login or password is accepted iff it is non-empty and every character is an ASCII Latin letter or digit |
| `Dtos.Required` | API/DTOs/RegisterDto.cs:7 | `[Required]` on a string accepts it iff it is neither empty nor made only of white space (`char.IsWhiteSpace`) |
| `Dtos.ValidRegisterDto` | API/DTOs/RegisterDto.cs:7-32 | A registration body passes iff login and password are non-empty Latin letters and digits, the name is over `[a-zA-Zа-яА-Я ]` with at least one non-space character, and the gender code lies in 0..2 |
| `Dtos.ValidUpdateUserDto` | API/DTOs/UpdateUserDto.cs:7-21 | A profile update passes iff its login is any non-blank text, its name is over `[a-zA-Zа-яА-Я ]` with at least one non-space character, and its gender code lies in 0..3 |
| `Dtos.NameFieldRule` | API/DTOs/RegisterDto.cs:21-23 | A name is accepted iff every character is in `a-z`, `A-Z`, `а-я`, `А-Я` or space, and at least one is not a space |
| `Dtos.BlankNameRejected` | API/DTOs/RegisterDto.cs:21-23 | Every non-empty name made only of spaces is in the name class but fails `[Required]` |
| `Dtos.NameRejectsYo` | API/DTOs/UpdateUserDto.cs:10-15 | A name containing `ё` or `Ё` is rejected, since both lie outside the two Cyrillic ranges |
| `Dtos.GenderRanges` | API/DTOs/UpdateUserDto.cs:17-18 | Registration admits gender codes 0..2; the profile update admits those and exactly one more, 3 |
| `Dtos.PasswordUpdateLoginUnrestricted` | API/DTOs/UpdatePasswordDto.cs:7-15 | For every body: a password update passes iff its login is non-blank text of any kind and its password is non-empty Latin letters and digits; `Иван Петров` is such a login, which registration would refuse |
| `Dtos.NewLoginKeepsCase` | API/DTOs/UpdateLoginDto.cs:7-15 | For every body: a rename passes iff it names its target by any non-blank login and its new login is non-empty Latin letters and digits, upper-case ones included (`NewName` passes) |
| `Models.GenderText` | API/Models/User.cs:13 | `Gender.ToString()`: `Male`, `Female`, `Unknown` for 0, 1, 2; for a larger code the decimal numeral without leading zeros that denotes it (so 3 gives `"3"`); for a negative code `-` followed by the numeral of its magnitude |
| `UsersTable.ToLower` | API/Controllers/UsersController.cs:36 | Lowercasing keeps the length and maps each character through ASCII lowering: `A`-`Z` to `a`-`z`, every other character unchanged |
| `UsersTable.ToLowerKeepsLatinAlnum` | API/Controllers/UsersController.cs:66 | Lowercasing a valid registration login keeps it valid, leaves no upper-case letter, and is idempotent |
| `UsersTable.FindLogin` | API/Controllers/UsersController.cs:219 | The lookup finds the first row whose login equals the key exactly, and finds nothing iff no row has that login |
| `UsersTable.FindLoginOfRow` | API/Controllers/UsersController.cs:170 | Under unique logins, looking up a stored login finds exactly that row (`SingleOrDefault` cannot throw) |
| `UsersTable.FindLoginMissing` | API/Controllers/UsersController.cs:391-393 | The lookup fails iff no row holds the login, which is the `Any` test of the rename check |
| `UsersTable.Revoke` | API/Controllers/UsersController.cs:229-230 | Soft delete sets `RevokedOn` to the time and `RevokedBy` to the caller and changes no other field |
| `UsersTable.Unrevoke` | API/Controllers/UsersController.cs:266-267 | Unblock clears both revocation fields and changes no other field |
| `UsersTable.UnrevokeUndoesRevoke` | API/Controllers/UsersController.cs:227-231 | Unblocking a row after it was soft-deleted from the active state gives back the original row |
| `UsersTable.UnblockCheckIsActive` | API/Controllers/UsersController.cs:263-264 | Under the invariant, unblock's "either field empty" refusal is the same as "the row is active" |
| `UsersTable.AppendKeepsInvariant` | API/Controllers/UsersController.cs:54-80 | Adding a row with an unused login and key keeps logins and keys unique and rows well formed |
| `UsersTable.ReplaceKeepsInvariant` | API/Controllers/UsersController.cs:391-399 | Updating a row in place keeps the invariant if its key stays and its login either stays or is unused |
| `UsersTable.RemoveKeepsInvariant` | API/Controllers/UsersController.cs:234 | Removing a row keeps the invariant |
| `UsersTable.Where` | API/Controllers/UsersController.cs:145-152 | The filtered list holds each row that satisfies the predicate as often as the table does, and no other row |
| `UsersTable.UniqueLoginsOnce` | API/Controllers/UsersController.cs:145-152 | A table with unique logins holds each row exactly once |
| `UsersTable.InsertByCreatedOn` | API/Controllers/UsersController.cs:201 | Inserting into a list sorted by creation time keeps it sorted and adds exactly that row |
| `UsersTable.SortByCreatedOn` | API/Controllers/UsersController.cs:199-202 | `OrderBy(CreatedOn)` returns a permutation of its input in ascending creation time |
| `Policy.IsAdminCaller` | API/Controllers/UsersController.cs:134-141 | The admin check passes iff the caller's claim, compared exactly, names an admin row; an anonymous caller never passes |
| `Policy.MutationGate` | API/Controllers/UsersController.cs:281-298 | An unresolved caller gets `PleaseSignIn`; an admin passes for any target; a non-admin gets `AccountBlocked` on their own revoked row, `InsufficientRights` on another row, and passes on their own active row |
| `Policy.MutationGatePasses` | API/Controllers/UsersController.cs:365-382 | The update check passes iff the caller is an admin, or is active and names their own row |
| `Policy.RefusesAdminFlag` | API/Controllers/UsersController.cs:29-52 | `admin = true` is refused iff the caller is anonymous or their lowercased claim names a non-admin; a claim naming no row is never refused |
| `Policy.LoginProfile` | API/Controllers/UsersController.cs:116-126 | The login profile carries the row's key, login and admin flag and the issued token; its gender is the row's `Gender.ToString()`, never the literal `"Gender"` registration answers with |
| `Policy.Login` | API/Controllers/UsersController.cs:103-128 | Unknown login gives Unauthorized; a revoked row gives BadRequest even with the right password; a wrong password gives Unauthorized; otherwise Ok with that row's profile and token |
| `Policy.YearsByMonth` | API/Controllers/UsersController.cs:148-150 | The age counted by month: the largest number of years whose anniversary month is at or before today's year and month |
| `Policy.OlderThan` | API/Controllers/UsersController.cs:147 | A row without a birthday never passes the age filter (`Birthday.HasValue`); `Policy.OlderThanByMonth` characterises the rows that do |
| `Policy.OlderThanByMonth` | API/Controllers/UsersController.cs:145-152 | A row passes the age filter iff it has a birthday at least `age + 1` years back, counted by year and month |
| `Policy.OlderThanIgnoresDays` | API/Controllers/UsersController.cs:148-151 | The days of the month of the birthday and of today do not affect the age filter |
| `Policy.GetUsersOlderThan` | API/Controllers/UsersController.cs:132-155 | A non-admin gets Unauthorized; an admin gets exactly the rows that pass the age filter, each once |
| `Policy.GetUsersByLogin` | API/Controllers/UsersController.cs:159-184 | A non-admin gets Unauthorized; a missing login gives BadRequest; otherwise name, gender text, birthday, and `Active` iff `RevokedOn` is empty |
| `Policy.GetActiveUsers` | API/Controllers/UsersController.cs:188-205 | A non-admin gets Unauthorized; an admin gets exactly the unrevoked rows, each once, in ascending creation time |
| `Controller.UsersController.constructor` | API/Controllers/UsersController.cs:19-23 | The controller holds the given data context and token service |
| `Controller.UsersController.NewUser` | API/Controllers/UsersController.cs:62-78 | The registered row has the given key, the lowercased login (no upper-case letter), no revocation, `CreatedOn = ModifiedOn = now` and `CreatedBy = ModifiedBy = stamp`, and is well formed when the body passed validation |
| `Controller.UsersController.Register` | API/Controllers/UsersController.cs:27-99 | Refuses the admin flag per the rule above and a lowercased login already stored, both with no write; otherwise appends exactly one row (lowercased login, no revocation, stamped with the creator's claim if it resolved, else the new login) and keeps the invariant |
| `Controller.UsersController.DeleteUser` | API/Controllers/UsersController.cs:208-243 | Admin only; missing target gives BadRequest; a soft delete refuses a revoked row and otherwise revokes it by the caller at `now`; a hard delete removes the row in either state; nothing else changes |
| `Controller.UsersController.UpdateUnblockUser` | API/Controllers/UsersController.cs:247-275 | Admin only; missing target gives BadRequest; refuses unless both revocation fields are set, then clears both and nothing else |
| `Controller.UsersController.UpdateUserFields` | API/Controllers/UsersController.cs:279-319 | After the update check and target lookup, changes exactly name, birthday, gender, `ModifiedBy` (the caller) and `ModifiedOn` |
| `Controller.UsersController.UpdatePassword` | API/Controllers/UsersController.cs:322-360 | After the update check and target lookup, changes exactly the password, `ModifiedBy` (the caller) and `ModifiedOn` |
| `Controller.UsersController.UpdateLogin` | API/Controllers/UsersController.cs:363-407 | After the update check and target lookup, refuses a new login any row holds (the target's own included); otherwise sets login and `ModifiedBy` to the new login, keeping logins unique |
| `Properties.LoginAfterSoftDelete` | API/Controllers/UsersController.cs:110-111 | After a soft delete, logging in with the row's own password gives BadRequest(UserWasDeleted) |
| `Properties.LoginAfterUnblock` | API/Controllers/UsersController.cs:263-267 | After an unblock, logging in with the row's password succeeds with that row's profile |
| `Properties.LoginAfterRegister` | API/Controllers/UsersController.cs:62-80 | A row added with a fresh login logs in with its stored login and password |
| `Properties.LoginAfterRename` | API/Controllers/UsersController.cs:397-399 | After a rename the new login opens the account with the old password, and the old login names no row |
| `Properties.AdminRowNeedsAdminOrUnknownCreator` | API/Controllers/UsersController.cs:33-45 | A registration that keeps `admin = true` has a creator claim that names an admin row or names no row at all |
| `Properties.NonAdminCannotCreateAdmin` | API/Controllers/UsersController.cs:42-51 | An anonymous caller, or one naming a non-admin row, is always refused the admin flag |
| `Properties.CaseVariantsCoexist` | API/Controllers/UsersController.cs:391-397 | Login uniqueness is case-sensitive: `Alice` and `alice` can be stored side by side |
| `Scenario.AccountLifecycle` | API/Controllers/UsersController.cs:27-275 | Anonymous admin registration refused; `alice` registers; wrong password refused; soft delete blocks her login; unblock succeeds once, a second unblock is refused, she logs in again; `ALICE` collides with her |
| `Scenario.RenameLifecycle` | API/Controllers/UsersController.cs:363-407 | `alice` renames herself to `Alice`, stamped by the new login; renaming to her current login is refused; a new `alice` can then register |

## Left out

- Token issuing (API/Services/TokenService.cs) is a parameter `User -> string`. JWT layout, signing and expiry are not modelled.
- The claim extraction (API/Extensions/ClaimsHelperExtensions.cs) is the `actor` parameter. Whether a token is genuine and unexpired is not modelled.
- API/Program.cs, the migrations and Swagger are plumbing and are not modelled. HTTP status codes and message texts are reduced to the response kind and one `Reason` per distinct message.
- The `SaveChangesAsync() > 0` failure branches are a database outcome and are left out. Every write in the model succeeds.
- `async`/`await` and concurrent requests are left out. Each action is atomic, so two renames or registrations racing past the pre-check are not modelled.
- A tracked entity whose fields are assigned is modelled as replacing that row's value in the sequence. The table is one sequence of values, so there is no aliasing.
- `Controller.UsersController.Register`: `Guid.NewGuid()` is the parameter `newId`, required to be a key the table does not hold. Registration reads `DateTime.UtcNow` twice; the model uses one `now` for both `CreatedOn` and `ModifiedOn`.
- `UsersTable.ToLower`: lowercases ASCII `A`-`Z` only. It does not model the culture-sensitive Unicode lowering .NET applies to a non-ASCII creator claim. Stored logins are always ASCII letters and digits.
- Request-body fields are non-null strings. A null field fails `[Required]` before any action runs, so nulls never reach the controller.
- The login request body (`LoginDto`) is not part of this model. Its fields carry no validation in the model.
- `Policy.GetUsersOlderThan`: states which rows are listed, not in which order. The query has no `OrderBy`, and the database's row order is unspecified.
- `Policy.GetActiveUsers`: when two rows have equal creation times, their order is not stated, as in SQL `ORDER BY`.
- `DateTime` keeps year, month, day and time of day as integers. No calendar arithmetic or range checks are done, and integer overflow is not modelled.
