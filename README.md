# User moderation service: a Dafny model

This project models the moderation core of a small ASP.NET Core application
(`task4`): the `UserService` class. An operator uses it to list accounts, and
to block, unblock or delete a batch of accounts by id. The service also
records visit dates and answers whether a user name is blocked. When a
block or delete batch targets the operator's own signed-in account, the
service signs the operator out.

The model is imperative, as the source is. `Services.UserService` is a
class whose fields stand for the state the C# code changes:

- `users`: the tracked Users table, a map from id to `User`, with pending
  changes applied;
- `order`: the order in which the store returns the rows, which
  `GetUsersInList` returns; the model keeps it fixed across updates (see
  "## Left out");
- `saved` and `commits`: the table as of the last `SaveChanges` and the
  number of commits issued; between calls `saved` equals `users`, so the
  lookups, which read `users`, see the committed rows;
- `signedIn`: whether the requester's session is still signed in.

The requester's `ClaimsPrincipal` is a value (`Session.Principal`): an
optional identity with an authenticated flag and an optional name. It is
passed to each call, as in the source.

Each batch method loops over its ids, keeps a loop invariant relating the
table to a specification function of the ids processed so far, and
commits once after the loop. Each loop has a `modifies` frame that leaves
out `saved` and `commits`, so the loop itself cannot commit. The
specification functions (`Flagged`, `SelfTargeted`, `Filter`,
`FirstWithName`, `Rows`) come with lemmas that say what they mean.

Files:
- `wrappers.dfy`: `Option`, which stands for a nullable lookup result.
- `user_model.dfy`: the `User` record (`Areas/Identity/Data/UserModel.cs`).
  Timestamps are integers.
- `session.dfy`: the requester's principal and the self-logout condition.
- `identity_store.dfy`: the identity store's table as values. It holds the
  id lookup and the user-name lookup, the listing and row removal. It also
  states that user names are unique.
- `user_service.dfy`: the service class, its specification functions and
  lemmas, and three client methods for sample scenarios.

Lookups by user name go through the framework's key normalizer and then
the database's comparison; the service is given the composite when it is
made (the `normalize` field). The default normalizer upper-cases, so
"alice" finds the account named "Alice". The
self-logout guard, on the other hand, compares the requester's name with
the account's user name exactly.

Two points worth stating about the code:
- A natural round-trip law, that blocking and then unblocking restores an
  account's previous `isBlocked` value, does not hold: the code always sets
  `false`, so the round trip restores only accounts that were not blocked
  before. `Services.BlockThenUnblock` states exactly that.
- Batches are `string[]` in the code, so the model takes a `seq<string>`
  and allows repeated ids.

## Model

| member | source | states |
|---|---|---|
| `Services.UserService.constructor` | Services/UserService.cs:28-34 | the service starts over a well-formed committed table (unique normalized names), with the given normalizer, no commits and the given sign-in state |
| `Services.UserService.GetUsersInList` | Services/UserService.cs:36-39 | returns every account in the store, each once (its length is the table's size), in the model's row order, with no side effect |
| `Services.UserService.FindByName` | Services/UserService.cs:77 | the user-name lookup returns an id whose account's name normalizes like the one asked for, or none when no account's does |
| `Services.UserService.IsUserBlocked` | Services/UserService.cs:75-79 | true exactly when some account whose name normalizes like `username` is blocked; an unknown name gives false; reads only |
| `Services.UserService.SaveChanges` | Services/UserService.cs:50 | a commit makes the tracked table the committed one and counts one commit |
| `Services.UserService.LogoutInactiveUserIfHeOnline` | Services/UserService.cs:105-111 | signs the requester out exactly when their identity is present, authenticated and named `username`; otherwise changes nothing |
| `Services.UserService.BlockUsersById` | Services/UserService.cs:41-51 | every resolving id ends blocked, unknown ids are skipped, other accounts and other fields are unchanged; the requester is signed out exactly when a resolved target is their own account; one commit after the loop |
| `Services.UserService.UnblockUsersById` | Services/UserService.cs:53-62 | every resolving id ends unblocked, unknown ids are skipped, nothing else changes; the sign-in state is untouched; one commit after the loop |
| `Services.UserService.DeleteUsersById` | Services/UserService.cs:64-73 | requires every id to resolve; afterwards the table is the old one minus the batch's ids, the model's row order is the old one filtered by them (kept in order, by `FilterKeepsOrder`), the self-logout rule of block applies, and there is one commit after the loop |
| `Services.UserService.UpdateLastVisitDate` | Services/UserService.cs:81-87 | for a name that normalizes like an account's, sets that account's visit date and commits once; for an unknown one, changes nothing and does not commit |
| `Services.Flagged` | Services/UserService.cs:43-47 | the table after a block or unblock keeps its ids; resolved batch ids get the flag; only `isBlocked` changes; other accounts are unchanged |
| `Services.FlaggedKeepsUniqueNames` | Services/UserService.cs:47 | blocking or unblocking keeps normalized user names unique |
| `Services.FlaggedSnoc` | Services/UserService.cs:43-49 | one more loop iteration flags that id, if it resolves, on top of the table so far |
| `Services.SelfTargetedExists` | Services/UserService.cs:48 | the batch guard fires exactly when some id of the batch resolves to an account whose name passes the self-logout check |
| `Services.SelfTargetedIffOwnAccount` | Services/UserService.cs:107 | with unique normalized names, a batch signs the requester out exactly when they are authenticated under a name, the account that name looks up is in the batch, and that account's user name equals the name exactly |
| `Services.OtherAccountsKeepSession` | Services/UserService.cs:48 | a batch that targets only other accounts never signs the requester out |
| `Services.UnknownBatchChangesNothing` | Services/UserService.cs:45-46 | a batch of unknown ids leaves the table unchanged and keeps the session |
| `Services.BlockThenUnblock` | Services/UserService.cs:47 | block then unblock equals unblock; it restores an account exactly when that account was not targeted or was not blocked before |
| `Services.BlockScenario` | Services/UserService.cs:41-51 | blocking A and an unknown id, as a requester other than A: A is blocked, B is unchanged, the session stays, one commit |
| `Services.VisitTwice` | Services/UserService.cs:81-87 | two visit updates for a name that normalizes like an existing account's leave that account with the second date, with two commits |
| `Services.DeleteIsFinal` | Services/UserService.cs:64-73 | after a delete, no block, unblock or visit update brings a deleted id back |
| `Services.DeleteStep` | Services/UserService.cs:66-70 | one more iteration of the delete loop removes that id from the table and the row order left so far, and adds its self-logout check to the batch's |
| `Services.DeletedTable` | Services/UserService.cs:66-72 | the table left by the delete loop is well formed and holds none of the batch's ids |
| `IdentityStore.FirstWithName` | Services/UserService.cs:83 | the user-name lookup finds an id among the rows whose name normalizes like the one asked for, or reports that no row's does |
| `IdentityStore.FirstWithNameUnique` | Services/UserService.cs:77 | with unique normalized names, looking up any spelling that normalizes like an account's name finds that account |
| `IdentityStore.LookupIgnoresSpelling` | Services/UserService.cs:83 | two names that normalize alike look up the same row |
| `IdentityStore.Rows` | Services/UserService.cs:38 | the listing has one record per row, in the model's row order |
| `IdentityStore.TableSize` | Services/UserService.cs:38 | a well-formed table has as many accounts as its row order has ids |
| `IdentityStore.Filter` | Services/UserService.cs:69 | removing rows keeps exactly the ids not removed, without repetitions |
| `IdentityStore.FilterKeepsOrder` | Services/UserService.cs:69 | removing rows keeps the surviving rows in the model's row order |
| `IdentityStore.FilterTwice` | Services/UserService.cs:66-70 | removing rows one id after another is removing all of them at once |
| `IdentityStore.RemoveRowsWellFormed` | Services/UserService.cs:69 | removing rows leaves a well-formed table with unique names |

## Left out

- `AddClaims` (both overloads) and `RemoveClaims`, Services/UserService.cs:89-103: they only forward to the framework's claim storage, which is not part of this model.
- Asynchrony: `.Result`, `.Wait()` and the un-awaited `SignOutAsync` are modelled as immediate, synchronous steps. The sign-out is a flag change.
- Services.UserService.DeleteUsersById: an id that does not resolve is excluded by a precondition. The source uses the lookup result without a null check and fails at run time on such an id.
- Services.UserService.DeleteUsersById: a removed account stays tracked until the commit, so a repeated id in one batch resolves again. The model looks a repeated id up in the table as it was at the start of the batch. Removing it a second time changes nothing.
- Failures of the store or of the commit are framework exceptions and are not modelled.
- Concurrent batches on the same ids: the source has no coordination, and the model covers one call at a time.
- Uniqueness of normalized user names is assumed as part of the table's invariant. The framework's user manager enforces it; the service code does not.
- The key normalizer is a parameter of the model. It stands for the framework's normalizer (Unicode normalization, then culture-invariant upper-casing) followed by the database's comparison of the normalized column; under SQL Server that comparison also ignores trailing blanks. Its concrete behaviour is framework and database code and is not modelled.
- Services.UserService.BlockUsersById: ids are compared exactly. The source resolves each id with a database query (`WHERE Id = @id` on SQL Server), which ignores trailing blanks and, under the default case-insensitive collation, case; so an id such as "abc " that the source resolves to "abc" is skipped by the model. Ids normally come from the rendered listing, where they are exact.
- Services.UserService.UnblockUsersById: ids are compared exactly, while the source's database query ignores trailing blanks and, by default, case, as for block.
- Services.UserService.DeleteUsersById: ids are compared exactly, both in the precondition and in the removal, while the source's `FindByIdAsync` query ignores trailing blanks and, by default, case; a padded or differently cased id that the source deletes is excluded by the model's precondition.
- A null `UserName` is not modelled; user names are always strings.
- `DateTime` values are integers; no calendar arithmetic is involved.
- The row order is kept for the tracked table only. The committed snapshot `saved` is a map.
- `order` stands for the order the store returns rows in. The source's listing query has no ORDER BY, so the source fixes no order. The model assumes that the store keeps that order across updates and drops deleted rows from it. The order facts in the ensures of `GetUsersInList`, `BlockUsersById`, `UnblockUsersById`, `DeleteUsersById` and `UpdateLastVisitDate` rest on that assumption.
- Logging, the HTTP controller (`Controllers/HomeController.cs`), dependency-injection setup (`Program.cs`) and column mapping (`Areas/Identity/Data/ApplicationDbContext.cs`) are not part of this model.
