# Provisioning connector over a relational store (Dafny model)

This project models the decision logic of `ConnectorDb`, the connector that a provisioning
framework calls to create users, read and batch-update their properties, and grant, revoke and
read permissions in a PostgreSQL store. The store is a class, `Connector.ConnectorDb`, with one
field per table. Each field holds a sequence of rows:

- `userTable`: the `"User"` table
- `users`: the `Users` table
- `passwords`: `Passwords`
- `properties`: the `Properties` catalog
- `userProperties`: `UserProperties`
- `permissions`: the `Permissions` catalog
- `userRequestRight`: the grant link table `UserRequestRight`

Every public operation of the connector is a method on that class. The method runs the same
existence checks, in the same order, as the C# method, and then changes the same tables. Each
method's frame (`modifies this\`field`) names exactly the tables the C# method writes.

The SQL statements are pure functions over rows. They live in the modules `Existence`
(`COUNT(*) ... > 0` checks), `Grants` (grant rows, deletes, the grant-reading join) and
`PropertySync` (the property-reading join and the blind `UPDATE`). The lemmas about those
functions state what the operations mean. The module `Scenarios` holds client programs that
walk through call sequences, using only the methods' contracts.

The model keeps the source's inconsistencies on purpose:

- The connector's own `CreateUser(UserToCreate)` writes `"User"`, but every existence check
  reads `Users`.
- `IsUserExists` filters on the `user_login` column, while the other checks filter on `login`.
  Rows inserted by `CreateUser` leave `user_login` NULL (`None`).
- `UserProperties` is read by joining on `property_id`, but updated by filtering on
  `property_name`.
- Grant rows are plain inserts, so duplicate rows can arise.

The logger is optional in the source (`Logger?.Log`). Each method returns the sequence of
abstract log events it would send to the logger, without the message text.

Two parts of the store's behaviour are parameters: store failure and result order.

- `UpdateUserProperties` takes `storeRejects: Option<nat>`, the batch position whose `UPDATE`
  the store rejects. This is the only store failure that is modelled, and it shows the
  transaction's all-or-nothing commit.
- The joins return rows in nested-loop order: rows of the left table in table order, then the
  matching catalog rows in catalog order. SQL promises no order.

### Where the design description and the code disagree

The model follows the code in each case.

- The description asks for one unified user table. The code writes `"User"` in one overload and
  `Users` in the other, so the model keeps both tables.
- The description says that after creating a user, `userExists` on that login is true. In the
  code this does not hold, for either overload. One overload writes a different table. The other
  leaves `user_login` NULL, and `IsUserExists` reads that column.
  `Scenarios.CreateTwice` proves that `IsUserExists` still returns false after a successful
  `CreateUser`. What holds instead is the `login`-based check that the other operations use.
- The description says creation rejects an empty login and logs on success. Only the local
  overload validates its argument. The framework's overload has no argument check and logs
  nothing on success. A null user makes it throw inside its `try` block, and the `catch` block
  logs and rethrows. The model returns `Fail(NullReference)`.
- The description proposes a strict mode for the blind update. The code has only the lenient
  behaviour: a name with no row changes nothing, silently. The model has only that behaviour.

## Model

| member | source | states |
|---|---|---|
| `Existence.CountWherePositive` | Task.Connector/ConnectorDb.cs:345-349 | a `COUNT(*)` is positive exactly when some row matches the filter, so `> 0` is an existence test in both directions |
| `Existence.HasLoginIff` | Task.Connector/ConnectorDb.cs:345-349 | the `login` check with `COUNT(*) > 0` holds iff some `Users` row has that login |
| `Existence.PermissionExistsIff` | Task.Connector/ConnectorDb.cs:362-366 | the permission check holds iff some `Permissions` row has that id |
| `Existence.PermissionCountAtMostOne` | Task.Connector/ConnectorDb.cs:480-484 | under the catalog's primary key, a grant row's id matches at most one `Permissions` row in the join |
| `Connector.ConnectorDb.CreateLocalUser` | Task.Connector/ConnectorDb.cs:71-116 | null user: `NullArgument`; null or empty login: `EmptyLogin`; both before any store access, with `"User"` unchanged and nothing logged; otherwise exactly one `"User"` row with the record's fields is appended and the success event is logged; the frame allows no other table to change |
| `Connector.ConnectorDb.CreateUser` | Task.Connector/ConnectorDb.cs:509-567 | null user: `NullReference`, with the catch-block log; a login already in `Users` (by `login`): `AlreadyExists`, with both tables unchanged and two log events; a fresh login: exactly one `Users` row and one `Passwords` row carrying it are appended, after which the `login` check holds and the login has exactly one `Users` row; the `user_login` count that `IsUserExists` reads never changes |
| `Connector.ConnectorDb.IsUserExists` | Task.Connector/ConnectorDb.cs:210-242 | true iff at least one `Users` row has `user_login` equal to the login; store unchanged |
| `Connector.ConnectorDb.GetAllProperties` | Task.Connector/ConnectorDb.cs:119-156 | returns one `(name, description)` per catalog row, same length, same order |
| `Connector.ConnectorDb.GetUserProperties` | Task.Connector/ConnectorDb.cs:160-207 | returns the rows of the `UserProperties`/`Properties` join for the login, with no existence check; a login without rows gets the empty sequence |
| `Connector.ConnectorDb.UpdateUserProperties` | Task.Connector/ConnectorDb.cs:245-286 | all or nothing: if the store rejects any update of the batch, the call fails with `StoreError` and `UserProperties` is exactly as before; otherwise `UserProperties` becomes `UpdateAll` of the batch; no other table can change |
| `Connector.ConnectorDb.GetAllPermissions` | Task.Connector/ConnectorDb.cs:289-331 | returns one `Permission(id, name, description)` per catalog row, same length, same order |
| `Connector.ConnectorDb.AddUserPermissions` | Task.Connector/ConnectorDb.cs:334-391 | a login not in `Users`: fails with `UserNotFound` and the grant table is unchanged; otherwise succeeds, appends exactly `Granted(login, ids)` after the existing rows, and logs exactly the skipped ids |
| `Connector.ConnectorDb.RemoveUserPermissions` | Task.Connector/ConnectorDb.cs:394-451 | a login not in `Users`: fails with `UserNotFound` and the grant table is unchanged; otherwise succeeds, the grant table becomes the old rows minus every `(login, id)` row whose id is in the batch and in the catalog, and the skipped ids are logged |
| `Connector.ConnectorDb.GetUserPermissions` | Task.Connector/ConnectorDb.cs:454-506 | a login not in `Users`: fails with `UserNotFound`; otherwise returns the grant/permission join for the login, and under the catalog's primary key exactly one `right_id` per grant row of the login whose id is in the catalog, in table order; store unchanged |
| `Grants.GrantedCount` | Task.Connector/ConnectorDb.cs:359-383 | the appended rows hold `(login, id)` once per occurrence of a known id in the batch (so duplicates are possible), and no row with another login or an unknown id |
| `Grants.GrantedSkippedPartition` | Task.Connector/ConnectorDb.cs:359-383 | each batch id is either granted or logged as skipped: the two counts add up to the batch length |
| `Grants.SkippedMember` | Task.Connector/ConnectorDb.cs:368-372 | an id is logged as missing exactly when it is in the batch and not in `Permissions` |
| `Grants.KeptCount` | Task.Connector/ConnectorDb.cs:419-443 | after the deletes, no copy of a targeted `(login, id)` row remains, and every other row (other users, unknown or untargeted ids) keeps its number of copies |
| `Grants.KeptCompose` | Task.Connector/ConnectorDb.cs:436-441 | two successive `DELETE`s for one login equal one delete of the union of their ids |
| `Grants.MatchingIdsUnique` | Task.Connector/ConnectorDb.cs:480-484 | under the catalog's primary key, the join yields a grant row's id once if it is in the catalog, and nothing otherwise |
| `Grants.UserGrantIdsUnique` | Task.Connector/ConnectorDb.cs:480-494 | under the catalog's primary key, the join equals the reference reading `OwnedIds`: the `right_id` of each of the login's grant rows whose id is in the catalog, in order |
| `Grants.UserGrantIdsMember` | Task.Connector/ConnectorDb.cs:480-494 | an id is read back iff the login has a grant row for it and the catalog has that id |
| `Grants.OwnedIdsCount` | Task.Connector/ConnectorDb.cs:480-494 | the reference reading holds each known id as many times as the login has grant rows for it (one per row), and unknown ids not at all |
| `PropertySync.PropertyMatchesMember` | Task.Connector/ConnectorDb.cs:174-178 | for one `UserProperties` row, the join yields `(p.name, up.value)` for exactly the catalog rows whose id is the row's property id |
| `PropertySync.UserPropertyValuesMember` | Task.Connector/ConnectorDb.cs:174-194 | a `(name, value)` pair is read back iff the login has a `UserProperties` row with that value whose property id is in the catalog under that name |
| `PropertySync.UserPropertyValuesNoRows` | Task.Connector/ConnectorDb.cs:174-206 | a login with no `UserProperties` rows reads back the empty sequence, not an error |
| `PropertySync.LastValueIsLast` | Task.Connector/ConnectorDb.cs:259-273 | `LastValue` is none iff no batch entry has the name; otherwise it is the value of an entry with that name after which no entry has that name |
| `PropertySync.UpdateAllAt` | Task.Connector/ConnectorDb.cs:257-276 | the batch update keeps the row count, and each row changes exactly as `Updated` says: only a row of the login whose name is in the batch changes, and it takes the value of the last entry with that name |
| `PropertySync.UpdateAllKeepsKeys` | Task.Connector/ConnectorDb.cs:262-271 | the blind update creates no rows, deletes none and changes no key column: the sequence of `(login, property id, property name)` keys is unchanged |
| `PropertySync.UpdateAllUnmatched` | Task.Connector/ConnectorDb.cs:262-271 | a batch in which no name has a row for the login leaves the table unchanged, with no error |
| `Scenarios.CreateTwice` | Task.Connector/ConnectorDb.cs:509-567 | creating the same user twice on an empty store: the first call succeeds, the second fails with `AlreadyExists`, `Users` keeps one row for the login, and `IsUserExists` still answers false |
| `Scenarios.GrantKnownAndUnknown` | Task.Connector/ConnectorDb.cs:359-383 | granting `[validId, bogusId]` to an existing user succeeds and logs only `bogusId`; reading the grants back shows `validId` and not `bogusId` |
| `Scenarios.RevokeKnown` | Task.Connector/ConnectorDb.cs:419-443 | after revoking a known id from an existing user, reading the grants back no longer shows it |
| `Scenarios.AliceWalkThrough` | Task.Connector/ConnectorDb.cs:334-506 | catalog p1 (Read) and p2 (Write), user alice with no grants: granting p1 and p3 logs p3; reading then gives `["p1"]`; after revoking p1, reading gives `[]` |
| `Scenarios.UnknownLogin` | Task.Connector/ConnectorDb.cs:160-206 | for a login with no rows, reading properties returns `[]`, while reading permissions (lines 465-476) fails with `UserNotFound` |
| `Scenarios.RejectedBatch` | Task.Connector/ConnectorDb.cs:257-283 | if the store rejects one update of the batch, the call fails and the user's properties read back exactly as before the call |

## Left out

- `StartUp`, the long-lived `_connection`, the hard-coded connection strings, `Open()` and
  `using` disposal: these are connection handling for a database library not shown here. The
  store is the object's fields.
- The SQL text, the reader's ordinals and the column type lookups: each query is a function over
  rows instead.
- `ConsoleLogger` and the message strings: output formatting only. Methods return abstract log
  events and do not distinguish a present logger from an absent one.
- The `IConnector.Logger` property that throws `NotImplementedException`: an interface shim with
  no logic.
- Store failures other than a rejected batch update: connection loss, a failing query in a read
  path, a failing insert between the `Users` and `Passwords` inserts of `CreateUser`, and a
  failure partway through a grant or revoke loop (with the partial success it would leave).
  Rollback by `BeginTransaction`/`Commit` belongs to the database. Only its all-or-nothing
  outcome is modelled, on `UpdateUserProperties`.
- The "creation failed" branch of the local `CreateUser` overload: a successful single-row
  `INSERT` always reports one affected row, so that branch is only reachable through a store
  behaviour that is not modelled.
- Store-side constraints: primary keys or uniqueness on `"User"`, `Users`, `Passwords` or
  `UserRequestRight` are not visible in the source. Duplicate inserts succeed in the model.
- Null string fields other than the local overload's login, and a null login in the framework's
  overload: strings are non-null `seq<char>`.
- `user_login` is modelled as a nullable `Users` column that this core never writes. If the
  real table has no such column, `IsUserExists` fails with a store error instead, and that
  failure is not modelled.
- Connector.ConnectorDb.GetUserPermissions: "one id per grant row" is stated only when the
  `Permissions` ids are unique (the catalog's primary key), via `Grants.UserGrantIdsUnique`.
  Without that premise the contract gives only the general join, which repeats an id once per
  catalog row that has it.
- Races between an existence check and the following write under concurrent callers: the code
  does not handle concurrency.
