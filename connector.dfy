/**
 * The provisioning connector over an abstract relational store. Each table is a
 * field holding its rows; each public operation of the connector is a method
 * that checks existence, then inserts, deletes, updates or reads rows.
 */
module Connector {
  import opened Rows
  import opened Existence
  import opened Grants
  import opened PropertySync

  class ConnectorDb {
    /** The `"User"` table. */
    var userTable: seq<UserRow>
    /** The `Users` table, which every existence check reads. */
    var users: seq<UsersRow>
    var passwords: seq<PasswordRow>
    var properties: seq<PropertyRow>
    var userProperties: seq<UserPropertyRow>
    var permissions: seq<PermissionRow>
    /** The grant link table; duplicate rows are possible. */
    var userRequestRight: seq<GrantRow>

    /** A connector over a store holding these tables. */
    constructor (
      userTable: seq<UserRow>,
      users: seq<UsersRow>,
      passwords: seq<PasswordRow>,
      properties: seq<PropertyRow>,
      userProperties: seq<UserPropertyRow>,
      permissions: seq<PermissionRow>,
      userRequestRight: seq<GrantRow>)
      ensures this.userTable == userTable && this.users == users && this.passwords == passwords
      ensures this.properties == properties && this.userProperties == userProperties
      ensures this.permissions == permissions && this.userRequestRight == userRequestRight
    {
      this.userTable := userTable;
      this.users := users;
      this.passwords := passwords;
      this.properties := properties;
      this.userProperties := userProperties;
      this.permissions := permissions;
      this.userRequestRight := userRequestRight;
    }

    /**
     * The connector's own `CreateUser(UserToCreate)` overload: argument checks before any
     * store access, then one row into `"User"` and nothing else; no duplicate check.
     */
    method CreateLocalUser(user: Option<LocalUserToCreate>) returns (outcome: Outcome, log: seq<LogEvent>)
      modifies this`userTable
      ensures user.None? ==> outcome == Fail(NullArgument)
      ensures user.Some? && user.value.login in {None, Some("")} ==> outcome == Fail(EmptyLogin)
      ensures outcome.Fail? ==> userTable == old(userTable) && log == []
      ensures user.Some? && user.value.login.Some? && user.value.login.value != "" ==>
        var u := user.value;
        && outcome == Pass
        && log == [UserCreated(u.login.value)]
        && userTable == old(userTable) + [UserRow(u.login.value, u.fullName, u.phoneNumber, u.isLead)]
    {
      log := [];
      if user.None? {
        return Fail(NullArgument), log;
      }
      var u := user.value;
      if u.login.None? || u.login.value == "" {
        return Fail(EmptyLogin), log;
      }
      // The INSERT affects one row, so the "created successfully" branch is taken.
      userTable := userTable + [UserRow(u.login.value, u.fullName, u.phoneNumber, u.isLead)];
      outcome, log := Pass, [UserCreated(u.login.value)];
    }

    /**
     * The framework's `CreateUser(UserToCreate)` overload: reject a login already in `Users`,
     * otherwise insert one `Users` row and one `Passwords` row for it. Inserted `Users` rows
     * leave `user_login` NULL, so `IsUserExists` never changes its answer.
     */
    method CreateUser(user: Option<UserToCreate>) returns (outcome: Outcome, log: seq<LogEvent>)
      modifies this`users, this`passwords
      ensures user.None? ==> outcome == Fail(NullReference) && log == [OperationError(CreatingUser)]
      ensures user.Some? && HasLogin(old(users), user.value.login) ==>
        && outcome == Fail(AlreadyExists(user.value.login))
        && log == [UserAlreadyExistsLogged(user.value.login), OperationError(CreatingUser)]
      ensures outcome.Fail? ==> users == old(users) && passwords == old(passwords)
      ensures user.Some? && !HasLogin(old(users), user.value.login) ==>
        var u := user.value;
        && outcome == Pass
        && log == []
        && users == old(users) + [UsersRow(u.login, None, u.lastName, u.firstName, u.middleName, u.telephoneNumber, u.isLead)]
        && passwords == old(passwords) + [PasswordRow(u.login, u.passwordHash)]
        && HasLogin(users, u.login)
        && LoginCount(users, u.login) == 1
      ensures forall login :: UserLoginCount(users, login) == UserLoginCount(old(users), login)
    {
      if user.None? {
        // `user.Login` throws inside the try block; the catch logs and rethrows.
        return Fail(NullReference), [OperationError(CreatingUser)];
      }
      var u := user.value;
      if LoginCount(users, u.login) > 0 {
        return Fail(AlreadyExists(u.login)), [UserAlreadyExistsLogged(u.login), OperationError(CreatingUser)];
      }
      var row := UsersRow(u.login, None, u.lastName, u.firstName, u.middleName, u.telephoneNumber, u.isLead);
      CountWhereAppend(users, row, (r: UsersRow) => r.login == u.login);
      forall login | true
        ensures UserLoginCount(users + [row], login) == UserLoginCount(users, login)
      {
        CountWhereAppend(users, row, (r: UsersRow) => r.userLogin == Some(login));
      }
      users := users + [row];
      passwords := passwords + [PasswordRow(u.login, u.passwordHash)];
      outcome, log := Pass, [];
    }

    /** `IsUserExists`: true iff some `Users` row has `user_login` equal to the login. */
    method IsUserExists(userLogin: string) returns (found: bool)
      ensures found <==> exists i :: 0 <= i < |users| && users[i].userLogin == Some(userLogin)
    {
      var count := UserLoginCount(users, userLogin);
      CountWherePositive(users, (r: UsersRow) => r.userLogin == Some(userLogin));
      found := count > 0;
    }

    /** `GetAllProperties`: every catalog row as a `(name, description)` pair, in store order. */
    method GetAllProperties() returns (result: seq<Property>)
      ensures |result| == |properties|
      ensures forall i :: 0 <= i < |properties| ==> result[i] == Property(properties[i].name, properties[i].description)
    {
      result := [];
      var i := 0;
      while i < |properties|
        invariant 0 <= i <= |properties|
        invariant |result| == i
        invariant forall k :: 0 <= k < i ==> result[k] == Property(properties[k].name, properties[k].description)
      {
        result := result + [Property(properties[i].name, properties[i].description)];
        i := i + 1;
      }
    }

    /**
     * `GetUserProperties`: the rows of the join of `UserProperties` with the catalog for the
     * login. No existence check: a login without rows reads back the empty sequence.
     */
    method GetUserProperties(userLogin: string) returns (result: seq<UserProperty>)
      ensures result == UserPropertyValues(userProperties, properties, userLogin)
      ensures (forall i :: 0 <= i < |userProperties| ==> userProperties[i].userLogin != userLogin) ==> result == []
    {
      result := [];
      var i := 0;
      while i < |userProperties|
        invariant 0 <= i <= |userProperties|
        invariant result == UserPropertyValues(userProperties[..i], properties, userLogin)
      {
        var up := userProperties[i];
        if up.userLogin == userLogin {
          var j := 0;
          var before := result;
          while j < |properties|
            invariant 0 <= j <= |properties|
            invariant result == before + PropertyMatches(properties[..j], up)
          {
            if properties[j].id == up.propertyId {
              result := result + [UserProperty(properties[j].name, up.value)];
            }
            assert properties[..j + 1][..j] == properties[..j];
            j := j + 1;
          }
          assert properties[..j] == properties;
        }
        assert userProperties[..i + 1][..i] == userProperties[..i];
        i := i + 1;
      }
      assert userProperties[..i] == userProperties;
      if forall k :: 0 <= k < |userProperties| ==> userProperties[k].userLogin != userLogin {
        UserPropertyValuesNoRows(userProperties, properties, userLogin);
      }
    }

    /**
     * `UpdateUserProperties`: one transaction issuing, for each batch entry in order, a blind
     * update of the login's rows with that property name. `storeRejects` stands for the store
     * failing the update of that batch position; the transaction is then rolled back and the
     * table is as before. Otherwise the table becomes `UpdateAll` of the batch.
     */
    method UpdateUserProperties(batch: seq<UserProperty>, userLogin: string, storeRejects: Option<nat>)
      returns (outcome: Outcome, log: seq<LogEvent>)
      modifies this`userProperties
      ensures storeRejects.Some? && storeRejects.value < |batch| ==>
        && outcome == Fail(StoreError)
        && log == [OperationError(UpdatingProperties)]
        && userProperties == old(userProperties)
      ensures !(storeRejects.Some? && storeRejects.value < |batch|) ==>
        && outcome == Pass
        && log == []
        && userProperties == UpdateAll(old(userProperties), userLogin, batch)
    {
      // The transaction works on its own view of the table until it commits.
      var pending := userProperties;
      var i := 0;
      while i < |batch|
        invariant 0 <= i <= |batch|
        invariant !(storeRejects.Some? && storeRejects.value < i)
        invariant pending == UpdateAll(userProperties, userLogin, batch[..i])
      {
        if storeRejects == Some(i) {
          return Fail(StoreError), [OperationError(UpdatingProperties)];
        }
        assert batch[..i + 1][..i] == batch[..i];
        pending := ApplyUpdate(pending, userLogin, batch[i].name, batch[i].value);
        i := i + 1;
      }
      assert batch[..i] == batch;
      userProperties := pending;
      outcome, log := Pass, [];
    }

    /** `GetAllPermissions`: every catalog row, in store order. */
    method GetAllPermissions() returns (result: seq<Permission>)
      ensures |result| == |permissions|
      ensures forall i :: 0 <= i < |permissions| ==>
        result[i] == Permission(permissions[i].id, permissions[i].name, permissions[i].description)
    {
      result := [];
      var i := 0;
      while i < |permissions|
        invariant 0 <= i <= |permissions|
        invariant |result| == i
        invariant forall k :: 0 <= k < i ==>
          result[k] == Permission(permissions[k].id, permissions[k].name, permissions[k].description)
      {
        var p := permissions[i];
        result := result + [Permission(p.id, p.name, p.description)];
        i := i + 1;
      }
    }

    /**
     * `AddUserPermissions`: an unknown login fails before anything is written; otherwise each
     * id, in order, is either logged as unknown and skipped or appended as a grant row.
     */
    method AddUserPermissions(userLogin: string, rightIds: seq<string>) returns (outcome: Outcome, log: seq<LogEvent>)
      modifies this`userRequestRight
      ensures !HasLogin(users, userLogin) ==>
        && outcome == Fail(UserNotFound(userLogin))
        && log == [UserDoesNotExist(userLogin), OperationError(AddingPermissions)]
        && userRequestRight == old(userRequestRight)
      ensures HasLogin(users, userLogin) ==>
        && outcome == Pass
        && log == Skipped(rightIds, permissions)
        && userRequestRight == old(userRequestRight) + Granted(userLogin, rightIds, permissions)
    {
      if LoginCount(users, userLogin) == 0 {
        return Fail(UserNotFound(userLogin)), [UserDoesNotExist(userLogin), OperationError(AddingPermissions)];
      }
      outcome, log := Pass, [];
      var i := 0;
      while i < |rightIds|
        invariant 0 <= i <= |rightIds|
        invariant log == Skipped(rightIds[..i], permissions)
        invariant userRequestRight == old(userRequestRight) + Granted(userLogin, rightIds[..i], permissions)
      {
        var rightId := rightIds[i];
        assert rightIds[..i + 1][..i] == rightIds[..i];
        if PermissionCount(permissions, rightId) == 0 {
          log := log + [PermissionDoesNotExist(rightId)];
        } else {
          userRequestRight := userRequestRight + [GrantRow(userLogin, rightId)];
        }
        i := i + 1;
      }
      assert rightIds[..i] == rightIds;
    }

    /**
     * `RemoveUserPermissions`: an unknown login fails before anything is deleted; otherwise each
     * id, in order, is either logged as unknown and skipped or has all its grant rows for the
     * login deleted.
     */
    method RemoveUserPermissions(userLogin: string, rightIds: seq<string>) returns (outcome: Outcome, log: seq<LogEvent>)
      modifies this`userRequestRight
      ensures !HasLogin(users, userLogin) ==>
        && outcome == Fail(UserNotFound(userLogin))
        && log == [UserDoesNotExist(userLogin), OperationError(RemovingPermissions)]
        && userRequestRight == old(userRequestRight)
      ensures HasLogin(users, userLogin) ==>
        && outcome == Pass
        && log == Skipped(rightIds, permissions)
        && userRequestRight == Kept(old(userRequestRight), userLogin, KnownIds(rightIds, permissions))
    {
      if LoginCount(users, userLogin) == 0 {
        return Fail(UserNotFound(userLogin)), [UserDoesNotExist(userLogin), OperationError(RemovingPermissions)];
      }
      outcome, log := Pass, [];
      KeptNothing(userRequestRight, userLogin);
      assert KnownIds(rightIds[..0], permissions) == {};
      var i := 0;
      while i < |rightIds|
        invariant 0 <= i <= |rightIds|
        invariant log == Skipped(rightIds[..i], permissions)
        invariant userRequestRight == Kept(old(userRequestRight), userLogin, KnownIds(rightIds[..i], permissions))
      {
        var rightId := rightIds[i];
        assert rightIds[..i + 1] == rightIds[..i] + [rightId];
        if PermissionCount(permissions, rightId) == 0 {
          log := log + [PermissionDoesNotExist(rightId)];
          assert KnownIds(rightIds[..i + 1], permissions) == KnownIds(rightIds[..i], permissions);
        } else {
          KeptCompose(old(userRequestRight), userLogin, KnownIds(rightIds[..i], permissions), {rightId});
          userRequestRight := Kept(userRequestRight, userLogin, {rightId});
          assert KnownIds(rightIds[..i + 1], permissions) == KnownIds(rightIds[..i], permissions) + {rightId};
        }
        i := i + 1;
      }
      assert rightIds[..i] == rightIds;
    }

    /**
     * `GetUserPermissions`: an unknown login fails; otherwise the rows of the join of the
     * login's grant rows with the catalog. Nothing is written.
     */
    method GetUserPermissions(userLogin: string) returns (result: Result<seq<string>>, log: seq<LogEvent>)
      ensures !HasLogin(users, userLogin) ==>
        && result == Err(UserNotFound(userLogin))
        && log == [UserDoesNotExist(userLogin), OperationError(RetrievingPermissions)]
      ensures HasLogin(users, userLogin) ==>
        && result == Ok(UserGrantIds(userRequestRight, permissions, userLogin))
        && log == []
      ensures HasLogin(users, userLogin) && PermissionIdsUnique(permissions) ==>
        result == Ok(OwnedIds(userRequestRight, permissions, userLogin))
    {
      if LoginCount(users, userLogin) == 0 {
        return Err(UserNotFound(userLogin)), [UserDoesNotExist(userLogin), OperationError(RetrievingPermissions)];
      }
      var ids := [];
      var i := 0;
      while i < |userRequestRight|
        invariant 0 <= i <= |userRequestRight|
        invariant ids == UserGrantIds(userRequestRight[..i], permissions, userLogin)
      {
        var g := userRequestRight[i];
        if g.userLogin == userLogin {
          var j := 0;
          var before := ids;
          while j < |permissions|
            invariant 0 <= j <= |permissions|
            invariant ids == before + MatchingIds(permissions[..j], g.rightId)
          {
            if permissions[j].id == g.rightId {
              ids := ids + [permissions[j].id];
            }
            assert permissions[..j + 1][..j] == permissions[..j];
            j := j + 1;
          }
          assert permissions[..j] == permissions;
        }
        assert userRequestRight[..i + 1][..i] == userRequestRight[..i];
        i := i + 1;
      }
      assert userRequestRight[..i] == userRequestRight;
      if PermissionIdsUnique(permissions) {
        UserGrantIdsUnique(userRequestRight, permissions, userLogin);
      }
      result, log := Ok(ids), [];
    }
  }
}
