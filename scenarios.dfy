/**
 * Client programs that drive the connector through sequences of calls and state
 * what a caller can conclude from the operations' contracts alone.
 */
module Scenarios {
  import opened Rows
  import opened Existence
  import opened Grants
  import opened PropertySync
  import opened Connector

  /**
   * Creating the same user twice on an empty store: the first call succeeds, the second
   * fails with "already exists", and `Users` keeps exactly one row for the login. The
   * `user_login`-based `IsUserExists` still answers false after the first call.
   */
  method CreateTwice(u: UserToCreate) returns (first: Outcome, second: Outcome, loginRows: nat, userExists: bool)
    ensures first == Pass
    ensures second == Fail(AlreadyExists(u.login))
    ensures loginRows == 1
    ensures !userExists
  {
    var db := new ConnectorDb([], [], [], [], [], [], []);
    var log;
    first, log := db.CreateUser(Some(u));
    userExists := db.IsUserExists(u.login);
    second, log := db.CreateUser(Some(u));
    loginRows := LoginCount(db.users, u.login);
  }

  /**
   * Granting a known and an unknown id to an existing user: no failure, one log event for
   * the unknown id, and reading the grants back shows the known id and not the unknown one.
   */
  method GrantKnownAndUnknown(
    users: seq<UsersRow>, permissions: seq<PermissionRow>, grants: seq<GrantRow>,
    login: string, validId: string, bogusId: string)
    returns (outcome: Outcome, log: seq<LogEvent>, read: Result<seq<string>>)
    requires HasLogin(users, login)
    requires PermissionExists(permissions, validId) && !PermissionExists(permissions, bogusId)
    ensures outcome == Pass && log == [PermissionDoesNotExist(bogusId)]
    ensures read.Ok? && validId in read.value && bogusId !in read.value
  {
    var db := new ConnectorDb([], users, [], [], [], permissions, grants);
    outcome, log := db.AddUserPermissions(login, [validId, bogusId]);
    assert [validId, bogusId][..1] == [validId] && [validId][..0] == [];
    assert Granted(login, [validId], permissions) == [GrantRow(login, validId)];
    assert Skipped([validId], permissions) == [];
    var readLog;
    read, readLog := db.GetUserPermissions(login);
    assert db.userRequestRight == grants + [GrantRow(login, validId)];
    UserGrantIdsMember(db.userRequestRight, permissions, login, validId);
    UserGrantIdsMember(db.userRequestRight, permissions, login, bogusId);
  }

  /** Revoking a known id from an existing user: reading the grants back no longer shows it. */
  method RevokeKnown(
    users: seq<UsersRow>, permissions: seq<PermissionRow>, grants: seq<GrantRow>,
    login: string, rightId: string)
    returns (outcome: Outcome, read: Result<seq<string>>)
    requires HasLogin(users, login)
    requires PermissionExists(permissions, rightId)
    ensures outcome == Pass
    ensures read.Ok? && rightId !in read.value
  {
    var db := new ConnectorDb([], users, [], [], [], permissions, grants);
    var log;
    outcome, log := db.RemoveUserPermissions(login, [rightId]);
    read, log := db.GetUserPermissions(login);
    assert rightId in KnownIds([rightId], permissions);
    KeptCount(grants, login, KnownIds([rightId], permissions), GrantRow(login, rightId));
    UserGrantIdsMember(db.userRequestRight, permissions, login, rightId);
  }

  /**
   * The concrete walk-through: permissions p1 (Read) and p2 (Write), user alice without
   * grants. Granting p1 and p3 grants p1 and logs p3; alice then holds exactly p1; after
   * revoking p1 the user holds nothing.
   */
  method AliceWalkThrough() returns (grantLog: seq<LogEvent>, afterGrant: Result<seq<string>>, afterRevoke: Result<seq<string>>)
    ensures grantLog == [PermissionDoesNotExist("p3")]
    ensures afterGrant == Ok(["p1"])
    ensures afterRevoke == Ok([])
  {
    var alice := UsersRow("alice", None, "", "", "", "", false);
    var perms := [PermissionRow("p1", "Read", ""), PermissionRow("p2", "Write", "")];
    var db := new ConnectorDb([], [alice], [], [], [], perms, []);
    assert HasLogin([alice], "alice");
    assert PermissionExists(perms, "p1") && !PermissionExists(perms, "p3");
    assert PermissionIdsUnique(perms);
    var outcome, log;
    outcome, grantLog := db.AddUserPermissions("alice", ["p1", "p3"]);
    assert ["p1", "p3"][..1] == ["p1"];
    assert db.userRequestRight == [GrantRow("alice", "p1")];
    afterGrant, log := db.GetUserPermissions("alice");
    assert OwnedIds([GrantRow("alice", "p1")], perms, "alice") == ["p1"];
    outcome, log := db.RemoveUserPermissions("alice", ["p1"]);
    assert KnownIds(["p1"], perms) == {"p1"};
    assert db.userRequestRight == [];
    afterRevoke, log := db.GetUserPermissions("alice");
  }

  /**
   * Reading properties of a login with no rows returns the empty sequence, while reading
   * permissions of a login not in `Users` fails with "not found".
   */
  method UnknownLogin(userProperties: seq<UserPropertyRow>, properties: seq<PropertyRow>, login: string)
    returns (props: seq<UserProperty>, perms: Result<seq<string>>)
    requires forall i :: 0 <= i < |userProperties| ==> userProperties[i].userLogin != login
    ensures props == []
    ensures perms == Err(UserNotFound(login))
  {
    var db := new ConnectorDb([], [], [], properties, userProperties, [], []);
    props := db.GetUserProperties(login);
    var log;
    perms, log := db.GetUserPermissions(login);
  }

  /**
   * A batch the store rejects at position `k`: the update fails and the user's properties
   * read back exactly as before the call.
   */
  method RejectedBatch(
    userProperties: seq<UserPropertyRow>, properties: seq<PropertyRow>,
    login: string, batch: seq<UserProperty>, k: nat)
    returns (outcome: Outcome, before: seq<UserProperty>, after: seq<UserProperty>)
    requires k < |batch|
    ensures outcome == Fail(StoreError)
    ensures after == before
  {
    var db := new ConnectorDb([], [], [], properties, userProperties, [], []);
    before := db.GetUserProperties(login);
    var log;
    outcome, log := db.UpdateUserProperties(batch, login, Some(k));
    after := db.GetUserProperties(login);
  }
}
