/**
 * What the permission operations do to the `UserRequestRight` link table and
 * what reading a user's grants returns, as functions of the tables.
 */
module Grants {
  import opened Rows
  import opened Existence

  /**
   * The rows `AddUserPermissions` inserts for `ids`: in order, one `(login, id)` row for
   * every id found in the `Permissions` catalog.
   */
  function Granted(login: string, ids: seq<string>, perms: seq<PermissionRow>): seq<GrantRow>
  {
    if ids == [] then []
    else
      var id := ids[|ids| - 1];
      Granted(login, ids[..|ids| - 1], perms) + (if PermissionExists(perms, id) then [GrantRow(login, id)] else [])
  }

  /** The log events for the ids a grant or revoke loop skips, in order. */
  function Skipped(ids: seq<string>, perms: seq<PermissionRow>): seq<LogEvent>
  {
    if ids == [] then []
    else
      var id := ids[|ids| - 1];
      Skipped(ids[..|ids| - 1], perms) + (if PermissionExists(perms, id) then [] else [PermissionDoesNotExist(id)])
  }

  /**
   * Granting adds one row per occurrence of a known id in the batch (so a repeated id
   * gives repeated rows) and nothing for any other row value.
   */
  lemma {:induction false} GrantedCount(login: string, ids: seq<string>, perms: seq<PermissionRow>, g: GrantRow)
    ensures multiset(Granted(login, ids, perms))[g]
         == if g.userLogin == login && PermissionExists(perms, g.rightId) then multiset(ids)[g.rightId] else 0
  {
    if ids != [] {
      var init := ids[..|ids| - 1];
      GrantedCount(login, init, perms, g);
      assert ids == init + [ids[|ids| - 1]];
    }
  }

  /** Every id of the batch is either granted or logged as skipped. */
  lemma {:induction false} GrantedSkippedPartition(login: string, ids: seq<string>, perms: seq<PermissionRow>)
    ensures |Granted(login, ids, perms)| + |Skipped(ids, perms)| == |ids|
  {
    if ids != [] {
      GrantedSkippedPartition(login, ids[..|ids| - 1], perms);
    }
  }

  /** An id is logged as skipped exactly when it is in the batch and not in the catalog. */
  lemma {:induction false} SkippedMember(ids: seq<string>, perms: seq<PermissionRow>, id: string)
    ensures PermissionDoesNotExist(id) in Skipped(ids, perms) <==> id in ids && !PermissionExists(perms, id)
  {
    if ids != [] {
      var init := ids[..|ids| - 1];
      SkippedMember(init, perms, id);
      assert ids == init + [ids[|ids| - 1]];
    }
  }

  /** The rows left after deleting every `(login, id)` row whose id is in `ids`. */
  function Kept(rows: seq<GrantRow>, login: string, ids: set<string>): seq<GrantRow>
  {
    if rows == [] then []
    else
      var r := rows[|rows| - 1];
      Kept(rows[..|rows| - 1], login, ids) + (if r.userLogin == login && r.rightId in ids then [] else [r])
  }

  /** The ids of a batch that the catalog knows. */
  function KnownIds(ids: seq<string>, perms: seq<PermissionRow>): set<string>
  {
    set id | id in ids && PermissionExists(perms, id)
  }

  /**
   * Deleting removes every copy of a targeted row and leaves the number of copies of
   * every other row (other users, other ids) as it was.
   */
  lemma {:induction false} KeptCount(rows: seq<GrantRow>, login: string, ids: set<string>, g: GrantRow)
    ensures multiset(Kept(rows, login, ids))[g]
         == if g.userLogin == login && g.rightId in ids then 0 else multiset(rows)[g]
  {
    if rows != [] {
      var init := rows[..|rows| - 1];
      KeptCount(init, login, ids, g);
      assert rows == init + [rows[|rows| - 1]];
    }
  }

  /** Deleting nothing keeps every row. */
  lemma {:induction false} KeptNothing(rows: seq<GrantRow>, login: string)
    ensures Kept(rows, login, {}) == rows
  {
    if rows != [] {
      KeptNothing(rows[..|rows| - 1], login);
    }
  }

  /** Two deletions in a row are one deletion of both sets of ids. */
  lemma {:induction false} KeptCompose(rows: seq<GrantRow>, login: string, s: set<string>, t: set<string>)
    ensures Kept(Kept(rows, login, s), login, t) == Kept(rows, login, s + t)
  {
    if rows != [] {
      var init := rows[..|rows| - 1];
      var r := rows[|rows| - 1];
      KeptCompose(init, login, s, t);
      var once := Kept(init, login, s);
      if !(r.userLogin == login && r.rightId in s) {
        assert Kept(rows, login, s) == once + [r];
        assert (once + [r])[..|once|] == once;
        assert Kept(once + [r], login, t)
            == Kept(once, login, t) + (if r.userLogin == login && r.rightId in t then [] else [r]);
      } else {
        assert Kept(rows, login, s) == once;
      }
      assert Kept(rows, login, s + t)
          == Kept(init, login, s + t) + (if r.userLogin == login && r.rightId in s + t then [] else [r]);
    }
  }

  /** The `p.id` values the join yields for one grant row: one per catalog row with that id. */
  function MatchingIds(perms: seq<PermissionRow>, id: string): seq<string>
  {
    if perms == [] then []
    else
      var p := perms[|perms| - 1];
      MatchingIds(perms[..|perms| - 1], id) + (if p.id == id then [p.id] else [])
  }

  /**
   * The result rows of
   * `SELECT p.id FROM UserRequestRight urr JOIN Permissions p ON urr.right_id = p.id
   *  WHERE urr.user_login = @userLogin`, taken grant row by grant row.
   */
  function UserGrantIds(grants: seq<GrantRow>, perms: seq<PermissionRow>, login: string): seq<string>
  {
    if grants == [] then []
    else
      var g := grants[|grants| - 1];
      UserGrantIds(grants[..|grants| - 1], perms, login) + (if g.userLogin == login then MatchingIds(perms, g.rightId) else [])
  }

  /** Reference definition: the right id of each of the user's grant rows whose id is in the catalog. */
  function OwnedIds(grants: seq<GrantRow>, perms: seq<PermissionRow>, login: string): seq<string>
  {
    if grants == [] then []
    else
      var g := grants[|grants| - 1];
      OwnedIds(grants[..|grants| - 1], perms, login)
        + (if g.userLogin == login && PermissionExists(perms, g.rightId) then [g.rightId] else [])
  }

  /** The join yields the id itself, once per matching catalog row. */
  lemma {:induction false} MatchingIdsShape(perms: seq<PermissionRow>, id: string)
    ensures |MatchingIds(perms, id)| == PermissionCount(perms, id)
    ensures forall k :: 0 <= k < |MatchingIds(perms, id)| ==> MatchingIds(perms, id)[k] == id
  {
    if perms != [] {
      MatchingIdsShape(perms[..|perms| - 1], id);
    }
  }

  /** Under the catalog's primary key the join yields the id once if it is known, else nothing. */
  lemma MatchingIdsUnique(perms: seq<PermissionRow>, id: string)
    requires PermissionIdsUnique(perms)
    ensures MatchingIds(perms, id) == if PermissionExists(perms, id) then [id] else []
  {
    MatchingIdsShape(perms, id);
    PermissionCountAtMostOne(perms, id);
  }

  /** Under the catalog's primary key, reading grants returns one id per known grant row of the user, in order. */
  lemma {:induction false} UserGrantIdsUnique(grants: seq<GrantRow>, perms: seq<PermissionRow>, login: string)
    requires PermissionIdsUnique(perms)
    ensures UserGrantIds(grants, perms, login) == OwnedIds(grants, perms, login)
  {
    if grants != [] {
      UserGrantIdsUnique(grants[..|grants| - 1], perms, login);
      MatchingIdsUnique(perms, grants[|grants| - 1].rightId);
    }
  }

  /** An id is read back exactly when the user holds a grant row for it and the catalog knows it. */
  lemma {:induction false} UserGrantIdsMember(grants: seq<GrantRow>, perms: seq<PermissionRow>, login: string, x: string)
    ensures x in UserGrantIds(grants, perms, login) <==> GrantRow(login, x) in grants && PermissionExists(perms, x)
  {
    if grants != [] {
      var init := grants[..|grants| - 1];
      var g := grants[|grants| - 1];
      UserGrantIdsMember(init, perms, login, x);
      MatchingIdsShape(perms, g.rightId);
      assert grants == init + [g];
      if g.userLogin == login && g.rightId == x && PermissionExists(perms, x) {
        assert MatchingIds(perms, x)[0] == x;
      }
    }
  }

  /** The reference reading holds each known id as often as the user has grant rows for it. */
  lemma {:induction false} OwnedIdsCount(grants: seq<GrantRow>, perms: seq<PermissionRow>, login: string, x: string)
    ensures multiset(OwnedIds(grants, perms, login))[x]
         == if PermissionExists(perms, x) then multiset(grants)[GrantRow(login, x)] else 0
  {
    if grants != [] {
      var init := grants[..|grants| - 1];
      OwnedIdsCount(init, perms, login, x);
      assert grants == init + [grants[|grants| - 1]];
    }
  }
}
