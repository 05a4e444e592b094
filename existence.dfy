/**
 * The existence checks: each is a `SELECT COUNT(*) ... WHERE column = value`
 * whose result is compared with zero.
 */
module Existence {
  import opened Rows

  /** `SELECT COUNT(*)` over the rows of `s` that satisfy `p`. */
  function CountWhere<T>(s: seq<T>, p: T -> bool): (n: nat)
    ensures n <= |s|
  {
    if s == [] then 0
    else CountWhere(s[..|s| - 1], p) + (if p(s[|s| - 1]) then 1 else 0)
  }

  /** A count is positive exactly when some row satisfies the filter. */
  lemma {:induction false} CountWherePositive<T>(s: seq<T>, p: T -> bool)
    ensures CountWhere(s, p) > 0 <==> exists i :: 0 <= i < |s| && p(s[i])
  {
    if s != [] {
      var init := s[..|s| - 1];
      CountWherePositive(init, p);
      if CountWhere(init, p) > 0 {
        var i :| 0 <= i < |init| && p(init[i]);
        assert s[i] == init[i];
      } else if !p(s[|s| - 1]) {
        forall i | 0 <= i < |s|
          ensures !p(s[i])
        {
          if i < |init| {
            assert s[i] == init[i];
          }
        }
      }
    }
  }

  /** Inserting one row raises the count by one exactly when that row matches. */
  lemma {:induction false} CountWhereAppend<T>(s: seq<T>, x: T, p: T -> bool)
    ensures CountWhere(s + [x], p) == CountWhere(s, p) + (if p(x) then 1 else 0)
  {
    assert (s + [x])[..|s|] == s;
  }

  /** `SELECT COUNT(*) FROM Users WHERE login = @login`. */
  function LoginCount(users: seq<UsersRow>, login: string): nat
  {
    CountWhere(users, (r: UsersRow) => r.login == login)
  }

  /** The `login`-based user check of `CreateUser` and the permission operations. */
  predicate HasLogin(users: seq<UsersRow>, login: string)
  {
    LoginCount(users, login) > 0
  }

  lemma HasLoginIff(users: seq<UsersRow>, login: string)
    ensures HasLogin(users, login) <==> exists i :: 0 <= i < |users| && users[i].login == login
  {
    CountWherePositive(users, (r: UsersRow) => r.login == login);
  }

  /** `SELECT COUNT(1) FROM Users WHERE user_login = @UserLogin`; a NULL column never matches. */
  function UserLoginCount(users: seq<UsersRow>, login: string): nat
  {
    CountWhere(users, (r: UsersRow) => r.userLogin == Some(login))
  }

  /** `SELECT COUNT(*) FROM Permissions WHERE id = @rightId`. */
  function PermissionCount(perms: seq<PermissionRow>, id: string): nat
  {
    CountWhere(perms, (p: PermissionRow) => p.id == id)
  }

  predicate PermissionExists(perms: seq<PermissionRow>, id: string)
  {
    PermissionCount(perms, id) > 0
  }

  lemma PermissionExistsIff(perms: seq<PermissionRow>, id: string)
    ensures PermissionExists(perms, id) <==> exists i :: 0 <= i < |perms| && perms[i].id == id
  {
    CountWherePositive(perms, (p: PermissionRow) => p.id == id);
  }

  /** `id` is the primary key of the `Permissions` catalog. */
  predicate PermissionIdsUnique(perms: seq<PermissionRow>)
  {
    forall i, j :: 0 <= i < j < |perms| ==> perms[i].id != perms[j].id
  }

  /** Under the primary key, a permission id matches at most one catalog row. */
  lemma {:induction false} PermissionCountAtMostOne(perms: seq<PermissionRow>, id: string)
    requires PermissionIdsUnique(perms)
    ensures PermissionCount(perms, id) <= 1
  {
    if perms != [] {
      var init := perms[..|perms| - 1];
      assert PermissionIdsUnique(init) by {
        forall i, j | 0 <= i < j < |init|
          ensures init[i].id != init[j].id
        {
          assert init[i] == perms[i] && init[j] == perms[j];
        }
      }
      PermissionCountAtMostOne(init, id);
      if perms[|perms| - 1].id == id {
        forall i | 0 <= i < |init|
          ensures init[i].id != id
        {
          assert init[i] == perms[i];
        }
        PermissionExistsIff(init, id);
      }
    }
  }
}
