/**
 * What reading and updating user properties do, as functions of the
 * `Properties` catalog and the `UserProperties` table.
 */
module PropertySync {
  import opened Rows

  /** The `(p.name, up.value)` rows the join yields for one `UserProperties` row. */
  function PropertyMatches(props: seq<PropertyRow>, up: UserPropertyRow): seq<UserProperty>
  {
    if props == [] then []
    else
      var p := props[|props| - 1];
      PropertyMatches(props[..|props| - 1], up) + (if p.id == up.propertyId then [UserProperty(p.name, up.value)] else [])
  }

  /**
   * The result rows of
   * `SELECT p.name, up.value FROM UserProperties up JOIN Properties p ON up.property_id = p.id
   *  WHERE up.user_login = @UserLogin`, taken `UserProperties` row by row.
   */
  function UserPropertyValues(ups: seq<UserPropertyRow>, props: seq<PropertyRow>, login: string): seq<UserProperty>
  {
    if ups == [] then []
    else
      var up := ups[|ups| - 1];
      UserPropertyValues(ups[..|ups| - 1], props, login) + (if up.userLogin == login then PropertyMatches(props, up) else [])
  }

  /** The join yields one pair per catalog row whose id is the row's property id. */
  lemma {:induction false} PropertyMatchesMember(props: seq<PropertyRow>, up: UserPropertyRow, x: UserProperty)
    ensures x in PropertyMatches(props, up)
        <==> exists j :: 0 <= j < |props| && props[j].id == up.propertyId && x == UserProperty(props[j].name, up.value)
  {
    if props != [] {
      var init := props[..|props| - 1];
      PropertyMatchesMember(init, up, x);
      if x in PropertyMatches(init, up) {
        var j :| 0 <= j < |init| && init[j].id == up.propertyId && x == UserProperty(init[j].name, up.value);
        assert props[j] == init[j];
      }
      if exists j :: 0 <= j < |props| && props[j].id == up.propertyId && x == UserProperty(props[j].name, up.value) {
        var j :| 0 <= j < |props| && props[j].id == up.propertyId && x == UserProperty(props[j].name, up.value);
        if j < |init| {
          assert init[j] == props[j];
        }
      }
    }
  }

  /**
   * A pair is read back exactly when the user has a `UserProperties` row whose property
   * id is in the catalog under that name, holding that value.
   */
  lemma {:induction false} UserPropertyValuesMember(ups: seq<UserPropertyRow>, props: seq<PropertyRow>, login: string, x: UserProperty)
    ensures x in UserPropertyValues(ups, props, login)
        <==> exists i, j :: 0 <= i < |ups| && 0 <= j < |props| && ups[i].userLogin == login
                  && props[j].id == ups[i].propertyId && x == UserProperty(props[j].name, ups[i].value)
  {
    if ups != [] {
      var init := ups[..|ups| - 1];
      var up := ups[|ups| - 1];
      UserPropertyValuesMember(init, props, login, x);
      PropertyMatchesMember(props, up, x);
      if x in UserPropertyValues(init, props, login) {
        var i, j :| 0 <= i < |init| && 0 <= j < |props| && init[i].userLogin == login
                  && props[j].id == init[i].propertyId && x == UserProperty(props[j].name, init[i].value);
        assert ups[i] == init[i];
      }
      if exists i, j :: 0 <= i < |ups| && 0 <= j < |props| && ups[i].userLogin == login
                  && props[j].id == ups[i].propertyId && x == UserProperty(props[j].name, ups[i].value) {
        var i, j :| 0 <= i < |ups| && 0 <= j < |props| && ups[i].userLogin == login
                  && props[j].id == ups[i].propertyId && x == UserProperty(props[j].name, ups[i].value);
        if i < |init| {
          assert init[i] == ups[i];
        }
      }
    }
  }

  /** A user without property rows reads back the empty sequence, not an error. */
  lemma {:induction false} UserPropertyValuesNoRows(ups: seq<UserPropertyRow>, props: seq<PropertyRow>, login: string)
    requires forall i :: 0 <= i < |ups| ==> ups[i].userLogin != login
    ensures UserPropertyValues(ups, props, login) == []
  {
    if ups != [] {
      UserPropertyValuesNoRows(ups[..|ups| - 1], props, login);
    }
  }

  /** `UPDATE UserProperties SET value = @Value WHERE user_login = @UserLogin AND property_name = @PropertyName`. */
  function ApplyUpdate(rows: seq<UserPropertyRow>, login: string, name: string, value: string): seq<UserPropertyRow>
  {
    seq(|rows|, i requires 0 <= i < |rows| =>
      if rows[i].userLogin == login && rows[i].propertyName == name then rows[i].(value := value) else rows[i])
  }

  /** The table after the batch's updates, issued in order. */
  function UpdateAll(rows: seq<UserPropertyRow>, login: string, batch: seq<UserProperty>): seq<UserPropertyRow>
  {
    if batch == [] then rows
    else
      var e := batch[|batch| - 1];
      ApplyUpdate(UpdateAll(rows, login, batch[..|batch| - 1]), login, e.name, e.value)
  }

  /** The value of the last batch entry with that name, if any. */
  function LastValue(batch: seq<UserProperty>, name: string): Option<string>
  {
    if batch == [] then None
    else if batch[|batch| - 1].name == name then Some(batch[|batch| - 1].value)
    else LastValue(batch[..|batch| - 1], name)
  }

  /** Reference definition of one row after the batch: a row of the user whose name is in the batch takes the last value. */
  function Updated(row: UserPropertyRow, login: string, batch: seq<UserProperty>): UserPropertyRow
  {
    match LastValue(batch, row.propertyName)
    case Some(v) => if row.userLogin == login then row.(value := v) else row
    case None => row
  }

  /** The key columns of a `UserProperties` row. */
  function Key(row: UserPropertyRow): (string, int, string)
  {
    (row.userLogin, row.propertyId, row.propertyName)
  }

  function Keys(rows: seq<UserPropertyRow>): seq<(string, int, string)>
  {
    seq(|rows|, i requires 0 <= i < |rows| => Key(rows[i]))
  }

  /** `LastValue` is the value of the last entry with that name, and there is none exactly when no entry has that name. */
  lemma {:induction false} LastValueIsLast(batch: seq<UserProperty>, name: string)
    ensures LastValue(batch, name).None? <==> forall k :: 0 <= k < |batch| ==> batch[k].name != name
    ensures LastValue(batch, name).Some? ==>
      exists k :: 0 <= k < |batch| && batch[k] == UserProperty(name, LastValue(batch, name).value)
        && forall k' :: k < k' < |batch| ==> batch[k'].name != name
  {
    if batch != [] {
      var init := batch[..|batch| - 1];
      var n := |batch| - 1;
      if batch[n].name == name {
        assert batch[n] == UserProperty(name, LastValue(batch, name).value);
      } else {
        LastValueIsLast(init, name);
        forall k | 0 <= k < |init|
          ensures batch[k] == init[k]
        {
        }
        if LastValue(init, name).Some? {
          var k :| 0 <= k < |init| && init[k] == UserProperty(name, LastValue(init, name).value)
                 && forall k' :: k < k' < |init| ==> init[k'].name != name;
          assert batch[k] == UserProperty(name, LastValue(batch, name).value);
        }
      }
    }
  }

  /**
   * The batch update keeps the number of rows and changes each row exactly as `Updated`
   * says: only rows of the user whose property name is in the batch change, and they take
   * the value of the last entry with that name.
   */
  lemma {:induction false} UpdateAllAt(rows: seq<UserPropertyRow>, login: string, batch: seq<UserProperty>)
    ensures |UpdateAll(rows, login, batch)| == |rows|
    ensures forall i :: 0 <= i < |rows| ==> UpdateAll(rows, login, batch)[i] == Updated(rows[i], login, batch)
  {
    if batch != [] {
      var init := batch[..|batch| - 1];
      UpdateAllAt(rows, login, init);
    }
  }

  /** The batch update creates and deletes no row and changes no key column: it only overwrites values. */
  lemma {:induction false} UpdateAllKeepsKeys(rows: seq<UserPropertyRow>, login: string, batch: seq<UserProperty>)
    ensures Keys(UpdateAll(rows, login, batch)) == Keys(rows)
  {
    UpdateAllAt(rows, login, batch);
  }

  /** A batch none of whose names has a row for the user changes nothing. */
  lemma {:induction false} UpdateAllUnmatched(rows: seq<UserPropertyRow>, login: string, batch: seq<UserProperty>)
    requires forall i, k :: 0 <= i < |rows| && 0 <= k < |batch| ==>
               !(rows[i].userLogin == login && rows[i].propertyName == batch[k].name)
    ensures UpdateAll(rows, login, batch) == rows
  {
    UpdateAllAt(rows, login, batch);
    forall i | 0 <= i < |rows|
      ensures UpdateAll(rows, login, batch)[i] == rows[i]
    {
      LastValueIsLast(batch, rows[i].propertyName);
    }
  }
}
