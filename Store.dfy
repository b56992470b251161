/**
 * The database table the plugin reads and writes, as the TYPO3 calls it
 * uses see it: rows in scan order, each a record of column/value strings
 * with its "uid" and "pid" columns, and the TCA `ctrl.delete` column that
 * marks a row deleted instead of removing it.
 */
module Store {
  import opened PhpStrings
  import opened PhpValues

  /** deleteField is "" when the table has no soft-delete column. */
  datatype Table = Table(rows: seq<Row>, deleteField: string)

  function UidOf(r: Row): int {
    IntVal(Get(r, "uid"))
  }

  function PidOf(r: Row): int {
    IntVal(Get(r, "pid"))
  }

  /** The deleteClause of the page repository: a row whose delete column is
      non-zero does not exist for reads. */
  predicate Live(t: Table, r: Row) {
    t.deleteField == "" || IntVal(Get(r, t.deleteField)) == 0
  }

  /** The position of the first row in scan order that satisfies p. */
  function First(rows: seq<Row>, p: Row -> bool): (i: Option<nat>)
    ensures i.Some? ==> i.value < |rows| && p(rows[i.value])
    ensures i.Some? ==> forall j :: 0 <= j < i.value ==> !p(rows[j])
    ensures i.None? ==> forall j :: 0 <= j < |rows| ==> !p(rows[j])
  {
    if |rows| == 0 then None
    else if p(rows[0]) then Some(0)
    else
      var i := First(rows[1..], p);
      if i.Some? then Some(i.value + 1) else None
  }

  /** sys_page->getRawRecord($table, $uid): the live row with that uid; a
      uid that is not positive reads nothing. */
  function GetRaw(t: Table, uid: int): (r: Option<Row>)
    ensures r.Some? ==> uid > 0 && Live(t, r.value) && UidOf(r.value) == uid && r.value in t.rows
    ensures r.None? && uid > 0 ==> forall j :: 0 <= j < |t.rows| ==> !(Live(t, t.rows[j]) && UidOf(t.rows[j]) == uid)
  {
    if uid <= 0 then None
    else
      var i := First(t.rows, (r: Row) => Live(t, r) && UidOf(r) == uid);
      if i.Some? then Some(t.rows[i.value]) else None
  }

  /** A row that getRecordsByField($table, $field, $value, [pid IN ($pid)])
      selects. */
  predicate IsMatch(t: Table, r: Row, field: string, value: string, pid: Option<int>) {
    Live(t, r) && Get(r, field) == value && (pid.None? || PidOf(r) == pid.value)
  }

  /** $DBrows[0] of getRecordsByField(..., '1'): the first selected row; no
      order is requested, so it is the first in scan order. */
  function FirstMatch(t: Table, field: string, value: string, pid: Option<int>): (r: Option<Row>)
    ensures r.Some? ==> r.value in t.rows && IsMatch(t, r.value, field, value, pid)
    ensures r.None? ==> forall j :: 0 <= j < |t.rows| ==> !IsMatch(t, t.rows[j], field, value, pid)
  {
    var i := First(t.rows, (r: Row) => IsMatch(t, r, field, value, pid));
    if i.Some? then Some(t.rows[i.value]) else None
  }

  /** The columns DBgetUpdate()/DBgetInsert() write: those of the allowlist
      that the data has, as strings. */
  function WriteFields(r: Row, data: Data, allow: seq<string>): (res: Row)
    ensures forall c {:trigger Get(res, c)} :: c !in allow || c !in data ==> Get(res, c) == Get(r, c)
    ensures forall c {:trigger Get(res, c)} :: c in allow && c in data ==> Get(res, c) == AsString(data[c])
    ensures UniqueKeys(r) ==> UniqueKeys(res)
  {
    if |allow| == 0 then r
    else
      var f := allow[|allow| - 1];
      var prev := WriteFields(r, data, allow[..|allow| - 1]);
      assert forall c :: c in allow[..|allow| - 1] ==> c in allow;
      assert forall c :: c in allow ==> c in allow[..|allow| - 1] || c == f;
      if f in data then Assign(prev, f, AsString(data[f])) else prev
  }

  /** DBgetUpdate($table, $uid, $data, $fieldList): a uid of 0 changes
      nothing; otherwise the uid is dropped from the data, and every row
      with that uid gets the allowed columns; no other row changes. */
  function Update(t: Table, uid: int, data: Data, allow: seq<string>): (t': Table)
    ensures uid == 0 ==> t' == t
    ensures t'.deleteField == t.deleteField && |t'.rows| == |t.rows|
    ensures forall i :: 0 <= i < |t.rows| && UidOf(t.rows[i]) != uid ==> t'.rows[i] == t.rows[i]
    ensures forall i :: 0 <= i < |t.rows| && uid != 0 && UidOf(t.rows[i]) == uid ==>
      t'.rows[i] == WriteFields(t.rows[i], data - {"uid"}, allow)
  {
    if uid == 0 then t
    else
      var d := data - {"uid"};
      Table(seq(|t.rows|, i requires 0 <= i < |t.rows| =>
        if UidOf(t.rows[i]) == uid then WriteFields(t.rows[i], d, allow) else t.rows[i]), t.deleteField)
  }

  /** An update changes only allowed columns the data has, never the uid,
      and only in the rows of the uid; there those columns hold the data's
      values. */
  lemma UpdateWritesOnly(t: Table, uid: int, data: Data, allow: seq<string>)
    ensures var t' := Update(t, uid, data, allow);
      forall i, c :: 0 <= i < |t.rows| && Get(t'.rows[i], c) != Get(t.rows[i], c) ==>
        UidOf(t.rows[i]) == uid && c in data && c in allow && c != "uid"
    ensures var t' := Update(t, uid, data, allow);
      forall i, c :: 0 <= i < |t.rows| && uid != 0 && UidOf(t.rows[i]) == uid && c in allow && c in data && c != "uid" ==>
        Get(t'.rows[i], c) == AsString(data[c])
  {
    var t' := Update(t, uid, data, allow);
    forall i, c | 0 <= i < |t.rows| && Get(t'.rows[i], c) != Get(t.rows[i], c)
      ensures UidOf(t.rows[i]) == uid && c in data && c in allow && c != "uid"
    {
      assert UidOf(t.rows[i]) == uid;
    }
  }

  function MaxUid(rows: seq<Row>): (m: nat)
    ensures forall i :: 0 <= i < |rows| ==> UidOf(rows[i]) <= m
  {
    if |rows| == 0 then 0
    else
      var m := MaxUid(rows[..|rows| - 1]);
      var u := UidOf(rows[|rows| - 1]);
      if u > m then u else m
  }

  /** The auto-increment value sql_insert_id() reports for a new row: above
      every uid in the table. */
  function NextUid(t: Table): (n: nat)
    ensures n >= 1
    ensures forall i :: 0 <= i < |t.rows| ==> UidOf(t.rows[i]) < n
  {
    MaxUid(t.rows) + 1
  }

  /** The data DBgetInsert() inserts: the uid is never taken from it, and a
      storage pid that is not negative replaces the data's pid. */
  function InsertData(pid: int, data: Data): Data {
    var d := data - {"uid"};
    if pid >= 0 then d["pid" := Num(pid)] else d
  }

  /** The row DBgetInsert() writes: the new uid, and the columns of the
      insert data that the allowlist or the always-allowed pid names. */
  function NewRow(uid: nat, pid: int, data: Data, allow: seq<string>): Row {
    WriteFields([("uid", IntToStr(uid))], InsertData(pid, data), allow + ["pid"])
  }

  /** The new row holds the new uid whatever the data says; the storage pid
      when it is not negative, and the data's own pid (or none) when it is;
      the allowed columns the data has; and no other column. */
  lemma NewRowColumns(uid: nat, pid: int, data: Data, allow: seq<string>)
    ensures var r := NewRow(uid, pid, data, allow);
      Get(r, "uid") == IntToStr(uid)
      && Get(r, "pid") == (if pid >= 0 then IntToStr(pid) else if "pid" in data then AsString(data["pid"]) else "")
      && (forall c :: c != "pid" && c != "uid" && c in allow && c in data ==> Get(r, c) == AsString(data[c]))
      && (forall c :: c != "pid" && c != "uid" && !(c in allow && c in data) ==> Get(r, c) == "")
  {
    var base := [("uid", IntToStr(uid))];
    forall c | c != "uid" ensures Get(base, c) == "" {
      assert base[1..] == [];
    }
    assert Get(base, "uid") == IntToStr(uid);
    assert "pid" in allow + ["pid"];
  }

  /** DBgetInsert($table, $pid, $data, $fieldList), returning the new table
      and the new uid: the old rows stay as they are and one row is
      appended, under a uid above every existing one, holding the pid and
      the allowed columns of the insert data, and nothing else. */
  function Insert(t: Table, pid: int, data: Data, allow: seq<string>): (res: (Table, nat))
    ensures |res.0.rows| == |t.rows| + 1 && res.0.rows[..|t.rows|] == t.rows
    ensures forall i :: 0 <= i < |t.rows| ==> UidOf(t.rows[i]) < res.1
  {
    var uid := NextUid(t);
    (Table(t.rows + [NewRow(uid, pid, data, allow)], t.deleteField), uid)
  }

  function RemoveUid(rows: seq<Row>, uid: int): (res: seq<Row>)
    ensures forall r :: r in res <==> r in rows && UidOf(r) != uid
  {
    if |rows| == 0 then []
    else (if UidOf(rows[0]) == uid then [] else [rows[0]]) + RemoveUid(rows[1..], uid)
  }

  /** DBgetDelete($table, $uid): a uid of 0 changes nothing; otherwise set
      the delete column to 1 when the table has one, and remove the rows
      when it has none. */
  function Delete(t: Table, uid: int): (t': Table)
    ensures uid == 0 ==> t' == t
    ensures t'.deleteField == t.deleteField
  {
    if uid == 0 then t
    else if t.deleteField != "" then
      Table(seq(|t.rows| , i requires 0 <= i < |t.rows| =>
        if UidOf(t.rows[i]) == uid then Assign(t.rows[i], t.deleteField, "1") else t.rows[i]), t.deleteField)
    else Table(RemoveUid(t.rows, uid), t.deleteField)
  }

  /** The delete column is not one of the key columns. */
  predicate ValidTable(t: Table) {
    t.deleteField != "uid" && t.deleteField != "pid"
  }

  /** Setting the delete column to 1 hides a row and keeps its uid. */
  lemma MarkDeleted(t: Table, r: Row)
    requires ValidTable(t) && t.deleteField != ""
    ensures !Live(t, Assign(r, t.deleteField, "1"))
    ensures UidOf(Assign(r, t.deleteField, "1")) == UidOf(r)
  {
    assert Get(Assign(r, t.deleteField, "1"), t.deleteField) == "1";
    IntValOne();
  }

  lemma IntValOne()
    ensures IntVal("1") == 1
  {
    assert SkipSpaces("1") == "1";
    assert LeadingDigits("1") == "1";
    assert DigitsValue("1") == 1 by {
      assert "1"[..0] == "";
    }
  }

  /** A deleted record can no longer be read. */
  lemma DeleteHides(t: Table, uid: int)
    requires ValidTable(t)
    ensures GetRaw(Delete(t, uid), uid).None?
  {
    var t' := Delete(t, uid);
    if uid == 0 {
      assert GetRaw(t', uid).None?;
    } else if t.deleteField != "" {
      forall j | 0 <= j < |t'.rows|
        ensures !(Live(t', t'.rows[j]) && UidOf(t'.rows[j]) == uid)
      {
        if UidOf(t.rows[j]) == uid {
          MarkDeleted(t, t.rows[j]);
        }
      }
    } else {
      forall j | 0 <= j < |t'.rows| ensures UidOf(t'.rows[j]) != uid {
        assert t'.rows[j] in t'.rows;
      }
    }
  }

  /** Deleting one record leaves every other record readable as before. */
  lemma DeleteKeepsOthers(t: Table, uid: int, other: int)
    requires ValidTable(t) && other != uid
    ensures GetRaw(Delete(t, uid), other) == GetRaw(t, other)
  {
    if t.deleteField != "" {
      MarkKeepsOthers(t, uid, other);
    } else {
      RemoveKeepsOthers(t, uid, other);
    }
  }

  /** The hard delete: removing the uid's rows keeps every other uid's
      first row. */
  lemma RemoveKeepsOthers(t: Table, uid: int, other: int)
    requires other != uid && t.deleteField == ""
    ensures GetRaw(Delete(t, uid), other) == GetRaw(t, other)
  {
    var t' := Delete(t, uid);
    var p := (r: Row) => Live(t, r) && UidOf(r) == other;
    var p' := (r: Row) => Live(t', r) && UidOf(r) == other;
    if uid != 0 {
      assert t'.rows == RemoveUid(t.rows, uid);
      FirstRemove(t.rows, uid, p);
      FirstSame(t'.rows, t'.rows, p, p');
    }
  }

  /** The soft delete: marking the uid's rows keeps every other uid's first
      live row where it is. */
  lemma MarkKeepsOthers(t: Table, uid: int, other: int)
    requires ValidTable(t) && other != uid && t.deleteField != ""
    ensures GetRaw(Delete(t, uid), other) == GetRaw(t, other)
  {
    var t' := Delete(t, uid);
    var p := (r: Row) => Live(t, r) && UidOf(r) == other;
    var p' := (r: Row) => Live(t', r) && UidOf(r) == other;
    forall j | 0 <= j < |t.rows|
      ensures p(t.rows[j]) == p'(t'.rows[j])
      ensures p(t.rows[j]) ==> t.rows[j] == t'.rows[j]
    {
      if UidOf(t.rows[j]) == uid {
        MarkDeleted(t, t.rows[j]);
      }
    }
    FirstSame(t.rows, t'.rows, p, p');
  }

  lemma {:induction false} FirstSame(a: seq<Row>, b: seq<Row>, p: Row -> bool, q: Row -> bool)
    requires |a| == |b|
    requires forall j :: 0 <= j < |a| ==> p(a[j]) == q(b[j])
    requires forall j :: 0 <= j < |a| && p(a[j]) ==> a[j] == b[j]
    ensures First(a, p) == First(b, q)
    ensures First(a, p).Some? ==> a[First(a, p).value] == b[First(b, q).value]
  {
    if |a| > 0 {
      FirstSame(a[1..], b[1..], p, q);
    }
  }

  /** Removing rows none of which satisfies p does not change the first row
      that satisfies it. */
  lemma {:induction false} FirstRemove(rows: seq<Row>, uid: int, p: Row -> bool)
    requires forall r :: p(r) ==> UidOf(r) != uid
    ensures var i := First(rows, p); var k := First(RemoveUid(rows, uid), p);
      i.Some? == k.Some? && (i.Some? ==> rows[i.value] == RemoveUid(rows, uid)[k.value])
  {
    if |rows| > 0 {
      FirstRemove(rows[1..], uid, p);
      var rest := RemoveUid(rows[1..], uid);
      var k := RemoveUid(rows, uid);
      if UidOf(rows[0]) != uid {
        assert k == [rows[0]] + rest;
        assert k[0] == rows[0] && k[1..] == rest;
        assert First(k, p) == if p(rows[0]) then Some(0)
          else if First(rest, p).Some? then Some(First(rest, p).value + 1) else None;
      } else {
        assert k == rest;
        assert !p(rows[0]);
      }
    }
  }

  lemma {:induction false} FirstAppend(a: seq<Row>, x: Row, p: Row -> bool)
    requires forall j :: 0 <= j < |a| ==> !p(a[j])
    requires p(x)
    ensures First(a + [x], p) == Some(|a|)
  {
    if |a| > 0 {
      assert (a + [x])[1..] == a[1..] + [x];
      FirstAppend(a[1..], x, p);
    }
  }

  /** After an insert the new uid reads back as the new row when that row
      is live; it is live unless the allowlist lets the data set the delete
      column. */
  lemma InsertReads(t: Table, pid: int, data: Data, allow: seq<string>)
    requires ValidTable(t)
    requires NextUid(t) <= PHP_INT_MAX
    ensures var row := NewRow(NextUid(t), pid, data, allow);
      GetRaw(Insert(t, pid, data, allow).0, NextUid(t)) == if Live(t, row) then Some(row) else None
    ensures t.deleteField !in allow ==> Live(t, NewRow(NextUid(t), pid, data, allow))
  {
    var uid := NextUid(t);
    var row := NewRow(uid, pid, data, allow);
    NewRowColumns(uid, pid, data, allow);
    IntValNatToStr(uid);
    assert UidOf(row) == uid;
    if t.deleteField != "" && t.deleteField !in allow {
      assert Get(row, t.deleteField) == "";
    }
    var t' := Insert(t, pid, data, allow).0;
    var p := (r: Row) => Live(t', r) && UidOf(r) == uid;
    if Live(t, row) {
      FirstAppend(t.rows, row, p);
    } else {
      forall j | 0 <= j < |t'.rows| ensures !p(t'.rows[j]) {
        if j == |t.rows| {
          assert t'.rows[j] == row;
        }
      }
    }
  }
}
