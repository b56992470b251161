/**
 * What the record-changing steps of the plugin promise about the table:
 * save() writes only the allowed columns of the edited record or appends
 * one new record, deleteRecord() hides exactly the requested record, and
 * procesSetFixed() acts exactly when the aC code matches, writing only the
 * allowed columns. These are the partners of SaveEffect, DeleteEffect and
 * SetfixedEffect, which Plugin's methods are proved against.
 */
module Lifecycle {
  import opened PhpStrings
  import opened PhpValues
  import Store
  import Tokens
  import opened PluginClass

  // ------------------------------------------------------------ save()

  /** save() records a save exactly when the command may run: an edit that
      is enabled, passes the login-or-code gate and may change the record,
      or an enabled create. Otherwise the table, currentArr and saved stay
      as they were. */
  lemma SaveOutcome(e: Effect, cmd: string, data: Data, conf: Config, fieldList: string, thePid: int,
                    authCode: string, world: World)
    ensures var r := SaveEffect(e, cmd, data, conf, fieldList, thePid, authCode, world);
      var orig := OrEmpty(Store.GetRaw(e.table, FieldInt(data, "uid")));
      var allowed := if cmd == "edit"
        then conf.editEnabled && Gate(world.loginUser, authCode, orig, conf.auth) && May(world, authCode, orig, conf.auth)
        else conf.createEnabled;
      (allowed ==> r.saved && r.error == e.error)
      && (!allowed ==> r.table == e.table && r.currentArr == e.currentArr && r.saved == e.saved)
  {
    var r := SaveEffect(e, cmd, data, conf, fieldList, thePid, authCode, world);
    if cmd == "edit" {
      SaveError(e, cmd, data, conf, fieldList, thePid, authCode, world);
    }
  }

  /** An edit leaves the table as it was or updates the edited uid over
      the allowlist; it updates when it saves. */
  lemma EditTable(e: Effect, data: Data, conf: Config, fieldList: string, thePid: int,
                  authCode: string, world: World)
    ensures var r := SaveEffect(e, "edit", data, conf, fieldList, thePid, authCode, world);
      var t := Store.Update(e.table, FieldInt(data, "uid"), data, AllowList(fieldList, conf.edit.fields));
      (r.table == e.table || r.table == t) && (r.saved && !e.saved ==> r.table == t)
  {
  }

  /** An edit changes only columns that fe_admin_fieldList and the edit
      fields list both name and that the submitted data has, never uid, and
      only in the rows of the edited uid. */
  lemma EditWritesOnly(e: Effect, data: Data, conf: Config, fieldList: string, thePid: int,
                       authCode: string, world: World)
    ensures var r := SaveEffect(e, "edit", data, conf, fieldList, thePid, authCode, world);
      r.table.deleteField == e.table.deleteField && |r.table.rows| == |e.table.rows|
      && forall i, c :: 0 <= i < |e.table.rows| && Get(r.table.rows[i], c) != Get(e.table.rows[i], c) ==>
           Store.UidOf(e.table.rows[i]) == FieldInt(data, "uid") && c in data
           && c in Explode(',', fieldList) && c in TrimExplode(',', conf.edit.fields, true) && c != "uid"
  {
    var t := SaveEffect(e, "edit", data, conf, fieldList, thePid, authCode, world).table;
    var uid, allow := FieldInt(data, "uid"), AllowList(fieldList, conf.edit.fields);
    var u := Store.Update(e.table, uid, data, allow);
    EditTable(e, data, conf, fieldList, thePid, authCode, world);
    Store.UpdateWritesOnly(e.table, uid, data, allow);
    assert t == e.table || t == u;
    forall i, c | 0 <= i < |e.table.rows| && Get(t.rows[i], c) != Get(e.table.rows[i], c)
      ensures Store.UidOf(e.table.rows[i]) == uid && c in data
        && c in Explode(',', fieldList) && c in TrimExplode(',', conf.edit.fields, true) && c != "uid"
    {
      assert t == u;
      assert c in allow;
    }
  }

  /** An edit of uid 0 leaves the table as it was. An edit that saves
      gives every allowed column the data has, other than uid, the
      submitted value, in every row of the edited non-zero uid. */
  lemma EditWritesValues(e: Effect, data: Data, conf: Config, fieldList: string, thePid: int,
                         authCode: string, world: World)
    ensures var r := SaveEffect(e, "edit", data, conf, fieldList, thePid, authCode, world);
      FieldInt(data, "uid") == 0 ==> r.table == e.table
    ensures var r := SaveEffect(e, "edit", data, conf, fieldList, thePid, authCode, world);
      var allow := AllowList(fieldList, conf.edit.fields);
      r.saved && !e.saved ==>
        forall i, c :: 0 <= i < |e.table.rows| && FieldInt(data, "uid") != 0
                       && Store.UidOf(e.table.rows[i]) == FieldInt(data, "uid")
                       && c in allow && c in data && c != "uid" ==>
          Get(r.table.rows[i], c) == AsString(data[c])
  {
    EditTable(e, data, conf, fieldList, thePid, authCode, world);
    Store.UpdateWritesOnly(e.table, FieldInt(data, "uid"), data, AllowList(fieldList, conf.edit.fields));
  }

  /** An enabled create appends one record under the next uid, whatever
      uid the data names: the storage pid (the data's own pid when the
      storage pid is negative), and the submitted value of every other
      allowed column the data has. currentArr is that record, read back;
      it reads back unless the allowlist let the data mark it deleted. */
  lemma CreateAppends(e: Effect, cmd: string, data: Data, conf: Config, fieldList: string, thePid: int,
                      authCode: string, world: World)
    requires cmd != "edit" && conf.createEnabled
    requires Store.ValidTable(e.table) && Store.NextUid(e.table) <= PHP_INT_MAX
    ensures var r := SaveEffect(e, cmd, data, conf, fieldList, thePid, authCode, world);
      var allow := AllowList(fieldList, conf.create.fields);
      var row := Store.NewRow(Store.NextUid(e.table), thePid, data, allow);
      r.saved && r.table.deleteField == e.table.deleteField
      && r.table.rows == e.table.rows + [row]
      && r.currentArr == (if Store.Live(e.table, row) then row else [])
      && (e.table.deleteField !in allow ==> r.currentArr == row)
      && Store.UidOf(row) == Store.NextUid(e.table)
      && Get(row, "pid") == (if thePid >= 0 then IntToStr(thePid) else if "pid" in data then AsString(data["pid"]) else "")
      && forall c :: c != "uid" && c != "pid" && c in allow && c in data ==> Get(row, c) == AsString(data[c])
  {
    var allow := AllowList(fieldList, conf.create.fields);
    var uid := Store.NextUid(e.table);
    CreateEffect(e, cmd, data, conf, fieldList, thePid, authCode, world);
    Store.InsertReads(e.table, thePid, data, allow);
    Store.NewRowColumns(uid, thePid, data, allow);
    NewRowReads(uid, thePid, data, allow);
  }

  /** An enabled create is the insert, with the new row read back. */
  lemma CreateEffect(e: Effect, cmd: string, data: Data, conf: Config, fieldList: string, thePid: int,
                     authCode: string, world: World)
    requires cmd != "edit" && conf.createEnabled
    ensures var r := SaveEffect(e, cmd, data, conf, fieldList, thePid, authCode, world);
      var ins := Store.Insert(e.table, thePid, data, AllowList(fieldList, conf.create.fields));
      r == Effect(ins.0, OrEmpty(Store.GetRaw(ins.0, ins.1)), true, e.error)
  {
  }

  /** The new row reads back as its uid, and as the storage pid when that
      is a non-negative PHP integer. */
  lemma NewRowReads(uid: nat, pid: int, data: Data, allow: seq<string>)
    requires uid <= PHP_INT_MAX
    ensures var row := Store.NewRow(uid, pid, data, allow);
      Store.UidOf(row) == uid && (0 <= pid <= PHP_INT_MAX ==> Store.PidOf(row) == pid)
  {
    Store.NewRowColumns(uid, pid, data, allow);
    IntValNatToStr(uid);
    if 0 <= pid <= PHP_INT_MAX {
      IntValNatToStr(pid);
    }
  }

  // ------------------------------------------------------ deleteRecord()

  /** deleteRecord() deletes exactly when delete is enabled, the record
      exists, and the user passes the gate and may change it. Then the
      record can no longer be read, every other record reads as before, and
      currentArr is the record as it was. Otherwise the table, currentArr
      and saved stay as they were. */
  lemma DeleteOutcome(e: Effect, conf: Config, recUid: string, authCode: string, world: World)
    requires Store.ValidTable(e.table)
    ensures var r := DeleteEffect(e, conf, recUid, authCode, world);
      var uid := IntVal(recUid);
      var orig := Store.GetRaw(e.table, uid);
      var deleted := conf.deleteEnabled && orig.Some? && Gate(world.loginUser, authCode, orig.value, conf.auth)
                     && May(world, authCode, orig.value, conf.auth);
      (deleted ==> r.saved && r.error == e.error && r.currentArr == orig.value
                   && Store.GetRaw(r.table, uid).None?
                   && forall other :: other != uid ==> Store.GetRaw(r.table, other) == Store.GetRaw(e.table, other))
      && (!deleted ==> r.table == e.table && r.currentArr == e.currentArr && r.saved == e.saved)
  {
    var r := DeleteEffect(e, conf, recUid, authCode, world);
    var uid := IntVal(recUid);
    var orig := Store.GetRaw(e.table, uid);
    if conf.deleteEnabled && orig.Some? && Gate(world.loginUser, authCode, orig.value, conf.auth)
       && May(world, authCode, orig.value, conf.auth) {
      assert r.table == Store.Delete(e.table, uid);
      Store.DeleteHides(e.table, uid);
      forall other | other != uid
        ensures Store.GetRaw(r.table, other) == Store.GetRaw(e.table, other)
      {
        Store.DeleteKeepsOthers(e.table, uid, other);
      }
    } else {
      DeleteError(e, conf, recUid, authCode, world);
    }
  }

  // ---------------------------------------------------- procesSetFixed()

  /** procesSetFixed() does nothing when setfixed is off, succeeds exactly
      when the aC code is the one the merged block and the stored record
      give (or, for a missing record, the digest of the keys alone), and
      changes the table and currentArr only when it succeeds. */
  lemma SetfixedOutcomes(table: Store.Table, currentArr: Row, conf: Config, recUid: string, authCode: string,
                         fieldList: string, sFK: string)
    ensures var f := SetfixedEffect(table, currentArr, conf, recUid, authCode, fieldList, sFK);
      var found := Store.GetRaw(table, IntVal(recUid));
      var block := Tokens.Block(conf.setfixed, sFK + ".");
      (f.outcome == SetfixedOff <==> !conf.setfixedEnabled)
      && (found.Some? ==>
            (f.outcome == SetfixedOk <==> conf.setfixedEnabled && authCode == Tokens.ProcessCode(found.value, block, conf.auth)))
      && (found.None? ==>
            var keysOnly := "|" + conf.auth.addKey + "|" + conf.auth.encKey;
            (f.outcome == SetfixedOk <==> conf.setfixedEnabled && authCode == Prefix(conf.auth.md5(keysOnly), Tokens.CodeLength(conf.auth))))
      && (f.outcome != SetfixedOk ==> f.table == table && f.currentArr == currentArr)
  {
    Tokens.MissingRecordCode(Tokens.Block(conf.setfixed, sFK + "."), conf.auth);
  }

  /** A successful DELETE hides the record and keeps every other one. */
  lemma SetfixedDeleteHides(table: Store.Table, currentArr: Row, conf: Config, recUid: string, authCode: string,
                            fieldList: string)
    requires Store.ValidTable(table)
    ensures var f := SetfixedEffect(table, currentArr, conf, recUid, authCode, fieldList, "DELETE");
      var uid := IntVal(recUid);
      f.outcome == SetfixedOk ==>
        Store.GetRaw(f.table, uid).None? && f.currentArr == currentArr
        && forall other :: other != uid ==> Store.GetRaw(f.table, other) == Store.GetRaw(table, other)
  {
    var f := SetfixedEffect(table, currentArr, conf, recUid, authCode, fieldList, "DELETE");
    var uid := IntVal(recUid);
    if f.outcome == SetfixedOk {
      assert f.table == Store.Delete(table, uid);
      Store.DeleteHides(table, uid);
      forall other | other != uid
        ensures Store.GetRaw(f.table, other) == Store.GetRaw(table, other)
      {
        Store.DeleteKeepsOthers(table, uid, other);
      }
    }
  }

  /** As written, a DELETE link whose aC is an array (aC[]=1) deletes the
      record of any rU, whatever its code. */
  lemma SetfixedArrayDeletes(table: Store.Table, currentArr: Row, conf: Config, recUid: string, items: seq<Item>,
                             fieldList: string)
    requires Store.ValidTable(table) && conf.setfixedEnabled
    ensures var f := SetfixedEffectAsWritten(table, currentArr, conf, recUid, Arr(items), fieldList, "DELETE");
      f.outcome == SetfixedOk && Store.GetRaw(f.table, IntVal(recUid)).None?
  {
    var sFK := "DELETE";
    var expected := Tokens.ExpectedCode(Store.GetRaw(table, IntVal(recUid)), Tokens.Block(conf.setfixed, sFK + "."), conf.auth);
    assert Tokens.StrcmpMatches(Arr(items), expected);
    SetfixedDeleteHides(table, currentArr, conf, recUid, expected, fieldList);
  }

  /** With aC cast to a string, as the class reads it, an array reads as
      "Array", which passes no setfixed check when md5() gives hexadecimal
      digits: procesSetFixed() fails and changes nothing. */
  lemma SetfixedArrayRefused(table: Store.Table, currentArr: Row, conf: Config, recUid: string, items: seq<Item>,
                             fieldList: string, sFK: string)
    requires Tokens.HexDigest(conf.auth) && conf.setfixedEnabled
    ensures var f := SetfixedEffect(table, currentArr, conf, recUid, AsString(Arr(items)), fieldList, sFK);
      f.outcome == SetfixedFailed && f.table == table && f.currentArr == currentArr
  {
    Tokens.CastArrayRefused(items, [], conf.auth);
  }

  /** The update of any other block changes only the rows of the record's
      uid, and in them only columns fe_admin_fieldList names that are keys
      of the merged block, never _FIELDLIST itself. */
  lemma SetfixedWritesOnly(table: Store.Table, currentArr: Row, conf: Config, recUid: string, authCode: string,
                           fieldList: string, sFK: string)
    requires sFK != "DELETE"
    ensures var f := SetfixedEffect(table, currentArr, conf, recUid, authCode, fieldList, sFK);
      var merged := Tokens.Merge(Tokens.Block(conf.setfixed, sFK + "."));
      f.table.deleteField == table.deleteField && |f.table.rows| == |table.rows|
      && forall i, c :: 0 <= i < |table.rows| && Get(f.table.rows[i], c) != Get(table.rows[i], c) ==>
           Store.UidOf(table.rows[i]) == IntVal(recUid) && c != "_FIELDLIST"
           && c in TrimExplode(',', fieldList, false)
           && c in TrimExplode(',', Implode(",", Keys(merged)), true)
  {
    var f := SetfixedEffect(table, currentArr, conf, recUid, authCode, fieldList, sFK);
    var merged := Tokens.Merge(Tokens.Block(conf.setfixed, sFK + "."));
    var u := Unset(merged, "_FIELDLIST");
    var t := Store.Update(table, IntVal(recUid), RowData(u), FixedAllowList(fieldList, merged));
    SetfixedTable(table, currentArr, conf, recUid, authCode, fieldList, sFK);
    Store.UpdateWritesOnly(table, IntVal(recUid), RowData(u), FixedAllowList(fieldList, merged));
    RowDataKeys(u);
    assert f.table == table || f.table == t;
    forall i, c | 0 <= i < |table.rows| && Get(f.table.rows[i], c) != Get(table.rows[i], c)
      ensures Store.UidOf(table.rows[i]) == IntVal(recUid) && c != "_FIELDLIST"
      ensures c in FixedAllowList(fieldList, merged)
    {
      assert f.table == t;
      assert Has(u, c);
    }
  }

  /** Any block but DELETE leaves the table as it was or updates the
      record's uid with the block's values over the setfixed allowlist. */
  lemma SetfixedTable(table: Store.Table, currentArr: Row, conf: Config, recUid: string, authCode: string,
                      fieldList: string, sFK: string)
    requires sFK != "DELETE"
    ensures var f := SetfixedEffect(table, currentArr, conf, recUid, authCode, fieldList, sFK);
      var merged := Tokens.Merge(Tokens.Block(conf.setfixed, sFK + "."));
      f.table == table
      || f.table == Store.Update(table, IntVal(recUid), RowData(Unset(merged, "_FIELDLIST")), FixedAllowList(fieldList, merged))
  {
  }

  /** A field of the data an option array gives is one of its keys. */
  lemma RowDataKeys(u: Row)
    ensures forall c :: c in RowData(u) ==> Has(u, c)
  {
    forall c | c in RowData(u) ensures Has(u, c) {
      var j :| 0 <= j < |u| && u[j].0 == c;
    }
  }

  /** The link for a block, made from the record as stored, is accepted:
      its code is the one procesSetFixed() expects. For sFK "DELETE" this
      is the corrected DELETE link, and the record is then deleted. */
  lemma BlockLinkAccepted(table: Store.Table, currentArr: Row, conf: Config, r: Row, fieldList: string, sFK: string)
    requires conf.setfixedEnabled && Store.GetRaw(table, Store.UidOf(r)) == Some(r)
    requires UniqueKeys(Tokens.Block(conf.setfixed, sFK + "."))
    ensures var code := Tokens.BlockCode(Tokens.Block(conf.setfixed, sFK + "."), r, conf.auth);
      SetfixedEffect(table, currentArr, conf, Get(r, "uid"), code, fieldList, sFK).outcome == SetfixedOk
  {
    Tokens.BlockLinkVerifies(Tokens.Block(conf.setfixed, sFK + "."), r, conf.auth);
  }
}
