/**
 * The plugin object itself: the request and configuration init() reads,
 * the fields its steps update ($this->dataArr, failure, failureMsg,
 * markerArray, preview, saved, error, currentArr), and the record table it
 * writes. Every step is a method that does what the source does, statement
 * by statement, and is proved against the function of the other modules
 * that states what that step computes.
 */
module PluginClass {
  import opened PhpStrings
  import opened PhpValues
  import Store
  import Transforms
  import Validation
  import Tokens
  import Helpers
  import FormUpdate

  /** The settings of one command key (conf['create.'] or conf['edit.']). */
  datatype CmdConf = CmdConf(
    fields: string,
    required: string,
    preview: bool,
    evalValues: Option<Row>,
    overrideValues: Option<Row>,
    defaultValues: Option<Row>)

  /** The TypoScript configuration and the TCA facts the lifecycle reads.
      tcaFieldList is the table's feInterface fe_admin_fieldList; pid is
      intval(conf['pid']) and pageId the current page. */
  datatype Config = Config(
    templatePresent: bool,
    tableName: string,
    tcaFieldList: string,
    pid: int,
    pageId: int,
    createEnabled: bool,
    editEnabled: bool,
    deleteEnabled: bool,
    setfixedEnabled: bool,
    create: CmdConf,
    edit: CmdConf,
    parseValues: Option<Row>,
    setfixed: Tokens.SetfixedConf,
    auth: Tokens.AuthConf,
    evalErrors: map<string, Row>,
    defaultCmd: string)

  /** The GET/POST parameters: cmd, preview, backURL, rU, aC, FE[table],
      doNotSave and sFK. aC is a value, because a request can send it as an
      array (aC[]=1). */
  datatype Request = Request(
    cmd: string,
    preview: string,
    backURL: string,
    rU: string,
    aC: Value,
    fe: Option<Data>,
    doNotSave: bool,
    sFK: string)

  /** What TYPO3 and PHP answer: whether a user is logged in,
      DBmayFEUserEdit() for a record, validEmail(), getTreeList(), whether
      the captcha extension is loaded, and the string "random" reads. */
  datatype World = World(
    loginUser: bool,
    mayEdit: Row -> bool,
    validEmail: string -> bool,
    treeList: (int, int, int) -> string,
    captchaLoaded: bool,
    entropy: string)

  /** The screens init() ends with. */
  datatype SetfixedOutcome = SetfixedOff | SetfixedOk | SetfixedFailed
  datatype Screen =
    | NoTemplate
    | WrongTable
    | SavedScreen(key: string)
    | ErrorScreen(subpart: string)
    | SetfixedScreen(outcome: SetfixedOutcome)
    | FormScreen(cmd: string)

  const NoPermissions := "###TEMPLATE_NO_PERMISSIONS###"

  /** $this->cmdKey: "edit" for the edit command, "create" for all others. */
  function CmdKey(cmd: string): (k: string)
    ensures k == "edit" || k == "create"
    ensures k == "edit" <==> cmd == "edit"
  {
    if cmd == "edit" then "edit" else "create"
  }

  /** is_array($this->dataArr) and a key other than "captcha". */
  predicate Submitted(fe: Option<Data>) {
    fe.Some? && exists k :: k in fe.value && k != "captcha"
  }

  /** The fields save() writes: fe_admin_fieldList intersected with the
      command's fields list. */
  function AllowList(fieldList: string, fields: string): (r: seq<string>)
    ensures forall c {:trigger c in r} :: c in r <==> c in Explode(',', fieldList) && c in TrimExplode(',', fields, true)
  {
    Intersect(Explode(',', fieldList), TrimExplode(',', fields, true))
  }

  /** A record getRawRecord() did not find reads as an empty array. */
  function OrEmpty(r: Option<Row>): Row {
    if r.Some? then r.value else []
  }

  /** foreach ($values as $field => $value) { $data[$field] = $value; } */
  function Assigned(d: Data, values: Row): (r: Data)
    ensures r.Keys == d.Keys + set i | 0 <= i < |values| :: values[i].0
  {
    if |values| == 0 then d
    else
      var last := values[|values| - 1];
      var prev := values[..|values| - 1];
      assert (set i | 0 <= i < |values| :: values[i].0)
          == (set i | 0 <= i < |prev| :: prev[i].0) + {last.0};
      Assigned(d, prev)[last.0 := Str(last.1)]
  }

  /** An option array's entries win; fields it does not name keep their
      value. */
  lemma {:induction false} AssignedGet(d: Data, values: Row, k: string)
    requires UniqueKeys(values)
    ensures Has(values, k) ==> Assigned(d, values)[k] == Str(Get(values, k))
    ensures !Has(values, k) ==> (k in Assigned(d, values) <==> k in d)
    ensures !Has(values, k) && k in d ==> Assigned(d, values)[k] == d[k]
  {
    if |values| > 0 {
      var last := values[|values| - 1];
      var prev := values[..|values| - 1];
      GetPrefix(values, k);
      assert Assigned(d, values) == Assigned(d, prev)[last.0 := Str(last.1)];
      if last.0 != k {
        assert UniqueKeys(prev);
        if Has(prev, k) {
          var i :| 0 <= i < |prev| && prev[i].0 == k;
          assert values[i].0 == k;
        }
        if Has(values, k) {
          var i :| 0 <= i < |values| && values[i].0 == k;
          assert prev[i].0 == k;
        }
        AssignedGet(d, prev, k);
      }
    }
  }

  /** The record as DBgetUpdate() receives an option array. */
  function RowData(r: Row): Data {
    Assigned(map[], r)
  }

  /** The inner loop of parseValues(): one field's directives, in order. */
  method ApplyDirectives(start: Data, theField: string, ds: seq<Transforms.Directive>, env: Transforms.Env)
    returns (data: Data)
    ensures data == Transforms.ApplyAll(start, theField, ds, env)
  {
    data := start;
    var j := 0;
    while j < |ds|
      invariant 0 <= j <= |ds|
      invariant data == Transforms.ApplyAll(start, theField, ds[..j], env)
    {
      data := Transforms.Apply(ds[j], data, theField, env);
      assert ds[..j + 1][..j] == ds[..j];
      j := j + 1;
    }
    assert ds[..j] == ds;
  }

  /** The outer loop of parseValues(): every configured field. */
  method ParsedData(data0: Data, pconf: Row, env: Transforms.Env) returns (data: Data)
    ensures data == Transforms.ParseAll(data0, pconf, env)
  {
    data := data0;
    var i := 0;
    while i < |pconf|
      invariant 0 <= i <= |pconf|
      invariant data == Transforms.ParseAll(data0, pconf[..i], env)
    {
      var (theField, theValue) := pconf[i];
      data := ApplyDirectives(data, theField, Transforms.Directives(theValue), env);
      Transforms.ParseAllStep(data0, pconf, env, i);
      i := i + 1;
    }
    assert pconf[..i] == pconf;
  }

  /** The loop of procesSetFixed(): the block's values put into the record,
      and the list of their keys. */
  method MergeRecord(origArr: Row, values: Row) returns (rec: Row, fieldArr: seq<string>)
    ensures rec == AssignAll(origArr, values)
    ensures fieldArr == Keys(values)
  {
    fieldArr := [];
    rec := origArr;
    var i := 0;
    while i < |values|
      invariant 0 <= i <= |values|
      invariant rec == AssignAll(origArr, values[..i])
      invariant fieldArr == Keys(values[..i])
    {
      var (field, value) := values[i];
      rec := Assign(rec, field, value);
      fieldArr := fieldArr + [field];
      AssignAllStep(origArr, values, i);
      KeysStep(values, i);
      i := i + 1;
    }
    assert values[..i] == values;
  }

  /** The required pass of evalValues(): the required fields left blank. */
  method RequiredPass(req: seq<string>, data: Data) returns (tempArr: seq<string>)
    ensures tempArr == Validation.RequiredFailures(req, data)
  {
    tempArr := [];
    var i := 0;
    while i < |req|
      invariant 0 <= i <= |req|
      invariant tempArr == Validation.RequiredFailures(req[..i], data)
    {
      var theField := req[i];
      if Validation.Blank(FieldString(data, theField)) {
        tempArr := tempArr + [theField];
      }
      Validation.RequiredFailuresStep(req, data, i);
      i := i + 1;
    }
    assert req[..i] == req;
  }

  /** The inner loop of evalValues(): one field's commands, in order. */
  method CheckCommands(st0: Validation.EvalState, theField: string, cmds: seq<string>,
                       env: Validation.EvalEnv, ctx: Validation.TestContext)
    returns (st: Validation.EvalState)
    ensures st == Validation.RunChecks(st0, theField, cmds, env, ctx)
  {
    st := st0;
    var j := 0;
    while j < |cmds|
      invariant 0 <= j <= |cmds|
      invariant st == Validation.RunChecks(st0, theField, cmds[..j], env, ctx)
    {
      st := Validation.RunCheck(st, theField, cmds[j], env, ctx);
      Validation.RunChecksStep(st0, theField, cmds, env, ctx, j);
      j := j + 1;
    }
    assert cmds[..j] == cmds;
  }

  /** The outer loop of evalValues(): every configured field's commands,
      then its error marker. */
  method CheckFields(st0: Validation.EvalState, econf: Row, env: Validation.EvalEnv, ctx: Validation.TestContext)
    returns (st: Validation.EvalState)
    ensures st == Validation.RunFields(st0, econf, env, ctx)
  {
    st := st0;
    var k := 0;
    while k < |econf|
      invariant 0 <= k <= |econf|
      invariant st == Validation.RunFields(st0, econf[..k], env, ctx)
    {
      var (theField, theValue) := econf[k];
      st := CheckCommands(st, theField, TrimExplode(',', theValue, true), env, ctx);
      st := st.(markers := st.markers[Validation.MarkerOf(theField) :=
        if theField in st.msgs then Implode("<br />", st.msgs[theField]) else ""]);
      Validation.RunFieldsStep(st0, econf, env, ctx, k);
      k := k + 1;
    }
    assert econf[..k] == econf;
  }

  /** The part of the plugin's state that save() and deleteRecord() change:
      the table, $this->currentArr, $this->saved and $this->error. */
  datatype Effect = Effect(table: Store.Table, currentArr: Row, saved: bool, error: string)

  /** The login-or-code gate of save() and deleteRecord(). */
  predicate Gate(loginUser: bool, authCode: string, orig: Row, c: Tokens.AuthConf) {
    loginUser || Tokens.ACAuth(authCode, orig, c)
  }

  /** The right to change the record: its code, or DBmayFEUserEdit(). */
  predicate May(world: World, authCode: string, orig: Row, c: Tokens.AuthConf) {
    Tokens.ACAuth(authCode, orig, c) || world.mayEdit(orig)
  }

  /** What save() does to that state. */
  function SaveEffect(e: Effect, cmd: string, data: Data, conf: Config, fieldList: string, thePid: int,
                      authCode: string, world: World): Effect
  {
    if cmd == "edit" then
      var uid := FieldInt(data, "uid");
      var orig := OrEmpty(Store.GetRaw(e.table, uid));
      if conf.editEnabled && Gate(world.loginUser, authCode, orig, conf.auth) then
        if May(world, authCode, orig, conf.auth) then
          var t := Store.Update(e.table, uid, data, AllowList(fieldList, conf.edit.fields));
          Effect(t, OrEmpty(Store.GetRaw(t, uid)), true, e.error)
        else e.(error := NoPermissions)
      else e
    else if conf.createEnabled then
      var ins := Store.Insert(e.table, thePid, data, AllowList(fieldList, conf.create.fields));
      Effect(ins.0, OrEmpty(Store.GetRaw(ins.0, ins.1)), true, e.error)
    else e
  }

  /** What deleteRecord() does to that state. */
  function DeleteEffect(e: Effect, conf: Config, recUid: string, authCode: string, world: World): Effect {
    if conf.deleteEnabled then
      var uid := IntVal(recUid);
      var orig := Store.GetRaw(e.table, uid);
      if Gate(world.loginUser, authCode, OrEmpty(orig), conf.auth) && orig.Some? then
        if May(world, authCode, orig.value, conf.auth) then
          Effect(Store.Delete(e.table, uid), orig.value, true, e.error)
        else e.(error := NoPermissions)
      else e
    else e
  }

  /** save() sets $this->error only to the missing-permissions subpart: on
      an edit that passes the login-or-code gate without the right to edit
      the record, and then changes nothing else. */
  lemma SaveError(e: Effect, cmd: string, data: Data, conf: Config, fieldList: string, thePid: int,
                  authCode: string, world: World)
    ensures var r := SaveEffect(e, cmd, data, conf, fieldList, thePid, authCode, world);
      var orig := OrEmpty(Store.GetRaw(e.table, FieldInt(data, "uid")));
      var refused := cmd == "edit" && conf.editEnabled && Gate(world.loginUser, authCode, orig, conf.auth)
                     && !May(world, authCode, orig, conf.auth);
      (refused ==> r == e.(error := NoPermissions)) && (!refused ==> r.error == e.error)
  {
  }

  /** deleteRecord() sets $this->error only to the missing-permissions
      subpart: for a live record that passes the login-or-code gate without
      the right to edit it, and then changes nothing else. */
  lemma DeleteError(e: Effect, conf: Config, recUid: string, authCode: string, world: World)
    ensures var r := DeleteEffect(e, conf, recUid, authCode, world);
      var orig := Store.GetRaw(e.table, IntVal(recUid));
      var refused := conf.deleteEnabled && orig.Some? && Gate(world.loginUser, authCode, orig.value, conf.auth)
                     && !May(world, authCode, orig.value, conf.auth);
      (refused ==> r == e.(error := NoPermissions)) && (!refused ==> r.error == e.error)
  {
  }

  /** save() leaves $this->error as it was or sets it to the
      missing-permissions subpart. */
  lemma SaveErrorOnly(e: Effect, cmd: string, data: Data, conf: Config, fieldList: string, thePid: int,
                      authCode: string, world: World)
    ensures var r := SaveEffect(e, cmd, data, conf, fieldList, thePid, authCode, world);
      r.error == e.error || r.error == NoPermissions
  {
    SaveError(e, cmd, data, conf, fieldList, thePid, authCode, world);
  }

  /** deleteRecord() leaves $this->error as it was or sets it to the
      missing-permissions subpart. */
  lemma DeleteErrorOnly(e: Effect, conf: Config, recUid: string, authCode: string, world: World)
    ensures var r := DeleteEffect(e, conf, recUid, authCode, world);
      r.error == e.error || r.error == NoPermissions
  {
    DeleteError(e, conf, recUid, authCode, world);
  }

  /** The outcome of procesSetFixed(), the table and $this->currentArr after
      it. */
  datatype Fixed = Fixed(outcome: SetfixedOutcome, table: Store.Table, currentArr: Row)

  /** The fields a setfixed update may write: fe_admin_fieldList
      intersected with the keys of the merged block. */
  function FixedAllowList(fieldList: string, merged: Row): (r: seq<string>)
    ensures forall c {:trigger c in r} :: c in r <==> c in TrimExplode(',', fieldList, false) && c in TrimExplode(',', Implode(",", Keys(merged)), true)
  {
    Intersect(TrimExplode(',', fieldList, false), TrimExplode(',', Implode(",", Keys(merged)), true))
  }

  /** What procesSetFixed() does: nothing unless setfixed is enabled and the
      aC code is the one the merged block and the stored record give; then
      DELETE deletes the record and any other block writes its values. */
  function SetfixedEffect(table: Store.Table, currentArr: Row, conf: Config, recUid: string, authCode: string,
                          fieldList: string, sFK: string): Fixed
  {
    if !conf.setfixedEnabled then Fixed(SetfixedOff, table, currentArr)
    else
      var uid := IntVal(recUid);
      var block := Tokens.Block(conf.setfixed, sFK + ".");
      if authCode != Tokens.ExpectedCode(Store.GetRaw(table, uid), block, conf.auth) then Fixed(SetfixedFailed, table, currentArr)
      else if sFK == "DELETE" then Fixed(SetfixedOk, Store.Delete(table, uid), currentArr)
      else
        var merged := Tokens.Merge(block);
        var t := Store.Update(table, uid, RowData(Unset(merged, "_FIELDLIST")), FixedAllowList(fieldList, merged));
        Fixed(SetfixedOk, t, OrEmpty(Store.GetRaw(t, uid)))
  }

  /** procesSetFixed() as written, on the aC parameter as _GP() returns
      it: the block runs when !strcmp() passes, which is as if the expected
      code had been presented. */
  function SetfixedEffectAsWritten(table: Store.Table, currentArr: Row, conf: Config, recUid: string, aC: Value,
                                   fieldList: string, sFK: string): Fixed
  {
    var expected := Tokens.ExpectedCode(Store.GetRaw(table, IntVal(recUid)), Tokens.Block(conf.setfixed, sFK + "."), conf.auth);
    var presented := if Tokens.StrcmpMatches(aC, expected) then expected else AsString(aC);
    SetfixedEffect(table, currentArr, conf, recUid, presented, fieldList, sFK)
  }

  class Plugin {
    // configuration and request, as init() reads them
    var conf: Config
    var cmd: string
    var cmdKey: string
    var backURL: string
    var recUid: string
    var authCode: string
    var fieldList: string
    var thePid: int
    var requiredArr: seq<string>
    var doNotSave: bool
    // state the steps update
    var dataArr: Data
    var failure: string
    var failureMsg: map<string, seq<string>>
    var markerArray: map<string, string>
    var preview: bool
    var saved: bool
    var error: string
    var currentArr: Row
    var table: Store.Table
    var session: string

    /** A plugin with its configuration, the table as stored, and the
        session's captcha string. */
    constructor (conf: Config, table: Store.Table, session: string)
      ensures this.conf == conf && this.table == table && this.session == session
      ensures dataArr == map[] && failure == "" && failureMsg == map[] && markerArray == map[]
      ensures !preview && !saved && error == "" && currentArr == []
    {
      this.conf := conf;
      this.table := table;
      this.session := session;
      cmd, cmdKey, backURL, recUid, authCode, fieldList := "", "create", "", "", "", "";
      thePid, requiredArr, doNotSave := 0, [], false;
      dataArr, failure, failureMsg, markerArray := map[], "", map[], map[];
      preview, saved, error, currentArr := false, false, "", [];
    }

    /** $this->conf[$this->cmdKey . '.']. */
    function CmdConfig(): CmdConf
      reads this`cmdKey, this`conf
    {
      if cmdKey == "edit" then conf.edit else conf.create
    }

    /** isPreview(): the command allows a preview and one was asked for. */
    predicate IsPreview()
      reads this`cmdKey, this`conf, this`preview
    {
      CmdConfig().preview && preview
    }

    /** What parseValues() reads besides the record. */
    function ParseEnv(world: World): Transforms.Env
      reads this`cmdKey, this`doNotSave, this`conf
    {
      Transforms.Env(cmdKey, doNotSave, world.entropy, conf.auth.md5)
    }

    /** What evalValues() reads besides the record. */
    function EvalEnv(world: World): Validation.EvalEnv
      reads this`cmd, this`table, this`thePid, this`conf
    {
      Validation.EvalEnv(cmd, table, thePid, conf.evalErrors, world.validEmail, world.treeList)
    }

    /** aCAuth($r) with the code of the aC parameter. */
    predicate ACAuth(r: Row)
      reads this`authCode, this`conf
    {
      Tokens.ACAuth(authCode, r, conf.auth)
    }

    /** The record as modifyDataArrForFormUpdate() prepares it for the
        edit and create forms. */
    function FormValues(): (r: FormUpdate.FormData)
      reads this`dataArr, this`cmdKey, this`conf, this`preview
      ensures forall k :: k in r.data ==> FormUpdate.NoTags(r.data[k])
    {
      FormUpdate.ModifyDataArrForFormUpdate(dataArr, CmdConfig().evalValues, conf.parseValues, IsPreview())
    }

    // ------------------------------------------------------- parseValues

    /** parseValues(): each configured field gets its directives, in
        configuration order. */
    method ParseValues(world: World)
      modifies this`dataArr
      ensures dataArr == if conf.parseValues.Some? then Transforms.ParseAll(old(dataArr), conf.parseValues.value, ParseEnv(world))
                         else old(dataArr)
    {
      if conf.parseValues.None? {
        return;
      }
      var env := ParseEnv(world);
      dataArr := ParsedData(dataArr, conf.parseValues.value, env);
    }

    // ---------------------------------------- overrideValues, defaultValues

    /** The loop both overrideValues() and defaultValues() run. */
    method AssignValues(values: Row)
      modifies this`dataArr
      ensures dataArr == Assigned(old(dataArr), values)
    {
      var i := 0;
      while i < |values|
        invariant 0 <= i <= |values|
        invariant dataArr == Assigned(old(dataArr), values[..i])
      {
        var (theField, theValue) := values[i];
        dataArr := dataArr[theField := Str(theValue)];
        assert values[..i + 1][..i] == values[..i];
        i := i + 1;
      }
      assert values[..i] == values;
    }

    /** overrideValues(): the command's overrideValues. are written over the
        submitted record. */
    method OverrideValues()
      modifies this`dataArr
      ensures CmdConfig().overrideValues.Some? ==> dataArr == Assigned(old(dataArr), CmdConfig().overrideValues.value)
      ensures CmdConfig().overrideValues.None? ==> dataArr == old(dataArr)
    {
      if CmdConfig().overrideValues.Some? {
        AssignValues(CmdConfig().overrideValues.value);
      }
    }

    /** defaultValues(): with nothing submitted, the command's
        defaultValues. fill in the record. */
    method DefaultValues()
      modifies this`dataArr
      ensures CmdConfig().defaultValues.Some? ==> dataArr == Assigned(old(dataArr), CmdConfig().defaultValues.value)
      ensures CmdConfig().defaultValues.None? ==> dataArr == old(dataArr)
    {
      if CmdConfig().defaultValues.Some? {
        AssignValues(CmdConfig().defaultValues.value);
      }
    }

    // -------------------------------------------------------- evalValues

    /** evalValues(): the required pass, then, with evalValues. configured,
        every field's checks, its error marker and the captcha entry; the
        failure string is the list joined with ",". */
    method EvalValues(world: World)
      modifies this`failure, this`failureMsg, this`dataArr, this`markerArray, this`session
      ensures var ev := old(Validation.Evaluate(dataArr, failureMsg, markerArray, requiredArr, CmdConfig().evalValues,
                                                EvalEnv(world), Validation.Captcha(world.captchaLoaded, session)));
        (failure, dataArr, failureMsg, markerArray, session) == (ev.failure, ev.st.data, ev.st.msgs, ev.st.markers, ev.session)
    {
      var env, econf, cap := EvalEnv(world), CmdConfig().evalValues, Validation.Captcha(world.captchaLoaded, session);
      var data0, msgs0, markers0, req := dataArr, failureMsg, markerArray, requiredArr;
      var tempArr := RequiredPass(req, data0);
      var st := Validation.EvalState(tempArr, msgs0, data0, markers0);
      var sess := cap.session;
      if econf.Some? {
        st := CheckFields(st, econf.value, env, Validation.RecordTestPid(env, data0));
        var checked := Validation.CheckCaptcha(st, env, cap);
        st, sess := checked.st, checked.session;
      }
      failure := Implode(",", st.temp);
      failureMsg, dataArr, markerArray, session := st.msgs, st.data, st.markers, sess;
    }

    // -------------------------------------------------------------- save

    /** save(): an edit updates the record named by the submitted uid when
        editing is enabled, the user is logged in or holds the record's code,
        and the user may edit it (or holds the code); otherwise, with the
        login-or-code gate passed, it reports missing permissions. A create
        inserts a new record into the storage folder when creating is
        enabled. Only allowlisted fields are written. */
    method Save(world: World)
      modifies this`table, this`currentArr, this`saved, this`error
      ensures Effect(table, currentArr, saved, error)
           == old(SaveEffect(Effect(table, currentArr, saved, error), cmd, dataArr, conf, fieldList, thePid, authCode, world))
    {
      var t, cur, sv, err := table, currentArr, saved, error;
      if cmd == "edit" {
        var theUid := FieldInt(dataArr, "uid");
        var origArr := OrEmpty(Store.GetRaw(t, theUid));
        if conf.editEnabled && Gate(world.loginUser, authCode, origArr, conf.auth) {
          var newFieldList := AllowList(fieldList, conf.edit.fields);
          if May(world, authCode, origArr, conf.auth) {
            t := Store.Update(t, theUid, dataArr, newFieldList);
            cur := OrEmpty(Store.GetRaw(t, theUid));
            sv := true;
          } else {
            err := NoPermissions;
          }
        }
      } else {
        if conf.createEnabled {
          var newFieldList := AllowList(fieldList, conf.create.fields);
          var ins := Store.Insert(t, thePid, dataArr, newFieldList);
          t := ins.0;
          cur := OrEmpty(Store.GetRaw(t, ins.1));
          sv := true;
        }
      }
      table, currentArr, saved, error := t, cur, sv, err;
    }

    // ------------------------------------------------------ deleteRecord

    /** deleteRecord(): with deleting enabled, a logged-in user or the
        holder of the record's code deletes the live record named by rU if
        the user may edit it (or holds the code), and is told about missing
        permissions otherwise. */
    method DeleteRecord(world: World)
      modifies this`table, this`currentArr, this`saved, this`error
      ensures Effect(table, currentArr, saved, error)
           == old(DeleteEffect(Effect(table, currentArr, saved, error), conf, recUid, authCode, world))
    {
      var t, cur, sv, err := table, currentArr, saved, error;
      if conf.deleteEnabled {
        var theUid := IntVal(recUid);
        var origArr := Store.GetRaw(t, theUid);
        if Gate(world.loginUser, authCode, OrEmpty(origArr), conf.auth) {
          if origArr.Some? {
            if May(world, authCode, origArr.value, conf.auth) {
              t := Store.Delete(t, theUid);
              cur := origArr.value;
              sv := true;
            } else {
              err := NoPermissions;
            }
          }
        }
      }
      table, currentArr, saved, error := t, cur, sv, err;
    }

    // ---------------------------------------------------- procesSetFixed

    /** procesSetFixed(): the option block named by sFK is merged (its
        _FIELDLIST filled in) and put into the stored record; the record is
        changed only when the aC code equals the setfixedHash of that
        record over the merged list: DELETE deletes it, any other block
        writes its values, limited to fe_admin_fieldList. */
    method ProcesSetFixed(sFK: string) returns (outcome: SetfixedOutcome)
      modifies this`table, this`currentArr
      ensures Fixed(outcome, table, currentArr)
           == old(SetfixedEffect(table, currentArr, conf, recUid, authCode, fieldList, sFK))
    {
      if !conf.setfixedEnabled {
        return SetfixedOff;
      }
      var theUid := IntVal(recUid);
      var found := Store.GetRaw(table, theUid);
      var values := Tokens.Merge(Tokens.Block(conf.setfixed, sFK + "."));
      // the merged block always holds _FIELDLIST, so it is never empty and
      // the SETFIXED_FAILED branch for an empty block cannot be taken
      var rec, fieldArr := MergeRecord(OrEmpty(found), values);
      // without a record $origArr is 0: the assignments leave it so, and the
      // hash is taken of no values over no field list
      var theCode := if found.Some? then Tokens.SetfixedHash(rec, Get(rec, "_FIELDLIST"), conf.auth)
                     else Tokens.SetfixedHash([], "", conf.auth);
      var t, cur := table, currentArr;
      if authCode == theCode {
        if sFK == "DELETE" {
          t := Store.Delete(t, theUid);
        } else {
          var newFieldList := Intersect(TrimExplode(',', fieldList, false),
                                        TrimExplode(',', Implode(",", fieldArr), true));
          t := Store.Update(t, theUid, RowData(Unset(values, "_FIELDLIST")), newFieldList);
          cur := OrEmpty(Store.GetRaw(t, theUid));
        }
        outcome := SetfixedOk;
      } else {
        outcome := SetfixedFailed;
      }
      table, currentArr := t, cur;
    }

    // -------------------------------------------------------------- init

    /** The first part of init(): the request parameters, the storage pid
        and the table's field list. aC is cast to a string, as cmd and
        preview are, which is the corrected reading (see
        Lifecycle.SetfixedArrayRefused). */
    method ReadRequest(req: Request)
      modifies this`cmd, this`preview, this`recUid, this`authCode, this`doNotSave, this`thePid, this`fieldList
      ensures cmd == req.cmd && preview == TruthyStr(req.preview) && doNotSave == req.doNotSave
      ensures recUid == req.rU && authCode == AsString(req.aC)
      ensures thePid == if conf.pid != 0 then conf.pid else conf.pageId
      ensures fieldList == Implode(",", TrimExplode(',', conf.tcaFieldList, true))
    {
      cmd, preview, recUid, authCode, doNotSave := req.cmd, TruthyStr(req.preview), req.rU, AsString(req.aC), req.doNotSave;
      thePid := if conf.pid != 0 then conf.pid else conf.pageId;
      fieldList := Implode(",", TrimExplode(',', conf.tcaFieldList, true));
    }

    /** backURL, scrubbed of XSS and of every scheme://host, and its three
        markers. The scrub is the corrected one, which repeats the host
        removal until no host is left. */
    method ReadBackUrl(req: Request)
      modifies this`backURL, this`markerArray
      ensures backURL == Helpers.ScrubBackUrlFixed(req.backURL)
      ensures markerArray == old(markerArray)["###BACK_URL###" := backURL]
                                             ["###BACK_URL_ENC###" := RawUrlEncode(backURL)]
                                             ["###BACK_URL_HSC###" := SpecialChars(backURL, true)]
    {
      var bu := Helpers.ScrubBackUrlFixed(req.backURL);
      var markers := markerArray["###BACK_URL###" := bu]
                                ["###BACK_URL_ENC###" := RawUrlEncode(bu)]
                                ["###BACK_URL_HSC###" := SpecialChars(bu, true)];
      backURL, markerArray := bu, markers;
    }

    /** The command key, the required fields of the command that its field
        list names, and the submitted record. */
    method ReadCommand(req: Request)
      modifies this`cmdKey, this`requiredArr, this`dataArr
      ensures cmdKey == CmdKey(req.cmd)
      ensures var cc := CmdConfig(); requiredArr == Validation.RequiredArr(cc.required, cc.fields)
      ensures dataArr == if req.fe.Some? then req.fe.value else map[]
    {
      var key := CmdKey(req.cmd);
      var cc := if key == "edit" then conf.edit else conf.create;
      cmdKey, requiredArr := key, Validation.RequiredArr(cc.required, cc.fields);
      dataArr := if req.fe.Some? then req.fe.value else map[];
    }

    /** The record is saved when nothing failed and it is neither a preview
        nor doNotSave. */
    method SaveStep(world: World)
      modifies this`table, this`currentArr, this`saved, this`error
      ensures table != old(table) || saved != old(saved) || error != old(error) ==>
        !TruthyStr(failure) && !preview && !doNotSave
      ensures error == old(error) || error == NoPermissions
    {
      if !TruthyStr(failure) && !preview && !doNotSave {
        ghost var e := Effect(table, currentArr, saved, error);
        SaveErrorOnly(e, cmd, dataArr, conf, fieldList, thePid, authCode, world);
        ghost var r := SaveEffect(e, cmd, dataArr, conf, fieldList, thePid, authCode, world);
        Save(world);
        assert !TruthyStr(failure) && !preview && !doNotSave;
        assert error == r.error;
      }
    }

    /** Submitted data is parsed, overridden and evaluated, then SaveStep()
        runs. */
    method Submit(world: World)
      modifies this`table, this`currentArr, this`saved, this`error, this`dataArr, this`failure, this`failureMsg,
               this`markerArray, this`session
      ensures table != old(table) || saved != old(saved) || error != old(error) ==>
        !TruthyStr(failure) && !preview && !doNotSave
      ensures error == old(error) || error == NoPermissions
    {
      ParseValues(world);
      OverrideValues();
      EvalValues(world);
      SaveStep(world);
    }

    /** A delete command deletes the record, unless it is a preview or
        doNotSave is set. */
    method DeleteStep(world: World)
      modifies this`table, this`currentArr, this`saved, this`error
      ensures table != old(table) || saved != old(saved) || error != old(error) ==>
        cmd == "delete" && !preview && !doNotSave
      ensures error == old(error) || error == NoPermissions
    {
      if cmd == "delete" && !preview && !doNotSave {
        ghost var e := Effect(table, currentArr, saved, error);
        DeleteErrorOnly(e, conf, recUid, authCode, world);
        ghost var r := DeleteEffect(e, conf, recUid, authCode, world);
        DeleteRecord(world);
        assert cmd == "delete" && !preview && !doNotSave;
        assert error == r.error;
      }
    }

    /** The middle part of init(): a delete command deletes unless it is a
        preview or doNotSave is set; submitted data goes through Submit();
        without submitted data the defaults are filled in. No preview is
        shown without submitted data or after a failure. */
    method Process(submitted: bool, world: World)
      modifies this`table, this`currentArr, this`saved, this`error, this`dataArr, this`failure, this`failureMsg,
               this`markerArray, this`session, this`preview
      ensures var deletes := cmd == "delete" && !old(preview) && !doNotSave;
        var saves := submitted && !TruthyStr(failure) && !old(preview) && !doNotSave;
        (table != old(table) || saved != old(saved) || error != old(error) ==> deletes || saves)
      ensures !submitted ==> failure == old(failure)
      ensures error == old(error) || error == NoPermissions
      ensures preview <==> old(preview) && submitted && !TruthyStr(failure)
    {
      DeleteStep(world);
      if submitted {
        Submit(world);
      } else {
        DefaultValues();
        preview := false;
      }
      if TruthyStr(failure) {
        preview := false;
      }
    }

    /** The last part of init(): the saved screen after a save or a delete,
        the error screen after missing permissions, and otherwise the
        command (the default command when none was given), where setfixed
        runs procesSetFixed(). */
    method Display(sFK: string) returns (screen: Screen)
      modifies this`cmd, this`table, this`currentArr
      ensures saved ==> screen == SavedScreen(if old(cmd) == "delete" then "DELETE" else if old(cmd) == "edit" then "EDIT" else "CREATE")
      ensures !saved && error != "" ==> screen == ErrorScreen(error)
      ensures !saved && error == "" ==> cmd == if TruthyStr(old(cmd)) then old(cmd) else conf.defaultCmd
      ensures !saved && error == "" && cmd == "setfixed" ==>
        screen == SetfixedScreen(old(SetfixedEffect(table, currentArr, conf, recUid, authCode, fieldList, sFK)).outcome)
      ensures !saved && error == "" && cmd != "setfixed" ==> screen == FormScreen(cmd)
      ensures table != old(table) || currentArr != old(currentArr) ==> screen.SetfixedScreen?
    {
      if saved {
        screen := SavedScreen(if cmd == "delete" then "DELETE" else if cmd == "edit" then "EDIT" else "CREATE");
      } else if error != "" {
        screen := ErrorScreen(error);
      } else {
        if !TruthyStr(cmd) {
          cmd := conf.defaultCmd;
        }
        if cmd == "setfixed" {
          var outcome := ProcesSetFixed(sFK);
          screen := SetfixedScreen(outcome);
        } else {
          screen := FormScreen(cmd);
        }
      }
    }

    /** The rest of init() once the request is read: the template and the
        table are checked, then the record is deleted, evaluated and saved
        as the flags allow, and the screen is picked. */
    method Run(submitted: bool, sFK: string, world: World) returns (screen: Screen)
      requires !saved && error == ""
      modifies this`table, this`currentArr, this`saved, this`error, this`dataArr, this`failure, this`failureMsg,
               this`markerArray, this`session, this`preview, this`cmd
      ensures screen == NoTemplate <==> !conf.templatePresent
      ensures screen == WrongTable <==> conf.templatePresent && (!TruthyStr(conf.tableName) || !TruthyStr(fieldList))
      ensures screen == NoTemplate || screen == WrongTable ==> table == old(table) && !saved && error == ""
      ensures var deletes := old(cmd) == "delete" && !old(preview) && !doNotSave;
        var saves := submitted && !TruthyStr(failure) && !old(preview) && !doNotSave;
        (screen.SavedScreen? ==> deletes || saves)
        && (screen.ErrorScreen? ==> screen.subpart == NoPermissions && (deletes || saves))
        && (table != old(table) ==> deletes || saves || screen.SetfixedScreen?)
      ensures screen.SetfixedScreen? ==> !saved && error == ""
      ensures screen != NoTemplate && screen != WrongTable && preview ==>
        submitted && !TruthyStr(failure) && old(preview)
    {
      if !conf.templatePresent {
        return NoTemplate;
      }
      if !TruthyStr(conf.tableName) || !TruthyStr(fieldList) {
        return WrongTable;
      }
      Process(submitted, world);
      screen := Display(sFK);
    }

    /** init(): read the request, then Run(). It runs on a fresh plugin
        object, which has saved nothing and has no error. */
    method Init(req: Request, world: World) returns (screen: Screen)
      requires !saved && error == ""
      modifies this`cmd, this`preview, this`backURL, this`recUid, this`authCode, this`doNotSave, this`thePid,
               this`fieldList, this`markerArray, this`cmdKey, this`requiredArr, this`dataArr, this`table,
               this`currentArr, this`saved, this`error, this`failure, this`failureMsg, this`session
      ensures screen == NoTemplate <==> !conf.templatePresent
      ensures screen == WrongTable <==> conf.templatePresent && (!TruthyStr(conf.tableName) || !TruthyStr(fieldList))
      ensures screen == NoTemplate || screen == WrongTable ==> table == old(table) && !saved && error == ""
      ensures screen.SetfixedScreen? ==> !saved && error == ""
    {
      ReadRequest(req);
      assert table == old(table) && !saved && error == "";
      ReadBackUrl(req);
      assert table == old(table) && !saved && error == "";
      ReadCommand(req);
      assert table == old(table) && !saved && error == "";
      screen := Run(Submitted(req.fe), req.sFK, world);
    }
  }
}
