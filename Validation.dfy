/**
 * evalValues(): the required pass over requiredArr, then the evalValues
 * commands of every configured field, which append the field to the failure
 * list tempArr and a message to failureMsg when a check fails (unsetEmpty
 * instead withdraws the field), the per-field error markers, and finally
 * checkCaptcha(), whose result is appended to the list too. This module
 * states each step as a function of the evaluation state; the class Plugin
 * runs them in loops.
 */
module Validation {
  import opened PhpStrings
  import opened PhpValues
  import Store
  import Transforms

  /** The commands of the evalValues switch; any other name does nothing. */
  datatype Check =
    | UniqueGlobal
    | UniqueLocal
    | Twice
    | Email
    | Required
    | AtLeast(param: string)
    | AtMost(param: string)
    | InBranch(param: string)
    | UnsetEmpty
    | NoCheck

  function NamedCheck(name: string, param: string): Check {
    match name
    case "uniqueGlobal" => UniqueGlobal
    case "uniqueLocal" => UniqueLocal
    case "twice" => Twice
    case "email" => Email
    case "required" => Required
    case "atLeast" => AtLeast(param)
    case "atMost" => AtMost(param)
    case "inBranch" => InBranch(param)
    case "unsetEmpty" => UnsetEmpty
    case _ => NoCheck
  }

  /** The command written cmd[param], split as parseValues splits it. */
  function ParseCheck(cmd: string): Check {
    NamedCheck(Transforms.CmdName(cmd), Transforms.CmdParam(cmd))
  }

  /** $this->requiredArr: the required fields that the command's field list
      also names, in the order of the required list. */
  function RequiredArr(required: string, fields: string): (r: seq<string>)
    ensures forall f {:trigger f in r} :: f in r <==> f in TrimExplode(',', required, true) && f in TrimExplode(',', fields, true)
  {
    Intersect(TrimExplode(',', required, true), TrimExplode(',', fields, true))
  }

  /** !trim($v): the value trims to a falsy string. */
  predicate Blank(v: string) {
    !TruthyStr(Trim(v))
  }

  /** A required value is missing when it is blank. */
  predicate Missing(data: Data, f: string) {
    Blank(FieldString(data, f))
  }

  /** The first loop of evalValues(): the required fields that are missing,
      in order. */
  function RequiredFailures(req: seq<string>, data: Data): (r: seq<string>)
    ensures forall f :: f in r <==> f in req && Missing(data, f)
    ensures r == [] <==> forall f :: f in req ==> !Missing(data, f)
  {
    if |req| == 0 then []
    else
      var f := req[|req| - 1];
      assert req == req[..|req| - 1] + [f];
      RequiredFailures(req[..|req| - 1], data) + (if Missing(data, f) then [f] else [])
  }

  /** One more field of the required pass. */
  lemma RequiredFailuresStep(req: seq<string>, data: Data, i: nat)
    requires i < |req|
    ensures RequiredFailures(req[..i + 1], data)
         == RequiredFailures(req[..i], data) + (if Missing(data, req[i]) then [req[i]] else [])
  {
    var c := req[..i + 1];
    assert c[..|c| - 1] == req[..i];
    assert c[|c| - 1] == req[i];
  }

  /** What evalValues() reads besides the submitted data. evalErrors is
      conf['evalErrors.'], keyed by field name followed by "."; validEmail
      and treeList stand for GeneralUtility::validEmail() and
      cObj->getTreeList(). */
  datatype EvalEnv = EvalEnv(
    cmd: string,
    table: Store.Table,
    thePid: int,
    evalErrors: map<string, Row>,
    validEmail: string -> bool,
    treeList: (int, int, int) -> string)

  /** getFailure($theField, $theCmd, $label): the configured message for the
      field and command, or the built-in label. */
  function GetFailure(errs: map<string, Row>, field: string, cmd: string, fallback: string): (m: string)
    ensures field + "." in errs && Has(errs[field + "."], cmd) ==> m == Get(errs[field + "."], cmd)
    ensures !(field + "." in errs && Has(errs[field + "."], cmd)) ==> m == fallback
  {
    if field + "." in errs && Has(errs[field + "."], cmd) then Get(errs[field + "."], cmd) else fallback
  }

  /** sprintf($fmt, $arg) for a format with one %s: the first "%s" becomes
      arg. */
  function Sprintf1(fmt: string, arg: string): (r: string)
    ensures !Contains(fmt, "%s") ==> r == fmt
  {
    if |fmt| < 2 then fmt
    else if fmt[0] == '%' && fmt[1] == 's' then arg + fmt[2..]
    else [fmt[0]] + Sprintf1(fmt[1..], arg)
  }

  /** sprintf(getFailure($theField, $theCmd, $label), $arg) for a built-in
      label with one %s: a configured message gets arg substituted; the
      label is given as the text before and after its %s. */
  function FormatFailure(errs: map<string, Row>, field: string, cmd: string,
                         before: string, after: string, arg: string): (m: string)
    ensures field + "." in errs && Has(errs[field + "."], cmd) ==> m == Sprintf1(Get(errs[field + "."], cmd), arg)
    ensures !(field + "." in errs && Has(errs[field + "."], cmd)) ==> m == before + arg + after
  {
    if field + "." in errs && Has(errs[field + "."], cmd) then Sprintf1(Get(errs[field + "."], cmd), arg)
    else before + arg + after
  }

  /** sprintf() puts its argument in place of the first %s, here one that
      no other % precedes. */
  lemma Sprintf1Fills(before: string, after: string, arg: string)
    requires '%' !in before
    ensures Sprintf1(before + "%s" + after, arg) == before + arg + after
  {
    assert before + "%s" + after == before + ("%s" + after);
    assert before + arg + after == before + (arg + after);
    Sprintf1Prefix(before, after, arg);
  }

  lemma {:induction false} Sprintf1Prefix(before: string, after: string, arg: string)
    requires '%' !in before
    ensures Sprintf1(before + ("%s" + after), arg) == before + (arg + after)
  {
    if |before| == 0 {
      assert before + ("%s" + after) == "%s" + after;
      assert before + (arg + after) == arg + after;
    } else {
      var x, b := before[0], before[1..];
      assert x in before;
      assert '%' !in b by {
        assert forall c :: c in b ==> c in before;
      }
      ConsAppend(before, "%s" + after);
      ConsAppend(before, arg + after);
      Sprintf1Skip(x, b + ("%s" + after), arg);
      Sprintf1Prefix(b, after, arg);
    }
  }

  lemma ConsAppend(s: string, t: string)
    requires |s| > 0
    ensures s + t == [s[0]] + (s[1..] + t)
  {
  }

  /** A character other than % is copied. */
  lemma Sprintf1Skip(x: char, rest: string, arg: string)
    requires |rest| >= 1 && x != '%'
    ensures Sprintf1([x] + rest, arg) == [x] + Sprintf1(rest, arg)
  {
    assert ([x] + rest)[1..] == rest;
  }

  /** FormatFailure() is the source's composition: the label written with
      its %s, given to getFailure(), then to sprintf(). */
  lemma FormatFailureIsSprintf(errs: map<string, Row>, field: string, cmd: string,
                               before: string, after: string, arg: string)
    requires '%' !in before
    ensures FormatFailure(errs, field, cmd, before, after, arg)
         == Sprintf1(GetFailure(errs, field, cmd, before + "%s" + after), arg)
  {
    if !(field + "." in errs && Has(errs[field + "."], cmd)) {
      Sprintf1Fills(before, after, arg);
    }
  }

  /** $recordTestPid and $recExist: for edit the pid the record is in (the
      submitted one, or else that of the stored record); otherwise the
      plugin's pid, or the submitted pid made non-negative. */
  datatype TestContext = TestContext(pid: int, recExist: bool)

  function RecordTestPid(env: EvalEnv, data: Data): (ctx: TestContext)
    ensures ctx.recExist <==> env.cmd == "edit"
    ensures env.cmd != "edit" && env.thePid == 0 ==> ctx.pid >= 0
  {
    if env.cmd == "edit" then
      if "pid" in data then TestContext(IntValOf(data["pid"]), true)
      else match Store.GetRaw(env.table, FieldInt(data, "uid"))
        case Some(r) => TestContext(Store.PidOf(r), true)
        case None => TestContext(0, true)
    else
      var pid := FieldInt(data, "pid");
      TestContext(if env.thePid != 0 then env.thePid else if pid < 0 then 0 else pid, false)
  }

  /** The evaluation state: $tempArr, $this->failureMsg, $this->dataArr and
      $this->markerArray. */
  datatype EvalState = EvalState(
    temp: seq<string>,
    msgs: map<string, seq<string>>,
    data: Data,
    markers: map<string, string>)

  function MsgsOf(msgs: map<string, seq<string>>, f: string): seq<string> {
    if f in msgs then msgs[f] else []
  }

  /** A failed check: the field is appended to the list and the message to
      the field's messages. */
  function Fail(st: EvalState, f: string, msg: string): (r: EvalState)
    ensures r.temp == st.temp + [f] && r.data == st.data && r.markers == st.markers
    ensures f in r.msgs && r.msgs[f] == MsgsOf(st.msgs, f) + [msg]
    ensures forall g :: g != f ==> (g in r.msgs <==> g in st.msgs) && MsgsOf(r.msgs, g) == MsgsOf(st.msgs, g)
  {
    st.(temp := st.temp + [f], msgs := st.msgs[f := MsgsOf(st.msgs, f) + [msg]])
  }

  /** The uniqueness test: a live row with the same value exists (in the
      record's pid for uniqueLocal), and the record is new or that row is
      not the record itself, its uid compared with PHP's loose !=. */
  predicate UniqueFails(env: EvalEnv, data: Data, f: string, pid: Option<int>, recExist: bool) {
    var m := Store.FirstMatch(env.table, f, FieldString(data, f), pid);
    m.Some? && (!recExist || !LooseEq(Get(m.value, "uid"), FieldString(data, "uid")))
  }

  /** inBranch[root;depth;begin]: the failing test, or false when the root
      is 0 and the check is skipped. */
  function BranchList(env: EvalEnv, p: string): string {
    var pars := Explode(';', p);
    var depth := if |pars| > 1 && IntVal(pars[1]) != 0 then IntVal(pars[1]) else 999;
    var begin := if |pars| > 2 then IntVal(pars[2]) else 0;
    env.treeList(IntVal(pars[0]), depth, begin)
  }

  predicate BranchFails(env: EvalEnv, p: string, v: string) {
    IntVal(Explode(';', p)[0]) != 0
    && (!TruthyStr(BranchList(env, p)) || !InList(BranchList(env, p), v))
  }

  /** unsetEmpty on a falsy field: the field leaves the failure list (which
      array_flip() also rids of repetitions), its messages and the data. */
  function Withdraw(st: EvalState, f: string): (r: EvalState)
    ensures forall x :: x in r.temp <==> x in st.temp && x != f
    ensures r.msgs == st.msgs - {f} && r.data == st.data - {f} && r.markers == st.markers
  {
    st.(temp := RemoveAll(Dedup(st.temp), f), msgs := st.msgs - {f}, data := st.data - {f})
  }

  /** The message a command other than unsetEmpty records for field f, or
      None when the check passes. */
  function CheckMessage(data: Data, f: string, c: Check, env: EvalEnv, ctx: TestContext): Option<string> {
    var v := FieldString(data, f);
    match c
    case UniqueGlobal =>
      if UniqueFails(env, data, f, None, ctx.recExist)
      then Some(GetFailure(env.evalErrors, f, "uniqueGlobal", "The value existed already. Enter a new value."))
      else None
    case UniqueLocal =>
      if UniqueFails(env, data, f, Some(ctx.pid), ctx.recExist)
      then Some(GetFailure(env.evalErrors, f, "uniqueLocal", "The value existed already. Enter a new value."))
      else None
    case Twice =>
      if v != FieldString(data, f + "_again")
      then Some(GetFailure(env.evalErrors, f, "twice", "You must enter the same value twice"))
      else None
    case Email =>
      if !env.validEmail(v)
      then Some(GetFailure(env.evalErrors, f, "email", "You must enter a valid email address"))
      else None
    case Required =>
      if Missing(data, f)
      then Some(GetFailure(env.evalErrors, f, "required", "You must enter a value!"))
      else None
    case AtLeast(p) =>
      if |v| < IntVal(p)
      then Some(FormatFailure(env.evalErrors, f, "atLeast", "You must enter at least ", " characters!", IntToStr(IntVal(p))))
      else None
    case AtMost(p) =>
      if |v| > IntVal(p)
      then Some(FormatFailure(env.evalErrors, f, "atMost", "You must enter at most ", " characters!", IntToStr(IntVal(p))))
      else None
    case InBranch(p) =>
      if BranchFails(env, p, v)
      then Some(FormatFailure(env.evalErrors, f, "inBranch", "The value was not a valid valud from this list: ", "", BranchList(env, p)))
      else None
    case UnsetEmpty => None
    case NoCheck => None
  }

  /** One command of the evalValues switch for field f. */
  function RunCheck(st: EvalState, f: string, cmd: string, env: EvalEnv, ctx: TestContext): EvalState {
    var c := ParseCheck(cmd);
    if c == UnsetEmpty then
      if !TruthyField(st.data, f) then Withdraw(st, f) else st
    else
      var m := CheckMessage(st.data, f, c, env, ctx);
      if m.Some? then Fail(st, f, m.value) else st
  }

  /** The commands of one field, in order. */
  function RunChecks(st: EvalState, f: string, cmds: seq<string>, env: EvalEnv, ctx: TestContext): EvalState {
    if |cmds| == 0 then st
    else RunCheck(RunChecks(st, f, cmds[..|cmds| - 1], env, ctx), f, cmds[|cmds| - 1], env, ctx)
  }

  function MarkerOf(f: string): string {
    "###EVAL_ERROR_FIELD_" + f + "###"
  }

  /** The field's error marker: its messages joined with <br />. */
  function FieldMarker(st: EvalState, f: string): (r: EvalState)
    ensures r.temp == st.temp && r.msgs == st.msgs && r.data == st.data
    ensures r.markers == st.markers[MarkerOf(f) := if f in st.msgs then Implode("<br />", st.msgs[f]) else ""]
  {
    st.(markers := st.markers[MarkerOf(f) := if f in st.msgs then Implode("<br />", st.msgs[f]) else ""])
  }

  /** One configured field: its comma-separated commands, then its marker. */
  function RunField(st: EvalState, f: string, cmds: string, env: EvalEnv, ctx: TestContext): EvalState {
    FieldMarker(RunChecks(st, f, TrimExplode(',', cmds, true), env, ctx), f)
  }

  /** The foreach over conf[cmdKey.]['evalValues.']. */
  function RunFields(st: EvalState, conf: Row, env: EvalEnv, ctx: TestContext): EvalState {
    if |conf| == 0 then st
    else
      var (f, cmds) := conf[|conf| - 1];
      RunField(RunFields(st, conf[..|conf| - 1], env, ctx), f, cmds, env, ctx)
  }

  /** One more command of the loop over a field's commands. */
  lemma RunChecksStep(st: EvalState, f: string, cmds: seq<string>, env: EvalEnv, ctx: TestContext, j: nat)
    requires j < |cmds|
    ensures RunChecks(st, f, cmds[..j + 1], env, ctx) == RunCheck(RunChecks(st, f, cmds[..j], env, ctx), f, cmds[j], env, ctx)
  {
    var c := cmds[..j + 1];
    assert c[..|c| - 1] == cmds[..j];
    assert c[|c| - 1] == cmds[j];
  }

  /** One more field of the loop over evalValues. */
  lemma RunFieldsStep(st: EvalState, conf: Row, env: EvalEnv, ctx: TestContext, k: nat)
    requires k < |conf|
    ensures RunFields(st, conf[..k + 1], env, ctx) == RunField(RunFields(st, conf[..k], env, ctx), conf[k].0, conf[k].1, env, ctx)
  {
    var c := conf[..k + 1];
    assert c[..|c| - 1] == conf[..k];
    assert c[|c| - 1] == conf[k];
  }

  /** Whether the captcha extension is loaded, and the session's captcha
      string (tx_captcha_string). */
  datatype Captcha = Captcha(loaded: bool, session: string)

  /** checkCaptcha() is consulted (and the session string spent) when the
      extension is loaded and a captcha was submitted. */
  predicate CaptchaChecked(st: EvalState, cap: Captcha) {
    cap.loaded && "captcha" in st.data
  }

  predicate CaptchaWrong(st: EvalState, cap: Captcha) {
    CaptchaChecked(st, cap) && (!TruthyStr(cap.session) || st.data["captcha"] != Str(cap.session))
  }

  /** The state after the evaluation, the failure string $this->failure,
      and the session's captcha string afterwards. */
  datatype Evaluation = Evaluation(st: EvalState, failure: string, session: string)

  /** checkCaptcha() and the entry it appends: "captcha" when the captcha was
      wrong, otherwise true, which implode() writes as "1". */
  function CheckCaptcha(st: EvalState, env: EvalEnv, cap: Captcha): (r: Evaluation)
    ensures r.st.temp == st.temp + [if CaptchaWrong(st, cap) then "captcha" else "1"]
    ensures r.st.data == st.data && r.st.markers == st.markers
    ensures r.session == if CaptchaChecked(st, cap) then "" else cap.session
  {
    var session := if CaptchaChecked(st, cap) then "" else cap.session;
    if CaptchaWrong(st, cap) then
      var failed := Fail(st, "captcha", GetFailure(env.evalErrors, "captcha", "captcha", "Wrong captcha!"));
      Evaluation(failed, "", session)
    else
      Evaluation(st.(temp := st.temp + ["1"]), "", session)
  }

  /** evalValues(): the required pass, and with evalValues. configured the
      commands of every field and the captcha entry; failure is the list
      joined with ",". */
  function Evaluate(data: Data, msgs: map<string, seq<string>>, markers: map<string, string>,
                    req: seq<string>, evalConf: Option<Row>, env: EvalEnv, cap: Captcha): Evaluation
  {
    var st := EvalState(RequiredFailures(req, data), msgs, data, markers);
    if evalConf.None? then Evaluation(st, Implode(",", st.temp), cap.session)
    else
      var checked := CheckCaptcha(RunFields(st, evalConf.value, env, RecordTestPid(env, data)), env, cap);
      Evaluation(checked.st, Implode(",", checked.st.temp), checked.session)
  }

  // ------------------------------------------------------------- properties

  /** The check put the field on the failure list. */
  predicate Flags(st: EvalState, r: EvalState, f: string) {
    r.temp == st.temp + [f]
  }

  /** Every command but unsetEmpty at most appends the field and one message
      of its own; the data, the markers and the other fields' messages stay
      as they are. */
  lemma CheckOnlyAppends(st: EvalState, f: string, cmd: string, env: EvalEnv, ctx: TestContext)
    requires ParseCheck(cmd) != UnsetEmpty
    ensures var r := RunCheck(st, f, cmd, env, ctx);
      r.data == st.data && r.markers == st.markers
      && (r == st || (Flags(st, r, f) && f in r.msgs && |r.msgs[f]| == |MsgsOf(st.msgs, f)| + 1))
      && forall g :: g != f ==> (g in r.msgs <==> g in st.msgs) && MsgsOf(r.msgs, g) == MsgsOf(st.msgs, g)
  {
  }

  /** evalErrors.<field>.<command> is set. */
  predicate Configured(errs: map<string, Row>, f: string, name: string) {
    f + "." in errs && Has(errs[f + "."], name)
  }

  /** The name each check is written with. */
  lemma CheckNames(name: string, p: string)
    ensures var c := NamedCheck(name, p);
      (c == UniqueGlobal ==> name == "uniqueGlobal") && (c == UniqueLocal ==> name == "uniqueLocal")
      && (c == Twice ==> name == "twice") && (c == Email ==> name == "email")
      && (c == Required ==> name == "required") && (c.AtLeast? ==> name == "atLeast")
      && (c.AtMost? ==> name == "atMost") && (c.InBranch? ==> name == "inBranch")
  {
  }

  /** A check that put the field on the list appended exactly one message
      to the field's messages, after those it had: the one CheckMessage()
      gives, which ConfiguredText and BuiltInText spell out. */
  lemma FailedCheck(st: EvalState, f: string, cmd: string, env: EvalEnv, ctx: TestContext)
    requires ParseCheck(cmd) != UnsetEmpty && Flags(st, RunCheck(st, f, cmd, env, ctx), f)
    ensures var m := CheckMessage(st.data, f, ParseCheck(cmd), env, ctx);
      var r := RunCheck(st, f, cmd, env, ctx);
      m.Some? && f in r.msgs && r.msgs[f] == MsgsOf(st.msgs, f) + [m.value]
  {
    var r := RunCheck(st, f, cmd, env, ctx);
    assert |r.temp| == |st.temp| + 1;
  }

  /** The message a failing check gives when one is configured: the
      configured text, with the %s of atLeast, atMost and inBranch filled. */
  lemma ConfiguredText(data: Data, f: string, name: string, p: string, env: EvalEnv, ctx: TestContext)
    requires CheckMessage(data, f, NamedCheck(name, p), env, ctx).Some?
    requires Configured(env.evalErrors, f, name)
    ensures var c := NamedCheck(name, p);
      var text := CheckMessage(data, f, c, env, ctx).value;
      var m := Get(env.evalErrors[f + "."], name);
      (c.AtLeast? || c.AtMost? ==> text == Sprintf1(m, IntToStr(IntVal(c.param))))
      && (c.InBranch? ==> text == Sprintf1(m, BranchList(env, c.param)))
      && (!(c.AtLeast? || c.AtMost? || c.InBranch?) ==> text == m)
  {
    CheckNames(name, p);
  }

  /** The message a failing check gives when none is configured: its
      built-in label, with the length or the tree list in place of the %s. */
  lemma BuiltInText(data: Data, f: string, name: string, p: string, env: EvalEnv, ctx: TestContext)
    requires CheckMessage(data, f, NamedCheck(name, p), env, ctx).Some?
    requires !Configured(env.evalErrors, f, name)
    ensures var c := NamedCheck(name, p);
      var text := CheckMessage(data, f, c, env, ctx).value;
      (c == UniqueGlobal || c == UniqueLocal ==> text == "The value existed already. Enter a new value.")
      && (c == Twice ==> text == "You must enter the same value twice")
      && (c == Email ==> text == "You must enter a valid email address")
      && (c == Required ==> text == "You must enter a value!")
      && (c.AtLeast? ==> text == "You must enter at least " + IntToStr(IntVal(c.param)) + " characters!")
      && (c.AtMost? ==> text == "You must enter at most " + IntToStr(IntVal(c.param)) + " characters!")
      && (c.InBranch? ==> text == "The value was not a valid valud from this list: " + BranchList(env, c.param))
  {
    var c := NamedCheck(name, p);
    if c.AtLeast? || c.AtMost? || c.InBranch? {
      BuiltInFormatText(data, f, name, p, env, ctx);
    } else {
      BuiltInPlainText(data, f, name, p, env, ctx);
    }
  }

  lemma BuiltInPlainText(data: Data, f: string, name: string, p: string, env: EvalEnv, ctx: TestContext)
    requires CheckMessage(data, f, NamedCheck(name, p), env, ctx).Some?
    requires !Configured(env.evalErrors, f, name)
    requires !(NamedCheck(name, p).AtLeast? || NamedCheck(name, p).AtMost? || NamedCheck(name, p).InBranch?)
    ensures var c := NamedCheck(name, p);
      var text := CheckMessage(data, f, c, env, ctx).value;
      (c == UniqueGlobal || c == UniqueLocal ==> text == "The value existed already. Enter a new value.")
      && (c == Twice ==> text == "You must enter the same value twice")
      && (c == Email ==> text == "You must enter a valid email address")
      && (c == Required ==> text == "You must enter a value!")
  {
    CheckNames(name, p);
  }

  lemma BuiltInFormatText(data: Data, f: string, name: string, p: string, env: EvalEnv, ctx: TestContext)
    requires CheckMessage(data, f, NamedCheck(name, p), env, ctx).Some?
    requires !Configured(env.evalErrors, f, name)
    requires NamedCheck(name, p).AtLeast? || NamedCheck(name, p).AtMost? || NamedCheck(name, p).InBranch?
    ensures var c := NamedCheck(name, p);
      var text := CheckMessage(data, f, c, env, ctx).value;
      (c.AtLeast? ==> text == "You must enter at least " + IntToStr(IntVal(c.param)) + " characters!")
      && (c.AtMost? ==> text == "You must enter at most " + IntToStr(IntVal(c.param)) + " characters!")
      && (c.InBranch? ==> text == "The value was not a valid valud from this list: " + BranchList(env, c.param))
  {
    CheckNames(name, p);
    var c := NamedCheck(name, p);
    if c.InBranch? {
      var b := BranchList(env, c.param);
      assert "The value was not a valid valud from this list: " + b + "" == "The value was not a valid valud from this list: " + b;
    }
  }

  /** twice fails exactly when the value differs from <field>_again. */
  lemma TwiceFails(st: EvalState, f: string, cmd: string, env: EvalEnv, ctx: TestContext)
    requires ParseCheck(cmd) == Twice
    ensures Flags(st, RunCheck(st, f, cmd, env, ctx), f)
        <==> FieldString(st.data, f) != FieldString(st.data, f + "_again")
    ensures FieldString(st.data, f) == FieldString(st.data, f + "_again") ==> RunCheck(st, f, cmd, env, ctx) == st
  {
  }

  /** A check other than unsetEmpty puts the field on the list exactly when
      it has a message. */
  lemma FlagsIffMessage(st: EvalState, f: string, cmd: string, env: EvalEnv, ctx: TestContext)
    requires ParseCheck(cmd) != UnsetEmpty
    ensures Flags(st, RunCheck(st, f, cmd, env, ctx), f)
        <==> CheckMessage(st.data, f, ParseCheck(cmd), env, ctx).Some?
  {
    var r := RunCheck(st, f, cmd, env, ctx);
    if CheckMessage(st.data, f, ParseCheck(cmd), env, ctx).None? {
      assert |r.temp| == |st.temp|;
    }
  }

  /** atLeast[n] fails exactly when the value is shorter than n
      characters. */
  lemma AtLeastFails(st: EvalState, f: string, cmd: string, env: EvalEnv, ctx: TestContext)
    requires ParseCheck(cmd).AtLeast?
    ensures Flags(st, RunCheck(st, f, cmd, env, ctx), f)
        <==> |FieldString(st.data, f)| < IntVal(ParseCheck(cmd).param)
  {
    var c := ParseCheck(cmd);
    FlagsIffMessage(st, f, cmd, env, ctx);
    assert CheckMessage(st.data, f, c, env, ctx).Some? <==> |FieldString(st.data, f)| < IntVal(c.param);
  }

  /** atMost[n] fails exactly when the value is longer than n characters. */
  lemma AtMostFails(st: EvalState, f: string, cmd: string, env: EvalEnv, ctx: TestContext)
    requires ParseCheck(cmd).AtMost?
    ensures Flags(st, RunCheck(st, f, cmd, env, ctx), f)
        <==> |FieldString(st.data, f)| > IntVal(ParseCheck(cmd).param)
  {
    var c := ParseCheck(cmd);
    FlagsIffMessage(st, f, cmd, env, ctx);
    assert CheckMessage(st.data, f, c, env, ctx).Some? <==> |FieldString(st.data, f)| > IntVal(c.param);
  }

  /** required (as a command) fails exactly when the value is blank, and
      email exactly when validEmail() refuses it. */
  lemma RequiredAndEmailFail(st: EvalState, f: string, cmd: string, env: EvalEnv, ctx: TestContext)
    requires ParseCheck(cmd) == Required || ParseCheck(cmd) == Email
    ensures ParseCheck(cmd) == Required ==> (Flags(st, RunCheck(st, f, cmd, env, ctx), f) <==> Missing(st.data, f))
    ensures ParseCheck(cmd) == Email ==>
      (Flags(st, RunCheck(st, f, cmd, env, ctx), f) <==> !env.validEmail(FieldString(st.data, f)))
  {
  }

  /** uniqueGlobal and uniqueLocal fail exactly when a live row holds the
      value (uniqueLocal: a row in the record's pid) and the record is new
      or the first such row is not the record itself. */
  lemma UniqueFailsIff(st: EvalState, f: string, cmd: string, env: EvalEnv, ctx: TestContext)
    requires ParseCheck(cmd) == UniqueGlobal || ParseCheck(cmd) == UniqueLocal
    ensures var pid := if ParseCheck(cmd) == UniqueGlobal then None else Some(ctx.pid);
      var m := Store.FirstMatch(env.table, f, FieldString(st.data, f), pid);
      Flags(st, RunCheck(st, f, cmd, env, ctx), f)
      <==> m.Some? && (!ctx.recExist || !LooseEq(Get(m.value, "uid"), FieldString(st.data, "uid")))
  {
  }

  /** An edit that keeps its own value passes: when the first row holding
      the value is the record being edited (its uid loosely equal to the
      submitted one, so "05" matches "5"), the check does not fail; and when
      no live row holds the value it never fails. */
  lemma UniqueSelfMatch(st: EvalState, f: string, cmd: string, env: EvalEnv, ctx: TestContext)
    requires ParseCheck(cmd) == UniqueGlobal || ParseCheck(cmd) == UniqueLocal
    ensures var pid := if ParseCheck(cmd) == UniqueGlobal then None else Some(ctx.pid);
      var m := Store.FirstMatch(env.table, f, FieldString(st.data, f), pid);
      (ctx.recExist && m.Some? && LooseEq(Get(m.value, "uid"), FieldString(st.data, "uid"))) ||
      (forall j :: 0 <= j < |env.table.rows| ==> !Store.IsMatch(env.table, env.table.rows[j], f, FieldString(st.data, f), pid))
      ==> RunCheck(st, f, cmd, env, ctx) == st
  {
  }

  /** inBranch[root;...] fails exactly when the root is not 0 and the tree
      list is empty or does not hold the value. */
  lemma InBranchFails(st: EvalState, f: string, cmd: string, env: EvalEnv, ctx: TestContext)
    requires ParseCheck(cmd).InBranch?
    ensures var p := ParseCheck(cmd).param;
      Flags(st, RunCheck(st, f, cmd, env, ctx), f)
      <==> (IntVal(Explode(';', p)[0]) != 0
            && (!TruthyStr(BranchList(env, p)) || !InList(BranchList(env, p), FieldString(st.data, f))))
  {
    var c := ParseCheck(cmd);
    var r := RunCheck(st, f, cmd, env, ctx);
    if BranchFails(env, c.param, FieldString(st.data, f)) {
      assert r == Fail(st, f, CheckMessage(st.data, f, c, env, ctx).value);
    } else {
      assert r == st;
      assert |r.temp| < |st.temp + [f]|;
    }
  }

  /** unsetEmpty on a falsy value removes the field from the failure list,
      from the messages and from the data, and changes nothing else; on a
      truthy value it does nothing. */
  lemma UnsetEmptyEffect(st: EvalState, f: string, cmd: string, env: EvalEnv, ctx: TestContext)
    requires ParseCheck(cmd) == UnsetEmpty
    ensures var r := RunCheck(st, f, cmd, env, ctx);
      if TruthyField(st.data, f) then r == st
      else
        (forall x :: x in r.temp <==> x in st.temp && x != f)
        && f !in r.msgs && f !in r.data
        && (forall g :: g != f ==> (g in r.msgs <==> g in st.msgs) && (g in r.msgs ==> r.msgs[g] == st.msgs[g]))
        && (forall g :: g != f ==> (g in r.data <==> g in st.data) && (g in r.data ==> r.data[g] == st.data[g]))
        && r.markers == st.markers
  {
  }

  /** A command keeps every listed field, except that unsetEmpty may
      withdraw its own field; and it adds no field but its own. */
  lemma RunCheckKeeps(st: EvalState, f: string, cmd: string, env: EvalEnv, ctx: TestContext, x: string)
    ensures x in st.temp && (x != f || ParseCheck(cmd) != UnsetEmpty) ==> x in RunCheck(st, f, cmd, env, ctx).temp
    ensures x in RunCheck(st, f, cmd, env, ctx).temp ==> x in st.temp || x == f
  {
  }

  /** No command of the list is unsetEmpty. */
  predicate NoUnset(cmds: seq<string>) {
    forall i :: 0 <= i < |cmds| ==> ParseCheck(cmds[i]) != UnsetEmpty
  }

  lemma {:induction false} RunChecksKeeps(st: EvalState, f: string, cmds: seq<string>, env: EvalEnv, ctx: TestContext, x: string)
    ensures x in st.temp && (x != f || NoUnset(cmds)) ==> x in RunChecks(st, f, cmds, env, ctx).temp
    ensures x in RunChecks(st, f, cmds, env, ctx).temp ==> x in st.temp || x == f
  {
    if |cmds| > 0 {
      var prev := cmds[..|cmds| - 1];
      RunChecksKeeps(st, f, prev, env, ctx, x);
      assert NoUnset(cmds) ==> NoUnset(prev) by {
        if NoUnset(cmds) {
          forall i | 0 <= i < |prev| ensures ParseCheck(prev[i]) != UnsetEmpty {
            assert prev[i] == cmds[i];
          }
        }
      }
      RunCheckKeeps(RunChecks(st, f, prev, env, ctx), f, cmds[|cmds| - 1], env, ctx, x);
    }
  }

  /** No configured entry for x lists unsetEmpty. */
  predicate NeverUnset(conf: Row, x: string) {
    forall i :: 0 <= i < |conf| && conf[i].0 == x ==> NoUnset(TrimExplode(',', conf[i].1, true))
  }

  /** The whole evalValues loop keeps a listed field unless one of its
      entries lists unsetEmpty, and only ever adds configured fields. */
  lemma RunFieldsKeeps(st: EvalState, conf: Row, env: EvalEnv, ctx: TestContext, x: string)
    ensures x in st.temp && NeverUnset(conf, x) ==> x in RunFields(st, conf, env, ctx).temp
    ensures x in RunFields(st, conf, env, ctx).temp ==> x in st.temp || Has(conf, x)
  {
    if x in st.temp && NeverUnset(conf, x) {
      RunFieldsKeepListed(st, conf, env, ctx, x);
    }
    if x in RunFields(st, conf, env, ctx).temp {
      RunFieldsAddsConfigured(st, conf, env, ctx, x);
    }
  }

  lemma {:induction false} RunFieldsKeepListed(st: EvalState, conf: Row, env: EvalEnv, ctx: TestContext, x: string)
    requires x in st.temp && NeverUnset(conf, x)
    ensures x in RunFields(st, conf, env, ctx).temp
  {
    if |conf| > 0 {
      var prev := conf[..|conf| - 1];
      var (f, cmds) := conf[|conf| - 1];
      forall i | 0 <= i < |prev| && prev[i].0 == x ensures NoUnset(TrimExplode(',', prev[i].1, true)) {
        assert prev[i] == conf[i];
      }
      RunFieldsKeepListed(st, prev, env, ctx, x);
      assert conf[|conf| - 1].0 == f;
      RunChecksKeeps(RunFields(st, prev, env, ctx), f, TrimExplode(',', cmds, true), env, ctx, x);
    }
  }

  lemma {:induction false} RunFieldsAddsConfigured(st: EvalState, conf: Row, env: EvalEnv, ctx: TestContext, x: string)
    requires x in RunFields(st, conf, env, ctx).temp
    ensures x in st.temp || Has(conf, x)
  {
    if |conf| > 0 {
      var prev := conf[..|conf| - 1];
      var (f, cmds) := conf[|conf| - 1];
      assert conf[|conf| - 1].0 == f;
      RunChecksKeeps(RunFields(st, prev, env, ctx), f, TrimExplode(',', cmds, true), env, ctx, x);
      if x != f {
        RunFieldsAddsConfigured(st, prev, env, ctx, x);
        if Has(prev, x) {
          var i :| 0 <= i < |prev| && prev[i].0 == x;
          assert conf[i].0 == x;
        }
      }
    }
  }

  /** A required field that is blank is named in $this->failure (as inList()
      reads it), unless an evalValues entry of that field withdraws it with
      unsetEmpty. */
  lemma RequiredReported(data: Data, msgs: map<string, seq<string>>, markers: map<string, string>,
                         req: seq<string>, evalConf: Option<Row>, env: EvalEnv, cap: Captcha, f: string)
    requires f in req && Missing(data, f)
    requires evalConf.Some? ==> NeverUnset(evalConf.value, f)
    ensures InList(Evaluate(data, msgs, markers, req, evalConf, env, cap).failure, f)
  {
    var st := EvalState(RequiredFailures(req, data), msgs, data, markers);
    if evalConf.Some? {
      RunFieldsKeeps(st, evalConf.value, env, RecordTestPid(env, data), f);
    }
    InListImplode(Evaluate(data, msgs, markers, req, evalConf, env, cap).st.temp, f);
  }

  /** The failure list names only required fields, configured fields, and
      the captcha entry ("captcha" or "1"). */
  lemma FailureNames(data: Data, msgs: map<string, seq<string>>, markers: map<string, string>,
                     req: seq<string>, evalConf: Option<Row>, env: EvalEnv, cap: Captcha, x: string)
    requires x in Evaluate(data, msgs, markers, req, evalConf, env, cap).st.temp
    ensures x in req || (evalConf.Some? && (Has(evalConf.value, x) || x == "captcha" || x == "1"))
  {
    var st := EvalState(RequiredFailures(req, data), msgs, data, markers);
    if evalConf.Some? {
      RunFieldsKeeps(st, evalConf.value, env, RecordTestPid(env, data), x);
    }
  }

  /** The quirk of line 765: with evalValues. configured, checkCaptcha()
      always appends an entry ("1" when all is well), so the failure string
      is never empty and save() can never run. */
  lemma FailureNeverEmpty(data: Data, msgs: map<string, seq<string>>, markers: map<string, string>,
                          req: seq<string>, evalConf: Option<Row>, env: EvalEnv, cap: Captcha)
    requires evalConf.Some?
    ensures Evaluate(data, msgs, markers, req, evalConf, env, cap).failure != ""
  {
    var temp := Evaluate(data, msgs, markers, req, evalConf, env, cap).st.temp;
    ImplodeLast(",", temp);
  }

  /** Without evalValues. the failure string is exactly the blank required
      fields: it is empty when none is blank. */
  lemma FailureRequiredOnly(data: Data, msgs: map<string, seq<string>>, markers: map<string, string>,
                            req: seq<string>, env: EvalEnv, cap: Captcha)
    requires forall f :: f in req ==> !Missing(data, f)
    ensures Evaluate(data, msgs, markers, req, None, env, cap).failure == ""
  {
  }
}
