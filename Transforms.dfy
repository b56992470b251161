/**
 * The parse directives of parseValues: for each configured field, a
 * comma-separated list of commands, each optionally followed by a parameter
 * in brackets ("random[8]", "uniqueHashInt[email;name]"), applied in order
 * to the submitted value of that field.
 */
module Transforms {
  import opened PhpStrings
  import opened PhpValues
  import Checkbox

  datatype Directive =
    | ToInt
    | ToLowerCase
    | ToUpperCase
      /** nospace (k = NotSpace), alpha, num, alphanum, alphanum_x */
    | KeepOnly(k: CharClass)
    | TrimValue
    | RandomString(param: string)
    | Files
    | SetEmptyIfAbsent
    | Multiple
    | CheckArray
    | UniqueHashInt(param: string)
      /** any other command name: the switch has no case for it */
    | Ignored

  /** What parseValues takes from outside the submitted data: the command
      key, the doNotSave request flag, the md5(uniqid(microtime(), 1)) digest
      a `random` command draws its characters from, and md5 itself. */
  datatype Env = Env(cmdKey: string, doNotSave: bool, entropy: string, md5: string -> string)

  // ------------------------------------------------------------- parsing

  function SwapBracket(s: string): (r: string)
    ensures |r| == |s|
    ensures forall i :: 0 <= i < |s| ==> r[i] == if s[i] == ']' then '[' else s[i]
  {
    if |s| == 0 then [] else [if s[0] == ']' then '[' else s[0]] + SwapBracket(s[1..])
  }

  /** preg_split('/\[|\]/', $cmd): the pieces between brackets of either
      kind. */
  function SplitCmd(cmd: string): (parts: seq<string>)
    ensures |parts| >= 1
  {
    Explode('[', SwapBracket(cmd))
  }

  /** trim($cmdParts[0]): the command name. */
  function CmdName(cmd: string): string {
    Trim(SplitCmd(cmd)[0])
  }

  /** $cmdParts[1]: the parameter; absent, it is null, which every use reads
      as "". */
  function CmdParam(cmd: string): string {
    var parts := SplitCmd(cmd);
    if |parts| > 1 then parts[1] else ""
  }

  /** The switch of parseValues. */
  function ParseDirective(cmd: string): Directive {
    NamedDirective(CmdName(cmd), CmdParam(cmd))
  }

  function NamedDirective(name: string, param: string): Directive {
    match name
    case "int" => ToInt
    case "lower" => ToLowerCase
    case "upper" => ToUpperCase
    case "nospace" => KeepOnly(NotSpace)
    case "alpha" => KeepOnly(Alpha)
    case "num" => KeepOnly(Digit)
    case "alphanum" => KeepOnly(AlNum)
    case "alphanum_x" => KeepOnly(AlNumX)
    case "trim" => TrimValue
    case "random" => RandomString(param)
    case "files" => Files
    case "setEmptyIfAbsent" => SetEmptyIfAbsent
    case "multiple" => Multiple
    case "checkArray" => CheckArray
    case "uniqueHashInt" => UniqueHashInt(param)
    case _ => Ignored
  }

  /** The list of commands configured for one field. */
  function Directives(list: string): (ds: seq<Directive>)
  {
    ParseEach(TrimExplode(',', list, true))
  }

  function ParseEach(cmds: seq<string>): (ds: seq<Directive>)
    ensures |ds| == |cmds|
  {
    if |cmds| == 0 then [] else [ParseDirective(cmds[0])] + ParseEach(cmds[1..])
  }

  function KeepName(k: CharClass): string {
    match k
    case NotSpace => "nospace"
    case Alpha => "alpha"
    case Digit => "num"
    case AlNum => "alphanum"
    case AlNumX => "alphanum_x"
  }

  /** How a directive is written in TypoScript. */
  function Render(d: Directive): string {
    match d
    case ToInt => "int"
    case ToLowerCase => "lower"
    case ToUpperCase => "upper"
    case KeepOnly(k) => KeepName(k)
    case TrimValue => "trim"
    case RandomString(p) => "random[" + p + "]"
    case Files => "files"
    case SetEmptyIfAbsent => "setEmptyIfAbsent"
    case Multiple => "multiple"
    case CheckArray => "checkArray"
    case UniqueHashInt(p) => "uniqueHashInt[" + p + "]"
    case Ignored => ""
  }

  predicate PlainParam(d: Directive) {
    (d.RandomString? || d.UniqueHashInt?) ==> '[' !in d.param && ']' !in d.param
  }

  /** A command name without brackets or surrounding whitespace is read
      back as itself. */
  lemma NameParses(name: string)
    requires '[' !in name && ']' !in name
    requires name != [] && !IsTrimChar(name[0]) && !IsTrimChar(name[|name| - 1])
    ensures CmdName(name) == name && CmdParam(name) == ""
  {
    assert SwapBracket(name) == name;
    ExplodeNoDelim('[', name);
    TrimLeftNoop(name);
    TrimRightNoop(name);
  }

  lemma ParamParses(name: string, p: string)
    requires '[' !in name && ']' !in name && '[' !in p && ']' !in p
    requires name != [] && !IsTrimChar(name[0]) && !IsTrimChar(name[|name| - 1])
    ensures CmdName(name + "[" + p + "]") == name && CmdParam(name + "[" + p + "]") == p
  {
    var s := name + "[" + p + "]";
    assert SwapBracket(s) == name + "[" + p + "[";
    assert Implode("[", [""]) == "";
    assert Implode("[", [p, ""]) == p + "[";
    assert Implode("[", [name, p, ""]) == name + "[" + (p + "[");
    assert name + "[" + (p + "[") == name + "[" + p + "[";
    assert Implode(['['], [name, p, ""]) == SwapBracket(s);
    ExplodeImplode('[', [name, p, ""]);
    assert SplitCmd(s) == Explode('[', SwapBracket(s));
    assert SplitCmd(s) == [name, p, ""];
    TrimLeftNoop(name);
    TrimRightNoop(name);
  }

  /** Every directive written out as TypoScript reads back as itself. */
  lemma ParseRender(d: Directive)
    requires PlainParam(d)
    ensures ParseDirective(Render(d)) == d
  {
    if d.RandomString? || d.UniqueHashInt? {
      ParseRenderParam(d);
    } else if d != Ignored {
      ParseRenderName(d);
    } else {
      assert SplitCmd("") == [""];
    }
  }

  lemma ParseRenderParam(d: Directive)
    requires d.RandomString? || d.UniqueHashInt?
    requires PlainParam(d)
    ensures ParseDirective(Render(d)) == d
  {
    NameOk(d);
    NameRender(d);
    ParamParses(Name(d), d.param);
  }

  lemma ParseRenderName(d: Directive)
    requires !(d.RandomString? || d.UniqueHashInt? || d.Ignored?)
    ensures ParseDirective(Render(d)) == d
  {
    NameOk(d);
    NameRender(d);
    NameParses(Name(d));
  }

  /** The command name of a directive. */
  function Name(d: Directive): string {
    match d
    case RandomString(_) => "random"
    case UniqueHashInt(_) => "uniqueHashInt"
    case _ => Render(d)
  }

  /** Command names hold no bracket and are not padded. */
  lemma NameOk(d: Directive)
    ensures '[' !in Name(d) && ']' !in Name(d)
    ensures d != Ignored ==> Name(d) != [] && !IsTrimChar(Name(d)[0]) && !IsTrimChar(Name(d)[|Name(d)| - 1])
  {
    NameNoBracket(d);
    NameUnpadded(d);
  }

  lemma NameNoBracket(d: Directive)
    ensures '[' !in Name(d) && ']' !in Name(d)
  {
    NameLacks(d, '[');
    NameLacks(d, ']');
  }

  lemma NameLacks(d: Directive, c: char)
    requires c == '[' || c == ']'
    ensures c !in Name(d)
  {
    if d.KeepOnly? {
      KeepNameOk(d.k);
    } else if d.ToInt? || d.ToLowerCase? || d.ToUpperCase? || d.TrimValue? || d.RandomString? {
    } else {
    }
  }

  lemma NameUnpadded(d: Directive)
    ensures d != Ignored ==> Name(d) != [] && !IsTrimChar(Name(d)[0]) && !IsTrimChar(Name(d)[|Name(d)| - 1])
  {
    match d
    case KeepOnly(k) => KeepNameOk(k);
    case _ =>
  }

  lemma KeepNameOk(k: CharClass)
    ensures '[' !in KeepName(k) && ']' !in KeepName(k)
    ensures KeepName(k) != [] && !IsTrimChar(KeepName(k)[0]) && !IsTrimChar(KeepName(k)[|KeepName(k)| - 1])
  {
  }

  lemma NameRender(d: Directive)
    ensures d.RandomString? || d.UniqueHashInt? ==> Render(d) == Name(d) + "[" + d.param + "]"
    ensures !(d.RandomString? || d.UniqueHashInt?) ==> Render(d) == Name(d)
    ensures NamedDirective(Name(d), if d.RandomString? || d.UniqueHashInt? then d.param else "") == d
  {
  }

  // ----------------------------------------------------------- filtering

  /** One entry of an array run through a filter: preg_replace() converts
      it to a string, str_replace() (nospace) passes a nested array on. */
  function FilterElem(k: CharClass, v: Value): Value {
    if k == NotSpace && v.Arr? then v else Str(Keep(k, AsString(v)))
  }

  /** preg_replace('/[^class]/', '', $v) and str_replace(' ', '', $v): an
      array is filtered entry by entry, keeping its keys. */
  function Filter(k: CharClass, v: Value): Value {
    match v
    case Arr(items) =>
      Arr(seq(|items|, i requires 0 <= i < |items| => Item(items[i].key, FilterElem(k, items[i].val))))
    case _ => Str(Keep(k, AsString(v)))
  }

  predicate AllIn(k: CharClass, s: string) {
    forall i :: 0 <= i < |s| ==> InClass(k, s[i])
  }

  predicate CleanElem(k: CharClass, v: Value) {
    (k == NotSpace && v.Arr?) || (v.Str? && AllIn(k, v.s))
  }

  /** A value a filter leaves as it is: a string of class characters, or an
      array of such strings. */
  predicate Clean(k: CharClass, v: Value) {
    match v
    case Str(s) => AllIn(k, s)
    case Num(_) => false
    case Arr(items) => forall i :: 0 <= i < |items| ==> CleanElem(k, items[i].val)
  }

  /** After a filter the value holds only characters of the class. */
  lemma FilterClean(k: CharClass, v: Value)
    ensures Clean(k, Filter(k, v))
  {
  }

  /** A filter leaves a value unchanged exactly when the value is already
      clean. */
  lemma FilterFixedIff(k: CharClass, v: Value)
    ensures Filter(k, v) == v <==> Clean(k, v)
  {
    match v
    case Str(s) =>
      KeepFixedIff(k, s);
    case Num(n) =>
    case Arr(items) =>
      var r := Filter(k, v).items;
      if Clean(k, v) {
        forall i | 0 <= i < |items| ensures r[i] == items[i] {
          if items[i].val.Str? {
            KeepFixedIff(k, items[i].val.s);
          }
        }
      }
      if Filter(k, v) == v {
        forall i | 0 <= i < |items| ensures CleanElem(k, items[i].val) {
          assert r[i] == items[i];
        }
      }
  }

  /** Filtering twice is filtering once. */
  lemma FilterIdempotent(k: CharClass, v: Value)
    ensures Filter(k, Filter(k, v)) == Filter(k, v)
  {
    FilterClean(k, v);
    FilterFixedIff(k, Filter(k, v));
  }

  // -------------------------------------------------------- uniqueHashInt

  /** preg_replace('/[[:space:]]/', '', ...), preg_replace('/[^[:alnum:]]/',
      '', ...) and strtolower(): only lower-case letters and digits remain. */
  function Normalise(s: string): (r: string)
    ensures forall i :: 0 <= i < |r| ==> 'a' <= r[i] <= 'z' || IsDigit(r[i])
  {
    ToLower(Keep(AlNum, s))
  }

  function HashList(data: Data, fields: seq<string>): (l: seq<string>)
    ensures |l| == |fields|
  {
    seq(|fields|, i requires 0 <= i < |fields| => Normalise(FieldString(data, fields[i])))
  }

  function SerializeEntries(l: seq<string>, from: nat): string
    decreases |l|
  {
    if |l| == 0 then ""
    else ("i:" + IntToStr(from) + ";s:" + IntToStr(|l[0]|) + ":\"" + l[0] + "\";")
         + SerializeEntries(l[1..], from + 1)
  }

  /** PHP's serialize() of a list of strings; the entries are ASCII, so
      their length in bytes is their length. */
  function Serialize(l: seq<string>): string {
    "a:" + IntToStr(|l|) + ":{" + SerializeEntries(l, 0) + "}"
  }

  function HexVal(c: char): nat {
    if '0' <= c <= '9' then c as int - '0' as int
    else if 'a' <= c <= 'f' then c as int - 'a' as int + 10
    else if 'A' <= c <= 'F' then c as int - 'A' as int + 10
    else 0
  }

  predicate IsHex(c: char) {
    '0' <= c <= '9' || 'a' <= c <= 'f' || 'A' <= c <= 'F'
  }

  function Pow16(n: nat): (p: nat)
    ensures p >= 1
  {
    if n == 0 then 1 else 16 * Pow16(n - 1)
  }

  /** hexdec(): the hexadecimal digits of s read as a number; other
      characters are skipped. */
  function HexDec(s: string): nat {
    if |s| == 0 then 0
    else
      var init := HexDec(s[..|s| - 1]);
      if IsHex(s[|s| - 1]) then 16 * init + HexVal(s[|s| - 1]) else init
  }

  /** Eight hexadecimal digits never exceed 2^32 - 1. */
  lemma {:induction false} HexDecBound(s: string)
    ensures HexDec(s) < Pow16(|s|)
  {
    if |s| > 0 {
      HexDecBound(s[..|s| - 1]);
      assert HexVal(s[|s| - 1]) < 16;
    }
  }

  function UniqueHash(data: Data, p: string, env: Env): int {
    var fields := TrimExplode(';', p, true);
    HexDec(Prefix(env.md5(Serialize(HashList(data, fields))), 8))
  }

  /** The value uniqueHashInt stores is a 32-bit unsigned number. */
  lemma UniqueHashRange(data: Data, p: string, env: Env)
    ensures 0 <= UniqueHash(data, p, env) < 0x1_0000_0000
  {
    HexPrefixRange(env.md5(Serialize(HashList(data, TrimExplode(';', p, true)))));
  }

  lemma HexPrefixRange(digest: string)
    ensures HexDec(Prefix(digest, 8)) < 0x1_0000_0000
  {
    var h := Prefix(digest, 8);
    HexDecBound(h);
    assert Pow16(8) == 0x1_0000_0000;
    if |h| < 8 {
      Pow16Mono(|h|, 8);
    }
  }

  lemma {:induction false} Pow16Mono(a: nat, b: nat)
    requires a <= b
    ensures Pow16(a) <= Pow16(b)
    decreases b
  {
    if a < b {
      Pow16Mono(a, b - 1);
    }
  }

  // ------------------------------------------------------------ applying

  /** $this->dataArr[$f] read where a missing field is null; the string
      functions read null as "". */
  function Field(data: Data, f: string): Value {
    if f in data then data[f] else Str("")
  }

  /** The strings of an array's entries, as implode() converts them. */
  function ItemStrings(items: seq<Item>): (r: seq<string>)
    ensures |r| == |items|
  {
    seq(|items|, i requires 0 <= i < |items| => AsString(items[i].val))
  }

  /** $this->dataArr[$f], None when the field is not set. */
  function Lookup(data: Data, f: string): (v: Option<Value>)
    ensures v.Some? <==> f in data
    ensures f in data ==> v.value == data[f]
  {
    if f in data then Some(data[f]) else None
  }

  /** Setting (Some) or unsetting (None) field f: no other field changes. */
  function Put(data: Data, f: string, v: Option<Value>): (r: Data)
    ensures Lookup(r, f) == v
    ensures forall g :: g != f ==> (g in r <==> g in data)
    ensures forall g :: g != f && g in data ==> r[g] == data[g]
  {
    if v.Some? then data[f := v.value] else data - {f}
  }

  /** The value as the string functions read it; null reads as "". */
  function StrOf(v: Option<Value>): string {
    if v.Some? then AsString(v.value) else ""
  }

  /** The new value of the field a directive works on, from its old value;
      only uniqueHashInt reads other fields. caseshift() and trim() read the
      value as a string. */
  function Transform(d: Directive, v: Option<Value>, data: Data, env: Env): Option<Value> {
    match d
    case ToInt => Some(Num(if v.Some? then IntValOf(v.value) else 0))
    case ToLowerCase => Some(Str(ToLower(StrOf(v))))
    case ToUpperCase => Some(Str(ToUpper(StrOf(v))))
    case KeepOnly(k) => Some(Filter(k, if v.Some? then v.value else Str("")))
    case TrimValue => Some(Str(Trim(StrOf(v))))
    case RandomString(p) => Some(Str(Prefix(env.entropy, IntVal(p))))
    case Files =>
      // processFiles() is not part of this model: on create the field is
      // left as submitted
      if env.cmdKey == "create" && !env.doNotSave then v else None
    case SetEmptyIfAbsent => if v.Some? then v else Some(Str(""))
    case Multiple =>
      if v.Some? && v.value.Arr? then Some(Str(Implode(",", ItemStrings(v.value.items)))) else v
    case CheckArray =>
      Some(Num(if v.Some? && v.value.Arr? then Checkbox.Pack(v.value.items) else 0))
    case UniqueHashInt(p) => Some(Num(UniqueHash(data, p, env)))
    case Ignored => v
  }

  /** One directive applied to field f: only that field changes. */
  function Apply(d: Directive, data: Data, f: string, env: Env): (r: Data)
    ensures forall g :: g != f ==> (g in r <==> g in data)
    ensures forall g :: g != f && g in data ==> g in r && r[g] == data[g]
  {
    Put(data, f, Transform(d, Lookup(data, f), data, env))
  }

  /** The directives that describe a normal form of the field. */
  predicate Normalising(d: Directive) {
    d.ToInt? || d.ToLowerCase? || d.ToUpperCase? || d.KeepOnly? || d.TrimValue?
    || d.Files? || d.SetEmptyIfAbsent? || d.Multiple? || d.Ignored?
  }

  lemma LowerTwice(s: string)
    ensures ToLower(ToLower(s)) == ToLower(s)
  {
  }

  lemma UpperTwice(s: string)
    ensures ToUpper(ToUpper(s)) == ToUpper(s)
  {
  }

  /** A normalising directive maps its own result to itself. */
  lemma TransformIdempotent(d: Directive, v: Option<Value>, data: Data, data': Data, env: Env)
    requires Normalising(d)
    ensures Transform(d, Transform(d, v, data, env), data', env) == Transform(d, v, data, env)
  {
    match d
    case ToLowerCase => LowerTwice(StrOf(v));
    case ToUpperCase => UpperTwice(StrOf(v));
    case KeepOnly(k) => FilterIdempotent(k, if v.Some? then v.value else Str(""));
    case TrimValue => TrimIdempotent(StrOf(v));
    case ToInt =>
    case Files =>
    case SetEmptyIfAbsent =>
    case Multiple =>
    case Ignored =>
  }

  /** Running a normalising directive a second time changes nothing. */
  lemma ApplyIdempotent(d: Directive, data: Data, f: string, env: Env)
    requires Normalising(d)
    ensures Apply(d, Apply(d, data, f, env), f, env) == Apply(d, data, f, env)
  {
    var once := Apply(d, data, f, env);
    TransformIdempotent(d, Lookup(data, f), data, once, env);
    var twice := Apply(d, once, f, env);
    assert Lookup(twice, f) == Lookup(once, f);
    assert forall g :: g in twice <==> g in once;
    assert forall g :: g in twice ==> twice[g] == once[g];
  }

  /** After a filter directive the field holds only characters of the
      class. */
  lemma FilterApplyClean(k: CharClass, data: Data, f: string, env: Env)
    ensures f in Apply(KeepOnly(k), data, f, env)
    ensures Clean(k, Apply(KeepOnly(k), data, f, env)[f])
  {
    var v := Lookup(data, f);
    assert Lookup(Apply(KeepOnly(k), data, f, env), f) == Transform(KeepOnly(k), v, data, env);
    FilterClean(k, if v.Some? then v.value else Str(""));
  }

  /** After trim the field is a string with no whitespace at either end. */
  lemma TrimApplyClean(data: Data, f: string, env: Env)
    ensures f in Apply(TrimValue, data, f, env)
    ensures Apply(TrimValue, data, f, env)[f].Str?
    ensures var t := Apply(TrimValue, data, f, env)[f].s;
      t == [] || (!IsTrimChar(t[0]) && !IsTrimChar(t[|t| - 1]))
  {
    var t := Trim(StrOf(Lookup(data, f)));
    TrimSpec(StrOf(Lookup(data, f)));
    assert Transform(TrimValue, Lookup(data, f), data, env) == Some(Str(t));
    assert Lookup(Apply(TrimValue, data, f, env), f) == Some(Str(t));
  }

  /** checkArray stores the bitmask of the checked boxes: below 2^31, and
      unpacked it gives the checked positions; a value that is not an array
      becomes 0. */
  lemma CheckArrayStores(data: Data, f: string, env: Env)
    ensures f in Apply(CheckArray, data, f, env)
    ensures var v := Apply(CheckArray, data, f, env)[f];
      v.Num? && 0 <= v.n < Checkbox.Pow2(Checkbox.MaxBit + 1)
      && Checkbox.Unpack(v.n) == (if f in data && data[f].Arr? then Checkbox.Checked(data[f].items) else {})
  {
    assert Lookup(Apply(CheckArray, data, f, env), f) == Transform(CheckArray, Lookup(data, f), data, env);
    if f in data && data[f].Arr? {
      Checkbox.PackBelow(data[f].items);
      Checkbox.UnpackPack(data[f].items);
    } else {
      Checkbox.UnpackPack([]);
    }
  }

  /** The directives of one field, in order (the inner foreach). */
  function ApplyAll(data: Data, f: string, ds: seq<Directive>, env: Env): (r: Data)
    ensures forall g :: g != f ==> (g in r <==> g in data)
    ensures forall g :: g != f && g in data ==> g in r && r[g] == data[g]
  {
    if |ds| == 0 then data
    else Apply(ds[|ds| - 1], ApplyAll(data, f, ds[..|ds| - 1], env), f, env)
  }

  /** The whole of parseValues: every configured field in configuration
      order. */
  function ParseAll(data: Data, conf: Row, env: Env): Data {
    if |conf| == 0 then data
    else
      var last := conf[|conf| - 1];
      ApplyAll(ParseAll(data, conf[..|conf| - 1], env), last.0, Directives(last.1), env)
  }

  /** One more configured field: its directives run on what the fields
      before it left. */
  lemma ParseAllStep(data: Data, conf: Row, env: Env, i: nat)
    requires i < |conf|
    ensures ParseAll(data, conf[..i + 1], env)
         == ApplyAll(ParseAll(data, conf[..i], env), conf[i].0, Directives(conf[i].1), env)
  {
    var c := conf[..i + 1];
    assert c[..|c| - 1] == conf[..i];
    assert c[|c| - 1] == conf[i];
  }

  /** A field that has no parse configuration is left exactly as submitted. */
  lemma {:induction false} ParseAllUntouched(data: Data, conf: Row, env: Env, g: string)
    requires !Has(conf, g)
    ensures g in ParseAll(data, conf, env) <==> g in data
    ensures g in data ==> ParseAll(data, conf, env)[g] == data[g]
  {
    if |conf| > 0 {
      var prev := conf[..|conf| - 1];
      assert !Has(prev, g);
      assert conf[|conf| - 1].0 != g;
      ParseAllUntouched(data, prev, env, g);
    }
  }
}
