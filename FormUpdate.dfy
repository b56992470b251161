/**
 * The record as the edit and create forms are filled in again
 * (modifyDataArrForFormUpdate): the `twice` fields get their `_again`
 * companion, `multiple` values are split into arrays, a `checkArray`
 * bitmask is unpacked into one `field][position` entry per set bit, and
 * the whole array is HTML-escaped (escapeHTML). The function works on a
 * copy of the record; its only other effect, the list of extra field names
 * kept in additionalUpdateFields, is returned beside it.
 */
module FormUpdate {
  import opened PhpStrings
  import opened PhpValues
  import Checkbox
  import Transforms

  // ------------------------------------------------------------ escapeHTML

  /** escapeHTML($var): htmlspecialchars($var, ENT_NOQUOTES) on every leaf of
      a (nested) array; an integer leaf comes back as its string. */
  function EscapeValue(v: Value): (r: Value)
    decreases v
  {
    match v
    case Str(s) => Str(SpecialChars(s, false))
    case Num(n) => Str(SpecialChars(IntToStr(n), false))
    case Arr(items) =>
      Arr(seq(|items|, i requires 0 <= i < |items| => Item(items[i].key, EscapeValue(items[i].val))))
  }

  /** escapeHTML on the record: each value escaped, the keys as they were. */
  function EscapeData(d: Data): (r: Data)
    ensures r.Keys == d.Keys
    ensures forall k :: k in d ==> r[k] == EscapeValue(d[k])
  {
    map k | k in d :: EscapeValue(d[k])
  }

  /** No string anywhere in the value holds an angle bracket. */
  predicate NoTags(v: Value)
    decreases v
  {
    match v
    case Str(s) => '<' !in s && '>' !in s
    case Num(_) => true
    case Arr(items) => forall i :: 0 <= i < |items| ==> NoTags(items[i].val)
  }

  /** The same nesting and the same keys at every level. */
  predicate SameShape(v: Value, w: Value)
    decreases v
  {
    match v
    case Arr(items) =>
      w.Arr? && |w.items| == |items|
      && forall i :: 0 <= i < |items| ==> w.items[i].key == items[i].key && SameShape(items[i].val, w.items[i].val)
    case _ => !w.Arr?
  }

  /** Every leaf as the string PHP converts it to. */
  function Stringify(v: Value): Value
    decreases v
  {
    match v
    case Str(s) => v
    case Num(n) => Str(IntToStr(n))
    case Arr(items) =>
      Arr(seq(|items|, i requires 0 <= i < |items| => Item(items[i].key, Stringify(items[i].val))))
  }

  /** htmlspecialchars_decode() on every leaf. */
  function UnescapeValue(v: Value): Value
    decreases v
  {
    match v
    case Str(s) => Str(SpecialCharsDecode(s))
    case Num(_) => v
    case Arr(items) =>
      Arr(seq(|items|, i requires 0 <= i < |items| => Item(items[i].key, UnescapeValue(items[i].val))))
  }

  /** The escaped value holds no tag and has the shape of the original. */
  lemma {:induction false} EscapeSafe(v: Value)
    ensures NoTags(EscapeValue(v))
    ensures SameShape(v, EscapeValue(v))
    decreases v
  {
    match v
    case Str(s) =>
    case Num(n) =>
    case Arr(items) =>
      forall i | 0 <= i < |items|
        ensures NoTags(EscapeValue(items[i].val)) && SameShape(items[i].val, EscapeValue(items[i].val))
      {
        EscapeSafe(items[i].val);
      }
  }

  /** Every string leaf is well-formed UTF-8. */
  predicate Utf8Value(v: Value)
    decreases v
  {
    match v
    case Str(s) => ValidUtf8(s)
    case Num(_) => true
    case Arr(items) => forall i :: 0 <= i < |items| ==> Utf8Value(items[i].val)
  }

  /** Escaping a value whose strings are well-formed UTF-8 loses nothing
      but the integer type: decoding gives back the value with every leaf as
      a string. */
  lemma {:induction false} EscapeRoundTrip(v: Value)
    requires Utf8Value(v)
    ensures UnescapeValue(EscapeValue(v)) == Stringify(v)
    decreases v
  {
    match v
    case Str(s) => SpecialCharsRoundTrip(s, false);
    case Num(n) =>
      IntToStrValidUtf8(n);
      SpecialCharsRoundTrip(IntToStr(n), false);
    case Arr(items) =>
      forall i | 0 <= i < |items|
        ensures UnescapeValue(EscapeValue(items[i].val)) == Stringify(items[i].val)
      {
        EscapeRoundTrip(items[i].val);
      }
  }

  // ------------------------------------------------- the form-update copy

  /** The record being prepared and the names collected for
      additionalUpdateFields (each preceded by a comma). */
  datatype FormData = FormData(data: Data, extra: string)

  /** The `twice` case: a set field without an `_again` companion gets one
      holding its value; a set field is always named as updated. */
  function TwiceStep(u: FormData, f: string, cmd: string): (r: FormData)
    ensures Transforms.CmdName(cmd) == "twice" && f in u.data ==>
      f + "_again" in r.data
      && r.data[f + "_again"] == (if f + "_again" in u.data then u.data[f + "_again"] else u.data[f])
      && r.extra == u.extra + "," + f + "_again"
    ensures forall k :: k != f + "_again" ==> (k in r.data <==> k in u.data)
    ensures forall k :: k != f + "_again" && k in u.data ==> r.data[k] == u.data[k]
    ensures !(Transforms.CmdName(cmd) == "twice" && f in u.data) ==> r == u
  {
    if Transforms.CmdName(cmd) == "twice" && f in u.data then
      var again := f + "_again";
      FormData(if again in u.data then u.data else u.data[again := u.data[f]], u.extra + "," + again)
    else u
  }

  /** The commands of one field, in order. */
  function TwiceCmds(u: FormData, f: string, cmds: seq<string>): FormData {
    if |cmds| == 0 then u
    else TwiceStep(TwiceCmds(u, f, cmds[..|cmds| - 1]), f, cmds[|cmds| - 1])
  }

  /** The evalValues. loop: every field with every one of its commands. */
  function TwiceAll(u: FormData, conf: Row): FormData {
    if |conf| == 0 then u
    else
      var last := conf[|conf| - 1];
      TwiceCmds(TwiceAll(u, conf[..|conf| - 1]), last.0, TrimExplode(',', last.1, true))
  }

  /** The array explode(',', $v) builds: positions 0, 1, ... */
  function ExplodeItems(s: string): (items: seq<Item>)
    ensures var parts := Explode(',', s);
      |items| == |parts| && forall i :: 0 <= i < |items| ==> items[i] == Item(i, Str(parts[i]))
  {
    var parts := Explode(',', s);
    seq(|parts|, i requires 0 <= i < |parts| => Item(i, Str(parts[i])))
  }

  /** The entry a set bit is unpacked into: `$theField . '][' . $a`. */
  function BoxField(f: string, a: nat): string {
    f + "][" + IntToStr(a)
  }

  /** Different positions have different entries. */
  lemma BoxFieldInjective(f: string, a: nat, b: nat)
    requires a <= Checkbox.MaxBit && b <= Checkbox.MaxBit
    requires BoxField(f, a) == BoxField(f, b)
    ensures a == b
  {
    var n := |f + "]["|;
    assert IntToStr(a) == BoxField(f, a)[n..];
    assert IntToStr(b) == BoxField(f, b)[n..];
    IntValNatToStr(a);
    IntValNatToStr(b);
  }

  /** The entries of the set bits below `upto`. */
  function Boxes(f: string, n: int, upto: nat): set<string> {
    set a: nat | a < upto && Checkbox.Bit(n, a) :: BoxField(f, a)
  }

  /** The `for ($a = 0; $a < upto; $a++)` loop of the checkArray case: each
      set bit's entry becomes 1 and is named as updated. */
  function UnpackBits(u: FormData, f: string, n: int, upto: nat): (r: FormData)
    ensures r.data.Keys == u.data.Keys + Boxes(f, n, upto)
    ensures forall k :: k in Boxes(f, n, upto) ==> r.data[k] == Num(1)
    ensures forall k :: k in u.data && k !in Boxes(f, n, upto) ==> r.data[k] == u.data[k]
  {
    if upto == 0 then u
    else
      var a := upto - 1;
      var p := UnpackBits(u, f, n, a);
      assert Boxes(f, n, upto) == Boxes(f, n, a) + (if Checkbox.Bit(n, a) then {BoxField(f, a)} else {});
      if Checkbox.Bit(n, a) then FormData(p.data[BoxField(f, a) := Num(1)], p.extra + "," + BoxField(f, a))
      else p
  }

  /** The parseValues. switch: `multiple` splits a set value at commas,
      `checkArray` unpacks a truthy value's bits 0..30; both only when this is
      not a preview. */
  function ParseStep(u: FormData, f: string, cmd: string, isPreview: bool): FormData {
    var name := Transforms.CmdName(cmd);
    if name == "multiple" then
      if f in u.data && !isPreview then FormData(u.data[f := Arr(ExplodeItems(AsString(u.data[f])))], u.extra)
      else u
    else if name == "checkArray" then
      if TruthyField(u.data, f) && !isPreview then UnpackBits(u, f, IntValOf(u.data[f]), Checkbox.MaxBit + 1)
      else u
    else u
  }

  function ParseCmds(u: FormData, f: string, cmds: seq<string>, isPreview: bool): FormData {
    if |cmds| == 0 then u
    else ParseStep(ParseCmds(u, f, cmds[..|cmds| - 1], isPreview), f, cmds[|cmds| - 1], isPreview)
  }

  /** The parseValues. loop of modifyDataArrForFormUpdate(): each entry's
      commands, in configuration order. */
  function FormParseAll(u: FormData, conf: Row, isPreview: bool): FormData {
    if |conf| == 0 then u
    else
      var last := conf[|conf| - 1];
      ParseCmds(FormParseAll(u, conf[..|conf| - 1], isPreview), last.0, TrimExplode(',', last.1, true), isPreview)
  }

  /** modifyDataArrForFormUpdate($inputArr) with no userFunc_updateArray hook:
      the escaped copy and the names appended to additionalUpdateFields. */
  function ModifyDataArrForFormUpdate(input: Data, evalConf: Option<Row>, parseConf: Option<Row>,
                                      isPreview: bool): (r: FormData)
    ensures forall k :: k in r.data ==> NoTags(r.data[k])
  {
    var twice := if evalConf.Some? then TwiceAll(FormData(input, ""), evalConf.value) else FormData(input, "");
    var parsed := if parseConf.Some? then FormParseAll(twice, parseConf.value, isPreview) else twice;
    var escaped := EscapeData(parsed.data);
    forall k | k in escaped ensures NoTags(escaped[k]) {
      EscapeSafe(parsed.data[k]);
    }
    FormData(escaped, parsed.extra)
  }

  // ------------------------------------------------- what the loops spare

  /** Key k holds the same in both arrays. */
  predicate SameAt(d: Data, e: Data, k: string) {
    (k in d <==> k in e) && (k in d ==> d[k] == e[k])
  }

  /** No evalValues. entry can write k: it is no entry's `_again` companion. */
  predicate TwiceSpares(conf: Row, k: string) {
    forall i :: 0 <= i < |conf| ==> k != conf[i].0 + "_again"
  }

  /** No parseValues. entry can write k: it is neither an entry's field nor
      one of that field's checkbox entries. */
  ghost predicate ParseSpares(conf: Row, k: string) {
    forall i :: 0 <= i < |conf| ==> k != conf[i].0 && forall a: nat :: k != BoxField(conf[i].0, a)
  }

  lemma {:induction false} TwiceCmdsKeeps(u: FormData, f: string, cmds: seq<string>, k: string)
    requires k != f + "_again"
    ensures SameAt(TwiceCmds(u, f, cmds).data, u.data, k)
  {
    if |cmds| > 0 {
      TwiceCmdsKeeps(u, f, cmds[..|cmds| - 1], k);
    }
  }

  /** The twice loop leaves alone every key no entry names as a companion. */
  lemma {:induction false} TwiceAllKeeps(u: FormData, conf: Row, k: string)
    requires TwiceSpares(conf, k)
    ensures SameAt(TwiceAll(u, conf).data, u.data, k)
  {
    if |conf| > 0 {
      var prev := conf[..|conf| - 1];
      forall i | 0 <= i < |prev| ensures k != prev[i].0 + "_again" {
        assert prev[i] == conf[i];
      }
      TwiceAllKeeps(u, prev, k);
      TwiceCmdsKeeps(TwiceAll(u, prev), conf[|conf| - 1].0, TrimExplode(',', conf[|conf| - 1].1, true), k);
    }
  }

  lemma ParseStepKeeps(u: FormData, f: string, cmd: string, isPreview: bool, k: string)
    requires k != f && forall a: nat :: k != BoxField(f, a)
    ensures SameAt(ParseStep(u, f, cmd, isPreview).data, u.data, k)
  {
    if Transforms.CmdName(cmd) == "checkArray" && TruthyField(u.data, f) && !isPreview {
      assert k !in Boxes(f, IntValOf(u.data[f]), Checkbox.MaxBit + 1);
    }
  }

  lemma {:induction false} ParseCmdsKeeps(u: FormData, f: string, cmds: seq<string>, isPreview: bool, k: string)
    requires k != f && forall a: nat :: k != BoxField(f, a)
    ensures SameAt(ParseCmds(u, f, cmds, isPreview).data, u.data, k)
  {
    if |cmds| > 0 {
      ParseCmdsKeeps(u, f, cmds[..|cmds| - 1], isPreview, k);
      ParseStepKeeps(ParseCmds(u, f, cmds[..|cmds| - 1], isPreview), f, cmds[|cmds| - 1], isPreview, k);
    }
  }

  /** The parse loop leaves alone every key no entry names or unpacks
      into. */
  lemma {:induction false} FormParseAllKeeps(u: FormData, conf: Row, isPreview: bool, k: string)
    requires ParseSpares(conf, k)
    ensures SameAt(FormParseAll(u, conf, isPreview).data, u.data, k)
  {
    if |conf| > 0 {
      var prev := conf[..|conf| - 1];
      forall i | 0 <= i < |prev| ensures k != prev[i].0 && forall a: nat :: k != BoxField(prev[i].0, a) {
        assert prev[i] == conf[i];
      }
      FormParseAllKeeps(u, prev, isPreview, k);
      var last := conf[|conf| - 1];
      ParseCmdsKeeps(FormParseAll(u, prev, isPreview), last.0, TrimExplode(',', last.1, true), isPreview, k);
    }
  }

  /** The twice loop and the parse loop, before escaping. */
  function Prepared(input: Data, evalConf: Option<Row>, parseConf: Option<Row>, isPreview: bool): FormData {
    var twice := if evalConf.Some? then TwiceAll(FormData(input, ""), evalConf.value) else FormData(input, "");
    if parseConf.Some? then FormParseAll(twice, parseConf.value, isPreview) else twice
  }

  lemma PreparedEscaped(input: Data, evalConf: Option<Row>, parseConf: Option<Row>, isPreview: bool)
    ensures ModifyDataArrForFormUpdate(input, evalConf, parseConf, isPreview)
         == FormData(EscapeData(Prepared(input, evalConf, parseConf, isPreview).data),
                     Prepared(input, evalConf, parseConf, isPreview).extra)
  {
  }

  // -------------------------------------------------------- the whole copy

  /** A field no command writes comes back escaped, and a missing one stays
      missing. */
  lemma FormKeeps(input: Data, evalConf: Option<Row>, parseConf: Option<Row>, isPreview: bool, k: string)
    requires evalConf.Some? ==> TwiceSpares(evalConf.value, k)
    requires parseConf.Some? ==> ParseSpares(parseConf.value, k)
    ensures var r := ModifyDataArrForFormUpdate(input, evalConf, parseConf, isPreview);
      (k in r.data <==> k in input) && (k in input ==> r.data[k] == EscapeValue(input[k]))
  {
    PreparedEscaped(input, evalConf, parseConf, isPreview);
    var u := FormData(input, "");
    var twice := if evalConf.Some? then TwiceAll(u, evalConf.value) else u;
    if evalConf.Some? {
      TwiceAllKeeps(u, evalConf.value, k);
    }
    if parseConf.Some? {
      FormParseAllKeeps(twice, parseConf.value, isPreview, k);
    }
  }

  // ------------------------------------------------ one entry at a time

  lemma SameAtTrans(d: Data, e: Data, g: Data, k: string)
    requires SameAt(d, e, k) && SameAt(e, g, k)
    ensures SameAt(d, g, k)
  {
  }

  lemma TwiceAllStep(u: FormData, conf: Row, m: nat)
    requires m < |conf|
    ensures TwiceAll(u, conf[..m + 1]) == TwiceCmds(TwiceAll(u, conf[..m]), conf[m].0, TrimExplode(',', conf[m].1, true))
  {
    var c := conf[..m + 1];
    assert c[..|c| - 1] == conf[..m];
    assert c[|c| - 1] == conf[m];
  }

  lemma FormParseAllStep(u: FormData, conf: Row, m: nat, isPreview: bool)
    requires m < |conf|
    ensures FormParseAll(u, conf[..m + 1], isPreview)
         == ParseCmds(FormParseAll(u, conf[..m], isPreview), conf[m].0, TrimExplode(',', conf[m].1, true), isPreview)
  {
    var c := conf[..m + 1];
    assert c[..|c| - 1] == conf[..m];
    assert c[|c| - 1] == conf[m];
  }

  /** Entries i..j-1 of parseValues. leave k alone when none of them names it
      or unpacks into it. */
  lemma {:induction false} ParseRangeKeeps(u: FormData, conf: Row, i: nat, j: nat, isPreview: bool, k: string)
    requires i <= j <= |conf|
    requires forall l :: i <= l < j ==> k != conf[l].0 && forall a: nat :: k != BoxField(conf[l].0, a)
    ensures SameAt(FormParseAll(u, conf[..j], isPreview).data, FormParseAll(u, conf[..i], isPreview).data, k)
    decreases j
  {
    if j > i {
      ParseRangeKeeps(u, conf, i, j - 1, isPreview, k);
      FormParseAllStep(u, conf, j - 1, isPreview);
      var prev := FormParseAll(u, conf[..j - 1], isPreview);
      var next := ParseCmds(prev, conf[j - 1].0, TrimExplode(',', conf[j - 1].1, true), isPreview);
      ParseCmdsKeeps(prev, conf[j - 1].0, TrimExplode(',', conf[j - 1].1, true), isPreview, k);
      SameAtTrans(next.data, prev.data, FormParseAll(u, conf[..i], isPreview).data, k);
      assert FormParseAll(u, conf[..j], isPreview) == next;
    } else {
      assert conf[..j] == conf[..i];
    }
  }

  // ------------------------------------------------------------- twice

  /** The name of each command. */
  function CmdNames(cmds: seq<string>): (names: seq<string>)
    ensures |names| == |cmds| && forall j :: 0 <= j < |cmds| ==> names[j] == Transforms.CmdName(cmds[j])
  {
    seq(|cmds|, j requires 0 <= j < |cmds| => Transforms.CmdName(cmds[j]))
  }

  /** One of the commands is twice. */
  predicate ListsTwice(cmds: seq<string>) {
    "twice" in CmdNames(cmds)
  }

  /** For each evalValues. entry: is it an entry of f that lists twice? */
  function TwiceMarks(conf: Row, f: string): (marks: seq<bool>)
    ensures |marks| == |conf|
    ensures forall m :: 0 <= m < |conf| ==> marks[m] == (conf[m].0 == f && ListsTwice(TrimExplode(',', conf[m].1, true)))
  {
    seq(|conf|, m requires 0 <= m < |conf| => conf[m].0 == f && ListsTwice(TrimExplode(',', conf[m].1, true)))
  }

  /** Some evalValues. entry of f among the first l lists twice. */
  predicate TwiceFor(conf: Row, f: string, l: nat)
    requires l <= |conf|
  {
    true in TwiceMarks(conf, f)[..l]
  }

  lemma TwiceForLast(conf: Row, f: string, l: nat)
    requires l < |conf|
    ensures TwiceFor(conf, f, l + 1) <==> TwiceFor(conf, f, l) || TwiceMarks(conf, f)[l]
  {
    var marks := TwiceMarks(conf, f);
    assert marks[..l + 1] == marks[..l] + [marks[l]];
  }

  /** What the twice commands leave behind, from the array base: f as it
      was, and its companion there exactly when it was already or f is set
      and twice was listed, holding the companion it had or else f's value. */
  predicate TwiceInv(d: Data, base: Data, f: string, listed: bool) {
    var again := f + "_again";
    SameAt(d, base, f)
    && (again in d <==> again in base || (f in base && listed))
    && (again in d ==> d[again] == if again in base then base[again] else base[f])
  }

  lemma TwiceInvCompose(d1: Data, d2: Data, base: Data, f: string, l1: bool, l2: bool)
    requires TwiceInv(d1, base, f, l1) && TwiceInv(d2, d1, f, l2)
    ensures TwiceInv(d2, base, f, l1 || l2)
  {
  }

  lemma AgainLonger(f: string)
    ensures f != f + "_again"
  {
    assert |f + "_again"| == |f| + 6;
  }

  lemma AgainInjective(f: string, g: string)
    requires g + "_again" == f + "_again"
    ensures g == f
  {
    assert |g| == |f|;
    assert g == (g + "_again")[..|g|];
    assert f == (f + "_again")[..|f|];
  }

  lemma TwiceStepInv(w: FormData, f: string, cmd: string)
    ensures TwiceInv(TwiceStep(w, f, cmd).data, w.data, f, Transforms.CmdName(cmd) == "twice")
  {
    AgainLonger(f);
  }

  /** A field's commands keep it, and give it its companion when one of them
      is twice. */
  lemma {:induction false} TwiceCmdsEffect(v: FormData, f: string, cmds: seq<string>)
    ensures TwiceInv(TwiceCmds(v, f, cmds).data, v.data, f, ListsTwice(cmds))
  {
    if |cmds| == 0 {
      assert TwiceCmds(v, f, cmds) == v;
    } else {
      var front := cmds[..|cmds| - 1];
      var last := cmds[|cmds| - 1];
      TwiceCmdsEffect(v, f, front);
      var w := TwiceCmds(v, f, front);
      assert TwiceCmds(v, f, cmds) == TwiceStep(w, f, last);
      TwiceStepInv(w, f, last);
      TwiceInvCompose(w.data, TwiceStep(w, f, last).data, v.data, f, ListsTwice(front), Transforms.CmdName(last) == "twice");
      CmdNamesLast(cmds);
    }
  }

  lemma CmdNamesLast(cmds: seq<string>)
    requires |cmds| > 0
    ensures CmdNames(cmds) == CmdNames(cmds[..|cmds| - 1]) + [Transforms.CmdName(cmds[|cmds| - 1])]
  {
    var front := cmds[..|cmds| - 1];
    var a := CmdNames(cmds);
    var b := CmdNames(front) + [Transforms.CmdName(cmds[|cmds| - 1])];
    forall j | 0 <= j < |a| ensures a[j] == b[j] {
      if j < |front| {
        assert front[j] == cmds[j];
        assert b[j] == CmdNames(front)[j];
      } else {
        assert b[j] == Transforms.CmdName(cmds[j]);
      }
    }
  }

  /** Another field's commands leave f and its companion alone, f being no
      companion of theirs. */
  lemma TwiceCmdsOther(w: FormData, g: string, cmds: seq<string>, f: string)
    requires g != f && f != g + "_again"
    ensures TwiceInv(TwiceCmds(w, g, cmds).data, w.data, f, false)
  {
    if f + "_again" == g + "_again" {
      AgainInjective(f, g);
    }
    TwiceCmdsKeeps(w, g, cmds, f);
    TwiceCmdsKeeps(w, g, cmds, f + "_again");
  }

  /** The evalValues. loop over its first l entries, f being no entry's
      companion. */
  lemma {:induction false} TwiceAllEffect(u: FormData, conf: Row, f: string, l: nat)
    requires l <= |conf|
    requires forall m :: 0 <= m < |conf| ==> f != conf[m].0 + "_again"
    ensures TwiceInv(TwiceAll(u, conf[..l]).data, u.data, f, TwiceFor(conf, f, l))
    decreases l
  {
    if l == 0 {
      assert conf[..0] == [];
      assert !TwiceFor(conf, f, 0);
    } else {
      var m := l - 1;
      TwiceAllEffect(u, conf, f, m);
      TwiceAllStep(u, conf, m);
      var v := TwiceAll(u, conf[..m]);
      var cmds := TrimExplode(',', conf[m].1, true);
      var next := TwiceCmds(v, conf[m].0, cmds);
      var here := conf[m].0 == f && ListsTwice(cmds);
      if conf[m].0 == f {
        TwiceCmdsEffect(v, f, cmds);
      } else {
        TwiceCmdsOther(v, conf[m].0, cmds, f);
      }
      TwiceInvCompose(v.data, next.data, u.data, f, TwiceFor(conf, f, m), here);
      TwiceForLast(conf, f, m);
      assert TwiceAll(u, conf[..l]) == next;
    }
  }

  // ---------------------------------------------------- multiple, checkArray

  /** Among the commands, the one at j is named name, and no other one is
      multiple or checkArray. */
  predicate SoleParse(cmds: seq<string>, j: nat, name: string) {
    j < |cmds| && Transforms.CmdName(cmds[j]) == name
    && forall l :: 0 <= l < |cmds| && l != j ==>
         Transforms.CmdName(cmds[l]) != "multiple" && Transforms.CmdName(cmds[l]) != "checkArray"
  }

  /** With one multiple or checkArray among them, a field's first l commands
      do what that one does once it is among them. */
  lemma {:induction false} ParseCmdsSole(u: FormData, f: string, cmds: seq<string>, j: nat, name: string,
                                         isPreview: bool, l: nat)
    requires SoleParse(cmds, j, name) && l <= |cmds|
    ensures ParseCmds(u, f, cmds[..l], isPreview) == if l <= j then u else ParseStep(u, f, cmds[j], isPreview)
    decreases l
  {
    if l == 0 {
      assert cmds[..0] == [];
    } else {
      ParseCmdsSole(u, f, cmds, j, name, isPreview, l - 1);
      ParseCmdsStep(u, f, cmds, l - 1, isPreview);
      if l - 1 != j {
        ParseStepIdle(ParseCmds(u, f, cmds[..l - 1], isPreview), f, cmds[l - 1], isPreview);
      }
    }
  }

  lemma ParseCmdsStep(u: FormData, f: string, cmds: seq<string>, m: nat, isPreview: bool)
    requires m < |cmds|
    ensures ParseCmds(u, f, cmds[..m + 1], isPreview) == ParseStep(ParseCmds(u, f, cmds[..m], isPreview), f, cmds[m], isPreview)
  {
    var c := cmds[..m + 1];
    assert c[..|c| - 1] == cmds[..m];
    assert c[|c| - 1] == cmds[m];
  }

  /** Commands other than multiple and checkArray change nothing here. */
  lemma ParseStepIdle(u: FormData, f: string, cmd: string, isPreview: bool)
    requires Transforms.CmdName(cmd) != "multiple" && Transforms.CmdName(cmd) != "checkArray"
    ensures ParseStep(u, f, cmd, isPreview) == u
  {
  }

  /** A plain field name holds no ']', as every checkbox entry does. */
  predicate PlainName(f: string) {
    ']' !in f
  }

  lemma CloseAt(f: string, a: nat)
    ensures |BoxField(f, a)| > |f| && BoxField(f, a)[|f|] == ']' && BoxField(f, a)[..|f|] == f
  {
    assert BoxField(f, a) == f + ("][" + IntToStr(a));
  }

  /** Two checkbox entries of plain field names are of the same field. */
  lemma BoxFieldPrefix(f: string, a: nat, g: string, b: nat)
    requires PlainName(f) && PlainName(g) && BoxField(f, a) == BoxField(g, b)
    ensures f == g
  {
    var x := BoxField(f, a);
    CloseAt(f, a);
    CloseAt(g, b);
    assert forall i :: 0 <= i < |f| ==> x[i] == f[i];
    assert forall i :: 0 <= i < |g| ==> x[i] == g[i];
    assert |f| == |g|;
  }

  /** A checkbox entry is no field's companion: it ends in a digit. */
  lemma BoxNotCompanion(f: string, a: nat, g: string)
    ensures BoxField(f, a) != g + "_again"
  {
    var x := BoxField(f, a);
    assert x == (f + "][") + IntToStr(a);
    assert x[|x| - 1] == IntToStr(a)[|IntToStr(a)| - 1];
    assert IsDigit(x[|x| - 1]);
    assert (g + "_again")[|g + "_again"| - 1] == 'n';
  }

  /** The parseValues. entries other than i are of other plain fields. */
  predicate OthersPlain(conf: Row, i: nat, f: string) {
    PlainName(f) && forall l :: 0 <= l < |conf| && l != i ==> conf[l].0 != f && PlainName(conf[l].0)
  }

  /** Another plain field's entry spares f and its checkbox entries. */
  lemma PlainSpares(g: string, f: string)
    requires PlainName(f) && PlainName(g) && g != f
    ensures forall a: nat :: f != BoxField(g, a)
    ensures forall b: nat :: BoxField(f, b) != g && forall a: nat :: BoxField(f, b) != BoxField(g, a)
  {
    forall a: nat ensures f != BoxField(g, a) {
      CloseAt(g, a);
      assert ']' in BoxField(g, a);
    }
    forall b: nat ensures BoxField(f, b) != g && forall a: nat :: BoxField(f, b) != BoxField(g, a) {
      CloseAt(f, b);
      assert ']' in BoxField(f, b);
      forall a: nat ensures BoxField(f, b) != BoxField(g, a) {
        if BoxField(f, b) == BoxField(g, a) {
          BoxFieldPrefix(f, b, g, a);
        }
      }
    }
  }

  /** ParseStep of f reads only f and writes only f and its checkbox
      entries: from arrays that agree on f and on such a key, it gives arrays
      that agree on the key. */
  lemma ParseStepFrom(d: Data, v: FormData, f: string, cmd: string, isPreview: bool, k: string)
    requires SameAt(v.data, d, f) && SameAt(v.data, d, k)
    ensures SameAt(ParseStep(v, f, cmd, isPreview).data, ParseStep(FormData(d, ""), f, cmd, isPreview).data, k)
  {
    var w := FormData(d, "");
    var name := Transforms.CmdName(cmd);
    if name == "multiple" {
      if f in v.data && !isPreview {
        assert ParseStep(v, f, cmd, isPreview).data == v.data[f := Arr(ExplodeItems(AsString(v.data[f])))];
        assert ParseStep(w, f, cmd, isPreview).data == d[f := Arr(ExplodeItems(AsString(v.data[f])))];
      }
    } else if name == "checkArray" {
      if TruthyField(v.data, f) && !isPreview {
        var n := IntValOf(v.data[f]);
        assert ParseStep(v, f, cmd, isPreview) == UnpackBits(v, f, n, Checkbox.MaxBit + 1);
        assert ParseStep(w, f, cmd, isPreview) == UnpackBits(w, f, n, Checkbox.MaxBit + 1);
        UnpackBitsFrom(v, w, f, n, k);
      }
    }
  }

  lemma UnpackBitsFrom(v: FormData, w: FormData, f: string, n: int, k: string)
    requires SameAt(v.data, w.data, k)
    ensures SameAt(UnpackBits(v, f, n, Checkbox.MaxBit + 1).data, UnpackBits(w, f, n, Checkbox.MaxBit + 1).data, k)
  {
  }

  /** The parseValues. loop when entry i holds its field's sole multiple or
      checkArray: on that field and its checkbox entries it does what the
      command does. */
  lemma FormParseAllSole(u: FormData, conf: Row, i: nat, j: nat, name: string, isPreview: bool, k: string)
    requires i < |conf| && OthersPlain(conf, i, conf[i].0)
    requires SoleParse(TrimExplode(',', conf[i].1, true), j, name)
    requires k == conf[i].0 || exists b: nat :: k == BoxField(conf[i].0, b)
    ensures SameAt(FormParseAll(u, conf, isPreview).data,
                   ParseStep(FormData(u.data, ""), conf[i].0, TrimExplode(',', conf[i].1, true)[j], isPreview).data, k)
  {
    var f := conf[i].0;
    var cmds := TrimExplode(',', conf[i].1, true);
    forall l | 0 <= l < |conf| && l != i
      ensures k != conf[l].0 && forall a: nat :: k != BoxField(conf[l].0, a)
    {
      PlainSpares(conf[l].0, f);
    }
    assert conf[..0] == [];
    assert conf[..|conf|] == conf;
    assert cmds[..|cmds|] == cmds;
    ParseRangeKeeps(u, conf, 0, i, isPreview, k);
    ParseRangeKeeps(u, conf, 0, i, isPreview, f);
    var v := FormParseAll(u, conf[..i], isPreview);
    FormParseAllStep(u, conf, i, isPreview);
    ParseCmdsSole(v, f, cmds, j, name, isPreview, |cmds|);
    var w := ParseStep(v, f, cmds[j], isPreview);
    assert FormParseAll(u, conf[..i + 1], isPreview) == w;
    ParseRangeKeeps(u, conf, i + 1, |conf|, isPreview, k);
    ParseStepFrom(u.data, v, f, cmds[j], isPreview, k);
    SameAtTrans(FormParseAll(u, conf, isPreview).data, w.data,
                ParseStep(FormData(u.data, ""), f, cmds[j], isPreview).data, k);
  }

  // ----------------------------------------------------------- round trip

  /** Unpacking a stored integer mask n sets the entry of every position
      0..30 whose bit is set, leaves every other position's entry as it was,
      and changes nothing else. */
  lemma UnpackMarks(u: FormData, f: string, cmd: string, n: int)
    requires Transforms.CmdName(cmd) == "checkArray"
    requires f in u.data && u.data[f] == Num(n)
    ensures var r := ParseStep(u, f, cmd, false);
      (forall a: nat :: a <= Checkbox.MaxBit && Checkbox.Bit(n, a) ==>
         BoxField(f, a) in r.data && r.data[BoxField(f, a)] == Num(1))
      && (forall a: nat :: a <= Checkbox.MaxBit && !Checkbox.Bit(n, a) ==>
            (BoxField(f, a) in r.data <==> BoxField(f, a) in u.data)
            && (BoxField(f, a) in u.data ==> r.data[BoxField(f, a)] == u.data[BoxField(f, a)]))
      && (forall k :: k in u.data && k !in Boxes(f, n, Checkbox.MaxBit + 1) ==> k in r.data && r.data[k] == u.data[k])
  {
    if n == 0 {
      forall a: nat ensures !Checkbox.Bit(0, a) {
        Checkbox.ZeroBits(a);
      }
      assert Boxes(f, n, Checkbox.MaxBit + 1) == {};
    }
    forall a: nat | a <= Checkbox.MaxBit
      ensures BoxField(f, a) in Boxes(f, n, Checkbox.MaxBit + 1) <==> Checkbox.Bit(n, a)
    {
      BoxesHold(f, n, a);
    }
  }

  /** Position a has an entry among the unpacked ones exactly when its bit
      is set. */
  lemma BoxesHold(f: string, n: int, a: nat)
    requires a <= Checkbox.MaxBit
    ensures BoxField(f, a) in Boxes(f, n, Checkbox.MaxBit + 1) <==> Checkbox.Bit(n, a)
  {
    if BoxField(f, a) in Boxes(f, n, Checkbox.MaxBit + 1) {
      var b: nat :| b < Checkbox.MaxBit + 1 && Checkbox.Bit(n, b) && BoxField(f, b) == BoxField(f, a);
      BoxFieldInjective(f, a, b);
    }
  }

  /** The checkbox round trip: a mask stored by the checkArray parse
      directive, unpacked when the form is filled in again, sets the entry of
      exactly the positions that were checked; every other position's entry
      is as it was. */
  lemma CheckboxRoundTrip(data: Data, f: string, env: Transforms.Env, u: FormData, cmd: string)
    requires Transforms.CmdName(cmd) == "checkArray"
    requires u.data == Transforms.Apply(Transforms.CheckArray, data, f, env)
    ensures var r := ParseStep(u, f, cmd, false);
      var checked := if f in data && data[f].Arr? then Checkbox.Checked(data[f].items) else {};
      (forall a: nat :: a in checked ==> BoxField(f, a) in r.data && r.data[BoxField(f, a)] == Num(1))
      && (forall a: nat :: a <= Checkbox.MaxBit && a !in checked ==>
            (BoxField(f, a) in r.data <==> BoxField(f, a) in u.data)
            && (BoxField(f, a) in u.data ==> r.data[BoxField(f, a)] == u.data[BoxField(f, a)]))
  {
    Transforms.CheckArrayStores(data, f, env);
    var n := u.data[f].n;
    UnpackMarks(u, f, cmd, n);
    assert forall a: nat :: a <= Checkbox.MaxBit ==> (a in Checkbox.Unpack(n) <==> Checkbox.Bit(n, a));
  }

  // ------------------------------------------------ the whole copy, by command

  /** A set field listing twice in evalValues. comes back with its `_again`
      companion: the companion that was sent, or else the field's own
      value, escaped. */
  lemma FormTwice(input: Data, evalConf: Row, parseConf: Option<Row>, isPreview: bool, f: string)
    requires f in input && TwiceFor(evalConf, f, |evalConf|)
    requires forall m :: 0 <= m < |evalConf| ==> f != evalConf[m].0 + "_again"
    requires parseConf.Some? ==> ParseSpares(parseConf.value, f + "_again")
    ensures var r := ModifyDataArrForFormUpdate(input, Some(evalConf), parseConf, isPreview);
      var again := f + "_again";
      again in r.data && r.data[again] == EscapeValue(if again in input then input[again] else input[f])
  {
    PreparedEscaped(input, Some(evalConf), parseConf, isPreview);
    var u := FormData(input, "");
    TwiceAllEffect(u, evalConf, f, |evalConf|);
    assert evalConf[..|evalConf|] == evalConf;
    if parseConf.Some? {
      FormParseAllKeeps(TwiceAll(u, evalConf), parseConf.value, isPreview, f + "_again");
    }
  }

  /** Before escaping, the field of parseValues. entry i and its checkbox
      entries hold what that entry's sole multiple or checkArray makes of the
      input, when no twice entry names them as companions. */
  lemma PreparedSole(input: Data, evalConf: Option<Row>, parseConf: Row, isPreview: bool, i: nat, j: nat,
                     name: string, k: string)
    requires i < |parseConf| && OthersPlain(parseConf, i, parseConf[i].0)
    requires SoleParse(TrimExplode(',', parseConf[i].1, true), j, name)
    requires k == parseConf[i].0 || exists b: nat :: k == BoxField(parseConf[i].0, b)
    requires evalConf.Some? ==> TwiceSpares(evalConf.value, parseConf[i].0) && TwiceSpares(evalConf.value, k)
    ensures SameAt(Prepared(input, evalConf, Some(parseConf), isPreview).data,
                   ParseStep(FormData(input, ""), parseConf[i].0, TrimExplode(',', parseConf[i].1, true)[j], isPreview).data, k)
  {
    var f := parseConf[i].0;
    var cmd := TrimExplode(',', parseConf[i].1, true)[j];
    var u := FormData(input, "");
    var twice := if evalConf.Some? then TwiceAll(u, evalConf.value) else u;
    if evalConf.Some? {
      TwiceAllKeeps(u, evalConf.value, f);
      TwiceAllKeeps(u, evalConf.value, k);
    }
    FormParseAllSole(twice, parseConf, i, j, name, isPreview, k);
    ParseStepFrom(input, FormData(twice.data, ""), f, cmd, isPreview, k);
    SameAtTrans(FormParseAll(twice, parseConf, isPreview).data, ParseStep(FormData(twice.data, ""), f, cmd, isPreview).data,
                ParseStep(u, f, cmd, isPreview).data, k);
  }

  /** A field whose one parseValues. command of the two is multiple comes back
      split at its commas into an array (escaped item by item), except in a
      preview, where it comes back as sent. */
  lemma FormMultiple(input: Data, evalConf: Option<Row>, parseConf: Row, isPreview: bool, i: nat, j: nat)
    requires i < |parseConf| && OthersPlain(parseConf, i, parseConf[i].0)
    requires SoleParse(TrimExplode(',', parseConf[i].1, true), j, "multiple")
    requires evalConf.Some? ==> TwiceSpares(evalConf.value, parseConf[i].0)
    ensures var f := parseConf[i].0;
      var r := ModifyDataArrForFormUpdate(input, evalConf, Some(parseConf), isPreview);
      (f in r.data <==> f in input)
      && (f in input ==> r.data[f] == EscapeValue(if isPreview then input[f] else Arr(ExplodeItems(AsString(input[f])))))
  {
    PreparedEscaped(input, evalConf, Some(parseConf), isPreview);
    PreparedSole(input, evalConf, parseConf, isPreview, i, j, "multiple", parseConf[i].0);
  }

  /** escapeHTML() turns a checkbox entry's 1 into the string "1". */
  lemma EscapedOne()
    ensures EscapeValue(Num(1)) == Str("1")
  {
    assert IntToStr(1) == "1";
    IntToStrValidUtf8(1);
    assert EscapeChars("1", false) == HtmlEscape('1', false) + EscapeChars("", false);
  }

  /** The checkbox round trip through the form-update copy: for a record
      whose checkArray field was stored as a mask, the copy sets the entry of
      exactly the checked positions to "1" and leaves every other position's
      entry as it was, escaped. */
  lemma FormCheckbox(data: Data, env: Transforms.Env, evalConf: Option<Row>, parseConf: Row, i: nat, j: nat)
    requires i < |parseConf| && OthersPlain(parseConf, i, parseConf[i].0)
    requires SoleParse(TrimExplode(',', parseConf[i].1, true), j, "checkArray")
    requires evalConf.Some? ==> TwiceSpares(evalConf.value, parseConf[i].0)
    ensures var f := parseConf[i].0;
      var input := Transforms.Apply(Transforms.CheckArray, data, f, env);
      var r := ModifyDataArrForFormUpdate(input, evalConf, Some(parseConf), false);
      var checked := if f in data && data[f].Arr? then Checkbox.Checked(data[f].items) else {};
      (forall a: nat :: a in checked ==> BoxField(f, a) in r.data && r.data[BoxField(f, a)] == Str("1"))
      && (forall a: nat :: a <= Checkbox.MaxBit && a !in checked ==>
            (BoxField(f, a) in r.data <==> BoxField(f, a) in input)
            && (BoxField(f, a) in input ==> r.data[BoxField(f, a)] == EscapeValue(input[BoxField(f, a)])))
  {
    var f := parseConf[i].0;
    var cmd := TrimExplode(',', parseConf[i].1, true)[j];
    var input := Transforms.Apply(Transforms.CheckArray, data, f, env);
    PreparedEscaped(input, evalConf, Some(parseConf), false);
    PreparedBoxes(input, evalConf, parseConf, i, j);
    CheckboxRoundTrip(data, f, env, FormData(input, ""), cmd);
    var checked := if f in data && data[f].Arr? then Checkbox.Checked(data[f].items) else {};
    BoxesEscaped(Prepared(input, evalConf, Some(parseConf), false).data,
                 ParseStep(FormData(input, ""), f, cmd, false).data, input, f, checked);
  }

  /** Escaping the prepared array keeps what it holds at the checkbox
      entries, a 1 becoming "1". */
  lemma BoxesEscaped(pd: Data, qd: Data, ud: Data, f: string, checked: set<nat>)
    requires forall a: nat :: SameAt(pd, qd, BoxField(f, a))
    requires forall a: nat :: a in checked ==> BoxField(f, a) in qd && qd[BoxField(f, a)] == Num(1)
    requires forall a: nat :: a <= Checkbox.MaxBit && a !in checked ==>
               (BoxField(f, a) in qd <==> BoxField(f, a) in ud)
               && (BoxField(f, a) in ud ==> qd[BoxField(f, a)] == ud[BoxField(f, a)])
    ensures var rd := EscapeData(pd);
      (forall a: nat :: a in checked ==> BoxField(f, a) in rd && rd[BoxField(f, a)] == Str("1"))
      && (forall a: nat :: a <= Checkbox.MaxBit && a !in checked ==>
            (BoxField(f, a) in rd <==> BoxField(f, a) in ud)
            && (BoxField(f, a) in ud ==> rd[BoxField(f, a)] == EscapeValue(ud[BoxField(f, a)])))
  {
    EscapedOne();
    var rd := EscapeData(pd);
    forall a: nat | a in checked ensures BoxField(f, a) in rd && rd[BoxField(f, a)] == Str("1") {
      assert SameAt(pd, qd, BoxField(f, a));
    }
    forall a: nat | a <= Checkbox.MaxBit && a !in checked
      ensures (BoxField(f, a) in rd <==> BoxField(f, a) in ud)
              && (BoxField(f, a) in ud ==> rd[BoxField(f, a)] == EscapeValue(ud[BoxField(f, a)]))
    {
      assert SameAt(pd, qd, BoxField(f, a));
    }
  }

  /** Before escaping, the checkbox entries of parseValues. entry i's field
      hold what its checkArray makes of them. */
  lemma PreparedBoxes(input: Data, evalConf: Option<Row>, parseConf: Row, i: nat, j: nat)
    requires i < |parseConf| && OthersPlain(parseConf, i, parseConf[i].0)
    requires SoleParse(TrimExplode(',', parseConf[i].1, true), j, "checkArray")
    requires evalConf.Some? ==> TwiceSpares(evalConf.value, parseConf[i].0)
    ensures var f := parseConf[i].0;
      forall a: nat :: SameAt(Prepared(input, evalConf, Some(parseConf), false).data,
                              ParseStep(FormData(input, ""), f, TrimExplode(',', parseConf[i].1, true)[j], false).data,
                              BoxField(f, a))
  {
    var f := parseConf[i].0;
    forall a: nat
      ensures SameAt(Prepared(input, evalConf, Some(parseConf), false).data,
                     ParseStep(FormData(input, ""), f, TrimExplode(',', parseConf[i].1, true)[j], false).data,
                     BoxField(f, a))
    {
      if evalConf.Some? {
        forall m | 0 <= m < |evalConf.value| ensures BoxField(f, a) != evalConf.value[m].0 + "_again" {
          BoxNotCompanion(f, a, evalConf.value[m].0);
        }
      }
      PreparedSole(input, evalConf, parseConf, false, i, j, "checkArray", BoxField(f, a));
    }
  }
}
