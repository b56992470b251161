/**
 * The PHP values the plugin handles: submitted field values (strings,
 * integers written by the parse directives, and arrays from checkbox groups
 * and multi-selects), PHP's truthiness and string conversion, and records
 * as PHP arrays, i.e. ordered lists of column/value pairs.
 */
module PhpValues {
  import opened PhpStrings

  datatype Option<T> = None | Some(value: T)

  /** A field value. Array keys are integers: a non-numeric key is
      represented by its intval(). */
  datatype Value = Str(s: string) | Num(n: int) | Arr(items: seq<Item>)
  datatype Item = Item(key: int, val: Value)

  /** The submitted record: field name to value. A field that is absent is
      PHP's null. */
  type Data = map<string, Value>

  /** PHP truthiness of a string: "" and "0" are false. */
  predicate TruthyStr(s: string) {
    s != "" && s != "0"
  }

  /** PHP truthiness of a value. */
  predicate Truthy(v: Value) {
    match v
    case Str(s) => TruthyStr(s)
    case Num(n) => n != 0
    case Arr(items) => |items| > 0
  }

  /** Truthiness of $data[$f]; an absent field is null, which is false. */
  predicate TruthyField(data: Data, f: string) {
    f in data && Truthy(data[f])
  }

  /** PHP's conversion of a value to a string; an array becomes "Array". */
  function AsString(v: Value): string {
    match v
    case Str(s) => s
    case Num(n) => IntToStr(n)
    case Arr(_) => "Array"
  }

  /** (string)$data[$f]; an absent field (null) is "". */
  function FieldString(data: Data, f: string): string {
    if f in data then AsString(data[f]) else ""
  }

  /** intval() of a value: an array is 1 when it has entries, else 0. */
  function IntValOf(v: Value): int {
    match v
    case Str(s) => IntVal(s)
    case Num(n) => n
    case Arr(items) => if |items| == 0 then 0 else 1
  }

  /** intval($data[$f]); intval(null) is 0. */
  function FieldInt(data: Data, f: string): int {
    if f in data then IntValOf(data[f]) else 0
  }

  // ------------------------------------------------------------------ rows

  /** A record (or a TypoScript option array) as PHP keeps it: column/value
      pairs in insertion order. */
  type Row = seq<(string, string)>

  predicate Has(r: Row, k: string) {
    exists i :: 0 <= i < |r| && r[i].0 == k
  }

  lemma HasCons(x: (string, string), r: Row)
    ensures forall k :: Has([x] + r, k) <==> x.0 == k || Has(r, k)
  {
    forall k ensures Has([x] + r, k) <==> x.0 == k || Has(r, k) {
      assert ([x] + r)[0] == x;
      if Has(r, k) {
        var i :| 0 <= i < |r| && r[i].0 == k;
        assert ([x] + r)[i + 1].0 == k;
      }
      if Has([x] + r, k) && x.0 != k {
        var i :| 0 <= i < |r| + 1 && ([x] + r)[i].0 == k;
        assert i > 0 && ([x] + r)[i] == r[i - 1];
      }
    }
  }

  /** $r[$k]; an absent column is null, which reads as "". */
  function Get(r: Row, k: string): string {
    if |r| == 0 then "" else if r[0].0 == k then r[0].1 else Get(r[1..], k)
  }

  /** PHP arrays never hold a key twice. */
  predicate UniqueKeys(r: Row) {
    forall i, j :: 0 <= i < j < |r| ==> r[i].0 != r[j].0
  }

  /** $r[$k] = $v: overwrite the column in place, or append it. */
  function Assign(r: Row, k: string, v: string): (res: Row)
    ensures Get(res, k) == v
    ensures forall k' :: k' != k ==> Get(res, k') == Get(r, k')
    ensures forall k' :: Has(res, k') <==> Has(r, k') || k' == k
    ensures UniqueKeys(r) ==> UniqueKeys(res)
    ensures |res| == if Has(r, k) then |r| else |r| + 1
  {
    if |r| == 0 then [(k, v)]
    else if r[0].0 == k then
      var res := [(k, v)] + r[1..];
      HasCons((k, v), r[1..]);
      HasCons(r[0], r[1..]);
      assert r == [r[0]] + r[1..];
      res
    else
      var rest := Assign(r[1..], k, v);
      var res := [r[0]] + rest;
      HasCons(r[0], r[1..]);
      HasCons(r[0], rest);
      assert r == [r[0]] + r[1..];
      assert UniqueKeys(r) ==> !Has(r[1..], r[0].0);
      assert UniqueKeys(r) ==> forall j :: 0 <= j < |rest| ==> rest[j].0 != r[0].0;
      res
  }

  /** Assigning a column the record does not have appends it. */
  lemma {:induction false} AssignAbsent(r: Row, k: string, v: string)
    requires !Has(r, k)
    ensures Assign(r, k, v) == r + [(k, v)]
  {
    if |r| > 0 {
      HasCons(r[0], r[1..]);
      assert r == [r[0]] + r[1..];
      AssignAbsent(r[1..], k, v);
    }
  }

  /** foreach ($cfg as $k => $v) { $r[$k] = $v; } */
  function AssignAll(r: Row, cfg: Row): (res: Row)
    ensures forall k :: !Has(cfg, k) ==> Get(res, k) == Get(r, k)
    ensures UniqueKeys(r) ==> UniqueKeys(res)
  {
    if |cfg| == 0 then r
    else
      var last := cfg[|cfg| - 1];
      var prev := cfg[..|cfg| - 1];
      assert forall k :: Has(prev, k) ==> Has(cfg, k);
      Assign(AssignAll(r, prev), last.0, last.1)
  }

  /** One more assignment of the loop. */
  lemma AssignAllStep(r: Row, cfg: Row, i: nat)
    requires i < |cfg|
    ensures AssignAll(r, cfg[..i + 1]) == Assign(AssignAll(r, cfg[..i]), cfg[i].0, cfg[i].1)
  {
    var c := cfg[..i + 1];
    assert c[..|c| - 1] == cfg[..i];
    assert c[|c| - 1] == cfg[i];
  }

  /** After the assignments, a column the option array sets has the option
      array's value. */
  lemma {:induction false} AssignAllGet(r: Row, cfg: Row, k: string)
    requires UniqueKeys(cfg) && Has(cfg, k)
    ensures Get(AssignAll(r, cfg), k) == Get(cfg, k)
  {
    var last := cfg[|cfg| - 1];
    var prev := cfg[..|cfg| - 1];
    GetPrefix(cfg, k);
    if last.0 != k {
      var i :| 0 <= i < |cfg| && cfg[i].0 == k;
      assert prev[i].0 == k;
      AssignAllGet(r, prev, k);
    }
  }

  /** In a key-unique row, the value of a column is that of its one pair;
      dropping the last pair does not change the value of any other column. */
  lemma {:induction false} GetPrefix(cfg: Row, k: string)
    requires UniqueKeys(cfg) && |cfg| > 0
    ensures cfg[|cfg| - 1].0 == k ==> Get(cfg, k) == cfg[|cfg| - 1].1
    ensures cfg[|cfg| - 1].0 != k ==> Get(cfg, k) == Get(cfg[..|cfg| - 1], k)
  {
    if |cfg| > 1 {
      GetPrefix(cfg[1..], k);
      assert cfg[1..][..|cfg| - 2] == cfg[..|cfg| - 1][1..];
    }
  }

  /** array_keys($r). */
  function Keys(r: Row): (ks: seq<string>)
    ensures |ks| == |r|
    ensures forall i :: 0 <= i < |r| ==> ks[i] == r[i].0
  {
    if |r| == 0 then [] else [r[0].0] + Keys(r[1..])
  }

  /** One more key of array_keys(). */
  lemma KeysStep(r: Row, i: nat)
    requires i < |r|
    ensures Keys(r[..i + 1]) == Keys(r[..i]) + [r[i].0]
  {
    assert |Keys(r[..i + 1])| == |Keys(r[..i]) + [r[i].0]|;
    forall k | 0 <= k <= i ensures Keys(r[..i + 1])[k] == (Keys(r[..i]) + [r[i].0])[k] {
    }
  }

  /** The values of $r, in order (what implode() joins). */
  function Vals(r: Row): (vs: seq<string>)
    ensures |vs| == |r|
    ensures forall i :: 0 <= i < |r| ==> vs[i] == r[i].1
  {
    if |r| == 0 then [] else [r[0].1] + Vals(r[1..])
  }

  /** unset($r[$k]). */
  function Unset(r: Row, k: string): (res: Row)
    ensures !Has(res, k)
    ensures forall k' :: k' != k ==> Get(res, k') == Get(r, k')
  {
    if |r| == 0 then []
    else if r[0].0 == k then Unset(r[1..], k)
    else [r[0]] + Unset(r[1..], k)
  }
}
