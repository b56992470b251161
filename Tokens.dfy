/**
 * The capability codes: authCode()/aCAuth(), which let a link from an email
 * stand in for a login when editing or deleting, and setfixedHash(), which
 * authorises the "setfixed" links (approve, delete, ...) and the changes
 * procesSetFixed() makes. Each code is a prefix of the md5 digest of
 * selected record values joined with "|", a configured addKey and the
 * installation's encryption key; md5 is a parameter of the model.
 */
module Tokens {
  import opened PhpStrings
  import opened PhpValues

  /** The authcodeFields configuration and the secrets codes are made of.
      date is what date($addDate) returns at the time of the call. */
  datatype AuthConf = AuthConf(
    fields: string,
    addKey: string,
    addDate: string,
    date: string,
    codeLengthConf: string,
    encKey: string,
    md5: string -> string)

  /** $this->codeLength: authcodeFields.codeLength as an integer, 8 when
      that is 0 or missing. */
  function CodeLength(c: AuthConf): (l: int)
    ensures l != 0
    ensures IntVal(c.codeLengthConf) == 0 ==> l == 8
    ensures IntVal(c.codeLengthConf) != 0 ==> l == IntVal(c.codeLengthConf)
  {
    var l := IntVal(c.codeLengthConf);
    if l != 0 then l else 8
  }

  /** The values of the listed fields, each followed by "|". */
  function FieldValues(r: Row, fields: seq<string>): string {
    if |fields| == 0 then ""
    else FieldValues(r, fields[..|fields| - 1]) + Get(r, fields[|fields| - 1]) + "|"
  }

  lemma FieldValuesStep(r: Row, fields: seq<string>, i: nat)
    requires i < |fields|
    ensures FieldValues(r, fields[..i + 1]) == FieldValues(r, fields[..i]) + Get(r, fields[i]) + "|"
  {
    assert fields[..i + 1][..i] == fields[..i];
  }

  /** The string authCode() hashes. */
  function AuthInput(r: Row, extra: string, c: AuthConf): string {
    FieldValues(r, TrimExplode(',', c.fields, true)) + extra + "|" + c.addKey
      + (if TruthyStr(c.addDate) then "|" + c.date else "") + c.encKey
  }

  /** The loop of authCode() that builds $value. */
  method BuildAuthInput(r: Row, extra: string, c: AuthConf) returns (value: string)
    ensures value == AuthInput(r, extra, c)
  {
    var fieldArr := TrimExplode(',', c.fields, true);
    value := JoinFields(r, fieldArr);
    var date := if TruthyStr(c.addDate) then "|" + c.date else "";
    value := value + extra + "|" + c.addKey + date + c.encKey;
  }

  /** The foreach of authCode() over the field list. */
  method JoinFields(r: Row, fieldArr: seq<string>) returns (value: string)
    ensures value == FieldValues(r, fieldArr)
  {
    value := "";
    var i := 0;
    while i < |fieldArr|
      invariant 0 <= i <= |fieldArr|
      invariant value == FieldValues(r, fieldArr[..i])
    {
      FieldValuesStep(r, fieldArr, i);
      value := value + Get(r, fieldArr[i]) + "|";
      i := i + 1;
    }
    assert fieldArr[..i] == fieldArr;
  }

  /** authCode($r, $extra): "" unless authcodeFields is set; otherwise the
      first codeLength characters of the digest (a negative codeLength
      drops that many from its end). */
  function AuthCode(r: Row, extra: string, c: AuthConf): (code: string)
    ensures !TruthyStr(c.fields) ==> code == ""
    ensures TruthyStr(c.fields) ==> code == Prefix(c.md5(AuthInput(r, extra, c)), CodeLength(c))
    ensures CodeLength(c) > 0 ==> |code| <= CodeLength(c)
  {
    if TruthyStr(c.fields) then Prefix(c.md5(AuthInput(r, extra, c)), CodeLength(c)) else ""
  }

  /** With the default length a code has at most 8 characters, and it is a
      prefix of the digest. */
  lemma AuthCodeDefault(r: Row, extra: string, c: AuthConf)
    requires IntVal(c.codeLengthConf) == 0
    ensures |AuthCode(r, extra, c)| <= 8
    ensures TruthyStr(c.fields) ==> StartsWith(c.md5(AuthInput(r, extra, c)), AuthCode(r, extra, c))
  {
  }

  /** aCAuth($r): the code presented in the aC parameter is non-empty and
      equal to the record's code. */
  predicate ACAuth(presented: string, r: Row, c: AuthConf) {
    TruthyStr(presented) && presented == AuthCode(r, "", c)
  }

  /** A code that a link carries opens the record exactly when it is truthy:
      with authcodeFields unset, or a code that is "0", no link opens it. */
  lemma ACAuthIssued(r: Row, c: AuthConf)
    ensures ACAuth(AuthCode(r, "", c), r, c) <==> TruthyStr(AuthCode(r, "", c))
    ensures !TruthyStr(c.fields) ==> forall p :: !ACAuth(p, r, c)
  {
  }

  /** !strcmp($aC, $code) as PHP 7 evaluates it on the aC parameter as
      _GP() returns it: strcmp() of an array is null, and !null is true, so
      an array passes whatever the code; any other value is compared as its
      string. */
  predicate StrcmpMatches(aC: Value, code: string) {
    aC.Arr? || AsString(aC) == code
  }

  /** aCAuth($r) as written, on the aC parameter as _GP() returns it. */
  predicate ACAuthAsWritten(aC: Value, r: Row, c: AuthConf) {
    Truthy(aC) && StrcmpMatches(aC, AuthCode(r, "", c))
  }

  /** As written, a request with aC[]=1 passes every code check: aCAuth()
      opens every record, and the test of procesSetFixed() passes for every
      code. */
  lemma ArrayCodeAccepted(items: seq<Item>, r: Row, code: string, c: AuthConf)
    requires |items| > 0
    ensures StrcmpMatches(Arr(items), code) && ACAuthAsWritten(Arr(items), r, c)
  {
  }

  /** md5() gives hexadecimal digits. */
  ghost predicate HexDigest(c: AuthConf) {
    forall x, i :: 0 <= i < |c.md5(x)| ==> IsHexDigit(c.md5(x)[i])
  }

  /** No prefix of a hexadecimal digest is "Array", whose 'r' is no
      hexadecimal digit. */
  lemma HexPrefixNotArray(s: string, l: int)
    requires forall i :: 0 <= i < |s| ==> IsHexDigit(s[i])
    ensures Prefix(s, l) != "Array"
  {
    var p := Prefix(s, l);
    assert |p| >= 2 ==> p[1] == s[1] && IsHexDigit(p[1]);
    assert !IsHexDigit("Array"[1]);
  }

  /** With aC cast to a string first, an array reads as "Array", which no
      code made of a digest equals: an array opens no record and passes no
      setfixed check. */
  lemma CastArrayRefused(items: seq<Item>, r: Row, c: AuthConf)
    requires HexDigest(c)
    ensures !ACAuth(AsString(Arr(items)), r, c)
    ensures forall orig, cfg :: AsString(Arr(items)) != ExpectedCode(orig, cfg, c)
  {
    if TruthyStr(c.fields) {
      HexPrefixNotArray(c.md5(AuthInput(r, "", c)), CodeLength(c));
    }
    forall orig: Option<Row>, cfg: Row ensures AsString(Arr(items)) != ExpectedCode(orig, cfg, c) {
      var rec := if orig.Some? then AssignAll(orig.value, Merge(cfg)) else [];
      var fields := if orig.Some? then Get(rec, "_FIELDLIST") else "";
      HexPrefixNotArray(c.md5(HashInput(rec, fields, c)), CodeLength(c));
    }
  }

  // --------------------------------------------------------- setfixedHash

  /** The values setfixedHash() joins: the listed fields when a list is
      given, otherwise every column of the record. */
  function HashValues(rec: Row, fields: string): seq<string> {
    if TruthyStr(fields) then
      var fs := TrimExplode(',', fields, true);
      seq(|fs|, i requires 0 <= i < |fs| => Get(rec, fs[i]))
    else Vals(rec)
  }

  /** The string setfixedHash() hashes. */
  function HashInput(rec: Row, fields: string, c: AuthConf): string {
    Implode("|", HashValues(rec, fields)) + "|" + c.addKey + "|" + c.encKey
  }

  /** setfixedHash($recCopy, $fields). */
  function SetfixedHash(rec: Row, fields: string, c: AuthConf): (h: string) {
    Prefix(c.md5(HashInput(rec, fields, c)), CodeLength(c))
  }

  /** With a field list, the code depends only on the listed columns. */
  lemma SetfixedHashListed(r1: Row, r2: Row, fields: string, c: AuthConf)
    requires TruthyStr(fields)
    requires forall f :: f in TrimExplode(',', fields, true) ==> Get(r1, f) == Get(r2, f)
    ensures SetfixedHash(r1, fields, c) == SetfixedHash(r2, fields, c)
  {
    var fs := TrimExplode(',', fields, true);
    assert HashValues(r1, fields) == HashValues(r2, fields) by {
      forall i | 0 <= i < |fs| ensures Get(r1, fs[i]) == Get(r2, fs[i]) {
        assert fs[i] in fs;
      }
    }
  }

  // ------------------------------------------------------- the _FIELDLIST

  /** The field list of a setfixed block: its keys other than _FIELDLIST,
      then the entries of its _FIELDLIST (not dropping empty ones), without
      repetitions. */
  function ListedFields(cfg: Row): (fs: seq<string>)
    ensures forall i, j :: 0 <= i < j < |fs| ==> fs[i] != fs[j]
    ensures forall k :: k != "_FIELDLIST" && Has(cfg, k) ==> k in fs
  {
    var rest := Unset(cfg, "_FIELDLIST");
    var keys := Keys(rest);
    var more := if Has(cfg, "_FIELDLIST") then TrimExplode(',', Get(cfg, "_FIELDLIST"), false) else [];
    assert forall k :: k != "_FIELDLIST" && Has(cfg, k) ==> k in keys by {
      forall k | k != "_FIELDLIST" && Has(cfg, k) ensures k in keys {
        UnsetHas(cfg, "_FIELDLIST", k);
        var i :| 0 <= i < |rest| && rest[i].0 == k;
        assert keys[i] == k;
      }
    }
    Dedup(keys + more)
  }

  lemma {:induction false} UnsetHas(r: Row, k: string, k': string)
    requires k' != k && Has(r, k')
    ensures Has(Unset(r, k), k')
  {
    if r[0].0 == k' {
      assert Unset(r, k)[0].0 == k';
    } else {
      assert Has(r[1..], k') by {
        var i :| 0 <= i < |r| && r[i].0 == k';
        assert r[1..][i - 1].0 == k';
      }
      UnsetHas(r[1..], k, k');
      var i :| 0 <= i < |Unset(r[1..], k)| && Unset(r[1..], k)[i].0 == k';
      if r[0].0 == k {
        assert Unset(r, k)[i].0 == k';
      } else {
        assert Unset(r, k)[i + 1].0 == k';
      }
    }
  }

  /** $valuesConfiguredInTypoScript after `['_FIELDLIST'] = implode(',',
      array_unique($fields))`: the block with its field list filled in. */
  function Merge(cfg: Row): (m: Row)
    ensures Has(m, "_FIELDLIST") && |m| > 0
    ensures Get(m, "_FIELDLIST") == Implode(",", ListedFields(cfg))
    ensures forall k :: k != "_FIELDLIST" ==> Get(m, k) == Get(cfg, k)
    ensures UniqueKeys(cfg) ==> UniqueKeys(m)
  {
    Assign(cfg, "_FIELDLIST", Implode(",", ListedFields(cfg)))
  }

  /** The string procesSetFixed() hashes for a block: the stored record
      with the merged block put in (its _FIELDLIST included), over the
      record's _FIELDLIST after that. */
  function ProcessInput(orig: Row, cfg: Row, c: AuthConf): string {
    var rec := AssignAll(orig, Merge(cfg));
    HashInput(rec, Get(rec, "_FIELDLIST"), c)
  }

  /** The code procesSetFixed() expects for a block. */
  function ProcessCode(orig: Row, cfg: Row, c: AuthConf): (code: string) {
    var rec := AssignAll(orig, Merge(cfg));
    SetfixedHash(rec, Get(rec, "_FIELDLIST"), c)
  }

  /** The field list procesSetFixed() hashes over is the merged list. */
  lemma ProcessCodeList(orig: Row, cfg: Row, c: AuthConf)
    requires UniqueKeys(cfg)
    ensures ProcessCode(orig, cfg, c)
         == SetfixedHash(AssignAll(orig, Merge(cfg)), Implode(",", ListedFields(cfg)), c)
  {
    AssignAllGet(orig, Merge(cfg), "_FIELDLIST");
  }

  /** The code procesSetFixed() expects for a block and what getRawRecord()
      read. Without a record it read 0: the block's entries cannot be
      assigned into an integer and implode() of it adds nothing, so the code
      is that of an empty record over no fields. */
  function ExpectedCode(orig: Option<Row>, cfg: Row, c: AuthConf): (code: string)
    ensures orig.Some? ==> code == ProcessCode(orig.value, cfg, c)
    ensures orig.None? ==> code == SetfixedHash([], "", c)
  {
    if orig.Some? then ProcessCode(orig.value, cfg, c) else SetfixedHash([], "", c)
  }

  /** For a missing record every block expects the same code: the digest of
      the two keys alone. */
  lemma MissingRecordCode(cfg: Row, c: AuthConf)
    ensures ExpectedCode(None, cfg, c) == Prefix(c.md5("|" + c.addKey + "|" + c.encKey), CodeLength(c))
  {
    assert HashValues([], "") == [];
    assert Implode("|", []) + "|" == "|";
    assert HashInput([], "", c) == "|" + c.addKey + "|" + c.encKey;
  }

  // ------------------------------------------------------ setfixed links

  /** $this->conf['setfixed.']: keys ending in "." hold an option block;
      other keys (such as DELETE = 1) carry the empty block. */
  type SetfixedConf = seq<(string, Row)>

  /** $setfixed[$key] as a block, [] when it is missing. */
  function Block(conf: SetfixedConf, key: string): (b: Row)
    ensures (forall i :: 0 <= i < |conf| ==> conf[i].0 != key) ==> b == []
  {
    if |conf| == 0 then []
    else if conf[0].0 == key then conf[0].1
    else Block(conf[1..], key)
  }

  /** The key that a dotted key names, with the trailing character cut. */
  predicate NamesBlock(key: string, name: string) {
    Contains(key, ".") && Prefix(key, -1) == name
  }

  function MarkerName(name: string): string {
    "###SYS_SETFIXED_" + name + "###"
  }

  function HscMarkerName(name: string): string {
    "###SYS_SETFIXED_HSC_" + name + "###"
  }

  lemma MarkerNameInjective(a: string, b: string)
    ensures MarkerName(a) == MarkerName(b) ==> a == b
    ensures HscMarkerName(a) == HscMarkerName(b) ==> a == b
  {
    if MarkerName(a) == MarkerName(b) {
      assert a == MarkerName(a)[16..|MarkerName(a)| - 3];
      assert b == MarkerName(b)[16..|MarkerName(b)| - 3];
    }
    if HscMarkerName(a) == HscMarkerName(b) {
      assert a == HscMarkerName(a)[20..|HscMarkerName(a)| - 3];
      assert b == HscMarkerName(b)[20..|HscMarkerName(b)| - 3];
    }
  }

  /** The "&fD[name]=value" parameters of a link, one per block entry. */
  function FieldParams(data: Row): string {
    if |data| == 0 then ""
    else
      var (name, value) := data[|data| - 1];
      FieldParams(data[..|data| - 1]) + "&fD%5B" + name + "%5D=" + RawUrlEncode(value)
  }

  function LinkHead(name: string, r: Row): string {
    "&cmd=setfixed&sFK=" + RawUrlEncode(name) + "&rU=" + Get(r, "uid")
  }

  /** The string the DELETE link's code is the digest of, as written: the
      record itself, over the _FIELDLIST of the DELETE. block or, without
      one, over all its columns. */
  function DeleteLinkInput(conf: SetfixedConf, key: string, r: Row, c: AuthConf): string {
    HashInput(r, Get(Block(conf, key + "."), "_FIELDLIST"), c)
  }

  /** The DELETE link as written (key is "DELETE"). */
  function DeleteLink(conf: SetfixedConf, key: string, r: Row, c: AuthConf): (link: string)
    ensures link == LinkHead(key, r) + "&aC=" + Prefix(c.md5(DeleteLinkInput(conf, key, r, c)), CodeLength(c))
  {
    LinkHead(key, r) + "&aC=" + SetfixedHash(r, Get(Block(conf, key + "."), "_FIELDLIST"), c)
  }

  /** The DELETE link as intended: its code made as procesSetFixed() makes
      it, from the merged DELETE. block. */
  function FixedDeleteLink(conf: SetfixedConf, key: string, r: Row, c: AuthConf): string {
    LinkHead(key, r) + "&aC=" + BlockCode(Block(conf, key + "."), r, c)
  }

  /** The code a dotted block's link carries: the record with the merged
      block put in, hashed over the merged field list. */
  function BlockCode(data: Row, r: Row, c: AuthConf): string {
    var m := Merge(data);
    SetfixedHash(AssignAll(r, m), Get(m, "_FIELDLIST"), c)
  }

  /** The link for a dotted block. */
  function BlockLink(name: string, data: Row, r: Row, c: AuthConf): string {
    LinkHead(name, r) + FieldParams(Merge(data)) + "&aC=" + BlockCode(data, r, c)
  }

  function Put2(markers: map<string, string>, name: string, link: string): (m: map<string, string>)
    ensures MarkerName(name) in m && m[MarkerName(name)] == link
    ensures HscMarkerName(name) in m && m[HscMarkerName(name)] == SpecialChars(link, true)
    ensures forall k :: k in markers && k != MarkerName(name) && k != HscMarkerName(name) ==> k in m && m[k] == markers[k]
  {
    markers[MarkerName(name) := link][HscMarkerName(name) := SpecialChars(link, true)]
  }

  /** The name whose markers an entry writes, if it writes any. */
  function Written(key: string): string {
    if key == "DELETE" then key else Prefix(key, -1)
  }

  /** The entry writes the marker named n: its own, or the HSC_ copy (which
      reads as the plain marker of HSC_ followed by the name). */
  predicate Writes(key: string, n: string) {
    (key == "DELETE" || Contains(key, ".")) && (n == Written(key) || n == "HSC_" + Written(key))
  }

  lemma HscMarker(w: string)
    ensures HscMarkerName(w) == MarkerName("HSC_" + w)
  {
    assert "###SYS_SETFIXED_HSC_" + w + "###" == "###SYS_SETFIXED_" + ("HSC_" + w) + "###";
  }

  /** The markers of another name are neither the plain nor the HSC_ marker
      of w. */
  lemma OtherMarker(n: string, w: string)
    requires n != w && n != "HSC_" + w
    ensures MarkerName(n) != MarkerName(w) && MarkerName(n) != HscMarkerName(w)
  {
    MarkerNameInjective(n, w);
    MarkerNameInjective(n, "HSC_" + w);
    HscMarker(w);
  }

  /** What one entry of setfixed adds to the markers. */
  function EntryMarkers(prior: map<string, string>, setfixed: SetfixedConf, key: string, data: Row,
                        r: Row, c: AuthConf, fixed: bool): (m: map<string, string>)
    ensures key == "DELETE" ==>
      MarkerName(key) in m
      && m[MarkerName(key)] == if fixed then FixedDeleteLink(setfixed, key, r, c) else DeleteLink(setfixed, key, r, c)
    ensures forall n :: MarkerName(n) in prior && !Writes(key, n) ==>
      MarkerName(n) in m && m[MarkerName(n)] == prior[MarkerName(n)]
  {
    forall n | MarkerName(n) in prior && !Writes(key, n)
      ensures key == "DELETE" || Contains(key, ".") ==> MarkerName(n) != MarkerName(Written(key)) && MarkerName(n) != HscMarkerName(Written(key))
    {
      if key == "DELETE" || Contains(key, ".") {
        OtherMarker(n, Written(key));
      }
    }
    if key == "DELETE" then
      Put2(prior, key, if fixed then FixedDeleteLink(setfixed, key, r, c) else DeleteLink(setfixed, key, r, c))
    else if Contains(key, ".") then Put2(prior, Prefix(key, -1), BlockLink(Prefix(key, -1), data, r, c))
    else prior
  }

  /** setfixed($markerArray, $setfixed, $r): the entries of setfixed in
      order, each link overwriting a marker of the same name; the DELETE
      link reads the DELETE. block of the whole configuration. With fixed
      false this is the code as written, with fixed true the DELETE link is
      FixedDeleteLink. */
  function SetfixedMarkers(markers: map<string, string>, setfixed: SetfixedConf, entries: SetfixedConf,
                           r: Row, c: AuthConf, fixed: bool): map<string, string>
  {
    if |entries| == 0 then markers
    else
      var (key, data) := entries[|entries| - 1];
      EntryMarkers(SetfixedMarkers(markers, setfixed, entries[..|entries| - 1], r, c, fixed),
                   setfixed, key, data, r, c, fixed)
  }

  /** A dotted block's link carries the code procesSetFixed() expects for
      that block and the record it was made from. */
  lemma BlockLinkVerifies(data: Row, r: Row, c: AuthConf)
    requires UniqueKeys(data)
    ensures BlockCode(data, r, c) == ProcessCode(r, data, c)
  {
    AssignAllGet(r, Merge(data), "_FIELDLIST");
  }

  /** The corrected DELETE link verifies. */
  lemma FixedDeleteLinkVerifies(setfixed: SetfixedConf, key: string, r: Row, c: AuthConf)
    requires UniqueKeys(Block(setfixed, key + "."))
    ensures FixedDeleteLink(setfixed, key, r, c)
         == LinkHead(key, r) + "&aC=" + ProcessCode(r, Block(setfixed, key + "."), c)
  {
    BlockLinkVerifies(Block(setfixed, key + "."), r, c);
  }

  /** With a DELETE entry and no dotted DELETE. block, the DELETE marker
      holds the DELETE link (del is "DELETE"). */
  lemma {:induction false} DeleteMarkerFrom(markers: map<string, string>, setfixed: SetfixedConf,
                                            entries: SetfixedConf, del: string, r: Row, c: AuthConf, fixed: bool)
    requires del == "DELETE"
    requires exists i :: 0 <= i < |entries| && entries[i].0 == del
    requires forall i :: 0 <= i < |entries| ==> !NamesBlock(entries[i].0, del)
    ensures var m := SetfixedMarkers(markers, setfixed, entries, r, c, fixed);
      MarkerName(del) in m
      && m[MarkerName(del)] == if fixed then FixedDeleteLink(setfixed, del, r, c) else DeleteLink(setfixed, del, r, c)
  {
    var n := |entries|;
    var prev := entries[..n - 1];
    if entries[n - 1].0 != del {
      assert !Writes(entries[n - 1].0, del) by {
        assert ("HSC_" + Written(entries[n - 1].0))[0] == 'H';
      }
      var i :| 0 <= i < n && entries[i].0 == del;
      assert prev[i].0 == del;
      DeleteMarkerFrom(markers, setfixed, prev, del, r, c, fixed);
    }
  }

  /** No entry names the block: it is missing. */
  lemma NoBlock(setfixed: SetfixedConf, name: string)
    requires forall i :: 0 <= i < |setfixed| ==> !NamesBlock(setfixed[i].0, name)
    ensures Block(setfixed, name + ".") == []
  {
    StartsWithContains(".", ".");
    ContainsAfter(name, ".", ".");
    assert NamesBlock(name + ".", name);
  }

  /** The record with a missing DELETE. block merged in: the empty
      _FIELDLIST column appended. */
  lemma MergeEmptyBlock(r: Row)
    requires !Has(r, "_FIELDLIST")
    ensures var rec := AssignAll(r, Merge([]));
      Get(rec, "_FIELDLIST") == "" && Vals(rec) == Vals(r) + [""]
  {
    assert ListedFields([]) == [];
    var m := Merge([]);
    assert m == [("_FIELDLIST", "")];
    AssignAbsent(r, "_FIELDLIST", "");
    var rec := AssignAll(r, m);
    assert m[..0] == [];
    assert AssignAll(r, m[..0]) == r;
    assert rec == Assign(AssignAll(r, m[..0]), m[0].0, m[0].1);
  }

  /** As written, without a DELETE. block the DELETE link hashes the record
      alone, while procesSetFixed() hashes it with the empty _FIELDLIST
      column added: the two digests are taken of different strings, so the
      link is refused. */
  lemma DeleteLinkNeverVerifies(setfixed: SetfixedConf, key: string, r: Row, c: AuthConf)
    requires Block(setfixed, key + ".") == []
    requires |r| > 0 && !Has(r, "_FIELDLIST")
    ensures DeleteLinkInput(setfixed, key, r, c) != ProcessInput(r, Block(setfixed, key + "."), c)
  {
    MergeEmptyBlock(r);
    var rec := AssignAll(r, Merge([]));
    assert ProcessInput(r, [], c) == HashInput(rec, "", c);
    assert DeleteLinkInput(setfixed, key, r, c) == HashInput(r, "", c);
    ImplodeAppendEmpty("|", Vals(r));
    assert |HashInput(rec, "", c)| == |HashInput(r, "", c)| + 1;
  }
}
