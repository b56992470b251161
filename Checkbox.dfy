/**
 * The `checkArray` parse directive and its inverse: a group of checkboxes
 * submitted as an array (position => checked?) is packed into one integer
 * column, bit k standing for position k; when the edit form is filled in
 * again, the bits are unpacked into one field per set position.
 *
 * PHP integers are 64-bit two's complement; bit a of such an integer n is
 * floor(n / 2^a) mod 2, which is what Bit computes (Dafny's / and % by a
 * positive divisor floor and give a non-negative remainder). The mask only
 * ever ORs a power of two into a non-negative value, and `v | 2^k` is then
 * v when bit k is already set and v + 2^k otherwise (OrBit).
 */
module Checkbox {
  import opened PhpValues

  /** The highest position that has a bit. */
  const MaxBit: nat := 30

  /** pow(2, $a). */
  function Pow2(a: nat): (p: nat)
    ensures p >= 1
  {
    if a == 0 then 1 else 2 * Pow2(a - 1)
  }

  /** Bit a of a (two's-complement) integer: `$n & pow(2, $a)` is non-zero. */
  predicate Bit(n: int, a: nat)
    decreases a
  {
    if a == 0 then n % 2 == 1 else Bit(n / 2, a - 1)
  }

  /** `$v | pow(2, $k)` for a non-negative $v. */
  function OrBit(v: nat, k: nat): (r: nat)
    ensures r >= v
  {
    if Bit(v, k) then v else v + Pow2(k)
  }

  /** MathUtility::forceIntegerInRange($kk, 0): the default upper bound is
      2000000000. */
  function ClampKey(k: int): (r: nat)
    ensures r <= 2000000000
    ensures 0 <= k <= 2000000000 ==> r == k
    ensures k < 0 ==> r == 0
  {
    if k < 0 then 0 else if k > 2000000000 then 2000000000 else k
  }

  /** An entry sets a bit when its value is truthy and its clamped key is a
      position that has one. */
  predicate Sets(it: Item) {
    Truthy(it.val) && ClampKey(it.key) <= MaxBit
  }

  /** One pass of the loop body: `$val |= pow(2, $kk)` for a checked box. */
  function Step(v: nat, it: Item): nat {
    var k := ClampKey(it.key);
    if k <= MaxBit && Truthy(it.val) then OrBit(v, k) else v
  }

  /** The bitmask of a whole group, entry by entry in array order. */
  function Pack(items: seq<Item>): nat {
    if |items| == 0 then 0 else Step(Pack(items[..|items| - 1]), items[|items| - 1])
  }

  /** The positions the checked boxes stand for. */
  function Checked(items: seq<Item>): (ks: set<nat>)
    ensures forall k :: k in ks ==> k <= MaxBit
  {
    set i | 0 <= i < |items| && Sets(items[i]) :: ClampKey(items[i].key)
  }

  /** The `checkArray` loop of parseValues over an array value. */
  method PackGroup(items: seq<Item>) returns (val: nat)
    ensures val == Pack(items)
  {
    val := 0;
    var i := 0;
    while i < |items|
      invariant 0 <= i <= |items|
      invariant val == Pack(items[..i])
    {
      var kk := ClampKey(items[i].key);
      if kk <= MaxBit {
        if Truthy(items[i].val) {
          val := OrBit(val, kk);
        }
      }
      assert items[..i + 1][..i] == items[..i];
      i := i + 1;
    }
    assert items[..i] == items;
  }

  /** Adding a power of two whose bit is clear sets that bit and leaves
      every other bit as it was. */
  lemma {:induction false} BitAdd(v: int, k: nat, a: nat)
    requires !Bit(v, k)
    ensures Bit(v + Pow2(k), a) <==> Bit(v, a) || a == k
    decreases k
  {
    if k == 0 {
      assert (v + 1) / 2 == v / 2;
    } else {
      var p := Pow2(k - 1);
      assert (v + 2 * p) % 2 == v % 2;
      assert (v + 2 * p) / 2 == v / 2 + p;
      if a > 0 {
        BitAdd(v / 2, k - 1, a - 1);
      }
    }
  }

  /** So `|=` of a power of two sets exactly that bit. */
  lemma BitOr(v: nat, k: nat, a: nat)
    ensures Bit(OrBit(v, k), a) <==> Bit(v, a) || a == k
  {
    if !Bit(v, k) {
      BitAdd(v, k, a);
    }
  }

  /** Setting a clear bit below m keeps a value below 2^m. */
  lemma {:induction false} AddBelow(v: nat, k: nat, m: nat)
    requires k < m && v < Pow2(m) && !Bit(v, k)
    ensures v + Pow2(k) < Pow2(m)
    decreases k
  {
    var p := Pow2(m - 1);
    assert Pow2(m) == 2 * p;
    var q, r := v / 2, v % 2;
    assert v == 2 * q + r && q < p;
    if k == 0 {
      assert r == 0;
    } else {
      AddBelow(q, k - 1, m - 1);
      assert Pow2(k) == 2 * Pow2(k - 1);
    }
  }

  /** Bit a of the mask is set exactly when some checked box stands for
      position a. */
  lemma {:induction false} PackBits(items: seq<Item>, a: nat)
    ensures Bit(Pack(items), a) <==> a in Checked(items)
  {
    if |items| == 0 {
      ZeroBits(a);
    } else {
      var prev := items[..|items| - 1];
      var last := items[|items| - 1];
      PackBits(prev, a);
      var kl := ClampKey(last.key);
      if kl <= MaxBit && Truthy(last.val) {
        BitOr(Pack(prev), kl, a);
      }
      if a in Checked(prev) {
        var i :| 0 <= i < |prev| && Sets(prev[i]) && ClampKey(prev[i].key) == a;
        assert items[i] == prev[i];
      }
      if a in Checked(items) {
        var i :| 0 <= i < |items| && Sets(items[i]) && ClampKey(items[i].key) == a;
        if i < |prev| {
          assert prev[i] == items[i];
        }
      }
    }
  }

  lemma {:induction false} ZeroBits(a: nat)
    ensures !Bit(0, a)
  {
    if a > 0 {
      ZeroBits(a - 1);
    }
  }

  /** The mask never reaches bit 31: it is below 2^31, so it fits the
      signed 32-bit integer column it is stored in. */
  lemma {:induction false} PackBelow(items: seq<Item>)
    ensures Pack(items) < Pow2(MaxBit + 1)
  {
    if |items| > 0 {
      var prev := items[..|items| - 1];
      PackBelow(prev);
      var kl := ClampKey(items[|items| - 1].key);
      if kl <= MaxBit && Truthy(items[|items| - 1].val) && !Bit(Pack(prev), kl) {
        AddBelow(Pack(prev), kl, MaxBit + 1);
      }
    }
  }

  /** The positions whose `$theField][$a` entry modifyDataArrForFormUpdate
      sets to 1 (it tests $a = 0 .. 30). */
  function Unpack(n: int): (ks: set<nat>)
    ensures forall k :: k in ks ==> k <= MaxBit
  {
    set a: nat | a <= MaxBit && Bit(n, a)
  }

  /** Unpacking the stored mask recovers exactly the checked positions. */
  lemma UnpackPack(items: seq<Item>)
    ensures Unpack(Pack(items)) == Checked(items)
  {
    forall a: nat | a <= MaxBit
      ensures a in Unpack(Pack(items)) <==> a in Checked(items)
    {
      PackBits(items, a);
    }
  }
}
