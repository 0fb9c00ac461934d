/** Allocation bitmaps: bit `k` of a block is bit `k % 8`, from the low end, of byte `k / 8`. */
module Bitmap {
  import opened Bytes

  /** `b & (1 << k) != 0` */
  predicate On(b: nat, k: nat)
    decreases k
  {
    if k == 0 then b % 2 == 1 else On(b / 2, k - 1)
  }

  /** `b | (1 << k)` */
  function SetOn(b: nat, k: nat): nat
    decreases k
  {
    if k == 0 then b / 2 * 2 + 1 else 2 * SetOn(b / 2, k - 1) + b % 2
  }

  lemma {:induction false} SetOnBits(b: nat, k: nat, j: nat)
    ensures On(SetOn(b, k), j) == (j == k || On(b, j))
    decreases k
  {
    if k > 0 {
      var c := SetOn(b, k);
      assert c / 2 == SetOn(b / 2, k - 1) && c % 2 == b % 2;
      if j > 0 { SetOnBits(b / 2, k - 1, j - 1); }
    }
  }

  lemma {:induction false} SetOnFits(b: nat, k: nat, n: nat)
    requires b < Pow2(n) && k < n
    ensures SetOn(b, k) < Pow2(n)
    decreases k
  {
    if k > 0 { SetOnFits(b / 2, k - 1, n - 1); }
  }

  lemma {:induction false} Full(n: nat, k: nat)
    requires k < n
    ensures On(Pow2(n) - 1, k)
    decreases k
  {
    if k > 0 {
      assert (Pow2(n) - 1) / 2 == Pow2(n - 1) - 1;
      Full(n - 1, k - 1);
    }
  }

  function SetByte(b: byte, k: nat): byte
    requires k < 8
  {
    assert Pow2(8) == 0x100;
    SetOnFits(b, k, 8);
    SetOn(b, k)
  }

  // ---- whole bitmaps ----

  predicate Bit(m: seq<byte>, k: nat) { k / 8 < |m| && On(m[k / 8], k % 8) }

  function SetBit(m: seq<byte>, k: nat): (r: seq<byte>)
    requires k / 8 < |m|
    ensures |r| == |m|
  {
    m[k / 8 := SetByte(m[k / 8], k % 8)]
  }

  lemma SetBitBits(m: seq<byte>, k: nat, j: nat)
    requires k / 8 < |m|
    ensures Bit(SetBit(m, k), j) == (j == k || Bit(m, j))
  {
    SetOnBits(m[k / 8], k % 8, j % 8);
    hide On, SetOn;
  }

  /** No allocated bit is ever lost. */
  ghost predicate BitsKept(m: seq<byte>, m': seq<byte>) {
    |m'| == |m| && forall j :: Bit(m, j) ==> Bit(m', j)
  }

  /** The bitmaps differ in bit `k` alone, which was clear. */
  ghost predicate OneMore(m: seq<byte>, m': seq<byte>, k: nat) {
    |m'| == |m| && !Bit(m, k) && forall j :: Bit(m', j) == (j == k || Bit(m, j))
  }

  lemma SetBitOneMore(m: seq<byte>, k: nat)
    requires k / 8 < |m| && !Bit(m, k)
    ensures OneMore(m, SetBit(m, k), k) && BitsKept(m, SetBit(m, k))
  {
    hide Bit, SetBit;
    forall j: nat ensures Bit(SetBit(m, k), j) == (j == k || Bit(m, j)) { SetBitBits(m, k, j); }
  }

  // ---- counting ----

  /** The clear bits below `n`. */
  function Clear(m: seq<byte>, n: nat): (c: nat)
    ensures c <= n
  {
    if n == 0 then 0 else Clear(m, n - 1) + if Bit(m, n - 1) then 0 else 1
  }

  lemma {:induction false} ClearSame(m: seq<byte>, m': seq<byte>, n: nat)
    requires forall j :: 0 <= j < n ==> Bit(m', j) == Bit(m, j)
    ensures Clear(m', n) == Clear(m, n)
  {
    hide Bit;
    if n > 0 { ClearSame(m, m', n - 1); }
  }

  lemma {:induction false} ClearOneMore(m: seq<byte>, m': seq<byte>, k: nat, n: nat)
    requires OneMore(m, m', k) && k < n
    ensures Clear(m', n) == Clear(m, n) - 1
  {
    hide Bit;
    if k == n - 1 {
      ClearSame(m, m', n - 1);
    } else {
      ClearOneMore(m, m', k, n - 1);
    }
  }

  lemma {:induction false} ClearNone(m: seq<byte>, n: nat)
    ensures Clear(m, n) == 0 <==> forall j :: 0 <= j < n ==> Bit(m, j)
  {
    hide Bit;
    if n > 0 {
      ClearNone(m, n - 1);
    }
  }

  // ---- searching ----

  /** Bit `k` is the first clear one from `lo` on and below `hi`. */
  ghost predicate FirstClear(m: seq<byte>, lo: nat, hi: nat, k: nat) {
    lo <= k < hi && k / 8 < |m| && !Bit(m, k) && forall j :: lo <= j < k ==> Bit(m, j)
  }

  /** The bits from `lo` up to `hi`, as far as the bitmap goes, are all taken. */
  ghost predicate NoneClear(m: seq<byte>, lo: nat, hi: nat) {
    forall j :: lo <= j < hi && j / 8 < |m| ==> Bit(m, j)
  }

  method FindClear(m: seq<byte>, lo: nat, hi: nat) returns (r: Option<nat>)
    ensures r.Some? ==> FirstClear(m, lo, hi, r.value)
    ensures r.None? ==> NoneClear(m, lo, hi)
  {
    hide On, Bit;
    var i := lo / 8;
    while i < (hi + 7) / 8
      invariant lo / 8 <= i
      invariant forall j :: lo <= j < Min(i * 8, hi) && j / 8 < |m| ==> Bit(m, j)
    {
      if i >= |m| { break; }
      if m[i] != 0xFF {
        var k := FindInByte(m, i, lo, hi);
        if k.Some? { return k; }
      } else {
        FullByte(m, i);
      }
      i := i + 1;
    }
    return None;
  }

  lemma FullByte(m: seq<byte>, i: nat)
    requires i < |m| && m[i] == 0xFF
    ensures forall j :: i * 8 <= j < i * 8 + 8 ==> Bit(m, j)
  {
    assert Pow2(8) == 0x100;
    forall j: nat | i * 8 <= j < i * 8 + 8 ensures Bit(m, j) { Full(8, j % 8); }
  }

  method FindInByte(m: seq<byte>, i: nat, lo: nat, hi: nat) returns (r: Option<nat>)
    requires i < |m|
    ensures r.Some? ==> i * 8 <= r.value < i * 8 + 8 && lo <= r.value < hi && !Bit(m, r.value)
    ensures r.Some? ==> forall j :: lo <= j < r.value && i * 8 <= j ==> Bit(m, j)
    ensures r.None? ==> forall j :: lo <= j < hi && i * 8 <= j < i * 8 + 8 ==> Bit(m, j)
  {
    hide On;
    var bit := 0;
    while bit < 8
      invariant 0 <= bit <= 8
      invariant forall j :: lo <= j < hi && i * 8 <= j < i * 8 + bit ==> Bit(m, j)
    {
      var abs := i * 8 + bit;
      if lo <= abs < hi {
        assert abs / 8 == i && abs % 8 == bit;
        if !On(m[i], bit) { return Some(abs); }
      }
      bit := bit + 1;
    }
    return None;
  }
}
