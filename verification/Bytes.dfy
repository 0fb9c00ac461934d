/** Bytes, little-endian fields and in-place patches of byte strings. */
module Bytes {

  type byte = x: int | 0 <= x < 0x100
  type u16 = x: int | 0 <= x < 0x1_0000
  type u32 = x: int | 0 <= x < 0x1_0000_0000
  type u64 = x: int | 0 <= x < 0x1_0000_0000_0000_0000

  datatype Option<+T> = None | Some(value: T)

  /** The outcome of an operation that the program reports with `bail!` or `?`. */
  datatype Result<+T> = Ok(value: T) | Err {
    predicate IsFailure() { Err? }
    function PropagateFailure<U>(): Result<U> requires Err? { Err }
    function Extract(): T requires Ok? { value }
  }

  function Pow2(n: nat): (p: nat)
    ensures p > 0
  {
    if n == 0 then 1 else 2 * Pow2(n - 1)
  }

  function Min(a: int, b: int): int { if a <= b then a else b }

  lemma QuotientUnique(q: nat, n: nat, r: nat)
    requires r < n
    ensures (q * n + r) / n == q && (q * n + r) % n == r
  {
    var x := q * n + r;
    assert x == x / n * n + x % n;
    var e := x / n;
    assert e < q ==> (e + 1) * n <= q * n;
    assert e > q ==> (q + 1) * n <= e * n;
  }

  function Le16(s: seq<byte>, o: nat): u16
    requires o + 2 <= |s|
  {
    (s[o] as int) + 0x100 * (s[o + 1] as int)
  }

  function Le32(s: seq<byte>, o: nat): u32
    requires o + 4 <= |s|
  {
    (s[o] as int) + 0x100 * (s[o + 1] as int) + 0x1_0000 * (s[o + 2] as int) + 0x100_0000 * (s[o + 3] as int)
  }

  function Enc16(x: u16): (s: seq<byte>)
    ensures |s| == 2
  {
    [x % 0x100, x / 0x100]
  }

  function Enc32(x: u32): (s: seq<byte>)
    ensures |s| == 4
  {
    [x % 0x100, x / 0x100 % 0x100, x / 0x100 / 0x100 % 0x100, x / 0x100 / 0x100 / 0x100]
  }

  lemma Enc16Reads(s: seq<byte>, o: nat, x: u16)
    requires o + 2 <= |s| && s[o..o + 2] == Enc16(x)
    ensures Le16(s, o) == x
  {
    assert s[o] == s[o..o + 2][0] && s[o + 1] == s[o..o + 2][1];
  }

  lemma Enc32Reads(s: seq<byte>, o: nat, x: u32)
    requires o + 4 <= |s| && s[o..o + 4] == Enc32(x)
    ensures Le32(s, o) == x
  {
    var t := s[o..o + 4];
    assert s[o] == t[0] && s[o + 1] == t[1] && s[o + 2] == t[2] && s[o + 3] == t[3];
  }

  function Zeros(n: nat): (s: seq<byte>)
    ensures |s| == n
  {
    seq(n, _ => 0)
  }

  /** `s` with the bytes from `o` on replaced by `d`: `s[o..o + d.len()].copy_from_slice(d)`. */
  function Put(s: seq<byte>, o: nat, d: seq<byte>): (r: seq<byte>)
    requires o + |d| <= |s|
    ensures |r| == |s|
    ensures forall i :: 0 <= i < |s| ==> r[i] == if o <= i < o + |d| then d[i - o] else s[i]
  {
    s[..o] + d + s[o + |d|..]
  }

  lemma PutInside(s: seq<byte>, o: nat, d: seq<byte>)
    requires o + |d| <= |s|
    ensures Put(s, o, d)[o..o + |d|] == d
  {
  }

  lemma PutOutside(s: seq<byte>, o: nat, d: seq<byte>, p: nat, q: nat)
    requires o + |d| <= |s| && p <= q <= |s|
    requires q <= o || o + |d| <= p
    ensures Put(s, o, d)[p..q] == s[p..q]
  {
  }

  lemma SliceAgrees<T>(s: seq<T>, t: seq<T>, end: nat, a: nat, b: nat)
    requires a <= b <= end <= |s| && end <= |t| && s[..end] == t[..end]
    ensures s[a..b] == t[a..b]
  {
    var l, r := s[a..b], t[a..b];
    forall i | 0 <= i < b - a ensures l[i] == r[i] {
      assert s[a + i] == s[..end][a + i] == t[..end][a + i] == t[a + i];
    }
  }

  lemma SliceOfSlice<T>(s: seq<T>, n: nat, m: nat, a: nat, b: nat)
    requires n <= m <= |s| && a <= b <= m - n
    ensures s[n..m][a..b] == s[n + a..n + b]
  {
    var l, r := s[n..m][a..b], s[n + a..n + b];
    assert |l| == |r| && forall i :: 0 <= i < |l| ==> l[i] == r[i];
  }

  lemma SuffixAgrees<T>(s: seq<T>, t: seq<T>, p: nat, m: nat, end: nat)
    requires p <= m <= end <= |s| && end <= |t| && s[p..end] == t[p..end]
    ensures s[m..end] == t[m..end]
  {
    SliceOfSlice(s, p, end, m - p, end - p);
    SliceOfSlice(t, p, end, m - p, end - p);
  }
}
