/** CRC-8 with polynomial 0x07, the packet check of the host link, and the errors it always catches. */
module LinkCrc {
  import opened Bytes

  type octet = bv8

  // The register operations, named so that proofs can treat them as black boxes.
  function Xor(a: octet, b: octet): octet { a ^ b }
  function Double(a: octet): octet { a << 1 }
  predicate Top(a: octet) { a & 0x80 != 0 }

  // A byte as a register value and back, bit by bit from the top.

  function Split(b: nat, n: nat): (h: seq<bool>)
    requires b < Pow2(n)
    ensures |h| == n
  {
    if n == 0 then []
    else if b >= Pow2(n - 1) then [true] + Split(b - Pow2(n - 1), n - 1)
    else [false] + Split(b, n - 1)
  }

  function Join(h: seq<bool>): (b: nat)
    ensures b < Pow2(|h|)
  {
    if h == [] then 0 else (if h[0] then Pow2(|h| - 1) else 0) + Join(h[1..])
  }

  lemma {:induction false} SplitJoin(h: seq<bool>)
    ensures Split(Join(h), |h|) == h
  {
    if h != [] { SplitJoin(h[1..]); }
  }

  lemma {:induction false} JoinSplit(b: nat, n: nat)
    requires b < Pow2(n)
    ensures Join(Split(b, n)) == b
    decreases n
  {
    if n > 0 { JoinSplit(if b >= Pow2(n - 1) then b - Pow2(n - 1) else b, n - 1); }
  }

  predicate On(c: octet, mask: octet) { c & mask != 0 }
  function Mask(on: bool, mask: octet): octet { if on then mask else 0 }

  function Pack(h7: bool, h6: bool, h5: bool, h4: bool, h3: bool, h2: bool, h1: bool, h0: bool): octet {
    Mask(h7, 0x80) | Mask(h6, 0x40) | Mask(h5, 0x20) | Mask(h4, 0x10) | Mask(h3, 8) | Mask(h2, 4)
    | Mask(h1, 2) | Mask(h0, 1)
  }

  function Octet(h: seq<bool>): octet
    requires |h| == 8
  {
    Pack(h[0], h[1], h[2], h[3], h[4], h[5], h[6], h[7])
  }

  function Bits(c: octet): (h: seq<bool>)
    ensures |h| == 8
  {
    [On(c, 0x80), On(c, 0x40), On(c, 0x20), On(c, 0x10), On(c, 8), On(c, 4), On(c, 2), On(c, 1)]
  }

  function Widen(b: byte): octet {
    assert Pow2(8) == 0x100;
    Octet(Split(b, 8))
  }

  function Narrow(c: octet): byte {
    assert Pow2(8) == 0x100;
    Join(Bits(c))
  }

  lemma Packed(h7: bool, h6: bool, h5: bool, h4: bool, h3: bool, h2: bool, h1: bool, h0: bool)
    ensures var c := Pack(h7, h6, h5, h4, h3, h2, h1, h0);
            && On(c, 0x80) == h7 && On(c, 0x40) == h6 && On(c, 0x20) == h5 && On(c, 0x10) == h4
            && On(c, 8) == h3 && On(c, 4) == h2 && On(c, 2) == h1 && On(c, 1) == h0
  {
  }

  lemma Unpacked(c: octet)
    ensures Octet(Bits(c)) == c
  {
  }

  lemma BitsOctet(h: seq<bool>)
    requires |h| == 8
    ensures Bits(Octet(h)) == h
  {
    hide On, Pack;
    Packed(h[0], h[1], h[2], h[3], h[4], h[5], h[6], h[7]);
    assert Bits(Octet(h)) == [h[0], h[1], h[2], h[3], h[4], h[5], h[6], h[7]];
    assert h == [h[0], h[1], h[2], h[3], h[4], h[5], h[6], h[7]];
  }

  lemma WidenNarrow(b: byte)
    ensures Narrow(Widen(b)) == b
  {
    assert Pow2(8) == 0x100;
    hide On, Pack, Split, Join, Bits, Octet, Pow2;
    BitsOctet(Split(b, 8));
    JoinSplit(b, 8);
  }

  lemma NarrowWiden(c: octet)
    ensures Widen(Narrow(c)) == c
  {
    hide On, Pack, Split, Join, Bits, Octet;
    SplitJoin(Bits(c));
    Unpacked(c);
  }

  /** One turn of the inner loop. */
  function Shift(c: octet): octet {
    if Top(c) then Xor(Double(c), 0x07) else Double(c)
  }

  function Shifts(c: octet, n: nat): octet
    decreases n
  {
    if n == 0 then c else Shifts(Shift(c), n - 1)
  }

  function Eight(c: octet): octet { Shifts(c, 8) }

  /** The register after `data`, started from `init`. */
  function Register(data: seq<byte>, init: octet): octet {
    if data == [] then init
    else Eight(Xor(Register(data[..|data| - 1], init), Widen(data[|data| - 1])))
  }

  function Crc8(data: seq<byte>): byte {
    Narrow(Register(data, 0))
  }

  // ---- the register is linear and loses nothing ----

  lemma ShiftXorTop(a: octet, b: octet)
    requires b & 0x80 != 0
    ensures Shift(Xor(a, b)) == Xor(Shift(a), Shift(b))
  {
    if a & 0x80 != 0 {
      assert (a ^ b) & 0x80 == 0;
    } else {
      assert (a ^ b) & 0x80 != 0;
    }
  }

  lemma ShiftXorLow(a: octet, b: octet)
    requires b & 0x80 == 0
    ensures Shift(Xor(a, b)) == Xor(Shift(a), Shift(b))
  {
    if a & 0x80 != 0 {
      assert (a ^ b) & 0x80 != 0;
    } else {
      assert (a ^ b) & 0x80 == 0;
    }
  }

  lemma ShiftXor(a: octet, b: octet)
    ensures Shift(Xor(a, b)) == Xor(Shift(a), Shift(b))
  {
    hide Shift, Xor;
    if Top(b) { ShiftXorTop(a, b); } else { ShiftXorLow(a, b); }
  }

  lemma {:induction false} ShiftsXor(x: octet, a: octet, b: octet, n: nat)
    requires x == Xor(a, b)
    ensures Shifts(x, n) == Xor(Shifts(a, n), Shifts(b, n))
    decreases n
  {
    hide Shift, Xor;
    if n > 0 {
      ShiftXor(a, b);
      ShiftsXor(Shift(x), Shift(a), Shift(b), n - 1);
    }
  }

  lemma ShiftZero(c: octet)
    ensures Shift(c) == 0 <==> c == 0
  {
  }

  lemma {:induction false} ShiftsZero(c: octet, n: nat)
    ensures Shifts(c, n) == 0 <==> c == 0
    decreases n
  {
    hide Shift;
    if n > 0 {
      ShiftZero(c);
      ShiftsZero(Shift(c), n - 1);
    }
  }

  lemma XorZero(a: octet, b: octet)
    ensures Xor(a, b) == 0 <==> a == b
  {
  }

  lemma XorShuffle(x: octet, y: octet, a: octet, b: octet)
    ensures Xor(Xor(x, y), Xor(a, b)) == Xor(Xor(x, a), Xor(y, b))
  {
    assert (x ^ y) ^ (a ^ b) == (x ^ a) ^ (y ^ b);
  }

  /** A difference between two registers passes through one more byte as if it were the message. */
  lemma EightXor(x: octet, y: octet, a: octet, b: octet)
    ensures Xor(Eight(Xor(x, a)), Eight(Xor(y, b))) == Eight(Xor(Xor(x, y), Xor(a, b)))
  {
    hide Xor, Shifts;
    XorShuffle(x, y, a, b);
    ShiftsXor(Xor(Xor(x, y), Xor(a, b)), Xor(x, a), Xor(y, b), 8);
  }

  // ---- bursts ----

  /** The bits of a byte from bit `r` on, counted from the top. */
  function From(r: nat): octet
    requires r <= 8
  {
    if r == 0 then 0xFF else if r == 1 then 0x7F else if r == 2 then 0x3F else if r == 3 then 0x1F
    else if r == 4 then 0x0F else if r == 5 then 0x07 else if r == 6 then 0x03 else if r == 7 then 0x01 else 0x00
  }

  predicate Within(d: octet, mask: octet) { d & mask == d }
  predicate Outside(d: octet, mask: octet) { d & mask == 0 }

  function Diff(a: byte, b: byte): octet { Xor(Widen(a), Widen(b)) }

  /** `a` and `b` differ only in the eight bits that start at bit `r` of byte `q`. */
  ghost predicate Burst(a: seq<byte>, b: seq<byte>, q: nat, r: nat) {
    && |a| == |b| && q < |a| && r < 8
    && Within(Diff(a[q], b[q]), From(r))
    && (q + 1 < |a| ==> Outside(Diff(a[q + 1], b[q + 1]), From(r)))
    && forall i :: 0 <= i < |a| && i != q && i != q + 1 ==> a[i] == b[i]
  }

  lemma TwoBytes(d: octet, e: octet, r: nat)
    requires r < 8 && Within(d, From(r)) && Outside(e, From(r))
    requires d != 0 || e != 0
    ensures Eight(d) != e
  {
    if r == 0 {
      ShiftsZero(d, 8);
    } else if r == 1 { } else if r == 2 { } else if r == 3 { } else if r == 4 { } else if r == 5 { } else if r == 6 { }
    else { }
  }

  lemma WidenInjective(a: byte, b: byte)
    ensures Diff(a, b) == 0 <==> a == b
  {
    hide Xor, Widen, Narrow;
    WidenNarrow(a);
    WidenNarrow(b);
    XorZero(Widen(a), Widen(b));
  }

  lemma RegisterStep(a: seq<byte>, n: nat)
    requires n < |a|
    ensures Register(a[..n + 1], 0) == Eight(Xor(Register(a[..n], 0), Widen(a[n])))
  {
    hide Xor, Eight, Widen;
    assert a[..n + 1][..n] == a[..n];
  }

  /** What one more byte makes of the difference between two registers. */
  lemma DiffStep(a: seq<byte>, b: seq<byte>, n: nat)
    requires n < |a| == |b|
    ensures Xor(Register(a[..n + 1], 0), Register(b[..n + 1], 0))
         == Eight(Xor(Xor(Register(a[..n], 0), Register(b[..n], 0)), Diff(a[n], b[n])))
  {
    hide Xor, Eight, Widen, Register;
    RegisterStep(a, n);
    RegisterStep(b, n);
    EightXor(Register(a[..n], 0), Register(b[..n], 0), Widen(a[n]), Widen(b[n]));
  }

  /** A difference that has reached the register stays as long as the strings agree. */
  lemma {:induction false} DiffStays(a: seq<byte>, b: seq<byte>, k: nat, n: nat)
    requires k <= n <= |a| == |b|
    requires forall i :: k <= i < n ==> a[i] == b[i]
    requires Register(a[..k], 0) != Register(b[..k], 0)
    ensures Register(a[..n], 0) != Register(b[..n], 0)
    decreases n
  {
    hide Xor, Eight, Diff, Register;
    if k < n {
      DiffStays(a, b, k, n - 1);
      var x, y := Register(a[..n - 1], 0), Register(b[..n - 1], 0);
      DiffStep(a, b, n - 1);
      NoLoss(x, y, Diff(a[n - 1], b[n - 1]), Register(a[..n], 0), Register(b[..n], 0), a[n - 1], b[n - 1]);
    }
  }

  lemma NoLoss(x: octet, y: octet, d: octet, x': octet, y': octet, a: byte, b: byte)
    requires x != y && a == b && d == Diff(a, b)
    requires Xor(x', y') == Eight(Xor(Xor(x, y), d))
    ensures x' != y'
  {
    hide Xor, Shifts, Diff;
    WidenInjective(a, b);
    XorRight(Xor(x, y));
    XorZero(x, y);
    XorZero(x', y');
    ShiftsZero(Xor(x, y), 8);
  }

  lemma XorRight(a: octet)
    ensures Xor(a, 0) == a && Xor(0, a) == a
  {
  }

  /** The two bytes that hold the burst leave a difference in the register. */
  lemma BurstEnters(a: seq<byte>, b: seq<byte>, q: nat, r: nat)
    requires Burst(a, b, q, r) && a != b
    ensures var n := Min(q + 2, |a|); Register(a[..n], 0) != Register(b[..n], 0)
  {
    hide Xor, Eight, Register, Diff, Within, Outside, From;
    assert a[..q] == b[..q];
    var x, y := Register(a[..q], 0), Register(b[..q], 0);
    var d := Diff(a[q], b[q]);
    WidenInjective(a[q], b[q]);
    XorZero(x, y);
    XorRight(d);
    DiffStep(a, b, q);
    var x', y' := Register(a[..q + 1], 0), Register(b[..q + 1], 0);
    assert Xor(x', y') == Eight(d);
    if q + 1 == |a| {
      assert d != 0 || a == b;
      EightZero(d);
      XorZero(x', y');
    } else {
      var e := Diff(a[q + 1], b[q + 1]);
      WidenInjective(a[q + 1], b[q + 1]);
      assert d != 0 || e != 0 || a == b;
      DiffStep(a, b, q + 1);
      TwoBytes(d, e, r);
      XorZero(Eight(d), e);
      EightZero(Xor(Eight(d), e));
      XorZero(Register(a[..q + 2], 0), Register(b[..q + 2], 0));
    }
  }

  lemma EightZero(d: octet)
    ensures Eight(d) == 0 <==> d == 0
  {
    hide Shifts;
    ShiftsZero(d, 8);
  }

  /** Every burst of at most eight bits, at any place in a string of any length, changes the CRC. */
  lemma BurstDetected(a: seq<byte>, b: seq<byte>, q: nat, r: nat)
    requires Burst(a, b, q, r) && a != b
    ensures Register(a, 0) != Register(b, 0)
    ensures Crc8(a) != Crc8(b)
  {
    hide Register, Narrow, Widen, Xor, Eight, Diff, Within, Outside, From;
    var n := Min(q + 2, |a|);
    BurstEnters(a, b, q, r);
    DiffStays(a, b, n, |a|);
    assert a[..|a|] == a && b[..|b|] == b;
    NarrowWiden(Register(a, 0));
    NarrowWiden(Register(b, 0));
  }

  /** A string followed by its own CRC leaves the register at zero, and only its own CRC does. */
  lemma Residue(data: seq<byte>, c: byte)
    ensures Register(data + [c], 0) == 0 <==> c == Crc8(data)
  {
    hide Xor, Shifts, Widen, Narrow;
    assert (data + [c])[..|data|] == data;
    var x := Register(data, 0);
    EightZero(Xor(x, Widen(c)));
    XorZero(x, Widen(c));
    NarrowWiden(x);
    WidenInjective(c, Crc8(data));
    XorZero(Widen(c), Widen(Crc8(data)));
  }

  /** A receiver that compares the trailing byte rejects every burst in the data or in the CRC itself. */
  lemma BurstRejected(data: seq<byte>, data': seq<byte>, c': byte, q: nat, r: nat)
    requires Burst(data + [Crc8(data)], data' + [c'], q, r)
    requires data' != data || c' != Crc8(data)
    ensures Crc8(data') != c'
  {
    hide Register, Narrow, Crc8, Diff, Within, Outside, From;
    var sent, got := data + [Crc8(data)], data' + [c'];
    assert |data| == |data'|;
    assert data == sent[..|data|] && data' == got[..|data|] && sent[|data|] == Crc8(data) && got[|data|] == c';
    Residue(data, Crc8(data));
    Residue(data', c');
    BurstDetected(sent, got, q, r);
  }

  // ---- the loop ----

  method ComputeCrc8(data: seq<byte>) returns (crc: byte)
    ensures crc == Crc8(data)
  {
    hide Shift, Xor, Widen, Narrow;
    var c: octet := 0;
    var k := 0;
    while k < |data|
      invariant 0 <= k <= |data|
      invariant c == Register(data[..k], 0)
    {
      RegisterStep(data, k);
      c := Xor(c, Widen(data[k]));
      ghost var start := c;
      var j := 0;
      while j < 8
        invariant 0 <= j <= 8
        invariant Shifts(c, 8 - j) == Shifts(start, 8)
      {
        c := Shift(c);
        j := j + 1;
      }
      k := k + 1;
    }
    assert data[..k] == data;
    crc := Narrow(c);
  }

  lemma ShiftTwice(a: octet, b: octet, c: octet, n: nat)
    requires Shift(a) == b && Shift(b) == c && n >= 2
    ensures Shifts(a, n) == Shifts(c, n - 2)
  {
    hide Shift;
    assert Shifts(a, n) == Shifts(b, n - 1);
  }

  lemma EightOf(c0: octet, c2: octet, c4: octet, c6: octet, c8: octet)
    requires Shift(Shift(c0)) == c2 && Shift(Shift(c2)) == c4 && Shift(Shift(c4)) == c6 && Shift(Shift(c6)) == c8
    ensures Eight(c0) == c8
  {
    hide Shift;
    ShiftTwice(c0, Shift(c0), c2, 8);
    ShiftTwice(c2, Shift(c2), c4, 6);
    ShiftTwice(c4, Shift(c4), c6, 4);
    ShiftTwice(c6, Shift(c6), c8, 2);
  }

  /** The checksum of a read that is refused with the card's error status. */
  lemma CrcOfRefusal()
    ensures Crc8([3, 3, 0, 0]) == 0x87
  {
    hide Shift, Shifts, Eight, Xor, Widen, Narrow;
    var s := [3, 3, 0, 0];
    assert s[..0] == [] && s[..4] == s;
    RegisterStep(s, 0);
    RegisterStep(s, 1);
    RegisterStep(s, 2);
    RegisterStep(s, 3);
    RefusalSteps();
  }

  lemma RefusalSteps()
    ensures Eight(Xor(0, Widen(3))) == 0x09 && Eight(Xor(0x09, Widen(3))) == 0x36
    ensures Eight(Xor(0x36, Widen(0))) == 0x82 && Eight(Xor(0x82, Widen(0))) == 0x87
    ensures Narrow(0x87) == 0x87
  {
    hide Shifts, Eight;
    EightOf(0x03, 0x0c, 0x30, 0xc0, 0x09);
    EightOf(0x0a, 0x28, 0xa0, 0x8e, 0x36);
    EightOf(0x36, 0xd8, 0x69, 0xa3, 0x82);
    EightOf(0x82, 0x06, 0x18, 0x60, 0x87);
    SmallWidths();
  }

  /** The checksum of a read of 0x506 sectors from 0x1020304 on. */
  lemma CrcOfRead()
    ensures Crc8([3, 0, 6, 1, 2, 3, 4, 5, 6]) == 0x68
  {
    hide Shift, Shifts, Eight, Widen, Narrow;
    var s := [3, 0, 6, 1, 2, 3, 4, 5, 6];
    assert s[..0] == [] && s[..9] == s;
    RegisterStep(s, 0);
    RegisterStep(s, 1);
    RegisterStep(s, 2);
    RegisterStep(s, 3);
    RegisterStep(s, 4);
    RegisterStep(s, 5);
    RegisterStep(s, 6);
    RegisterStep(s, 7);
    RegisterStep(s, 8);
    ReadSteps();
    MoreReadSteps();
    SmallWidths();
  }

  lemma ReadSteps()
    ensures Eight(0x03) == 0x09
    ensures Eight(0x09) == 0x3F
    ensures Eight(0x39) == 0xAF
    ensures Eight(0xAE) == 0x43
    ensures Eight(0x41) == 0xC0
  {
    hide Shifts, Eight;
    EightOf(0x03, 0x0C, 0x30, 0xC0, 0x09);
    EightOf(0x09, 0x24, 0x90, 0x4E, 0x3F);
    EightOf(0x39, 0xE4, 0x99, 0x6A, 0xAF);
    EightOf(0xAE, 0xB6, 0xD6, 0x51, 0x43);
    EightOf(0x41, 0x03, 0x0C, 0x30, 0xC0);
  }

  lemma MoreReadSteps()
    ensures Eight(0xC3) == 0x47
    ensures Eight(0x43) == 0xCE
    ensures Eight(0xCB) == 0x7F
    ensures Eight(0x79) == 0x68
  {
    hide Shifts, Eight;
    EightOf(0xC3, 0x05, 0x14, 0x50, 0x47);
    EightOf(0x43, 0x0B, 0x2C, 0xB0, 0xCE);
    EightOf(0xCB, 0x25, 0x94, 0x5E, 0x7F);
    EightOf(0x79, 0xE3, 0x85, 0x1A, 0x68);
  }

  lemma SmallWidths()
    ensures Widen(0) == 0 && Widen(1) == 1 && Widen(2) == 2 && Widen(3) == 3 && Widen(4) == 4 && Widen(5) == 5
    ensures Widen(6) == 6 && Narrow(0x87) == 0x87 && Narrow(0x68) == 0x68
  {
    hide Widen, Narrow;
    LowWidths();
    MiddleWidths();
    CrcWidths();
  }

  lemma LowWidths()
    ensures Widen(0) == 0 && Widen(1) == 1 && Widen(2) == 2 && Widen(3) == 3
  {
  }

  lemma MiddleWidths()
    ensures Widen(4) == 4 && Widen(5) == 5 && Widen(6) == 6
  {
  }

  lemma CrcWidths()
    ensures Narrow(0x87) == 0x87 && Narrow(0x68) == 0x68
  {
  }
}
