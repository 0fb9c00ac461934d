/** CRC-32C: the table-driven form used for every metadata checksum, and the shift register it stands for. */
module Crc32c {
  import opened Bytes

  type word = bv32

  const POLY: word := 0x82F63B78

  // The word operations of the loop, named so that proofs can treat them as black boxes.
  function Xor(a: word, b: word): word { a ^ b }
  function Low8(a: word): word { a & 0xFF }
  function Down8(a: word): word { a >> 8 }
  function High24(a: word): word { a & 0xFFFF_FF00 }
  function Half(a: word): word { a >> 1 }
  predicate Odd(a: word) { a & 1 != 0 }

  function Widen(b: byte): (w: word)
    ensures w <= 0xFF
  {
    b as word
  }

  /** One step of the table initialiser. */
  function Shift(c: word): word {
    if Odd(c) then Xor(Half(c), POLY) else Half(c)
  }

  function Shifts(c: word, n: nat): word
    decreases n
  {
    if n == 0 then c else Shifts(Shift(c), n - 1)
  }

  /** One clock of the reflected CRC-32C register with the input bit fed at the low end. */
  function Feed(c: word, bit: bool): word {
    if Odd(c) != bit then Xor(Half(c), POLY) else Half(c)
  }

  /** The low `n` bits of `w`, fed lowest first. */
  function FeedBits(c: word, w: word, n: nat): word
    decreases n
  {
    if n == 0 then c else FeedBits(Feed(c, Odd(w)), Half(w), n - 1)
  }

  /** The reference: every byte fed bit by bit, lowest bit first. */
  function Serial(data: seq<byte>, init: word): word {
    if data == [] then init
    else FeedBits(Serial(data[..|data| - 1], init), Widen(data[|data| - 1]), 8)
  }

  /** One turn of the table-driven loop. */
  function TableStep(c: word, b: byte): word {
    Xor(Down8(c), Shifts(Low8(Xor(c, Widen(b))), 8))
  }

  function Raw(data: seq<byte>, init: word): word {
    if data == [] then init
    else TableStep(Raw(data[..|data| - 1], init), data[|data| - 1])
  }

  // ---- one shift is linear apart from the bit that falls out ----

  lemma FeedXorOdd(c: word, w: word)
    requires w & 1 != 0
    ensures Shift(Xor(c, w)) == Xor(Feed(c, true), Half(w))
  {
    if c & 1 != 0 {
      assert (c ^ w) & 1 == 0;
    } else {
      assert (c ^ w) & 1 != 0;
    }
  }

  lemma FeedXorEven(c: word, w: word)
    requires w & 1 == 0
    ensures Shift(Xor(c, w)) == Xor(Feed(c, false), Half(w))
  {
    if c & 1 != 0 {
      assert (c ^ w) & 1 != 0;
    } else {
      assert (c ^ w) & 1 == 0;
    }
  }

  lemma FeedXor(c: word, w: word)
    ensures Shift(Xor(c, w)) == Xor(Feed(c, Odd(w)), Half(w))
  {
    hide Shift, Feed, Half, Xor;
    if Odd(w) { FeedXorOdd(c, w); } else { FeedXorEven(c, w); }
  }

  function DropBits(w: word, n: nat): word
    decreases n
  {
    if n == 0 then w else DropBits(Half(w), n - 1)
  }

  lemma {:induction false} ShiftsFeed(x: word, c: word, w: word, n: nat)
    requires x == Xor(c, w)
    ensures Shifts(x, n) == Xor(FeedBits(c, w, n), DropBits(w, n))
    decreases n
  {
    hide Shift, Feed, Xor, Half, Odd;
    if n > 0 {
      FeedXor(c, w);
      ShiftsFeed(Shift(x), Feed(c, Odd(w)), Half(w), n - 1);
    }
  }

  predicate LowClear(w: word, n: nat)
    decreases n
  {
    n == 0 || (!Odd(w) && LowClear(Half(w), n - 1))
  }

  lemma {:induction false} FeedZeros(c: word, w: word, n: nat)
    requires LowClear(w, n)
    ensures FeedBits(c, w, n) == Shifts(c, n)
    decreases n
  {
    hide Half, Xor, Odd;
    if n > 0 {
      assert Feed(c, false) == Shift(c);
      FeedZeros(Shift(c), Half(w), n - 1);
    }
  }

  lemma HighClear(x: word)
    ensures LowClear(High24(x), 8)
  {
    assert x & 0xFFFF_FF00 & 1 == 0;
  }

  lemma HighDrops(x: word)
    ensures DropBits(High24(x), 8) == Down8(x)
  {
  }

  lemma HighLow(x: word)
    ensures Xor(Low8(x), High24(x)) == x
  {
    assert (x & 0xFF) ^ (x & 0xFFFF_FF00) == x;
  }

  lemma HighPart(x: word)
    ensures LowClear(High24(x), 8)
    ensures DropBits(High24(x), 8) == Down8(x)
    ensures Xor(Low8(x), High24(x)) == x
  {
    hide *;
    HighClear(x);
    HighDrops(x);
    HighLow(x);
  }

  lemma SmallWord(c: word, w: word)
    requires w <= 0xFF
    ensures DropBits(w, 8) == 0
    ensures Down8(Xor(c, w)) == Down8(c)
  {
  }

  lemma XorLaws(a: word, b: word)
    ensures Xor(a, 0) == a
    ensures Xor(a, b) == Xor(b, a)
  {
  }

  /** A whole byte of shifts is the table entry of the low byte against the shifted rest. */
  lemma ShiftsByTable(x: word)
    ensures Shifts(x, 8) == Xor(Down8(x), Shifts(Low8(x), 8))
  {
    hide *;
    var lo, hi := Low8(x), High24(x);
    HighPart(x);
    ShiftsFeed(x, lo, hi, 8);
    FeedZeros(lo, hi, 8);
    XorLaws(Shifts(lo, 8), Down8(x));
  }

  lemma ByteStep(c: word, b: byte)
    ensures TableStep(c, b) == FeedBits(c, Widen(b), 8)
  {
    hide Shifts, FeedBits, DropBits, Xor, Low8, Down8, Widen;
    var w := Widen(b);
    SmallWord(c, w);
    ShiftsByTable(Xor(c, w));
    ShiftsFeed(Xor(c, w), c, w, 8);
    XorLaws(FeedBits(c, w, 8), 0);
  }

  lemma {:induction false} RawIsSerial(data: seq<byte>, init: word)
    ensures Raw(data, init) == Serial(data, init)
  {
    hide TableStep, FeedBits, Widen;
    if data != [] {
      var n := |data| - 1;
      RawIsSerial(data[..n], init);
      ByteStep(Raw(data[..n], init), data[n]);
    }
  }

  // ---- the register runs backwards ----

  function Unshift(x: word): word { if x & 0x8000_0000 != 0 then (Xor(x, POLY) << 1) | 1 else x << 1 }

  lemma UpDownOdd(z: word)
    requires z & 0x8000_0000 == 0
    ensures ((z << 1) | 1) & 1 != 0 && ((z << 1) | 1) >> 1 == z
  {
  }

  lemma UpDownEven(z: word)
    requires z & 0x8000_0000 == 0
    ensures (z << 1) & 1 == 0 && (z << 1) >> 1 == z
  {
  }

  lemma TopCancels(x: word)
    requires x & 0x8000_0000 != 0
    ensures (x ^ POLY) & 0x8000_0000 == 0 && (x ^ POLY) ^ POLY == x
  {
  }

  lemma ShiftUnshift(x: word)
    ensures Shift(Unshift(x)) == x
  {
    if x & 0x8000_0000 != 0 {
      TopCancels(x);
      UpDownOdd(x ^ POLY);
    } else {
      UpDownEven(x);
    }
  }

  function Unfeed(x: word, bit: bool): word { if bit then Xor(Unshift(x), 1) else Unshift(x) }

  lemma HalfFlip(c: word)
    ensures Half(Xor(c, 1)) == Half(c) && (Odd(Xor(c, 1)) <==> !Odd(c))
  {
  }

  lemma FeedUnfeed(x: word, bit: bool)
    ensures Feed(Unfeed(x, bit), bit) == x
  {
    hide Unshift, Half, Odd, Xor;
    ShiftUnshift(x);
    HalfFlip(Unshift(x));
  }

  lemma {:induction false} BitsBackwards(x: word, w: word, n: nat) returns (c: word)
    ensures FeedBits(c, w, n) == x
    decreases n
  {
    hide Feed, Unfeed, Half, Odd;
    if n == 0 {
      c := x;
    } else {
      var d := BitsBackwards(x, Half(w), n - 1);
      FeedUnfeed(d, Odd(w));
      c := Unfeed(d, Odd(w));
    }
  }

  /** Whatever the data, every checksum is reached from some initial value. */
  lemma {:induction false} Backwards(data: seq<byte>, x: word) returns (init: word)
    ensures Raw(data, init) == x
  {
    hide FeedBits, TableStep, Widen;
    if data == [] {
      init := x;
    } else {
      var n := |data| - 1;
      var c := BitsBackwards(x, Widen(data[n]), 8);
      init := Backwards(data[..n], c);
      ByteStep(c, data[n]);
    }
  }

  lemma {:induction false} RawChains(a: seq<byte>, b: seq<byte>, init: word)
    ensures Raw(a + b, init) == Raw(b, Raw(a, init))
  {
    hide TableStep;
    if b == [] {
      assert a + b == a;
    } else {
      var n := |b| - 1;
      assert (a + b)[..|a| + n] == a + b[..n];
      RawChains(a, b[..n], init);
    }
  }

  // ---- the loops ----

  lemma NarrowIndex(x: word)
    ensures Low8(x) <= 0xFF
  {
  }

  lemma WidenBack(x: word)
    requires x <= 0xFF
    ensures 0 <= x as int < 0x100 && Widen(x as int) == x
  {
  }

  method BuildTable() returns (table: array<word>)
    ensures fresh(table) && table.Length == 256
    ensures forall i: byte :: table[i] == Shifts(Widen(i), 8)
  {
    hide Shift, Widen;
    table := new word[256];
    var i := 0;
    while i < 256
      invariant 0 <= i <= 256
      invariant forall k: byte :: k < i ==> table[k] == Shifts(Widen(k), 8)
    {
      var crc := Widen(i);
      var j := 0;
      while j < 8
        invariant 0 <= j <= 8
        invariant Shifts(crc, 8 - j) == Shifts(Widen(i), 8)
      {
        crc := Shift(crc);
        j := j + 1;
      }
      table[i] := crc;
      i := i + 1;
    }
  }

  method TableCrc(table: array<word>, data: seq<byte>, init: word) returns (crc: word)
    requires table.Length == 256
    requires forall i: byte :: table[i] == Shifts(Widen(i), 8)
    ensures crc == Serial(data, init)
  {
    crc := init;
    var k := 0;
    while k < |data|
      invariant 0 <= k <= |data|
      invariant crc == Raw(data[..k], init)
    {
      hide Shifts, Low8, Xor, Widen, Down8;
      var low := Low8(Xor(crc, Widen(data[k])));
      NarrowIndex(Xor(crc, Widen(data[k])));
      WidenBack(low);
      assert data[..k + 1][..k] == data[..k];
      crc := Xor(Down8(crc), table[low as int]);
      k := k + 1;
    }
    assert data[..k] == data;
    RawIsSerial(data, init);
  }

  // ---- the check value ----

  function FourShifts(x: word): word { Shift(Shift(Shift(Shift(x)))) }

  /** One turn of the loop, with what its eight shifts give half-way and in the end. */
  lemma Turn(c: word, b: byte, half: word, entry: word, next: word)
    requires FourShifts(Low8(Xor(c, Widen(b)))) == half && FourShifts(half) == entry
    requires Xor(Down8(c), entry) == next
    ensures TableStep(c, b) == next
  {
    hide Shift, Xor, Down8, Low8, Widen;
    var x := Low8(Xor(c, Widen(b)));
    assert Shifts(x, 8) == Shifts(Shift(Shift(x)), 6) == Shifts(FourShifts(x), 4);
    assert Shifts(half, 4) == Shifts(Shift(Shift(half)), 2) == FourShifts(half);
  }

  lemma FirstTurns()
    ensures TableStep(0xFFFF_FFFF, 0x31) == 0x6F0A_661C
    ensures TableStep(0x6F0A_661C, 0x32) == 0x8CAA_3B9F
    ensures TableStep(0x8CAA_3B9F, 0x33) == 0xEF84_D04D
  {
    hide TableStep, Shifts;
    Turn(0xFFFF_FFFF, 0x31, 0xE330_A816, 0x6FF5_99E3, 0x6F0A_661C);
    Turn(0x6F0A_661C, 0x32, 0xE330_A818, 0x8CC5_31F9, 0x8CAA_3B9F);
    Turn(0x8CAA_3B9F, 0x33, 0xC38D_26CE, 0xEF08_7A76, 0xEF84_D04D);
  }

  lemma MiddleTurns()
    ensures TableStep(0xEF84_D04D, 0x34) == 0x09C5_0B11
    ensures TableStep(0x09C5_0B11, 0x35) == 0xE72E_DCCA
    ensures TableStep(0xE72E_DCCA, 0x36) == 0xBECA_8E79
  {
    hide TableStep, Shifts;
    Turn(0xEF84_D04D, 0x34, 0x92A8_FC10, 0x092A_8FC1, 0x09C5_0B11);
    Turn(0x09C5_0B11, 0x35, 0x417B_1DBE, 0xE727_19C1, 0xE72E_DCCA);
    Turn(0xE72E_DCCA, 0x36, 0xC38D_26CB, 0xBE2D_A0A5, 0xBECA_8E79);
  }

  lemma LastTurns()
    ensures TableStep(0xBECA_8E79, 0x37) == 0xEDBD_6815
    ensures TableStep(0xEDBD_6815, 0x38) == 0x9F78_7F65
    ensures TableStep(0x9F78_7F65, 0x39) == 0x1CF9_6D7C
  {
    hide TableStep, Shifts;
    Turn(0xBECA_8E79, 0x37, 0xE330_A81E, 0xED03_A29B, 0xEDBD_6815);
    Turn(0xEDBD_6815, 0x38, 0xD3D3_E1A9, 0x9F95_C20D, 0x9F78_7F65);
    Turn(0x9F78_7F65, 0x39, 0xC38D_26C1, 0x1C66_1503, 0x1CF9_6D7C);
  }

  lemma RawMore(data: seq<byte>, k: nat, init: word)
    requires k < |data|
    ensures Raw(data[..k + 1], init) == TableStep(Raw(data[..k], init), data[k])
  {
    hide TableStep;
    assert data[..k + 1][..k] == data[..k];
  }

  lemma RawNone(init: word)
    ensures Raw([], init) == init
  {
  }

  /** The published check value of CRC-32C, that of the nine digits "123456789": it fixes the polynomial. */
  lemma CheckValue()
    ensures Raw([0x31, 0x32, 0x33, 0x34, 0x35, 0x36, 0x37, 0x38, 0x39], 0xFFFF_FFFF) ^ 0xFFFF_FFFF == 0xE306_9283
  {
    hide TableStep, Raw;
    var s := [0x31, 0x32, 0x33, 0x34, 0x35, 0x36, 0x37, 0x38, 0x39];
    FirstTurns();
    MiddleTurns();
    LastTurns();
    assert s[..0] == [] && s[..9] == s;
    RawNone(0xFFFF_FFFF);
    RawMore(s, 0, 0xFFFF_FFFF);
    RawMore(s, 1, 0xFFFF_FFFF);
    RawMore(s, 2, 0xFFFF_FFFF);
    RawMore(s, 3, 0xFFFF_FFFF);
    RawMore(s, 4, 0xFFFF_FFFF);
    RawMore(s, 5, 0xFFFF_FFFF);
    RawMore(s, 6, 0xFFFF_FFFF);
    RawMore(s, 7, 0xFFFF_FFFF);
    RawMore(s, 8, 0xFFFF_FFFF);
  }
}
