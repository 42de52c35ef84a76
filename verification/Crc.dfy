/** CRC-16-CCITT (polynomial 0x1021, initial value 0xFFFF), as both boards compute it.

    The specification is a 16-place shift register fed one message bit at a time; the
    source's loop over machine words is proved to compute it. Written this way the register
    is visibly linear, which is what the detection theorems at the end rest on. */
module Crc {
  import opened Bytes

  // ---- the shift register --------------------------------------------------

  type Bits = seq<bool>
  type Reg = c: Bits | |c| == 16
    witness [false, false, false, false, false, false, false, false,
             false, false, false, false, false, false, false, false]

  function Init(): (c: Reg)
    ensures forall k :: 0 <= k < 16 ==> c[k]
  {
    seq(16, _ => true)
  }

  /** x^12 + x^5 + 1, the feedback of 0x1021; place 0 leaves first. */
  function Taps(): (c: Reg)
    ensures forall k :: 0 <= k < 16 ==> c[k] == (k == 3 || k == 10 || k == 15)
  {
    seq(16, k => k == 3 || k == 10 || k == 15)
  }

  function Zeros(n: nat): (z: Bits)
    ensures |z| == n && forall k :: 0 <= k < n ==> !z[k]
  {
    seq(n, _ => false)
  }

  function Xor(a: Bits, b: Bits): (x: Bits)
    requires |a| == |b|
    ensures |x| == |a| && forall k :: 0 <= k < |a| ==> x[k] == (a[k] != b[k])
  {
    seq(|a|, k requires 0 <= k < |a| => a[k] != b[k])
  }

  function Shift(c: Reg): Reg {
    var moved := c[1..] + [false];
    if c[0] then Xor(moved, Taps()) else moved
  }

  function ShiftN(c: Reg, n: nat): Reg
    decreases n
  {
    if n == 0 then c else ShiftN(Shift(c), n - 1)
  }

  function Step(c: Reg, bit: bool): Reg {
    Shift(c[0 := c[0] != bit])
  }

  /** Register contents after the message bits have been fed in. */
  function Drive(c: Reg, bits: Bits): Reg
    decreases |bits|
  {
    if bits == [] then c else Drive(Step(c, bits[0]), bits[1..])
  }

  // ---- bytes and words as bits ---------------------------------------------

  /** The word whose only one is at place `k`; place 0 is the high bit. */
  function Mask(k: nat): bv16 {
    if k == 0 then 0x8000 else Half(Mask(k - 1))
  }

  function Half(m: bv16): bv16 {
    m >> 1
  }

  function Twice(c: bv16): bv16 {
    c << 1
  }

  predicate Hits(c: bv16, m: bv16) {
    c & m != 0
  }

  predicate Bit(c: bv16, k: nat) {
    Hits(c, Mask(k))
  }

  function WordBits(c: bv16): (r: Reg)
    ensures forall k :: 0 <= k < 16 ==> r[k] == Bit(c, k)
  {
    seq(16, k requires 0 <= k => Bit(c, k))
  }

  function BitsOf(b: Byte): (r: Bits)
    ensures |r| == 8
    ensures forall k :: 0 <= k < 8 ==> r[k] == Bit(High(b), k)
  {
    seq(8, k requires 0 <= k => Bit(High(b), k))
  }

  function High(b: Byte): bv16 {
    (b as bv16) << 8
  }

  function Flag(bit: bool, mask: Byte): Byte {
    if bit then mask else 0
  }

  function ByteOf(r: Bits): (b: Byte)
    requires |r| == 8
  {
    Flag(r[0], 0x80) | Flag(r[1], 0x40) | Flag(r[2], 0x20) | Flag(r[3], 0x10) |
    Flag(r[4], 0x08) | Flag(r[5], 0x04) | Flag(r[6], 0x02) | Flag(r[7], 0x01)
  }

  function Message(s: Bytes): (r: Bits)
    ensures |r| == 8 * |s|
  {
    if s == [] then [] else BitsOf(s[0]) + Message(s[1..])
  }

  /** The CRC register after a byte string. */
  function Run(c: Reg, s: Bytes): Reg {
    Drive(c, Message(s))
  }

  /** A received CRC field, high byte first. */
  function Word(h: Byte, l: Byte): bv16 {
    High(h) | Low(l)
  }

  function Low(b: Byte): bv16 {
    b as bv16
  }

  /** The check every receiver makes: the last two bytes are the CRC of the others. */
  predicate Intact(w: Bytes) {
    |w| >= 2 && Run(Init(), w[..|w| - 2]) == Message(w[|w| - 2..])
  }

  /** A body followed by its CRC, high byte first. */
  function Sealed(body: Bytes): (w: Bytes)
    ensures |w| == |body| + 2 && w[..|body|] == body
    ensures Intact(w)
  {
    var c := Run(Init(), body);
    var crc := [ByteOf(c[..8]), ByteOf(c[8..])];
    BitsOfByteOf(c[..8]);
    BitsOfByteOf(c[8..]);
    assert crc[1..][1..] == [];
    assert Message(crc) == BitsOf(crc[0]) + (BitsOf(crc[1]) + []);
    assert Message(crc) == c;
    var w := body + crc;
    assert w[|w| - 2..] == crc;
    w
  }

  lemma MaskTable()
    ensures Mask(0) == 0x8000 && Mask(1) == 0x4000 && Mask(2) == 0x2000 && Mask(3) == 0x1000
    ensures Mask(4) == 0x0800 && Mask(5) == 0x0400 && Mask(6) == 0x0200 && Mask(7) == 0x0100
    ensures Mask(8) == 0x0080 && Mask(9) == 0x0040 && Mask(10) == 0x0020 && Mask(11) == 0x0010
    ensures Mask(12) == 0x0008 && Mask(13) == 0x0004 && Mask(14) == 0x0002 && Mask(15) == 0x0001
    ensures Mask(16) == 0
  {}

  lemma HighBits(b: Byte)
    ensures Bit(High(b), 0) == (b & 0x80 != 0) && Bit(High(b), 1) == (b & 0x40 != 0)
    ensures Bit(High(b), 2) == (b & 0x20 != 0) && Bit(High(b), 3) == (b & 0x10 != 0)
    ensures Bit(High(b), 4) == (b & 0x08 != 0) && Bit(High(b), 5) == (b & 0x04 != 0)
    ensures Bit(High(b), 6) == (b & 0x02 != 0) && Bit(High(b), 7) == (b & 0x01 != 0)
  {
    MaskTable();
  }

  lemma BitsOfByteOf(r: Bits)
    requires |r| == 8
    ensures BitsOf(ByteOf(r)) == r
  {
    HighBits(ByteOf(r));
  }

  lemma BitsInjective(a: Byte, b: Byte)
    requires BitsOf(a) == BitsOf(b)
    ensures a == b
  {
    HighBits(a);
    HighBits(b);
    var s, t := BitsOf(a), BitsOf(b);
    assert s[0] == t[0] && s[1] == t[1] && s[2] == t[2] && s[3] == t[3];
    assert s[4] == t[4] && s[5] == t[5] && s[6] == t[6] && s[7] == t[7];
    ByteEqual(a, b);
  }

  lemma ByteEqual(a: Byte, b: Byte)
    requires a & 0x80 != 0 <==> b & 0x80 != 0
    requires a & 0x40 != 0 <==> b & 0x40 != 0
    requires a & 0x20 != 0 <==> b & 0x20 != 0
    requires a & 0x10 != 0 <==> b & 0x10 != 0
    requires a & 0x08 != 0 <==> b & 0x08 != 0
    requires a & 0x04 != 0 <==> b & 0x04 != 0
    requires a & 0x02 != 0 <==> b & 0x02 != 0
    requires a & 0x01 != 0 <==> b & 0x01 != 0
    ensures a == b
  {}

  // ---- the source's loops --------------------------------------------------

  lemma TwiceHits(c: bv16, m: bv16)
    ensures Hits(Twice(c), m) <==> Hits(c, Half(m))
  {}

  lemma TwiceBit(c: bv16, k: nat)
    ensures Bit(Twice(c), k) == Bit(c, k + 1)
  {
    TwiceHits(c, Mask(k));
  }

  lemma HalfOfPower(m: bv16)
    requires m & (m - 1) == 0
    ensures Half(m) & (Half(m) - 1) == 0
  {}

  lemma {:induction false} MaskIsPower(k: nat)
    ensures Mask(k) & (Mask(k) - 1) == 0
  {
    if k > 0 {
      MaskIsPower(k - 1);
      HalfOfPower(Mask(k - 1));
    }
  }

  lemma XorAtPower(c: bv16, d: bv16, m: bv16)
    requires m & (m - 1) == 0
    ensures Hits(c ^ d, m) <==> (Hits(c, m) != Hits(d, m))
  {}

  lemma XorBit(c: bv16, d: bv16, k: nat)
    ensures Bit(c ^ d, k) == (Bit(c, k) != Bit(d, k))
  {
    MaskIsPower(k);
    XorAtPower(c, d, Mask(k));
  }

  lemma HalfOfLow(m: bv16)
    requires m & 0xFF00 == 0
    ensures Half(m) & 0xFF00 == 0
  {}

  lemma {:induction false} MaskIsLow(k: nat)
    requires 8 <= k
    ensures Mask(k) & 0xFF00 == 0
  {
    if k == 8 {
      MaskTable();
    } else {
      MaskIsLow(k - 1);
      HalfOfLow(Mask(k - 1));
    }
  }

  lemma HighAndLow(b: Byte, m: bv16)
    requires m & 0xFF00 == 0
    ensures !Hits(High(b), m)
  {}

  lemma WordMove(c: bv16)
    ensures WordBits(Twice(c)) == WordBits(c)[1..] + [false]
  {
    forall k | 0 <= k < 16
      ensures WordBits(Twice(c))[k] == (WordBits(c)[1..] + [false])[k]
    {
      TwiceBit(c, k);
      if k == 15 { MaskTable(); }
    }
  }

  lemma WordXor(c: bv16, d: bv16)
    ensures WordBits(c ^ d) == Xor(WordBits(c), WordBits(d))
  {
    forall k | 0 <= k < 16
      ensures WordBits(c ^ d)[k] == Xor(WordBits(c), WordBits(d))[k]
    {
      XorBit(c, d, k);
    }
  }

  lemma WordTaps()
    ensures WordBits(0x1021) == Taps()
  {
    MaskTable();
  }

  lemma WordHigh(b: Byte)
    ensures WordBits(High(b)) == BitsOf(b) + Zeros(8)
  {
    forall k | 8 <= k < 16
      ensures !Bit(High(b), k)
    {
      MaskIsLow(k);
      HighAndLow(b, Mask(k));
    }
  }

  lemma WordShift(c: bv16)
    ensures WordBits(if c & 0x8000 != 0 then Twice(c) ^ 0x1021 else Twice(c)) == Shift(WordBits(c))
  {
    WordMove(c);
    WordXor(Twice(c), 0x1021);
    WordTaps();
    assert WordBits(c)[0] == Bit(c, 0);
  }

  method ShiftByte(mixed: bv16) returns (crc: bv16)
    ensures WordBits(crc) == ShiftN(WordBits(mixed), 8)
  {
    crc := mixed;
    var j := 0;
    while j < 8
      invariant 0 <= j <= 8
      invariant ShiftN(WordBits(mixed), 8) == ShiftN(WordBits(crc), 8 - j)
    {
      WordShift(crc);
      if crc & 0x8000 != 0 {
        crc := (crc << 1) ^ 0x1021;
      } else {
        crc := crc << 1;
      }
      j := j + 1;
    }
  }

  method Crc16Ccitt(data: Bytes) returns (crc: bv16)
    ensures WordBits(crc) == Run(Init(), data)
  {
    crc := 0xFFFF;
    WordInit();
    var i := 0;
    while i < |data|
      invariant 0 <= i <= |data|
      invariant Run(Init(), data) == Run(WordBits(crc), data[i..])
    {
      ghost var before := WordBits(crc);
      WordXor(crc, High(data[i]));
      WordHigh(data[i]);
      crc := ShiftByte(crc ^ High(data[i]));
      ByteStep(before, data[i]);
      RunStep(before, data[i..]);
      assert data[i..][1..] == data[i + 1..];
      i := i + 1;
    }
  }

  lemma WordInit()
    ensures WordBits(0xFFFF) == Init()
  {
    MaskTable();
  }

  /** Mixing a byte in and shifting eight times feeds its bits, high bit first. */
  lemma ByteStep(c: Reg, b: Byte)
    ensures ShiftN(Xor(c, BitsOf(b) + Zeros(8)), 8) == Drive(c, BitsOf(b))
  {
    DriveShort(c, BitsOf(b));
  }

  lemma RunStep(c: Reg, s: Bytes)
    requires s != []
    ensures Run(c, s) == Run(Drive(c, BitsOf(s[0])), s[1..])
  {
    DriveAppend(c, BitsOf(s[0]), Message(s[1..]));
  }

  lemma {:induction false} DriveAppend(c: Reg, s: Bits, t: Bits)
    ensures Drive(c, s + t) == Drive(Drive(c, s), t)
    decreases |s|
  {
    if s == [] {
      assert s + t == t;
    } else {
      assert (s + t)[1..] == s[1..] + t;
      DriveAppend(Step(c, s[0]), s[1..], t);
    }
  }

  /** Feeding at most 16 bits one by one is mixing them all in and then shifting. */
  lemma {:induction false} DriveShort(c: Reg, bits: Bits)
    requires |bits| <= 16
    ensures Drive(c, bits) == ShiftN(Xor(c, bits + Zeros(16 - |bits|)), |bits|)
    decreases |bits|
  {
    if bits == [] {
      assert Xor(c, bits + Zeros(16)) == c;
    } else {
      var rest := bits[1..];
      DriveShort(Step(c, bits[0]), rest);
      var laid := bits + Zeros(16 - |bits|);
      assert rest + Zeros(17 - |bits|) == laid[1..] + [false];
      MixThenShift(c, laid);
    }
  }

  lemma MixThenShift(c: Reg, laid: Reg)
    ensures Shift(Xor(c, laid)) == Xor(Step(c, laid[0]), laid[1..] + [false])
  {}

  lemma WordEqual(a: bv16, b: bv16)
    requires Hits(a, 0x8000) == Hits(b, 0x8000)
    requires Hits(a, 0x4000) == Hits(b, 0x4000)
    requires Hits(a, 0x2000) == Hits(b, 0x2000)
    requires Hits(a, 0x1000) == Hits(b, 0x1000)
    requires Hits(a, 0x0800) == Hits(b, 0x0800)
    requires Hits(a, 0x0400) == Hits(b, 0x0400)
    requires Hits(a, 0x0200) == Hits(b, 0x0200)
    requires Hits(a, 0x0100) == Hits(b, 0x0100)
    requires Hits(a, 0x0080) == Hits(b, 0x0080)
    requires Hits(a, 0x0040) == Hits(b, 0x0040)
    requires Hits(a, 0x0020) == Hits(b, 0x0020)
    requires Hits(a, 0x0010) == Hits(b, 0x0010)
    requires Hits(a, 0x0008) == Hits(b, 0x0008)
    requires Hits(a, 0x0004) == Hits(b, 0x0004)
    requires Hits(a, 0x0002) == Hits(b, 0x0002)
    requires Hits(a, 0x0001) == Hits(b, 0x0001)
    ensures a == b
  {}

  lemma WordAt(a: bv16)
    ensures WordBits(a)[0] == Hits(a, 0x8000)
    ensures WordBits(a)[1] == Hits(a, 0x4000)
    ensures WordBits(a)[2] == Hits(a, 0x2000)
    ensures WordBits(a)[3] == Hits(a, 0x1000)
    ensures WordBits(a)[4] == Hits(a, 0x0800)
    ensures WordBits(a)[5] == Hits(a, 0x0400)
    ensures WordBits(a)[6] == Hits(a, 0x0200)
    ensures WordBits(a)[7] == Hits(a, 0x0100)
    ensures WordBits(a)[8] == Hits(a, 0x0080)
    ensures WordBits(a)[9] == Hits(a, 0x0040)
    ensures WordBits(a)[10] == Hits(a, 0x0020)
    ensures WordBits(a)[11] == Hits(a, 0x0010)
    ensures WordBits(a)[12] == Hits(a, 0x0008)
    ensures WordBits(a)[13] == Hits(a, 0x0004)
    ensures WordBits(a)[14] == Hits(a, 0x0002)
    ensures WordBits(a)[15] == Hits(a, 0x0001)
  {
    MaskTable();
  }

  lemma WordInjective(a: bv16, b: bv16)
    requires WordBits(a) == WordBits(b)
    ensures a == b
  {
    WordAt(a);
    WordAt(b);
    WordEqual(a, b);
  }

  lemma TwiceEight(b: Byte)
    ensures High(b) == Twice(Twice(Twice(Twice(Twice(Twice(Twice(Twice(Low(b)))))))))
  {}

  lemma LowBit(b: Byte, k: nat)
    ensures Bit(Low(b), k + 8) == Bit(High(b), k)
  {
    var c1 := Twice(Low(b));
    var c2 := Twice(c1);
    var c3 := Twice(c2);
    var c4 := Twice(c3);
    var c5 := Twice(c4);
    var c6 := Twice(c5);
    var c7 := Twice(c6);
    TwiceEight(b);
    TwiceBit(Low(b), k + 7);
    TwiceBit(c1, k + 6);
    TwiceBit(c2, k + 5);
    TwiceBit(c3, k + 4);
    TwiceBit(c4, k + 3);
    TwiceBit(c5, k + 2);
    TwiceBit(c6, k + 1);
    TwiceBit(c7, k);
  }

  lemma LowMisses(b: Byte)
    ensures !Hits(Low(b), 0x8000) && !Hits(Low(b), 0x4000) && !Hits(Low(b), 0x2000) && !Hits(Low(b), 0x1000)
    ensures !Hits(Low(b), 0x0800) && !Hits(Low(b), 0x0400) && !Hits(Low(b), 0x0200) && !Hits(Low(b), 0x0100)
  {}

  lemma WordLow(b: Byte)
    ensures WordBits(Low(b)) == Zeros(8) + BitsOf(b)
  {
    LowMisses(b);
    MaskTable();
    var s := WordBits(Low(b));
    assert !s[0] && !s[1] && !s[2] && !s[3] && !s[4] && !s[5] && !s[6] && !s[7];
    forall k | 0 <= k < 8
      ensures s[k + 8] == BitsOf(b)[k]
    {
      LowBit(b, k);
    }
    SplitAtEight(s, BitsOf(b));
  }

  lemma SplitAtEight(s: Bits, t: Bits)
    requires |s| == 16 && |t| == 8
    requires !s[0] && !s[1] && !s[2] && !s[3] && !s[4] && !s[5] && !s[6] && !s[7]
    requires forall k :: 0 <= k < 8 ==> s[k + 8] == t[k]
    ensures s == Zeros(8) + t
  {
    forall k | 0 <= k < 16
      ensures s[k] == (Zeros(8) + t)[k]
    {
      if k >= 8 { assert s[(k - 8) + 8] == t[k - 8]; }
    }
  }

  lemma OrIsXor(h: Byte, l: Byte)
    ensures Word(h, l) == High(h) ^ Low(l)
  {}

  lemma XorHalves(a: Bits, b: Bits)
    requires |a| == |b| == 8
    ensures Xor(a + Zeros(8), Zeros(8) + b) == a + b
  {}

  lemma WordMessage(h: Byte, l: Byte)
    ensures WordBits(Word(h, l)) == Message([h, l])
  {
    OrIsXor(h, l);
    WordXor(High(h), Low(l));
    WordHigh(h);
    WordLow(l);
    XorHalves(BitsOf(h), BitsOf(l));
    assert [h, l][1..] == [l] && [l][1..] == [];
    assert Message([l]) == BitsOf(l) + [];
  }

  /** Comparing register words is comparing bits: the source's test is `Intact`. */
  lemma TestIsIntact(w: Bytes, crc: bv16)
    requires |w| >= 2
    requires WordBits(crc) == Run(Init(), w[..|w| - 2])
    ensures crc == Word(w[|w| - 2], w[|w| - 1]) <==> Intact(w)
  {
    var h, l := w[|w| - 2], w[|w| - 1];
    WordMessage(h, l);
    assert w[|w| - 2..] == [h, l];
    if WordBits(crc) == WordBits(Word(h, l)) {
      WordInjective(crc, Word(h, l));
    }
  }

  /** The computed word as it goes on the wire, high byte first. */
  function Halves(crc: bv16): (s: Bytes)
    ensures |s| == 2 && Word(s[0], s[1]) == crc
  {
    [(crc >> 8) as bv8, (crc & 0xFF) as bv8]
  }

  /** Appending the two halves of the computed word seals the body. */
  lemma SealedBytes(body: Bytes, crc: bv16)
    requires WordBits(crc) == Run(Init(), body)
    ensures Sealed(body) == body + Halves(crc)
  {
    hide Halves, Sealed;
    var t := Halves(crc);
    WordMessage(t[0], t[1]);
    assert t == [t[0], t[1]];
    var w := Sealed(body);
    assert w == body + w[|body|..];
    SealIsUnique(body, w[|body|..], t);
  }

  lemma SealIsUnique(body: Bytes, s: Bytes, t: Bytes)
    requires |s| == |t| == 2
    requires Intact(body + s) && Message(t) == Run(Init(), body)
    ensures s == t
  {
    var w := body + s;
    assert w[..|w| - 2] == body && w[|w| - 2..] == s;
    MessageInjective(s, t);
  }

  // ---- the register over concatenated input --------------------------------

  lemma {:induction false} MessageAppend(a: Bytes, b: Bytes)
    ensures Message(a + b) == Message(a) + Message(b)
    decreases |a|
  {
    if a == [] {
      assert a + b == b;
    } else {
      assert (a + b)[1..] == a[1..] + b;
      MessageAppend(a[1..], b);
    }
  }

  /** The CRC of a concatenation continues from the register left by its first part. */
  lemma RunAppend(c: Reg, a: Bytes, b: Bytes)
    ensures Run(c, a + b) == Run(Run(c, a), b)
  {
    MessageAppend(a, b);
    DriveAppend(c, Message(a), Message(b));
  }

  // ---- linearity -----------------------------------------------------------

  lemma ShiftXor(a: Reg, b: Reg)
    ensures Shift(Xor(a, b)) == Xor(Shift(a), Shift(b))
  {}

  lemma ShiftZero(c: Reg)
    ensures Shift(c) == Zeros(16) <==> c == Zeros(16)
  {
    assert Shift(c)[15] == c[0];
    if Shift(c) == Zeros(16) {
      forall k | 0 <= k < 16
        ensures !c[k]
      {
        if k > 0 { assert Shift(c)[k - 1] == c[k]; }
      }
    }
  }

  lemma {:induction false} ShiftNZero(c: Reg, n: nat)
    ensures ShiftN(c, n) == Zeros(16) <==> c == Zeros(16)
    decreases n
  {
    if n > 0 {
      ShiftZero(c);
      ShiftNZero(Shift(c), n - 1);
    }
  }

  lemma {:induction false} DriveXor(a: Reg, b: Reg, s: Bits, t: Bits)
    requires |s| == |t|
    ensures Drive(Xor(a, b), Xor(s, t)) == Xor(Drive(a, s), Drive(b, t))
    decreases |s|
  {
    if s != [] {
      var a', b' := a[0 := a[0] != s[0]], b[0 := b[0] != t[0]];
      assert Xor(a, b)[0 := Xor(a, b)[0] != (s[0] != t[0])] == Xor(a', b');
      ShiftXor(a', b');
      assert Xor(s, t)[1..] == Xor(s[1..], t[1..]);
      DriveXor(Step(a, s[0]), Step(b, t[0]), s[1..], t[1..]);
    }
  }

  lemma {:induction false} DriveZeros(c: Reg, n: nat)
    ensures Drive(c, Zeros(n)) == Zeros(16) <==> c == Zeros(16)
    decreases n
  {
    if n > 0 {
      assert Zeros(n)[1..] == Zeros(n - 1);
      assert c[0 := c[0] != false] == c;
      ShiftZero(c);
      DriveZeros(Shift(c), n - 1);
    }
  }

  // ---- what the receiver's check accepts -----------------------------------

  /** A frame passes the check exactly when the register ends at zero after all of it:
      an appended big-endian CRC leaves residue 0 and nothing else does. */
  lemma IntactIsResidueZero(w: Bytes)
    requires |w| >= 2
    ensures Intact(w) <==> Run(Init(), w) == Zeros(16)
  {
    var body, tail := w[..|w| - 2], w[|w| - 2..];
    var c, t := Run(Init(), body), Message(tail);
    assert w == body + tail;
    RunAppend(Init(), body, tail);
    DriveShort(c, t);
    assert t + Zeros(0) == t;
    ShiftNZero(Xor(c, t), 16);
    XorZero(c, t);
  }

  lemma XorZero(a: Bits, b: Bits)
    requires |a| == |b|
    ensures Xor(a, b) == Zeros(|a|) <==> a == b
  {
    if Xor(a, b) == Zeros(|a|) {
      forall k | 0 <= k < |a|
        ensures a[k] == b[k]
      {
        assert !Xor(a, b)[k];
      }
    }
  }

  /** Whether a damaged frame passes depends on the error pattern alone. */
  lemma AcceptsIffPatternVanishes(w: Bytes, v: Bytes)
    requires Intact(w) && |v| == |w|
    ensures Intact(v) <==> Drive(Zeros(16), Xor(Message(w), Message(v))) == Zeros(16)
  {
    IntactIsResidueZero(w);
    IntactIsResidueZero(v);
    DriveXor(Init(), Init(), Message(w), Message(v));
    assert Xor(Init(), Init()) == Zeros(16);
    assert Xor(Zeros(16), Run(Init(), v)) == Run(Init(), v);
  }

  lemma {:induction false} MessageInjective(a: Bytes, b: Bytes)
    requires |a| == |b| && Message(a) == Message(b)
    ensures a == b
    decreases |a|
  {
    if a != [] {
      var x, y := Message(a), Message(b);
      assert x[..8] == BitsOf(a[0]) && x[8..] == Message(a[1..]);
      assert y[..8] == BitsOf(b[0]) && y[8..] == Message(b[1..]);
      BitsInjective(a[0], b[0]);
      MessageInjective(a[1..], b[1..]);
    }
  }

  /** Every burst is caught: a frame that differs from an intact one, and only within 16
      consecutive bits, fails the check, however long the frame is. */
  lemma BurstIsDetected(w: Bytes, v: Bytes, i: nat)
    requires Intact(w) && |v| == |w| && v != w
    requires forall k :: 0 <= k < 8 * |w| && !(i <= k < i + 16) ==> Message(v)[k] == Message(w)[k]
    ensures !Intact(v)
  {
    AcceptsIffPatternVanishes(w, v);
    BurstIsVisible(Message(w), Message(v), i);
    if Message(w) == Message(v) {
      MessageInjective(w, v);
    }
  }

  lemma BurstIsVisible(x: Bits, y: Bits, i: nat)
    requires |x| == |y|
    requires forall k :: 0 <= k < |x| && !(i <= k < i + 16) ==> y[k] == x[k]
    ensures Drive(Zeros(16), Xor(x, y)) == Zeros(16) <==> x == y
  {
    var lo := if i <= |x| then i else |x|;
    var hi := if i + 16 <= |x| then i + 16 else |x|;
    assert y[..lo] == x[..lo] && y[hi..] == x[hi..];
    assert x == x[..lo] + (x[lo..hi] + x[hi..]);
    assert y == x[..lo] + (y[lo..hi] + x[hi..]);
    WindowIsVisible(x[..lo], x[lo..hi], y[lo..hi], x[hi..]);
  }

  lemma WindowIsVisible(before: Bits, p: Bits, q: Bits, after: Bits)
    requires |p| == |q| <= 16
    ensures Drive(Zeros(16), Xor(before + (p + after), before + (q + after))) == Zeros(16) <==> p == q
  {
    assert Xor(before + (p + after), before + (q + after)) == Zeros(|before|) + (Xor(p, q) + Zeros(|after|));
    DriveAround(|before|, Xor(p, q), |after|);
    XorZero(p, q);
  }

  /** Zero bits around at most 16 others neither create nor hide them. */
  lemma DriveAround(before: nat, core: Bits, after: nat)
    requires |core| <= 16
    ensures Drive(Zeros(16), Zeros(before) + (core + Zeros(after))) == Zeros(16) <==> core == Zeros(|core|)
  {
    DriveAppend(Zeros(16), Zeros(before), core + Zeros(after));
    DriveZeros(Zeros(16), before);
    DriveAppend(Zeros(16), core, Zeros(after));
    DriveZeros(Drive(Zeros(16), core), after);
    DriveCore(core);
  }

  lemma DriveCore(core: Bits)
    requires |core| <= 16
    ensures Drive(Zeros(16), core) == Zeros(16) <==> core == Zeros(|core|)
  {
    DriveShort(Zeros(16), core);
    var laid := core + Zeros(16 - |core|);
    assert Xor(Zeros(16), laid) == laid;
    ShiftNZero(laid, |core|);
    PaddedZero(core);
  }

  lemma PaddedZero(core: Bits)
    requires |core| <= 16
    ensures core + Zeros(16 - |core|) == Zeros(16) <==> core == Zeros(|core|)
  {
    var laid := core + Zeros(16 - |core|);
    assert laid[..|core|] == core;
    assert Zeros(16)[..|core|] == Zeros(|core|);
    if core == Zeros(|core|) {
      assert laid == Zeros(16);
    }
  }

  // ---- parity --------------------------------------------------------------

  function Odd(s: Bits): bool
    decreases |s|
  {
    s != [] && (s[0] != Odd(s[1..]))
  }

  lemma {:induction false} OddAppend(s: Bits, t: Bits)
    ensures Odd(s + t) == (Odd(s) != Odd(t))
    decreases |s|
  {
    if s == [] {
      assert s + t == t;
    } else {
      assert (s + t)[1..] == s[1..] + t;
      OddAppend(s[1..], t);
    }
  }

  lemma {:induction false} OddXor(s: Bits, t: Bits)
    requires |s| == |t|
    ensures Odd(Xor(s, t)) == (Odd(s) != Odd(t))
    decreases |s|
  {
    if s != [] {
      assert Xor(s, t)[1..] == Xor(s[1..], t[1..]);
      OddXor(s[1..], t[1..]);
    }
  }

  lemma {:induction false} OddZeros(n: nat)
    ensures !Odd(Zeros(n))
  {
    if n > 0 {
      assert Zeros(n)[1..] == Zeros(n - 1);
      OddZeros(n - 1);
    }
  }

  lemma OddStep(c: Reg, bit: bool)
    ensures Odd(Step(c, bit)) == (Odd(c) != bit)
  {
    var d := c[0 := c[0] != bit];
    assert c == [c[0]] + c[1..] && d == [d[0]] + c[1..];
    OddAppend([c[0]], c[1..]);
    OddAppend([d[0]], c[1..]);
    OddAppend(c[1..], [false]);
    OddXor(c[1..] + [false], Taps());
    OddTaps();
  }

  lemma OddTaps()
    ensures Odd(Taps())
  {
    var t := Taps();
    assert t == Zeros(3) + ([true] + (Zeros(6) + ([true] + (Zeros(4) + [true]))));
    OddAppend(Zeros(3), [true] + (Zeros(6) + ([true] + (Zeros(4) + [true]))));
    OddAppend([true], Zeros(6) + ([true] + (Zeros(4) + [true])));
    OddAppend(Zeros(6), [true] + (Zeros(4) + [true]));
    OddAppend([true], Zeros(4) + [true]);
    OddAppend(Zeros(4), [true]);
    OddZeros(3);
    OddZeros(6);
    OddZeros(4);
  }

  lemma {:induction false} OddDrive(c: Reg, bits: Bits)
    ensures Odd(Drive(c, bits)) == (Odd(c) != Odd(bits))
    decreases |bits|
  {
    if bits != [] {
      OddStep(c, bits[0]);
      OddDrive(Step(c, bits[0]), bits[1..]);
    }
  }

  /** Any odd number of flipped bits is caught, wherever they are. */
  lemma OddErrorIsDetected(w: Bytes, v: Bytes)
    requires Intact(w) && |v| == |w|
    requires Odd(Xor(Message(w), Message(v)))
    ensures !Intact(v)
  {
    AcceptsIffPatternVanishes(w, v);
    OddDrive(Zeros(16), Xor(Message(w), Message(v)));
    OddZeros(16);
  }

  // ---- the check value -----------------------------------------------------

  function NextWord(c: bv16): bv16 {
    if c & 0x8000 != 0 then (c << 1) ^ 0x1021 else c << 1
  }

  function NextWords(c: bv16, n: nat): bv16
    decreases n
  {
    if n == 0 then c else NextWords(NextWord(c), n - 1)
  }

  lemma {:induction false} NextWordsShift(c: bv16, n: nat)
    ensures WordBits(NextWords(c, n)) == ShiftN(WordBits(c), n)
    decreases n
  {
    hide WordBits, Shift;
    if n > 0 {
      WordShift(c);
      NextWordsShift(NextWord(c), n - 1);
    }
  }

  function AfterByte(c: bv16, b: Byte): bv16 {
    NextWords(c ^ High(b), 8)
  }

  lemma AfterByteIs(c: bv16, b: Byte)
    ensures Drive(WordBits(c), BitsOf(b)) == WordBits(AfterByte(c, b))
  {
    hide WordBits, ShiftN, Drive, NextWords;
    WordXor(c, High(b));
    WordHigh(b);
    NextWordsShift(c ^ High(b), 8);
    ByteStep(WordBits(c), b);
  }

  lemma CheckSteps()
    ensures AfterByte(0xFFFF, 0x31) == 0xC782
    ensures AfterByte(0xC782, 0x32) == 0x3DBA
    ensures AfterByte(0x3DBA, 0x33) == 0x5BCE
    ensures AfterByte(0x5BCE, 0x34) == 0x5349
    ensures AfterByte(0x5349, 0x35) == 0x4560
    ensures AfterByte(0x4560, 0x36) == 0x2EF4
    ensures AfterByte(0x2EF4, 0x37) == 0x7718
    ensures AfterByte(0x7718, 0x38) == 0xA12B
    ensures AfterByte(0xA12B, 0x39) == 0x29B1
  {}

  /** The standard check: over the digits 1 to 9 the CRC is 0x29B1. */
  lemma CheckValue()
    ensures Run(Init(), [0x31, 0x32, 0x33, 0x34, 0x35, 0x36, 0x37, 0x38, 0x39]) == WordBits(0x29B1)
  {
    hide Run, WordBits, AfterByte;
    CheckSteps();
    WordInit();
    var s: Bytes := [0x31, 0x32, 0x33, 0x34, 0x35, 0x36, 0x37, 0x38, 0x39];
    assert s[0..] == s && s[9..] == [];
    RunByte(s, 0, 0xFFFF, 0xC782);
    RunByte(s, 1, 0xC782, 0x3DBA);
    RunByte(s, 2, 0x3DBA, 0x5BCE);
    RunByte(s, 3, 0x5BCE, 0x5349);
    RunByte(s, 4, 0x5349, 0x4560);
    RunByte(s, 5, 0x4560, 0x2EF4);
    RunByte(s, 6, 0x2EF4, 0x7718);
    RunByte(s, 7, 0x7718, 0xA12B);
    RunByte(s, 8, 0xA12B, 0x29B1);
    NothingRun(WordBits(0x29B1));
  }

  /** Byte `k` takes the register from one word to the next. */
  lemma RunByte(s: Bytes, k: nat, c: bv16, next: bv16)
    requires k < |s| && AfterByte(c, s[k]) == next
    ensures Run(WordBits(c), s[k..]) == Run(WordBits(next), s[k + 1..])
  {
    hide Drive, WordBits, BitsOf, AfterByte, Run;
    RunStep(WordBits(c), s[k..]);
    AfterByteIs(c, s[k]);
    assert s[k..][1..] == s[k + 1..];
  }

  lemma NothingRun(c: Reg)
    ensures Run(c, []) == c
  {}
}
