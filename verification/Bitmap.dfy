/** The received-frames bitmap: bit `i & 7` of byte `i >> 3` stands for frame `i`. */
module Bitmap {
  import opened Bytes

  function Twice(b: Byte): Byte {
    b << 1
  }

  function Flag(k: nat): Byte {
    if k == 0 then 1 else Twice(Flag(k - 1))
  }

  predicate Hits(b: Byte, m: Byte) {
    b & m != 0
  }

  function Or(b: Byte, m: Byte): Byte {
    b | m
  }

  predicate BitSet(bits: Bytes, i: nat)
    requires i < 8 * |bits|
  {
    Hits(bits[i / 8], Flag(i % 8))
  }

  function Set(bits: Bytes, i: nat): (r: Bytes)
    requires i < 8 * |bits|
    ensures |r| == |bits|
  {
    bits[i / 8 := Or(bits[i / 8], Flag(i % 8))]
  }

  lemma FlagTable()
    ensures Flag(0) == 1 && Flag(1) == 2 && Flag(2) == 4 && Flag(3) == 8
    ensures Flag(4) == 16 && Flag(5) == 32 && Flag(6) == 64 && Flag(7) == 128
  {}

  lemma TwiceMeet(a: Byte, b: Byte)
    requires !Hits(a, b)
    ensures !Hits(Twice(a), Twice(b))
  {}

  lemma TwiceIsEven(b: Byte)
    ensures !Hits(Twice(b), 1) && !Hits(1, Twice(b))
  {}

  lemma {:induction false} FlagsAreApart(j: nat, k: nat)
    requires j != k
    ensures !Hits(Flag(j), Flag(k))
    decreases j
  {
    if j == 0 {
      TwiceIsEven(Flag(k - 1));
    } else if k == 0 {
      TwiceIsEven(Flag(j - 1));
    } else {
      FlagsAreApart(j - 1, k - 1);
      TwiceMeet(Flag(j - 1), Flag(k - 1));
    }
  }

  lemma FlagHitsItself(k: nat)
    requires k < 8
    ensures Hits(Flag(k), Flag(k))
  {
    FlagTable();
  }

  lemma OrHits(b: Byte, m: Byte, x: Byte)
    ensures Hits(Or(b, m), x) <==> Hits(b, x) || Hits(m, x)
  {}

  /** Setting one bit sets that bit and no other. */
  lemma SetSetsOne(bits: Bytes, i: nat, j: nat)
    requires i < 8 * |bits| && j < 8 * |bits|
    ensures BitSet(Set(bits, i), j) <==> j == i || BitSet(bits, j)
  {
    hide Hits, Or, Flag;
    if i / 8 == j / 8 {
      OrHits(bits[i / 8], Flag(i % 8), Flag(j % 8));
      if i == j {
        FlagHitsItself(i % 8);
      } else {
        FlagsAreApart(i % 8, j % 8);
      }
    }
  }

  function Empty(n: nat): (bits: Bytes)
    ensures |bits| == n
  {
    seq(n, _ => 0)
  }

  lemma EmptyHasNone(n: nat, i: nat)
    requires i < 8 * n
    ensures !BitSet(Empty(n), i)
  {
    assert Empty(n)[i / 8] == 0;
    ZeroHitsNothing(Flag(i % 8));
  }

  lemma ZeroHitsNothing(m: Byte)
    ensures !Hits(0, m)
  {}

  predicate AllSet(bits: Bytes, n: nat)
    requires n <= 8 * |bits|
  {
    forall i :: 0 <= i < n ==> BitSet(bits, i)
  }
}
