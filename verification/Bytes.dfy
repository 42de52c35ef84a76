/** Bytes and the integer fields that both boards and the WAV files are made of. */
module Bytes {

  datatype Option<+T> = None | Some(value: T)

  type Byte = bv8
  type Bytes = seq<Byte>

  function Val(b: Byte): (n: nat)
    ensures n < 256
  {
    b as int
  }

  /** The byte of value `n`, counted up from zero. */
  function ToByte(n: nat): (b: Byte)
    requires n < 256
    ensures Val(b) == n
  {
    if n == 0 then 0 else ToByte(n - 1) + 1
  }

  // ---- big-endian fields -------------------------------------------------

  function Be16(h: Byte, l: Byte): (n: nat)
    ensures n < 0x1_0000
  {
    Val(h) * 256 + Val(l)
  }

  function Enc16(n: nat): (s: Bytes)
    requires n < 0x1_0000
    ensures |s| == 2 && Be16(s[0], s[1]) == n
  {
    var h, l := ToByte(n / 256), ToByte(n % 256);
    assert Val(h) == n / 256;
    assert Val(l) == n % 256;
    [h, l]
  }

  function Be32(s: Bytes): (n: nat)
    requires |s| == 4
    ensures n < 0x1_0000_0000
  {
    Be16(s[0], s[1]) * 0x1_0000 + Be16(s[2], s[3])
  }

  function Enc32(n: nat): (s: Bytes)
    requires n < 0x1_0000_0000
    ensures |s| == 4 && Be32(s) == n
  {
    Enc16(n / 0x1_0000) + Enc16(n % 0x1_0000)
  }

  // ---- little-endian fields ----------------------------------------------

  function Le32(s: Bytes): (n: nat)
    requires |s| == 4
    ensures n < 0x1_0000_0000
  {
    Be32([s[3], s[2], s[1], s[0]])
  }

  function EncLe32(n: nat): (s: Bytes)
    requires n < 0x1_0000_0000
    ensures |s| == 4 && Le32(s) == n
  {
    var e := Enc32(n);
    var s := [e[3], e[2], e[1], e[0]];
    assert [s[3], s[2], s[1], s[0]] == e;
    s
  }

  // ---- machine integers ----------------------------------------------------
  // The board's `size_t` and `uint32_t` are 32 bits wide, its `long` and `off_t` 32 bits and
  // signed.

  const SIZE_T: nat := 0x1_0000_0000

  /** What a 32-bit signed variable keeps, two's complement. */
  function Signed32(n: int): (r: int)
    ensures -0x8000_0000 <= r < 0x8000_0000
    ensures -0x8000_0000 <= n < 0x8000_0000 ==> r == n
    ensures n % 2 == 0 ==> r % 2 == 0
  {
    (n + 0x8000_0000) % SIZE_T - 0x8000_0000
  }

  /** What a 32-bit unsigned variable keeps. */
  function U32(n: nat): (r: nat)
    ensures r < 0x1_0000_0000
  {
    n % 0x1_0000_0000
  }

  /** Both keep the number up to a multiple of 2^32. */
  lemma WrapsBy(n: int)
    ensures Signed32(n) == n - 0x1_0000_0000 * ((n + 0x8000_0000) / 0x1_0000_0000)
    ensures n >= 0 ==> U32(n) == n - 0x1_0000_0000 * (n / 0x1_0000_0000)
  {}

  // ---- files ---------------------------------------------------------------

  /** What a write at an offset leaves: a gap past the old end reads as `hole`. */
  function Overwritten<T>(file: seq<T>, offset: nat, data: seq<T>, hole: T): (r: seq<T>)
    ensures data == [] ==> r == file
    ensures data != [] ==> |r| == (if offset + |data| > |file| then offset + |data| else |file|)
    ensures forall k :: offset <= k < offset + |data| ==> r[k] == data[k - offset]
    ensures forall k :: 0 <= k < |file| && !(offset <= k < offset + |data|) ==> r[k] == file[k]
    ensures data != [] ==> forall k :: |file| <= k < offset ==> r[k] == hole
  {
    if data == [] then file
    else
      var padded := if |file| < offset then file + seq(offset - |file|, _ => hole) else file;
      padded[..offset] + data + (if |padded| > offset + |data| then padded[offset + |data|..] else [])
  }

  // ---- sequences of sequences --------------------------------------------

  function Flatten<T>(parts: seq<seq<T>>): seq<T> {
    if parts == [] then [] else parts[0] + Flatten(parts[1..])
  }

  lemma {:induction false} FlattenAppend<T>(a: seq<seq<T>>, b: seq<seq<T>>)
    ensures Flatten(a + b) == Flatten(a) + Flatten(b)
    decreases |a|
  {
    if a == [] {
      assert a + b == b;
    } else {
      assert (a + b)[1..] == a[1..] + b;
      FlattenAppend(a[1..], b);
      assert a[0] + (Flatten(a[1..]) + Flatten(b)) == (a[0] + Flatten(a[1..])) + Flatten(b);
    }
  }

  lemma SliceOfTail<T>(s: seq<T>, i: nat, a: nat, b: nat)
    requires a <= b && i + b <= |s|
    ensures s[i..][a..b] == s[i + a..i + b]
  {}

  lemma Associate<T>(a: seq<T>, b: seq<T>, c: seq<T>)
    ensures a + (b + c) == (a + b) + c
  {}
}
