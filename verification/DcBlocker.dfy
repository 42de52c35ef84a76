/** The per-segment audio filter of the meeting recorder: a first-order DC blocker in Q15
    fixed point, a linear fade-in, and clipping, on little-endian 16-bit samples. */
module DcBlocker {
  import opened Bytes

  newtype int32 = n: int | -0x8000_0000 <= n < 0x8000_0000

  const FADE_IN_SAMPLES: nat := 1600
  const DC_R: int := 32631

  /** Division as C does it, towards zero. */
  function TruncDiv(a: int, b: int): (q: int)
    requires b > 0
  {
    if a >= 0 then a / b else -(-a / b)
  }

  predicate IsSample(x: int) {
    -32768 <= x <= 32767
  }

  // ---- the DC blocker ------------------------------------------------------

  /** The previous input and the previous (unfaded, unclipped) output. */
  datatype Filter = Filter(xm1: int, ym1: int)

  const REST: Filter := Filter(0, 0)

  function Decay(y: int): int {
    TruncDiv(DC_R * y, 32768)
  }

  function Block(f: Filter, x: int): Filter {
    Filter(x, x - f.xm1 + Decay(f.ym1))
  }

  function BlockAll(f: Filter, xs: seq<int>): Filter
    decreases |xs|
  {
    if xs == [] then f else BlockAll(Block(f, xs[0]), xs[1..])
  }

  /** What every run keeps: the output differs from the input it answers by at most the
      range of one sample. */
  predicate Bounded(f: Filter) {
    IsSample(f.xm1) && -32767 <= f.ym1 - f.xm1 <= 32768
  }

  lemma DecayShrinks(y: int)
    ensures y > 0 ==> 0 <= Decay(y) < y
    ensures y < 0 ==> y < Decay(y) <= 0
    ensures y == 0 ==> Decay(y) == 0
  {}

  /** The working step: output minus input lands between its old value and minus the
      previous input. */
  lemma OffsetIsTrapped(f: Filter, x: int)
    ensures var e, e' := f.ym1 - f.xm1, Block(f, x).ym1 - x;
      e <= e' <= -f.xm1 || -f.xm1 <= e' <= e
  {
    DecayShrinks(f.ym1);
  }

  lemma BlockKeepsBound(f: Filter, x: int)
    requires Bounded(f) && IsSample(x)
    ensures Bounded(Block(f, x))
  {
    OffsetIsTrapped(f, x);
  }

  lemma {:induction false} AllStatesAreBounded(f: Filter, xs: seq<int>)
    requires Bounded(f) && forall k :: 0 <= k < |xs| ==> IsSample(xs[k])
    ensures Bounded(BlockAll(f, xs)) && -65535 <= BlockAll(f, xs).ym1 <= 65535
    decreases |xs|
  {
    if xs != [] {
      BlockKeepsBound(f, xs[0]);
      AllStatesAreBounded(Block(f, xs[0]), xs[1..]);
    }
  }

  lemma {:induction false} BlockAllAppend(f: Filter, a: seq<int>, b: seq<int>)
    ensures BlockAll(f, a + b) == BlockAll(BlockAll(f, a), b)
    decreases |a|
  {
    if a == [] {
      assert a + b == b;
    } else {
      assert (a + b)[1..] == a[1..] + b;
      BlockAllAppend(Block(f, a[0]), a[1..], b);
    }
  }

  // ---- a constant offset disappears ----------------------------------------

  function Same(x: int, n: nat): (xs: seq<int>)
    ensures |xs| == n && forall k :: 0 <= k < n ==> xs[k] == x
  {
    seq(n, _ => x)
  }

  function Abs(y: int): nat {
    if y < 0 then -y else y
  }

  /** While the input stands still the output shrinks with every sample, and once it is 0
      it stays 0; `n` samples are enough for an output of size `n`. */
  lemma {:induction false} OffsetDiesOut(f: Filter, n: nat)
    ensures BlockAll(f, Same(f.xm1, n)).xm1 == f.xm1
    ensures Abs(BlockAll(f, Same(f.xm1, n)).ym1) <= (if Abs(f.ym1) <= n then 0 else Abs(f.ym1) - n)
    decreases n
  {
    if n > 0 {
      DecayShrinks(f.ym1);
      assert Same(f.xm1, n)[1..] == Same(f.xm1, n - 1);
      OffsetDiesOut(Block(f, f.xm1), n - 1);
    }
  }

  /** From any state a run can reach, 65535 repetitions of the current input bring the
      output to exactly 0. */
  lemma OffsetIsRemoved(xs: seq<int>, n: nat)
    requires forall k :: 0 <= k < |xs| ==> IsSample(xs[k])
    requires n >= 65535
    ensures var f := BlockAll(REST, xs); BlockAll(f, Same(f.xm1, n)).ym1 == 0
  {
    AllStatesAreBounded(REST, xs);
    OffsetDiesOut(BlockAll(REST, xs), n);
  }

  /** Once an input has stood still long enough, a jump comes out at its full height. Jumping
      from the lowest to the highest sample shows that the bound 65535 cannot be improved. */
  lemma JumpIsFull(lo: int, hi: int, n: nat)
    requires IsSample(lo) && IsSample(hi) && n >= 65535
    ensures BlockAll(REST, [lo] + Same(lo, n) + [hi]).ym1 == hi - lo
  {
    var f := Block(REST, lo);
    BlockOne(REST, lo);
    BlockAllAppend(REST, [lo], Same(lo, n));
    OffsetDiesOut(f, n);
    var g := BlockAll(f, Same(lo, n));
    BlockAllAppend(REST, [lo] + Same(lo, n), [hi]);
    BlockOne(g, hi);
    DecayShrinks(g.ym1);
  }

  lemma BlockOne(f: Filter, x: int)
    ensures BlockAll(f, [x]) == Block(f, x)
  {
    assert [x][1..] == [];
  }

  // ---- fade-in and clipping ------------------------------------------------

  function Fade(y: int, faded: nat): int {
    if faded < FADE_IN_SAMPLES then TruncDiv(y * (faded * 32767 / FADE_IN_SAMPLES), 32767) else y
  }

  function Clip(y: int): (s: int)
    ensures IsSample(s)
  {
    if y > 32767 then 32767 else if y < -32768 then -32768 else y
  }

  /** The whole per-segment state: filter and samples faded so far. */
  datatype Track = Track(filter: Filter, faded: nat)

  const START: Track := Track(REST, 0)

  function Advance(t: Track, x: int): Track {
    Track(Block(t.filter, x), if t.faded < FADE_IN_SAMPLES then t.faded + 1 else t.faded)
  }

  function Emit(t: Track, x: int): (s: int)
    ensures IsSample(s)
  {
    Clip(Fade(Block(t.filter, x).ym1, t.faded))
  }

  predicate Tracked(t: Track) {
    Bounded(t.filter) && t.faded <= FADE_IN_SAMPLES
  }

  // ---- samples as bytes ----------------------------------------------------

  function Sample(lo: Byte, hi: Byte): (x: int)
    ensures IsSample(x)
  {
    var n := Be16(hi, lo);
    if n >= 0x8000 then n - 0x1_0000 else n
  }

  function SampleBytes(x: int): (s: Bytes)
    requires IsSample(x)
    ensures |s| == 2 && Sample(s[0], s[1]) == x
  {
    hide Be16;
    var e := Enc16(if x < 0 then x + 0x1_0000 else x);
    [e[1], e[0]]
  }

  /** A segment's bytes filtered as one sequence; an odd last byte passes unchanged. */
  function Filtered(t: Track, s: Bytes): (r: (Track, Bytes))
    ensures |r.1| == |s|
    decreases |s|
  {
    if |s| < 2 then (t, s)
    else
      var x := Sample(s[0], s[1]);
      var rest := Filtered(Advance(t, x), s[2..]);
      (rest.0, SampleBytes(Emit(t, x)) + rest.1)
  }

  lemma AdvanceKeeps(t: Track, x: int)
    requires Tracked(t) && IsSample(x)
    ensures Tracked(Advance(t, x))
  {
    BlockKeepsBound(t.filter, x);
  }

  lemma {:induction false} FilteredKeeps(t: Track, s: Bytes)
    requires Tracked(t)
    ensures Tracked(Filtered(t, s).0)
    decreases |s|
  {
    hide Sample, Emit, Advance, Tracked;
    if |s| >= 2 {
      AdvanceKeeps(t, Sample(s[0], s[1]));
      FilteredKeeps(Advance(t, Sample(s[0], s[1])), s[2..]);
    }
  }

  /** Cutting the byte stream at an even position is invisible. */
  lemma {:induction false} FilteredAppend(t: Track, a: Bytes, b: Bytes)
    requires |a| % 2 == 0
    ensures Filtered(t, a + b)
         == (Filtered(Filtered(t, a).0, b).0, Filtered(t, a).1 + Filtered(Filtered(t, a).0, b).1)
    decreases |a|
  {
    hide Sample, Emit, Advance, SampleBytes;
    if a == [] {
      assert a + b == b;
      assert [] + Filtered(t, b).1 == Filtered(t, b).1;
    } else {
      var x := Sample(a[0], a[1]);
      assert (a + b)[2..] == a[2..] + b;
      FilteredAppend(Advance(t, x), a[2..], b);
      var c, d := Filtered(Advance(t, x), a[2..]), Filtered(Filtered(t, a).0, b);
      assert SampleBytes(Emit(t, x)) + (c.1 + d.1) == (SampleBytes(Emit(t, x)) + c.1) + d.1;
    }
  }

  // ---- the samples that come out --------------------------------------------

  /** Division towards zero by the two divisors of the filter: the quotient of the magnitudes,
      with the sign of the dividend. */
  lemma TruncDivIs(a: int, b: int)
    requires b == 32767 || b == 32768
    ensures var q := TruncDiv(a, b);
      && (a >= 0 ==> 0 <= q * b <= a < q * b + b)
      && (a <= 0 ==> q * b - b < a <= q * b <= 0)
  {
    if b == 32767 {
      assert TruncDiv(a, 32767) == if a >= 0 then a / 32767 else -(-a / 32767);
    } else {
      assert TruncDiv(a, 32768) == if a >= 0 then a / 32768 else -(-a / 32768);
    }
  }

  /** A byte pair is a 16-bit two's complement number, low byte first. */
  lemma SampleIs(lo: Byte, hi: Byte)
    ensures var n := Val(lo) + 256 * Val(hi);
      Sample(lo, hi) == if n < 32768 then n else n - 65536
  {
    hide Val;
  }

  predicate Within(v: int, m: int) {
    -m <= v <= m
  }

  /** What a 16-bit sample can hold of a value. */
  predicate Saturates(v: int, s: int) {
    s == if v > 32767 then 32767 else if v < -32768 then -32768 else v
  }

  /** Each unfaded output follows from the input, the input before and the output before. */
  predicate UnfadedAt(f: Filter, xs: seq<int>, ys: seq<int>, k: nat)
    requires k < |ys| == |xs|
  {
    var x, y := if k == 0 then f.xm1 else xs[k - 1], if k == 0 then f.ym1 else ys[k - 1];
    ys[k] == xs[k] - x + TruncDiv(32631 * y, 32768)
  }

  /** The unfaded outputs, from a filter state on. */
  predicate Unfaded(f: Filter, xs: seq<int>, ys: seq<int>) {
    |ys| == |xs| && forall k :: 0 <= k < |ys| ==> UnfadedAt(f, xs, ys, k)
  }

  /** Sample `j` of a segment: gain `j * 32767 / 1600` over 32767 for the first 1600, then none. */
  predicate Comes(j: nat, y: int, s: int) {
    Saturates(if j < 1600 then TruncDiv(y * (j * 32767 / 1600), 32767) else y, s)
  }

  function SamplesOf(s: Bytes): (xs: seq<int>)
    ensures |xs| == |s| / 2 && forall k :: 0 <= k < |xs| ==> xs[k] == Sample(s[2 * k], s[2 * k + 1])
  {
    seq(|s| / 2, k requires 0 <= k < |s| / 2 => Sample(s[2 * k], s[2 * k + 1]))
  }

  lemma SamplesStep(s: Bytes)
    requires |s| >= 2
    ensures SamplesOf(s) == [Sample(s[0], s[1])] + SamplesOf(s[2..])
  {
    assert |s[2..]| / 2 == |s| / 2 - 1;
  }

  lemma UnfadedStep(f: Filter, x: int, xs: seq<int>, ys: seq<int>)
    requires Unfaded(Block(f, x), xs, ys)
    ensures Unfaded(f, [x] + xs, [Block(f, x).ym1] + ys)
  {
    hide TruncDiv;
    var g := Block(f, x);
    forall k: nat | k <= |ys|
      ensures UnfadedAt(f, [x] + xs, [g.ym1] + ys, k)
    {
      if k > 0 {
        assert UnfadedAt(g, xs, ys, k - 1);
        assert ([g.ym1] + ys)[k] == ys[k - 1] && ([x] + xs)[k] == xs[k - 1];
        assert k > 1 ==> ([g.ym1] + ys)[k - 1] == ys[k - 2] && ([x] + xs)[k - 1] == xs[k - 2];
      }
    }
  }

  /** Every sample comes as it should. */
  predicate AllCome(j: nat, ys: seq<int>, out: seq<int>) {
    |out| == |ys| && forall k :: 0 <= k < |ys| ==> Comes(j + k, ys[k], out[k])
  }

  lemma OneMoreComes(j: nat, y: int, o: int, ys: seq<int>, out: seq<int>)
    requires Comes(j, y, o) && AllCome(j + 1, ys, out)
    ensures AllCome(j, [y] + ys, [o] + out)
  {
    hide Comes;
    forall k | 0 <= k < |ys| + 1
      ensures Comes(j + k, ([y] + ys)[k], ([o] + out)[k])
    {
      if k > 0 { assert Comes(j + 1 + (k - 1), ys[k - 1], out[k - 1]); }
    }
  }

  lemma FilteredSample(t: Track, s: Bytes)
    requires |s| >= 2
    ensures var x := Sample(s[0], s[1]);
      SamplesOf(Filtered(t, s).1) == [Emit(t, x)] + SamplesOf(Filtered(Advance(t, x), s[2..]).1)
  {
    hide Sample, Emit, Advance, Filtered, SampleBytes, SamplesOf;
    var x := Sample(s[0], s[1]);
    FilteredStep(t, s);
    var e, more := SampleBytes(Emit(t, x)), Filtered(Advance(t, x), s[2..]).1;
    assert (e + more)[2..] == more && (e + more)[0] == e[0] && (e + more)[1] == e[1];
    SamplesStep(e + more);
  }

  lemma {:induction false} SamplesFrom(t: Track, s: Bytes, j: nat) returns (ys: seq<int>)
    requires t.faded == if j < 1600 then j else 1600
    ensures Unfaded(t.filter, SamplesOf(s), ys)
    ensures AllCome(j, ys, SamplesOf(Filtered(t, s).1))
    decreases |s|
  {
    hide Sample, SampleBytes, Unfaded, Block, AllCome, Comes, Filtered, SamplesOf, Emit;
    if |s| < 2 {
      ys := [];
      NoSamples(t, s, j);
    } else {
      var x := Sample(s[0], s[1]);
      var rest := SamplesFrom(Advance(t, x), s[2..], j + 1);
      ys := [Block(t.filter, x).ym1] + rest;
      SamplesStep(s);
      UnfadedStep(t.filter, x, SamplesOf(s[2..]), rest);
      FilteredSample(t, s);
      EmitComes(t, x, j);
      OneMoreComes(j, ys[0], Emit(t, x), rest, SamplesOf(Filtered(Advance(t, x), s[2..]).1));
    }
  }

  lemma NoSamples(t: Track, s: Bytes, j: nat)
    requires |s| < 2
    ensures Unfaded(t.filter, SamplesOf(s), []) && AllCome(j, [], SamplesOf(Filtered(t, s).1))
  {}

  lemma EmitComes(t: Track, x: int, j: nat)
    requires t.faded == if j < 1600 then j else 1600
    ensures Comes(j, Block(t.filter, x).ym1, Emit(t, x))
  {
    hide Block, TruncDiv;
  }

  /** A segment as it is joined: the high-pass filter `y[k] = x[k] - x[k-1] + 0.995 y[k-1]` in Q15,
      faded in over its first 1600 samples and limited to 16 bits. An odd last byte stays. */
  lemma SegmentSamples(s: Bytes) returns (ys: seq<int>)
    ensures Unfaded(Filter(0, 0), SamplesOf(s), ys)
    ensures AllCome(0, ys, SamplesOf(Filtered(START, s).1))
    ensures |s| % 2 == 1 ==> Filtered(START, s).1[|s| - 1] == s[|s| - 1]
  {
    hide Filtered, SamplesOf, Unfaded, AllCome;
    ys := SamplesFrom(START, s, 0);
    OddByteStays(START, s);
  }

  /** So the first sample is silent, and no sample is louder than the unfaded one. */
  lemma FadedIn(ys: seq<int>, out: seq<int>)
    requires AllCome(0, ys, out)
    ensures ys != [] ==> out[0] == 0
    ensures forall k :: 0 <= k < |ys| ==> Within(out[k], Abs(ys[k]))
  {
    forall k | 0 <= k < |ys|
      ensures Within(out[k], Abs(ys[k])) && (k == 0 ==> out[k] == 0)
    {
      assert Comes(0 + k, ys[k], out[k]);
      FadeShrinks(ys[k], k);
    }
  }

  lemma FadeShrinks(y: int, k: nat)
    ensures k < 1600 ==> Within(TruncDiv(y * (k * 32767 / 1600), 32767), Abs(y))
  {
    if k < 1600 {
      var g := k * 32767 / 1600;
      ProductBound(y, Abs(y), g, 32767);
      TruncDivIs(y * g, 32767);
      SmallQuotient(TruncDiv(y * g, 32767), Abs(y));
    }
  }

  lemma SmallQuotient(q: int, m: int)
    ensures -(m * 32767) <= q * 32767 <= m * 32767 ==> Within(q, m)
  {}

  lemma {:induction false} OddByteStays(t: Track, s: Bytes)
    ensures |s| % 2 == 1 ==> Filtered(t, s).1[|s| - 1] == s[|s| - 1]
    decreases |s|
  {
    hide Sample, SampleBytes, Emit, Advance;
    if |s| >= 2 {
      OddByteStays(Advance(t, Sample(s[0], s[1])), s[2..]);
    }
  }

  // ---- the loop over one block, in place and in int32 ----------------------

  function Div32(a: int32, b: int32): (q: int32)
    requires b in {32767, 32768} && a > -0x8000_0000
    ensures q as int == TruncDiv(a as int, b as int)
  {
    if a >= 0 then a / b else -(-a / b)
  }

  /** One sample in the source's own int32 arithmetic; that this is well typed says that no
      intermediate result overflows. */
  method FilterSample(xm1: int32, ym1: int32, faded: nat, x: int32) returns (y0: int32, out: int32, faded': nat)
    requires Tracked(Track(Filter(xm1 as int, ym1 as int), faded)) && IsSample(x as int)
    ensures Track(Filter(x as int, y0 as int), faded')
         == Advance(Track(Filter(xm1 as int, ym1 as int), faded), x as int)
    ensures out as int == Emit(Track(Filter(xm1 as int, ym1 as int), faded), x as int)
  {
    var f := Filter(xm1 as int, ym1 as int);
    BlockKeepsBound(f, x as int);
    ProductsFit(f, faded);
    assert -65535 <= Block(f, x as int).ym1 <= 65535;
    var product: int32 := 32631 * ym1;
    var y: int32 := x - xm1 + Div32(product, 32768);
    y0 := y;
    faded' := faded;
    if faded < FADE_IN_SAMPLES {
      var gain: int32 := (faded as int32) * 32767 / 1600;
      FadeFits(y as int, faded);
      y := Div32(y * gain, 32767);
      faded' := faded + 1;
    }
    if y > 32767 { y := 32767; }
    if y < -32768 { y := -32768; }
    out := y;
  }

  lemma ProductsFit(f: Filter, faded: nat)
    requires Bounded(f)
    ensures -0x8000_0000 < DC_R * f.ym1 < 0x8000_0000
    ensures -65535 <= Decay(f.ym1) <= 65535
  {
    DecayShrinks(f.ym1);
  }

  lemma ProductBound(a: int, m: int, b: int, n: int)
    requires -m <= a <= m && 0 <= b <= n
    ensures -(m * n) <= a * b <= m * n
  {
    assert a * b <= m * b <= m * n;
    assert -a * b <= m * b;
  }

  lemma FadeFits(y: int, faded: nat)
    requires -65535 <= y <= 65535 && faded < FADE_IN_SAMPLES
    ensures 0 <= faded * 32767 < 0x8000_0000
    ensures var gain := faded * 32767 / FADE_IN_SAMPLES;
      0 <= gain <= 32767 && -0x8000_0000 < y * gain < 0x8000_0000
  {
    var gain := faded * 32767 / FADE_IN_SAMPLES;
    assert faded * 32767 < FADE_IN_SAMPLES * 32767;
    ProductBound(y, 65535, gain, 32767);
  }

  /** Filters sample `j` of the buffer in place. */
  method FilterAt(buf: array<Byte>, j: nat, xm1: int32, ym1: int32, faded: nat)
    returns (xm1': int32, ym1': int32, faded': nat)
    requires 2 * j + 1 < buf.Length
    requires Tracked(Track(Filter(xm1 as int, ym1 as int), faded))
    modifies buf
    ensures var t, x := Track(Filter(xm1 as int, ym1 as int), faded), old(Sample(buf[2 * j], buf[2 * j + 1]));
      && Track(Filter(xm1' as int, ym1' as int), faded') == Advance(t, x)
      && buf[..2 * j + 2] == old(buf[..2 * j]) + SampleBytes(Emit(t, x))
    ensures forall k :: 2 * j + 2 <= k < buf.Length ==> buf[k] == old(buf[k])
    ensures Tracked(Track(Filter(xm1' as int, ym1' as int), faded'))
  {
    hide Sample, Emit, Advance, SampleBytes, Tracked;
    var x := Sample(buf[2 * j], buf[2 * j + 1]);
    AdvanceKeeps(Track(Filter(xm1 as int, ym1 as int), faded), x);
    var out;
    ym1', out, faded' := FilterSample(xm1, ym1, faded, x as int32);
    xm1' := x as int32;
    var e := SampleBytes(out as int);
    buf[2 * j], buf[2 * j + 1] := e[0], e[1];
    assert buf[..2 * j + 2] == buf[..2 * j] + e;
  }

  /** Filters the first `r` bytes of the read buffer in place, as 16-bit samples. */
  method FilterBlock(buf: array<Byte>, r: nat, xm1: int32, ym1: int32, faded: nat)
    returns (xm1': int32, ym1': int32, faded': nat)
    requires r <= buf.Length
    requires Tracked(Track(Filter(xm1 as int, ym1 as int), faded))
    modifies buf
    ensures var t := Track(Filter(xm1 as int, ym1 as int), faded);
      (Track(Filter(xm1' as int, ym1' as int), faded'), buf[..r]) == Filtered(t, old(buf[..r]))
    ensures Tracked(Track(Filter(xm1' as int, ym1' as int), faded'))
    ensures buf[r..] == old(buf[r..])
  {
    hide Sample, Emit, Advance, SampleBytes, Tracked, Filtered;
    xm1', ym1', faded' := xm1, ym1, faded;
    ghost var s, t := buf[..r], Track(Filter(xm1 as int, ym1 as int), faded);
    assert s[0..] == s && [] + Filtered(t, s).1 == Filtered(t, s).1 && buf[..0] == [];
    var nsamp, j := r / 2, 0;
    while j < nsamp
      invariant 0 <= j <= nsamp
      invariant Tracked(Track(Filter(xm1' as int, ym1' as int), faded'))
      invariant forall k :: 2 * j <= k < buf.Length ==> buf[k] == old(buf[k])
      invariant var rest := Filtered(Track(Filter(xm1' as int, ym1' as int), faded'), s[2 * j..]);
        Filtered(t, s) == (rest.0, buf[..2 * j] + rest.1)
    {
      assert s[2 * j] == buf[2 * j] && s[2 * j + 1] == buf[2 * j + 1];
      FilteredAt(t, Track(Filter(xm1' as int, ym1' as int), faded'), s, j, buf[..2 * j]);
      xm1', ym1', faded' := FilterAt(buf, j, xm1', ym1', faded');
      j := j + 1;
    }
    FilteredRest(Track(Filter(xm1' as int, ym1' as int), faded'), s[2 * j..]);
    assert buf[..r] == buf[..2 * j] + s[2 * j..];
  }

  /** Moving the loop's position in the filtered bytes by one sample. */
  lemma FilteredAt(t: Track, now: Track, s: Bytes, j: nat, done: Bytes)
    requires 2 * j + 1 < |s|
    requires Filtered(t, s) == (Filtered(now, s[2 * j..]).0, done + Filtered(now, s[2 * j..]).1)
    ensures var x := Sample(s[2 * j], s[2 * j + 1]);
      var rest := Filtered(Advance(now, x), s[2 * (j + 1)..]);
      Filtered(t, s) == (rest.0, (done + SampleBytes(Emit(now, x))) + rest.1)
  {
    hide Sample, Emit, Advance, SampleBytes, Filtered;
    var x := Sample(s[2 * j], s[2 * j + 1]);
    FilteredStep(now, s[2 * j..]);
    assert s[2 * j..][2..] == s[2 * (j + 1)..];
    var rest := Filtered(Advance(now, x), s[2 * (j + 1)..]);
    assert done + (SampleBytes(Emit(now, x)) + rest.1) == (done + SampleBytes(Emit(now, x))) + rest.1;
  }

  lemma FilteredStep(t: Track, s: Bytes)
    requires |s| >= 2
    ensures var x := Sample(s[0], s[1]);
      Filtered(t, s) == (Filtered(Advance(t, x), s[2..]).0,
                         SampleBytes(Emit(t, x)) + Filtered(Advance(t, x), s[2..]).1)
  {}

  lemma FilteredRest(t: Track, s: Bytes)
    requires |s| < 2
    ensures Filtered(t, s) == (t, s)
  {}
}
