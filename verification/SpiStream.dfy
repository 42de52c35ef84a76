/** The SPI side: fixed-size frames with a magic number, written by the Python sender and
    picked out of a 12-frame stream buffer by the microcontroller. */
module SpiStream {
  import opened Bytes
  import opened Incremental
  import opened Crc
  import opened UartFrames

  const HDR_SIZE: nat := 19
  const MAX_PAYLOAD: nat := 256
  const FRAME_SIZE: nat := HDR_SIZE + MAX_PAYLOAD + 2
  const BUFFER_SIZE: nat := FRAME_SIZE * 12

  datatype SpiFrame = SpiFrame(kind: Byte, session: nat, total: nat, offset: nat, payload: Bytes)

  predicate Packable(f: SpiFrame) {
    && f.session < 0x1_0000_0000 && f.total < 0x1_0000_0000 && f.offset < 0x1_0000_0000
    && |f.payload| <= MAX_PAYLOAD
  }

  function Magic(): Bytes {
    [0x49, 0x4D, 0x47, 0x31]
  }

  function Header(f: SpiFrame): (h: Bytes)
    requires Packable(f)
    ensures |h| == HDR_SIZE
  {
    Magic() + [f.kind] + Enc32(f.session) + Enc32(f.total) + Enc32(f.offset) + Enc16(|f.payload|)
  }

  function Pack(f: SpiFrame): (w: Bytes)
    requires Packable(f)
    ensures |w| == HDR_SIZE + |f.payload| + 2
  {
    Sealed(Header(f) + f.payload)
  }

  /** What the receive thread does at the front of its stream buffer. */
  function SpiStep(s: Bytes): Move<SpiFrame> {
    if |s| < HDR_SIZE then Wait
    else if s[..4] != Magic() then Take(1, [])
    else
      var len := Be16(s[17], s[18]);
      if |s| < HDR_SIZE + len + 2 then Wait
      else if Intact(s[..HDR_SIZE + len + 2]) then
        Take(HDR_SIZE + len + 2,
             [SpiFrame(s[4], Be32(s[5..9]), Be32(s[9..13]), Be32(s[13..17]), s[HDR_SIZE..HDR_SIZE + len])])
      else Take(1, [])
  }

  class SpiReceiver {
    const streamBuf: array<Byte>
    var streamLen: nat

    ghost predicate Valid()
      reads this
    {
      streamBuf.Length == BUFFER_SIZE && streamLen <= BUFFER_SIZE
    }

    ghost function Unparsed(): Bytes
      requires Valid()
      reads this, streamBuf
    {
      streamBuf[..streamLen]
    }

    constructor ()
      ensures Valid() && Unparsed() == [] && fresh(streamBuf) && streamBuf.Length == 3324
    {
      streamBuf := new Byte[BUFFER_SIZE];
      streamLen := 0;
    }

    /** One pass of the thread's loop: `input` is what `read` put behind the unparsed bytes. */
    method Pass(input: Bytes) returns (handled: seq<SpiFrame>)
      requires Valid()
      requires |input| <= BUFFER_SIZE - streamLen
      modifies this, streamBuf
      ensures Valid()
      ensures (handled, Unparsed()) == Parse(SpiStep, old(Unparsed()) + input)
    {
      hide Intact, Be16, Be32, SpiStep, Reached, Parse;
      forall k | 0 <= k < |input| {
        streamBuf[streamLen + k] := input[k];
      }
      streamLen := streamLen + |input|;
      ghost var s := streamBuf[..streamLen];
      assert s == old(Unparsed()) + input;
      var pos: nat;
      handled, pos := ParseStream();
      assert streamBuf[pos..streamLen] == s[pos..];
      if pos > 0 && streamLen > 0 {
        var remaining := streamLen - pos;
        if remaining > 0 {
          forall k | 0 <= k < remaining {
            streamBuf[k] := streamBuf[pos + k];
          }
          streamLen := remaining;
        } else {
          streamLen := 0;
        }
      }
      assert Unparsed() == s[pos..];
    }

    method ParseStream() returns (handled: seq<SpiFrame>, pos: nat)
      requires Valid()
      ensures pos <= streamLen
      ensures (handled, Unparsed()[pos..]) == Parse(SpiStep, Unparsed())
    {
      hide Intact, Be16, Be32, SpiStep, Reached, Parse;
      var s := streamBuf[..streamLen];  // the loop only reads the buffer
      handled, pos := [], 0;
      ReachedStart(SpiStep, s);
      while streamLen - pos >= HDR_SIZE
        invariant 0 <= pos <= streamLen
        invariant Reached(SpiStep, s, pos, handled)
        decreases streamLen - pos
      {
        SpiStepAt(s, pos);
        if s[pos..pos + 4] != Magic() {
          ReachedSkip(SpiStep, s, pos, handled, 1);
          pos := pos + 1;
          continue;
        }
        var kind := s[pos + 4];
        var session := Be32(s[pos + 5..pos + 9]);
        var total := Be32(s[pos + 9..pos + 13]);
        var offset := Be32(s[pos + 13..pos + 17]);
        var len := Be16(s[pos + 17], s[pos + 18]);
        var frameTotal := HDR_SIZE + len + 2;
        if streamLen - pos < frameTotal {
          break;
        }
        var ok := CheckCrc(s[pos..pos + frameTotal]);
        if !ok {
          ReachedSkip(SpiStep, s, pos, handled, 1);
          pos := pos + 1;
          continue;
        }
        var f := SpiFrame(kind, session, total, offset, s[pos + HDR_SIZE..pos + HDR_SIZE + len]);
        ReachedStep(SpiStep, s, pos, handled, frameTotal, [f]);
        handled := handled + [f];
        pos := pos + frameTotal;
      }
      SpiStepAt(s, pos);
      ReachedEnd(SpiStep, s, pos, handled);
    }
  }

  lemma SpiStepAt(s: Bytes, i: nat)
    requires i <= |s|
    ensures |s| - i < HDR_SIZE ==> SpiStep(s[i..]).Wait?
    ensures |s| - i >= HDR_SIZE && s[i..i + 4] != Magic() ==> SpiStep(s[i..]) == Take(1, [])
    ensures |s| - i >= HDR_SIZE && s[i..i + 4] == Magic() ==>
      var len := Be16(s[i + 17], s[i + 18]);
      if |s| - i < HDR_SIZE + len + 2 then SpiStep(s[i..]).Wait?
      else if Intact(s[i..i + HDR_SIZE + len + 2]) then
        SpiStep(s[i..]) == Take(HDR_SIZE + len + 2,
          [SpiFrame(s[i + 4], Be32(s[i + 5..i + 9]), Be32(s[i + 9..i + 13]), Be32(s[i + 13..i + 17]),
                    s[i + HDR_SIZE..i + HDR_SIZE + len])])
      else SpiStep(s[i..]) == Take(1, [])
  {
    hide Intact, Be16, Be32, Magic;
    if |s| - i >= HDR_SIZE {
      SliceOfTail(s, i, 0, 4);
      SliceOfTail(s, i, 5, 9);
      SliceOfTail(s, i, 9, 13);
      SliceOfTail(s, i, 13, 17);
      var len := Be16(s[i + 17], s[i + 18]);
      if |s| - i >= HDR_SIZE + len + 2 {
        SliceOfTail(s, i, 0, HDR_SIZE + len + 2);
        SliceOfTail(s, i, HDR_SIZE, HDR_SIZE + len);
      }
    }
  }

  // ---- the stream ----------------------------------------------------------

  lemma SpiStepIsSteady()
    ensures Steady(SpiStep)
  {
    hide Intact, Be16, Be32, Magic, SpiStep;
    forall s, t: Bytes
      ensures Settled(SpiStep, s, t)
    {
      SpiStepSettled(s, t);
    }
    forall s
      ensures SpiStep(s).Take? ==> 1 <= SpiStep(s).n <= |s|
    {
      SpiStepBounds(s);
    }
    SpiStepBounds([]);
  }

  lemma SpiStepBounds(s: Bytes)
    ensures SpiStep(s).Take? ==> 1 <= SpiStep(s).n <= |s|
    ensures |s| < HDR_SIZE ==> SpiStep(s).Wait?
  {
    hide Intact, Be16, Be32, Magic;
  }

  lemma SpiStepSettled(s: Bytes, t: Bytes)
    ensures SpiStep(s).Take? ==> SpiStep(s + t) == SpiStep(s)
  {
    hide Intact, Be16, Be32, Magic;
    if |s| >= HDR_SIZE {
      assert (s + t)[..4] == s[..4] && (s + t)[5..9] == s[5..9];
      assert (s + t)[9..13] == s[9..13] && (s + t)[13..17] == s[13..17];
      var len := Be16(s[17], s[18]);
      if |s| >= HDR_SIZE + len + 2 {
        assert (s + t)[..HDR_SIZE + len + 2] == s[..HDR_SIZE + len + 2];
        assert (s + t)[HDR_SIZE..HDR_SIZE + len] == s[HDR_SIZE..HDR_SIZE + len];
      }
    }
  }

  /** "IMG1" at a position. */
  predicate MagicAt(s: Bytes, i: nat) {
    i + 4 <= |s| && s[i] == 0x49 && s[i + 1] == 0x4D && s[i + 2] == 0x47 && s[i + 3] == 0x31
  }

  lemma MagicIs(s: Bytes)
    requires |s| >= 4
    ensures s[..4] == Magic() <==> MagicAt(s, 0)
  {
    assert s[..4] == [s[0], s[1], s[2], s[3]];
  }

  lemma PackedLayout(f: SpiFrame)
    requires Packable(f)
    ensures var w := Pack(f);
      && w[..4] == Magic() && MagicAt(w, 0) && w[4] == f.kind
      && Be32(w[5..9]) == f.session && Be32(w[9..13]) == f.total && Be32(w[13..17]) == f.offset
      && Be16(w[17], w[18]) == |f.payload|
      && w[HDR_SIZE..HDR_SIZE + |f.payload|] == f.payload
      && Intact(w)
  {
    hide Sealed, Intact, Be16, Be32, Enc16, Enc32;
    var h := Header(f);
    var a, b, c, l := Enc32(f.session), Enc32(f.total), Enc32(f.offset), Enc16(|f.payload|);
    assert h[..4] == Magic() && h[4] == f.kind;
    assert h[5..9] == a && h[9..13] == b && h[13..17] == c;
    assert h[17] == l[0] && h[18] == l[1];
    var body := h + f.payload;
    var w := Pack(f);
    assert w[..|body|] == body;
    assert w[..4] == body[..4] == h[..4];
    assert w[5..9] == body[5..9] == h[5..9];
    assert w[9..13] == body[9..13] == h[9..13];
    assert w[13..17] == body[13..17] == h[13..17];
    assert w[4] == body[4] && w[17] == body[17] && w[18] == body[18];
    assert w[HDR_SIZE..HDR_SIZE + |f.payload|] == body[HDR_SIZE..];
  }

  lemma PackedIsFrame(f: SpiFrame)
    requires Packable(f)
    ensures OneFrame(SpiStep, Pack(f), f)
  {
    hide Sealed, Intact, Be16, Be32, Pack, Magic;
    PackedLayout(f);
    var w := Pack(f);
    assert w[..|w|] == w;
    forall n | 0 <= n < |w|
      ensures SpiStep(w[..n]).Wait?
    {
      if n >= HDR_SIZE {
        assert w[..n][..4] == w[..4];
        assert w[..n][17] == w[17] && w[..n][18] == w[18];
      }
    }
  }

  function PackAll(frames: seq<SpiFrame>): (parts: seq<Bytes>)
    requires forall i :: 0 <= i < |frames| ==> Packable(frames[i])
    ensures |parts| == |frames|
    ensures forall i :: 0 <= i < |frames| ==> Packable(frames[i]) && parts[i] == Pack(frames[i])
  {
    seq(|frames|, i requires 0 <= i < |frames| => assert Packable(frames[i]); Pack(frames[i]))
  }

  lemma PackedStreamIsFramed(frames: seq<SpiFrame>)
    requires forall i :: 0 <= i < |frames| ==> Packable(frames[i])
    ensures Steady(SpiStep) && Framed(SpiStep, PackAll(frames), frames)
  {
    SpiStepIsSteady();
    forall i | 0 <= i < |frames|
      ensures OneFrame(SpiStep, PackAll(frames)[i], frames[i])
    {
      PackedIsFrame(frames[i]);
    }
  }

  /** However the packed frames are cut into reads, after every pass the thread has handled
      exactly the first `k` frames, in order, and keeps less than one frame of unparsed
      bytes; once the whole stream is in, it has handled them all. */
  lemma ReadsDeliverAllFrames(frames: seq<SpiFrame>, chunks: seq<Bytes>) returns (k: nat)
    requires forall i :: 0 <= i < |frames| ==> Packable(frames[i])
    requires Flatten(chunks) <= Flatten(PackAll(frames))
    ensures k <= |frames|
    ensures Feed(SpiStep, [], chunks).0 == frames[..k]
    ensures |Feed(SpiStep, [], chunks).1| < 277
    ensures Flatten(chunks) == Flatten(PackAll(frames)) ==>
      k == |frames| && Feed(SpiStep, [], chunks).1 == []
  {
    hide Pack, SpiStep, Parse, Feed, Steady;
    PackedStreamIsFramed(frames);
    SpiStepBounds([]);
    ChunkingIsInvisible(SpiStep, [], chunks);
    var p := Flatten(chunks);
    assert [] + p == p;
    k := PrefixOfFramed(SpiStep, PackAll(frames), frames, p);
    if k < |frames| {
      assert |PackAll(frames)[k]| <= FRAME_SIZE;
    }
    if p == Flatten(PackAll(frames)) {
      WholeFramed(SpiStep, PackAll(frames), frames);
      assert |frames[..k]| == k;
    }
  }

  /** A byte that begins no intact frame is skipped, and nothing else with it. */
  lemma SkipsOne(s: Bytes)
    requires |s| >= 19
    ensures !MagicAt(s, 0) ==> Parse(SpiStep, s) == Parse(SpiStep, s[1..])
    ensures var len := 256 * Val(s[17]) + Val(s[18]);
      MagicAt(s, 0) && |s| >= 21 + len && !Intact(s[..21 + len]) ==> Parse(SpiStep, s) == Parse(SpiStep, s[1..])
  {
    hide Intact, Val, Be32, Magic, Parse;
    MagicIs(s);
    if SpiStep(s) == Take(1, []) {
      ParseSkips(SpiStep, s, 1);
    }
  }

  /** Noise in front of a frame costs nothing, as long as no magic begins in it. */
  lemma {:induction false} NoiseIsSkipped(g: Bytes, f: SpiFrame, rest: Bytes)
    requires Packable(f)
    requires forall i :: 0 <= i < |g| ==> !MagicAt(g + Pack(f) + rest, i)
    ensures Parse(SpiStep, g + Pack(f) + rest) == ([f] + Parse(SpiStep, rest).0, Parse(SpiStep, rest).1)
    decreases |g|
  {
    hide Pack, SpiStep;
    var s := g + Pack(f) + rest;
    if g == [] {
      SpiStepIsSteady();
      PackedIsFrame(f);
      assert s == Pack(f) + rest;
      FirstFrame(SpiStep, Pack(f), f, rest);
    } else {
      SkipsOne(s);
      assert s[1..] == g[1..] + Pack(f) + rest;
      forall i | 0 <= i < |g[1..]|
        ensures !MagicAt(s[1..], i)
      {
        assert !MagicAt(s, i + 1);
      }
      NoiseIsSkipped(g[1..], f, rest);
    }
  }

  lemma MagicsMove(v: Bytes, w: Bytes, rest: Bytes)
    requires v != [] && forall i :: 1 <= i < |v| ==> !MagicAt(v + w + rest, i)
    ensures v + (w + rest) == v + w + rest && v[1..] + (w + rest) == v[1..] + w + rest
    ensures forall i :: 0 <= i < |v[1..]| ==> !MagicAt(v[1..] + w + rest, i)
  {
    hide MagicAt;
    assert (v + w + rest)[1..] == v[1..] + w + rest;
    forall i | 0 <= i < |v[1..]|
      ensures !MagicAt(v[1..] + w + rest, i)
    {
      MagicMoves(v + w + rest, i);
    }
  }

  /** A damaged frame whose length is intact costs only itself, as long as no magic begins
      elsewhere in it. */
  lemma DamagedFrameIsAlone(v: Bytes, f: SpiFrame, rest: Bytes)
    requires Packable(f) && |v| >= 21 && |v| == 21 + 256 * Val(v[17]) + Val(v[18])
    requires MagicAt(v, 0) && !Intact(v)
    requires forall i :: 1 <= i < |v| ==> !MagicAt(v + Pack(f) + rest, i)
    ensures Parse(SpiStep, v + Pack(f) + rest) == ([f] + Parse(SpiStep, rest).0, Parse(SpiStep, rest).1)
  {
    hide Pack, Parse, Intact, MagicAt, Val;
    MagicsMove(v, Pack(f), rest);
    DamagedIsSkipped(v, Pack(f) + rest);
    NoiseIsSkipped(v[1..], f, rest);
  }

  lemma MagicMoves(s: Bytes, i: nat)
    requires s != []
    ensures MagicAt(s[1..], i) <==> MagicAt(s, i + 1)
  {}

  lemma DamagedIsSkipped(v: Bytes, tail: Bytes)
    requires |v| >= 21 && |v| == 21 + 256 * Val(v[17]) + Val(v[18]) && MagicAt(v, 0) && !Intact(v)
    ensures Parse(SpiStep, v + tail) == Parse(SpiStep, v[1..] + tail)
  {
    hide Intact, Val, Parse;
    var s := v + tail;
    assert s[..|v|] == v && s[1..] == v[1..] + tail;
    SkipsOne(s);
  }

  /** On an arbitrary stream the thread can run out of room in one way only: a full buffer
      stays unparsed exactly when its header claims more payload than the buffer can hold. */
  lemma FullBufferStallsIff(s: Bytes)
    requires |s| == 3324
    ensures Parse(SpiStep, s).1 == s
       <==> MagicAt(s, 0) && 256 * Val(s[17]) + Val(s[18]) > 3303
  {
    hide Intact, Val, Be32;
    SpiStepBounds(s);
    MagicIs(s);
    if SpiStep(s).Take? {
      assert |Parse(SpiStep, s).1| < |s|;
    }
  }
}
