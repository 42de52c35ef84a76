/** The UART framing used in both directions, and the Python side's buffer parser.

    AA 55, a big-endian length that counts command and sequence bytes, the command, the
    sequence number, the payload, and the CRC of everything between sync and CRC. */
module UartFrames {
  import opened Bytes
  import opened Incremental
  import opened Crc

  const MAX_FRAME_LEN: nat := 1078

  datatype Frame = Frame(cmd: Byte, sequence: Byte, payload: Bytes)

  // ---- writing -------------------------------------------------------------

  function Body(f: Frame): Bytes
    requires |f.payload| < 0x1_0000 - 2
  {
    Enc16(|f.payload| + 2) + [f.cmd, f.sequence] + f.payload
  }

  function Encode(f: Frame): (w: Bytes)
    requires |f.payload| < 0x1_0000 - 2
    ensures |w| == 8 + |f.payload|
  {
    [0xAA, 0x55] + Sealed(Body(f))
  }

  // ---- reading -------------------------------------------------------------

  /** What the buffer parser does at the front of its buffer. */
  function UartStep(s: Bytes): Move<Frame> {
    if |s| < 2 then Wait
    else if s[0] != 0xAA || s[1] != 0x55 then Take(1, [])
    else if |s| < 4 then Wait
    else
      var len := Be16(s[2], s[3]);
      if len < 2 || len > MAX_FRAME_LEN then Take(2, [])
      else if |s| < len + 6 then Wait
      else if Intact(s[2..len + 6]) then Take(len + 6, [Frame(s[4], s[5], s[6..len + 4])])
      else Take(2, [])
  }

  /** The same decision, read off a buffer at index `i`. */
  ghost function UartStepAt(buf: Bytes, i: nat): Move<Frame>
    requires i <= |buf|
  {
    if |buf| < i + 2 then Wait
    else if buf[i] != 0xAA || buf[i + 1] != 0x55 then Take(1, [])
    else if |buf| < i + 4 then Wait
    else
      var len := Be16(buf[i + 2], buf[i + 3]);
      if len < 2 || len > MAX_FRAME_LEN then Take(2, [])
      else if |buf| < i + len + 6 then Wait
      else if Intact(buf[i + 2..i + len + 6]) then
        Take(len + 6, [Frame(buf[i + 4], buf[i + 5], buf[i + 6..i + len + 4])])
      else Take(2, [])
  }

  lemma StepAt(buf: Bytes, i: nat)
    requires i <= |buf|
    ensures UartStep(buf[i..]) == UartStepAt(buf, i)
  {
    hide Intact, Be16;
    if |buf| >= i + 4 {
      var len := Be16(buf[i + 2], buf[i + 3]);
      if 2 <= len && i + len + 6 <= |buf| {
        SliceOfTail(buf, i, 2, len + 6);
        SliceOfTail(buf, i, 6, len + 4);
      }
    }
  }

  method ParseFrames(buf: Bytes) returns (frames: seq<Frame>, left: Bytes)
    ensures (frames, left) == Parse(UartStep, buf)
  {
    hide Intact, Be16, Reached, UartStep;
    frames := [];
    var i := 0;
    ReachedStart(UartStep, buf);
    while i < |buf|
      invariant 0 <= i <= |buf|
      invariant Reached(UartStep, buf, i, frames)
    {
      StepAt(buf, i);
      if i + 1 >= |buf| {
        break;
      }
      if buf[i] != 0xAA || buf[i + 1] != 0x55 {
        ReachedSkip(UartStep, buf, i, frames, 1);
        i := i + 1;
        continue;
      }
      if i + 4 > |buf| {
        break;
      }
      var frameLen := Be16(buf[i + 2], buf[i + 3]);
      if frameLen < 2 || frameLen > MAX_FRAME_LEN {
        ReachedSkip(UartStep, buf, i, frames, 2);
        i := i + 2;
        continue;
      }
      var total := 2 + 2 + frameLen + 2;
      if i + total > |buf| {
        break;
      }
      var cmd, sequence := buf[i + 4], buf[i + 5];
      var payloadLen := frameLen - 2;
      var payload := buf[i + 6..i + 6 + payloadLen];
      var ok := CheckCrc(buf[i + 2..i + total]);
      if !ok {
        ReachedSkip(UartStep, buf, i, frames, 2);
        i := i + 2;
        continue;
      }
      ReachedStep(UartStep, buf, i, frames, total, [Frame(cmd, sequence, payload)]);
      frames := frames + [Frame(cmd, sequence, payload)];
      i := i + total;
    }
    left := buf[i..];
    StepAt(buf, i);
    ReachedEnd(UartStep, buf, i, frames);
  }

  method CheckCrc(w: Bytes) returns (ok: bool)
    requires |w| >= 2
    ensures ok <==> Intact(w)
  {
    var calculated := Crc16Ccitt(w[..|w| - 2]);
    TestIsIntact(w, calculated);
    ok := calculated == Word(w[|w| - 2], w[|w| - 1]);
  }

  lemma UartStepIsSteady()
    ensures Steady(UartStep)
  {
    forall s, t: Bytes
      ensures Settled(UartStep, s, t)
    {
      UartStepSettled(s, t);
    }
  }

  lemma UartStepSettled(s: Bytes, t: Bytes)
    ensures UartStep(s).Take? ==> UartStep(s + t) == UartStep(s)
  {
    hide Intact, Be16;
    if |s| >= 4 {
      var len := Be16(s[2], s[3]);
      if 2 <= len && len + 6 <= |s| {
        assert (s + t)[2..len + 6] == s[2..len + 6];
        assert (s + t)[6..len + 4] == s[6..len + 4];
      }
    }
  }

  /** Any way of cutting the byte stream into reads, with the leftover carried over as the
      reader thread does, yields the frames and leftover of one call on the whole stream:
      noise, false sync pairs and bad CRCs included. */
  lemma ReadsAreInvisible(chunks: seq<Bytes>)
    ensures Feed(UartStep, [], chunks) == Parse(UartStep, Flatten(chunks))
  {
    UartStepIsSteady();
    ChunkingIsInvisible(UartStep, [], chunks);
    assert [] + Flatten(chunks) == Flatten(chunks);
  }

  /** The carried leftover never reaches the size of the largest frame. */
  lemma LeftoverIsSmall(s: Bytes)
    ensures |Parse(UartStep, s).1| < 1084
  {
    hide Intact, Be16;
    UartStepIsSteady();
    LeftoverWaits(UartStep, s);
  }

  // ---- what is written is read back ----------------------------------------

  predicate Sendable(f: Frame) {
    |f.payload| + 2 <= MAX_FRAME_LEN
  }

  lemma EncodedLayout(f: Frame)
    requires Sendable(f)
    ensures var w := Encode(f);
      && w[0] == 0xAA && w[1] == 0x55
      && Be16(w[2], w[3]) == |f.payload| + 2
      && w[4] == f.cmd && w[5] == f.sequence
      && w[6..|f.payload| + 6] == f.payload
      && w[2..] == Sealed(Body(f)) && Intact(w[2..])
  {
    hide Sealed, Intact, Be16, Enc16;
    var len := Enc16(|f.payload| + 2);
    var body := Body(f);
    assert body[0] == len[0] && body[1] == len[1] && body[2] == f.cmd && body[3] == f.sequence;
    assert body[4..] == f.payload;
    var w := Encode(f);
    assert w[2..] == Sealed(body);
    assert Sealed(body)[..|body|] == body;
    assert w[2..|body| + 2] == body;
    assert w[6..|f.payload| + 6] == w[2..|body| + 2][4..];
  }

  lemma EncodedIsFrame(f: Frame)
    requires Sendable(f)
    ensures OneFrame(UartStep, Encode(f), f)
  {
    hide Sealed, Intact, Be16, Encode, UartStep;
    EncodedLayout(f);
    var w := Encode(f);
    WholeFrameStep(w, f);
    forall n | 0 <= n < |w|
      ensures UartStep(w[..n]).Wait?
    {
      PartialFrameWaits(w, n);
    }
  }

  lemma WholeFrameStep(w: Bytes, f: Frame)
    requires Sendable(f) && |w| == |f.payload| + 8
    requires w[0] == 0xAA && w[1] == 0x55 && Be16(w[2], w[3]) == |f.payload| + 2
    requires w[4] == f.cmd && w[5] == f.sequence && w[6..|f.payload| + 6] == f.payload && Intact(w[2..])
    ensures UartStep(w) == Take(|w|, [f])
  {
    hide Intact, Be16;
    assert w[2..|w|] == w[2..];
  }

  lemma PartialFrameWaits(w: Bytes, n: nat)
    requires n < |w| && |w| >= 8
    requires w[0] == 0xAA && w[1] == 0x55 && 2 <= Be16(w[2], w[3]) <= MAX_FRAME_LEN
    requires |w| == Be16(w[2], w[3]) + 6
    ensures UartStep(w[..n]).Wait?
  {
    hide Intact, Be16;
    if n >= 4 {
      assert w[..n][2] == w[2] && w[..n][3] == w[3];
    }
  }

  function EncodeAll(frames: seq<Frame>): (parts: seq<Bytes>)
    requires forall i :: 0 <= i < |frames| ==> Sendable(frames[i])
    ensures |parts| == |frames|
    ensures forall i :: 0 <= i < |frames| ==> Sendable(frames[i]) && parts[i] == Encode(frames[i])
  {
    seq(|frames|, i requires 0 <= i < |frames| => assert Sendable(frames[i]); Encode(frames[i]))
  }

  /** Any concatenation of written frames parses back to exactly those frames. */
  lemma WrittenFramesParseBack(frames: seq<Frame>)
    requires forall i :: 0 <= i < |frames| ==> Sendable(frames[i])
    ensures Parse(UartStep, Flatten(EncodeAll(frames))) == (frames, [])
  {
    UartStepIsSteady();
    forall i | 0 <= i < |frames|
      ensures OneFrame(UartStep, EncodeAll(frames)[i], frames[i])
    {
      EncodedIsFrame(frames[i]);
    }
    WholeFramed(UartStep, EncodeAll(frames), frames);
  }

  /** Sync, length, command, sequence number 0 and payload. */
  method PutBody(buf: array<Byte>, cmd: Byte, payload: Bytes)
    requires |payload| + 8 < 0x1_0000 && buf.Length == 8 + |payload|
    modifies buf
    ensures buf[..2] == [0xAA, 0x55]
    ensures buf[2..6 + |payload|] == Body(Frame(cmd, 0, payload))
  {
    hide Enc16;
    var len := Enc16(2 + |payload|);
    PutFront(buf, len, cmd);
    ghost var front := buf[..6];
    PutPayload(buf, payload);
    SplitBuffer(buf[..], front, payload);
  }

  method PutFront(buf: array<Byte>, len: Bytes, cmd: Byte)
    requires buf.Length >= 6 && |len| == 2
    modifies buf
    ensures buf[..6] == [0xAA, 0x55] + (len + [cmd, 0])
  {
    buf[0], buf[1] := 0xAA, 0x55;
    buf[2], buf[3] := len[0], len[1];
    buf[4], buf[5] := cmd, 0;
  }

  method PutPayload(buf: array<Byte>, payload: Bytes)
    requires buf.Length == 8 + |payload|
    modifies buf
    ensures buf[..6] == old(buf[..6]) && buf[6..6 + |payload|] == payload
  {
    forall k | 0 <= k < |payload| {
      buf[6 + k] := payload[k];
    }
  }

  lemma SplitBuffer(s: Bytes, front: Bytes, payload: Bytes)
    requires |front| == 6 && |s| >= 6 + |payload|
    requires s[..6] == front && s[6..6 + |payload|] == payload
    ensures s[..2] == front[..2] && s[2..6 + |payload|] == front[2..] + payload
  {}

  /** The microcontroller's writer builds the same bytes in a buffer of its own. */
  method SendFrame(cmd: Byte, payload: Bytes) returns (buf: array<Byte>)
    requires |payload| + 8 < 0x1_0000
    ensures fresh(buf) && buf[..] == Encode(Frame(cmd, 0, payload))
  {
    hide Sealed, Body, Halves, Run, Encode;
    buf := new Byte[2 + 2 + 1 + 1 + |payload| + 2];
    PutBody(buf, cmd, payload);
    ghost var body := Body(Frame(cmd, 0, payload));
    var crc := Crc16Ccitt(buf[2..6 + |payload|]);
    var halves := Halves(crc);
    SealedBytes(body, crc);
    ghost var before := buf[..6 + |payload|];
    assert before == buf[..2] + buf[2..6 + |payload|];
    EncodedInParts(Frame(cmd, 0, payload), before, halves);
    buf[6 + |payload|], buf[7 + |payload|] := halves[0], halves[1];
    assert buf[..6 + |payload|] == before;
    assert buf[..] == before + halves;
  }

  lemma EncodedInParts(f: Frame, before: Bytes, halves: Bytes)
    requires |f.payload| < 0x1_0000 - 2
    requires before == [0xAA, 0x55] + Body(f) && Sealed(Body(f)) == Body(f) + halves
    ensures Encode(f) == before + halves
  {
    hide Sealed, Body;
    Associate([0xAA, 0x55], Body(f), halves);
  }

  /** A frame whose sync and length survive but which is hit by one burst of at most 16
      bits is not handed out: the parser steps over its sync pair. */
  lemma BurstIsDropped(f: Frame, v: Bytes, i: nat, rest: Bytes)
    requires Sendable(f)
    requires |v| == |Encode(f)| && v != Encode(f) && v[..4] == Encode(f)[..4]
    requires var w := Encode(f);
      forall k :: 0 <= k < 8 * |w[2..]| && !(i <= k < i + 16) ==> Message(v[2..])[k] == Message(w[2..])[k]
    ensures UartStep(v + rest) == Take(2, [])
  {
    hide Sealed, Intact, Be16, Encode, Message;
    EncodedLayout(f);
    var w := Encode(f);
    assert w == w[..2] + w[2..] && v == v[..2] + v[2..];
    assert v[..2] == v[..4][..2] && w[..2] == w[..4][..2];
    BurstIsDetected(w[2..], v[2..], i);
    assert v[0] == v[..4][0] && v[1] == v[..4][1] && v[2] == v[..4][2] && v[3] == v[..4][3];
    assert (v + rest)[2..|v|] == v[2..];
  }

  // ---- what is skipped -----------------------------------------------------

  /** Bytes that begin no frame are skipped, as few as possible: one if there is no sync pair; the
      pair alone if the length is not from 2 to 1078 or the CRC is wrong. */
  lemma SkipsLittle(s: Bytes)
    requires |s| >= 4
    ensures s[0] != 0xAA || s[1] != 0x55 ==> Parse(UartStep, s) == Parse(UartStep, s[1..])
    ensures s[0] == 0xAA && s[1] == 0x55 ==>
      var len := 256 * Val(s[2]) + Val(s[3]);
      && (len < 2 || len > 1078 ==> Parse(UartStep, s) == Parse(UartStep, s[2..]))
      && (2 <= len <= 1078 && |s| < len + 6 ==> Parse(UartStep, s) == ([], s))
      && (2 <= len <= 1078 && |s| >= len + 6 && !Intact(s[2..len + 6]) ==>
            Parse(UartStep, s) == Parse(UartStep, s[2..]))
  {
    hide Intact, Val, Parse;
    match UartStep(s)
    case Wait => ParseWaits(UartStep, s);
    case Take(n, out) =>
      if out == [] { ParseSkips(UartStep, s, n); }
  }

  /** A sync pair with nothing behind it costs no frame. */
  lemma LoneSyncIsHarmless(f: Frame, rest: Bytes)
    requires Sendable(f)
    ensures Parse(UartStep, [0xAA, 0x55] + Encode(f) + rest)
      == ([f] + Parse(UartStep, rest).0, Parse(UartStep, rest).1)
  {
    hide UartStep, Encode;
    var w, s := Encode(f), [0xAA, 0x55] + Encode(f) + rest;
    EncodedLayout(f);
    assert s[2] == w[0] && s[3] == w[1] && s[2..] == w + rest;
    SyncIsNoLength();
    SkipsLittle(s);
    UartStepIsSteady();
    EncodedIsFrame(f);
    FirstFrame(UartStep, w, f, rest);
  }

  lemma SyncIsNoLength()
    ensures 256 * Val(0xAA) + Val(0x55) == 43605
  {}
}
