/** The microcontroller's UART receiver: a state machine fed one byte at a time.

    `Advance` is the machine on values. `Receiver` is the source's switch over local
    variables and two fixed buffers, proved to take exactly the steps of `Advance` and
    never to index past either buffer. The theorems at the end compare the machine with
    the buffer parser of the other board. */
module UartMachine {
  import opened Bytes
  import opened Incremental
  import opened Crc
  import opened UartFrames

  const BUFFER_SIZE: nat := 1080

  /** `Body` holds what has arrived after the length: command, sequence, payload, CRC. */
  datatype State =
    | Idle
    | SawAA
    | Synced
    | HalfLength(high: Byte)
    | Body(len: nat, got: Bytes)

  predicate Reachable(st: State) {
    st.Body? ==> 2 <= st.len <= MAX_FRAME_LEN && |st.got| < st.len + 2
  }

  function FrameOf(got: Bytes): Frame
    requires |got| >= 4
  {
    Frame(got[0], got[1], got[2..|got| - 2])
  }

  function Advance(st: State, b: Byte): (r: (State, seq<Frame>))
    requires Reachable(st)
    ensures Reachable(r.0)
  {
    match st
    case Idle => (if b == 0xAA then SawAA else Idle, [])
    case SawAA => (if b == 0x55 then Synced else Idle, [])
    case Synced => (HalfLength(b), [])
    case HalfLength(high) =>
      var len := Be16(high, b);
      (if len < 2 || len > MAX_FRAME_LEN then Idle else Body(len, []), [])
    case Body(len, got) =>
      var got' := got + [b];
      if |got'| < len + 2 then (Body(len, got'), [])
      else (Idle, if Intact(Enc16(len) + got') then [FrameOf(got')] else [])
  }

  function Run(st: State, s: Bytes): (r: (State, seq<Frame>))
    requires Reachable(st)
    ensures Reachable(r.0)
    decreases |s|
  {
    if s == [] then (st, [])
    else
      var a := Advance(st, s[0]);
      var r := Run(a.0, s[1..]);
      (r.0, a.1 + r.1)
  }

  // ---- the switch ----------------------------------------------------------

  datatype Stage = Sync0 | Sync1 | Len0 | Len1 | CmdByte | SeqByte | PayloadBytes | Crc0 | Crc1

  class Receiver {
    var stage: Stage
    var frameLen: nat
    var cmd: Byte
    var sequence: Byte
    var payloadIdx: nat
    const payloadBuf: array<Byte>
    var crcRecv: bv16
    ghost var lenHigh: Byte
    ghost var crcHigh: Byte

    ghost predicate Valid()
      reads this
    {
      && payloadBuf.Length == BUFFER_SIZE
      && (stage == Len1 ==> frameLen == Val(lenHigh) * 256)
      && (stage in {CmdByte, SeqByte, PayloadBytes, Crc0, Crc1} ==> 2 <= frameLen <= MAX_FRAME_LEN)
      && (stage == PayloadBytes ==> payloadIdx < frameLen - 2)
      && (stage in {Crc0, Crc1} ==> payloadIdx == frameLen - 2)
      && (stage == Crc1 ==> crcRecv == High(crcHigh))
    }

    ghost function Abs(): (st: State)
      requires Valid()
      reads this, payloadBuf
      ensures Reachable(st)
    {
      match stage
      case Sync0 => Idle
      case Sync1 => SawAA
      case Len0 => Synced
      case Len1 => HalfLength(lenHigh)
      case CmdByte => Body(frameLen, [])
      case SeqByte => Body(frameLen, [cmd])
      case PayloadBytes => Body(frameLen, [cmd, sequence] + payloadBuf[..payloadIdx])
      case Crc0 => Body(frameLen, [cmd, sequence] + payloadBuf[..payloadIdx])
      case Crc1 => Body(frameLen, [cmd, sequence] + payloadBuf[..payloadIdx] + [crcHigh])
    }

    constructor ()
      ensures Valid() && Abs() == Idle && fresh(payloadBuf)
    {
      stage := Sync0;
      frameLen, payloadIdx := 0, 0;
      cmd, sequence, crcRecv := 0, 0, 0;
      payloadBuf := new Byte[BUFFER_SIZE];
    }

    method OnByte(rxb: Byte) returns (out: seq<Frame>)
      requires Valid()
      modifies this, payloadBuf
      ensures Valid()
      ensures (Abs(), out) == Advance(old(Abs()), rxb)
    {
      hide Intact, Be16, Enc16, High, Low, FrameOf, Val;
      out := [];
      match stage {
        case Sync0 =>
          if rxb == 0xAA { stage := Sync1; }
        case Sync1 =>
          stage := if rxb == 0x55 then Len0 else Sync0;
        case Len0 =>
          frameLen := Val(rxb) * 256;
          lenHigh := rxb;
          stage := Len1;
        case Len1 =>
          SecondLength(rxb);
        case CmdByte =>
          cmd := rxb;
          assert [] + [rxb] == [rxb];
          stage := SeqByte;
        case SeqByte =>
          Sequence(rxb);
        case PayloadBytes =>
          StorePayload(rxb);
        case Crc0 =>
          crcRecv := High(rxb);
          crcHigh := rxb;
          stage := Crc1;
        case Crc1 =>
          out := LastByte(rxb);
      }
    }

    method SecondLength(rxb: Byte)
      requires Valid() && stage == Len1
      modifies this
      ensures Valid() && (Abs(), []) == Advance(old(Abs()), rxb)
    {
      hide Intact, Be16, Enc16, High, Low, FrameOf, Val;
      frameLen := frameLen + Val(rxb);
      LengthBytes(lenHigh, rxb);
      stage := if frameLen < 2 || frameLen > MAX_FRAME_LEN then Sync0 else CmdByte;
    }

    method Sequence(rxb: Byte)
      requires Valid() && stage == SeqByte
      modifies this
      ensures Valid() && (Abs(), []) == Advance(old(Abs()), rxb)
    {
      hide Intact, Be16, Enc16, High, Low, FrameOf, Val;
      sequence := rxb;
      payloadIdx := 0;
      assert [cmd] + [rxb] == [cmd, rxb] + payloadBuf[..0];
      stage := if frameLen > 2 then PayloadBytes else Crc0;
    }

    method LastByte(rxb: Byte) returns (out: seq<Frame>)
      requires Valid() && stage == Crc1
      modifies this
      ensures Valid() && (Abs(), out) == Advance(old(Abs()), rxb)
    {
      hide Intact, Be16, Enc16, High, Low, FrameOf, Val;
      crcRecv := crcRecv | Low(rxb);
      out := FinishFrame(rxb);
      stage := Sync0;
    }

    method StorePayload(rxb: Byte)
      requires Valid() && stage == PayloadBytes
      modifies this, payloadBuf
      ensures Valid() && Abs() == Body(frameLen, old(Abs()).got + [rxb])
      ensures frameLen == old(frameLen)
    {
      if payloadIdx < payloadBuf.Length {
        payloadBuf[payloadIdx] := rxb;
        payloadIdx := payloadIdx + 1;
        assert payloadBuf[..payloadIdx] == old(payloadBuf[..payloadIdx]) + [rxb];
        Associate([cmd, sequence], old(payloadBuf[..payloadIdx]), [rxb]);
      }
      if payloadIdx >= frameLen - 2 {
        stage := Crc0;
      }
    }

    method FinishFrame(ghost rxb: Byte) returns (out: seq<Frame>)
      requires payloadBuf.Length == BUFFER_SIZE
      requires 2 <= frameLen <= MAX_FRAME_LEN && payloadIdx == frameLen - 2
      requires crcRecv == Word(crcHigh, rxb)
      ensures var got := [cmd, sequence] + payloadBuf[..payloadIdx] + [crcHigh] + [rxb];
        out == if Intact(Enc16(frameLen) + got) then [FrameOf(got)] else []
    {
      hide Intact, Be16, Enc16, Word;
      var crcBuf := new Byte[BUFFER_SIZE];
      var len := Enc16(frameLen);
      crcBuf[0], crcBuf[1], crcBuf[2], crcBuf[3] := len[0], len[1], cmd, sequence;
      forall k | 0 <= k < frameLen - 2 {
        crcBuf[4 + k] := payloadBuf[k];
      }
      ghost var got := [cmd, sequence] + payloadBuf[..payloadIdx] + [crcHigh] + [rxb];
      ghost var w := len + got;
      assert crcBuf[..4 + frameLen - 2] == w[..|w| - 2];
      var crcCalc := Crc16Ccitt(crcBuf[..4 + frameLen - 2]);
      TestIsIntact(w, crcCalc);
      if crcCalc != crcRecv {
        return [];
      }
      assert got[2..|got| - 2] == payloadBuf[..frameLen - 2];
      return [Frame(cmd, sequence, payloadBuf[..frameLen - 2])];
    }
  }

  lemma LengthBytes(h: Byte, l: Byte)
    ensures Be16(h, l) == Val(h) * 256 + Val(l)
  {}

  // ---- one frame -----------------------------------------------------------

  lemma {:induction false} RunAppend(st: State, a: Bytes, b: Bytes)
    requires Reachable(st)
    ensures Run(st, a + b) == (Run(Run(st, a).0, b).0, Run(st, a).1 + Run(Run(st, a).0, b).1)
    decreases |a|
  {
    hide Advance;
    if a == [] {
      assert a + b == b;
      assert [] + Run(st, b).1 == Run(st, b).1;
    } else {
      assert (a + b)[1..] == a[1..] + b;
      var x := Advance(st, a[0]);
      RunAppend(x.0, a[1..], b);
      Associate(x.1, Run(x.0, a[1..]).1, Run(Run(x.0, a[1..]).0, b).1);
    }
  }

  lemma {:induction false} RunBody(len: nat, got: Bytes, s: Bytes)
    requires 2 <= len <= MAX_FRAME_LEN
    requires |got| < len + 2 == |got| + |s|
    ensures Run(Body(len, got), s)
         == (Idle, if Intact(Enc16(len) + (got + s)) then [FrameOf(got + s)] else [])
    decreases |s|
  {
    hide Intact, Be16, Enc16, FrameOf;
    Associate(got, [s[0]], s[1..]);
    assert [s[0]] + s[1..] == s;
    if |s| == 1 {
      assert s == [s[0]];
      RunOne(Body(len, got), s[0]);
    } else {
      RunBody(len, got + [s[0]], s[1..]);
      RunQuietly(Body(len, got), s);
    }
  }

  lemma RunSync(len: nat)
    requires 2 <= len <= MAX_FRAME_LEN
    ensures Run(Idle, [0xAA, 0x55] + Enc16(len)) == (Body(len, []), [])
  {
    hide Be16, Enc16, Intact;
    var e := Enc16(len);
    var w := [0xAA, 0x55] + e;
    assert w[1..] == [0x55] + e && w[1..][1..] == e && e[1..] == [e[1]];
    RunQuietly(Idle, w);
    RunQuietly(SawAA, w[1..]);
    RunQuietly(Synced, e);
    RunOne(HalfLength(e[0]), e[1]);
  }

  lemma DropEmpty<T>(a: seq<T>, b: seq<T>)
    requires a == []
    ensures a + b == b
  {}

  /** A step that hands out nothing can be dropped from the front. */
  lemma RunQuietly(st: State, s: Bytes)
    requires Reachable(st) && s != []
    requires Advance(st, s[0]).1 == []
    ensures Run(st, s) == Run(Advance(st, s[0]).0, s[1..])
  {
    var r := Run(Advance(st, s[0]).0, s[1..]);
    DropEmpty(Advance(st, s[0]).1, r.1);
  }

  lemma RunFrame(f: Frame)
    requires Sendable(f)
    ensures Run(Idle, Encode(f)) == (Idle, [f])
  {
    hide Intact, Be16, Enc16, Sealed, Run, FrameOf;
    var len := |f.payload| + 2;
    var sealed := Sealed(UartFrames.Body(f));
    var got := sealed[2..];
    assert sealed[..|UartFrames.Body(f)|][..2] == Enc16(len);
    assert sealed == Enc16(len) + got;
    Associate([0xAA, 0x55], Enc16(len), got);
    RunSync(len);
    RunAppend(Idle, [0xAA, 0x55] + Enc16(len), got);
    RunBody(len, [], got);
    assert [] + got == got;
    assert [] + [f] == [f];
    SealedFrame(f);
  }

  lemma SealedFrame(f: Frame)
    requires Sendable(f)
    ensures FrameOf(Sealed(UartFrames.Body(f))[2..]) == f
  {
    hide Intact, Sealed, Enc16;
    var body := UartFrames.Body(f);
    var sealed := Sealed(body);
    assert sealed[..|body|] == body;
    assert body[2] == f.cmd && body[3] == f.sequence && body[4..] == f.payload;
    assert sealed[2..][2..|f.payload| + 2] == sealed[..|body|][4..];
  }

  // ---- bytes between frames ------------------------------------------------

  /** No sync pair inside the gap. */
  predicate Quiet(g: Bytes) {
    forall i :: 0 <= i < |g| - 1 ==> !(g[i] == 0xAA && g[i + 1] == 0x55)
  }

  /** The gap ends in an odd number of 0xAA bytes. */
  predicate OddTail(g: Bytes)
    decreases |g|
  {
    g != [] && g[|g| - 1] == 0xAA && !OddTail(g[..|g| - 1])
  }

  lemma {:induction false} RunQuiet(g: Bytes)
    requires Quiet(g)
    ensures Run(Idle, g) == (if OddTail(g) then SawAA else Idle, [])
    decreases |g|
  {
    if g != [] {
      var front, last := g[..|g| - 1], g[|g| - 1];
      assert g == front + [last];
      RunQuiet(front);
      RunAppend(Idle, front, [last]);
      if OddTail(front) {
        assert front[|front| - 1] == g[|g| - 2];
      }
      RunOne(if OddTail(front) then SawAA else Idle, last);
    }
  }

  lemma RunOne(st: State, b: Byte)
    requires Reachable(st)
    ensures Run(st, [b]) == Advance(st, b)
  {
    hide Advance;
    assert [b][1..] == [];
    assert Advance(st, b).1 + [] == Advance(st, b).1;
  }

  /** The buffer parser walks through a gap up to the next sync byte, whatever its tail. */
  lemma {:induction false} ParseQuiet(g: Bytes, t: Bytes)
    requires Quiet(g) && t != [] && t[0] == 0xAA
    ensures Parse(UartStep, g + t) == Parse(UartStep, t)
    decreases |g|
  {
    hide Intact, Be16;
    if g == [] {
      assert g + t == t;
    } else {
      var s := g + t;
      assert s[1..] == g[1..] + t;
      assert s[1] == if |g| > 1 then g[1] else t[0];
      forall i | 0 <= i < |g[1..]| - 1
        ensures !(g[1..][i] == 0xAA && g[1..][i + 1] == 0x55)
      {
        assert g[1..][i] == g[i + 1];
      }
      ParseQuiet(g[1..], t);
      assert UartStep(s) == Take(1, []);
      assert [] + Parse(UartStep, t).0 == Parse(UartStep, t).0;
    }
  }

  /** The machine finds a frame header after a gap exactly when the gap does not end in an
      odd number of 0xAA bytes: the second of two 0xAA is spent on leaving `SawAA`. */
  lemma HeaderSeenIff(g: Bytes)
    requires Quiet(g)
    ensures Run(Idle, g + [0xAA, 0x55]).0 == Synced <==> !OddTail(g)
  {
    RunQuiet(g);
    RunAppend(Idle, g, [0xAA, 0x55]);
    assert [0xAA, 0x55][1..] == [0x55 as Byte];
    RunOne(SawAA, 0x55);
    RunOne(Idle, 0x55);
  }

  /** Bytes of a frame that a state stands for. */
  function Consumed(st: State): nat {
    match st
    case Idle => 0
    case SawAA => 1
    case Synced => 2
    case HalfLength(_) => 3
    case Body(_, got) => 4 + |got|
  }

  /** A frame is handed out only when all its bytes have gone through. */
  lemma {:induction false} EmittedFits(st: State, s: Bytes, f: Frame)
    requires Reachable(st) && f in Run(st, s).1
    ensures |f.payload| + 8 <= Consumed(st) + |s|
    decreases |s|
  {
    var a := Advance(st, s[0]);
    EmittedByStep(st, s[0]);
    hide Advance;
    if f !in a.1 {
      EmittedFits(a.0, s[1..], f);
    }
  }

  lemma EmittedByStep(st: State, b: Byte)
    requires Reachable(st)
    ensures Consumed(Advance(st, b).0) <= Consumed(st) + 1
    ensures forall f :: f in Advance(st, b).1 ==> |f.payload| + 8 == Consumed(st) + 1
  {
    hide Intact, Be16, Enc16;
  }

  /** On a gap without a sync pair and any frame, the parser hands out the frame, and the two
      receivers hand out the same frames exactly when the gap does not end in an odd number of
      0xAA bytes; if it does, the machine loses the frame. */
  lemma ReceiversAgreeIff(g: Bytes, f: Frame)
    requires Quiet(g) && Sendable(f)
    ensures Parse(UartStep, g + Encode(f)).0 == [f]
    ensures Run(Idle, g + Encode(f)).1 == Parse(UartStep, g + Encode(f)).0 <==> !OddTail(g)
    ensures OddTail(g) ==> f !in Run(Idle, g + Encode(f)).1
  {
    hide Intact, Be16, Encode, Parse, UartStep, Run;
    var w := Encode(f);
    EncodedLayout(f);
    ParseQuiet(g, w);
    OneFrameParses(f);
    RunQuiet(g);
    RunAppend(Idle, g, w);
    RunFrame(f);
    assert [] + [f] == [f];
    if OddTail(g) {
      RunQuietly(SawAA, w);
      var out := Run(Idle, w[1..]).1;
      assert [] + out == out;
      if f in out {
        EmittedFits(Idle, w[1..], f);
      }
    }
  }

  /** They do differ: a single 0xAA before any frame costs the machine that frame. */
  lemma OneAALosesTheFrame(f: Frame)
    requires Sendable(f)
    ensures Parse(UartStep, [0xAA] + Encode(f)).0 == [f]
    ensures f !in Run(Idle, [0xAA] + Encode(f)).1
  {
    var g: Bytes := [0xAA];
    assert g[..0] == [];
    ReceiversAgreeIff(g, f);
  }

  /** A header is taken exactly if its length is from 2 to 1078; otherwise the machine looks for
      the next sync pair from the byte behind. */
  lemma HeaderIsTakenIff(h: Byte, l: Byte)
    ensures var len := 256 * Val(h) + Val(l);
      Run(Idle, [0xAA, 0x55, h, l]) == (if 2 <= len <= 1078 then Body(len, []) else Idle, [])
  {
    hide Intact, Val;
    var w: Bytes := [0xAA, 0x55, h, l];
    assert w[1..] == [0x55, h, l] && w[1..][1..] == [h, l] && w[2..] == [h, l] && [h, l][1..] == [l];
    RunQuietly(Idle, w);
    RunQuietly(SawAA, w[1..]);
    RunQuietly(Synced, [h, l]);
    RunOne(HalfLength(h), l);
  }

  lemma ValEqual(a: Byte, b: Byte)
    requires Val(a) == Val(b)
    ensures a == b
  {}

  lemma LengthField(h: Byte, l: Byte)
    ensures Enc16(Be16(h, l)) == [h, l]
  {
    hide Val, Enc16, ToByte;
    var e := Enc16(Be16(h, l));
    assert Val(e[0]) * 256 + Val(e[1]) == Val(h) * 256 + Val(l);
    ValEqual(e[0], h);
    ValEqual(e[1], l);
    assert e == [e[0], e[1]];
  }

  /** A body is handed out exactly if it is intact together with its length: command and sequence
      first, the CRC last, the payload between them. */
  lemma BodyIsJudged(h: Byte, l: Byte, body: Bytes)
    requires 2 <= 256 * Val(h) + Val(l) <= 1078 && |body| == 256 * Val(h) + Val(l) + 2
    ensures Run(Idle, [0xAA, 0x55, h, l] + body)
      == (Idle, if Intact([h, l] + body) then [Frame(body[0], body[1], body[2..|body| - 2])] else [])
  {
    hide Intact, Val, Run, Enc16;
    var len := 256 * Val(h) + Val(l);
    HeaderIsTakenIff(h, l);
    RunAppend(Idle, [0xAA, 0x55, h, l], body);
    RunBody(len, [], body);
    LengthBytes(h, l);
    LengthField(h, l);
    assert [] + body == body;
    DropEmpty([], Run(Body(len, []), body).1);
  }

  /** A sync pair in front of a frame costs the machine that frame: it takes the frame's own sync
      pair for a length. The parser hands the frame out. */
  lemma LoneSyncLosesTheFrame(f: Frame)
    requires Sendable(f)
    ensures Parse(UartStep, [0xAA, 0x55] + Encode(f)).0 == [f]
    ensures f !in Run(Idle, [0xAA, 0x55] + Encode(f)).1
  {
    hide Intact, Encode, Parse, UartStep, Run;
    var w := Encode(f);
    assert [0xAA, 0x55] + w + [] == [0xAA, 0x55] + w;
    LoneSyncIsHarmless(f, []);
    UartStepIsSteady();
    ParseEmpty(UartStep);
    assert [f] + [] == [f];
    EncodedLayout(f);
    assert [0xAA, 0x55] + w == [0xAA, 0x55, 0xAA, 0x55] + w[2..];
    SyncIsNoLength();
    HeaderIsTakenIff(0xAA, 0x55);
    RunAppend(Idle, [0xAA, 0x55, 0xAA, 0x55], w[2..]);
    var out := Run(Idle, w[2..]).1;
    assert [] + out == out;
    if f in out {
      EmittedFits(Idle, w[2..], f);
    }
  }

  lemma OneFrameParses(f: Frame)
    requires Sendable(f)
    ensures Parse(UartStep, Encode(f)) == ([f], [])
  {
    hide Intact, Be16, Encode, UartStep;
    UartStepIsSteady();
    EncodedIsFrame(f);
    var w := Encode(f);
    assert w + [] == w;
    FirstFrame(UartStep, w, f, []);
    ParseEmpty(UartStep);
    assert [f] + [] == [f];
  }

  // ---- whole streams -------------------------------------------------------

  datatype Piece = Piece(gap: Bytes, frame: Frame)

  /** A gap both receivers cross safely; every gap without 0xAA is one. */
  predicate Crossable(g: Bytes) {
    Quiet(g) && !OddTail(g)
  }

  lemma GapWithoutAA(g: Bytes)
    requires 0xAA !in g
    ensures Crossable(g)
  {}

  ghost predicate WellFormed(pieces: seq<Piece>) {
    forall i :: 0 <= i < |pieces| ==> Crossable(pieces[i].gap) && Sendable(pieces[i].frame)
  }

  function Stream(pieces: seq<Piece>): Bytes
    requires WellFormed(pieces)
  {
    if pieces == [] then []
    else assert Crossable(pieces[0].gap); pieces[0].gap + (Encode(pieces[0].frame) + Stream(pieces[1..]))
  }

  function Frames(pieces: seq<Piece>): seq<Frame> {
    if pieces == [] then [] else [pieces[0].frame] + Frames(pieces[1..])
  }

  lemma {:induction false} MachineOnStream(pieces: seq<Piece>)
    requires WellFormed(pieces)
    ensures Run(Idle, Stream(pieces)) == (Idle, Frames(pieces))
    decreases |pieces|
  {
    hide Encode, Run, Sendable, Crossable;
    if pieces == [] {
      RunEmpty();
    } else {
      var p, rest := pieces[0], Stream(pieces[1..]);
      assert Crossable(p.gap) && Sendable(p.frame);
      MachineOnPiece(p.gap, p.frame, rest);
      MachineOnStream(pieces[1..]);
    }
  }

  lemma RunEmpty()
    ensures Run(Idle, []) == (Idle, [])
  {}

  lemma MachineOnPiece(g: Bytes, f: Frame, rest: Bytes)
    requires Crossable(g) && Sendable(f)
    ensures Run(Idle, g + (Encode(f) + rest)) == (Run(Idle, rest).0, [f] + Run(Idle, rest).1)
  {
    hide Encode, Run;
    var r := Run(Idle, rest).1;
    RunQuiet(g);
    RunAppend(Idle, g, Encode(f) + rest);
    RunFrame(f);
    RunAppend(Idle, Encode(f), rest);
    assert [] + ([f] + r) == [f] + r;
  }

  lemma {:induction false} ParserOnStream(pieces: seq<Piece>)
    requires WellFormed(pieces)
    ensures Parse(UartStep, Stream(pieces)) == (Frames(pieces), [])
    decreases |pieces|
  {
    hide Encode, Parse, UartStep, Sendable, Crossable;
    UartStepIsSteady();
    if pieces == [] {
      ParseEmpty(UartStep);
    } else {
      var p, rest := pieces[0], Stream(pieces[1..]);
      assert Crossable(p.gap) && Sendable(p.frame);
      ParserOnPiece(p.gap, p.frame, rest);
      ParserOnStream(pieces[1..]);
    }
  }

  lemma ParserOnPiece(g: Bytes, f: Frame, rest: Bytes)
    requires Crossable(g) && Sendable(f)
    ensures Parse(UartStep, g + (Encode(f) + rest))
         == ([f] + Parse(UartStep, rest).0, Parse(UartStep, rest).1)
  {
    hide Encode, Parse, UartStep;
    UartStepIsSteady();
    EncodedIsFrame(f);
    EncodedLayout(f);
    ParseQuiet(g, Encode(f) + rest);
    FirstFrame(UartStep, Encode(f), f, rest);
  }

  /** On every stream of well-formed frames separated by crossable gaps, the byte machine
      and the buffer parser hand out the same frames: exactly those that were sent. */
  lemma ReceiversAgree(pieces: seq<Piece>)
    requires WellFormed(pieces)
    ensures Run(Idle, Stream(pieces)).1 == Parse(UartStep, Stream(pieces)).0 == Frames(pieces)
  {
    MachineOnStream(pieces);
    ParserOnStream(pieces);
  }
}
