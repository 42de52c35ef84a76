/** The sending end of the image transfer: the frames of each round, the bitmap answers as
    the ACK reader decodes them, and the decision taken on each answer. */
module ImageSender {
  import opened Bytes
  import opened Bitmap
  import opened Incremental
  import opened SpiStream
  import opened Rx = ImageReceiver

  const MAX_ROUNDS: nat := 6
  const BIG_DATA: Byte := 3
  const BIG_END: Byte := 4

  datatype Job = Job(data: Bytes, session: nat)

  /** The bitmap has room for 8192 frames, so photos of up to 2 MiB are supported. */
  predicate Legal(job: Job) {
    0 < |job.data| <= Rx.MAX_FRAMES * CHUNK && job.session < 0x1_0000_0000
  }

  // ---- frames --------------------------------------------------------------

  function Chunk(data: Bytes, offset: nat): (c: Bytes)
    ensures |c| <= CHUNK
    ensures offset < |data| ==> c != []
  {
    if offset >= |data| then []
    else data[offset..if offset + CHUNK < |data| then offset + CHUNK else |data|]
  }

  function DataFrame(job: Job, offset: nat): SpiFrame {
    SpiFrame(BIG_DATA, job.session, |job.data|, offset, Chunk(job.data, offset))
  }

  function EndFrame(job: Job): SpiFrame {
    SpiFrame(BIG_END, job.session, |job.data|, |job.data|, [])
  }

  function FirstRoundFrom(job: Job, offset: nat): seq<SpiFrame>
    decreases |job.data| - offset
  {
    if offset >= |job.data| then [EndFrame(job)]
    else [DataFrame(job, offset)] + FirstRoundFrom(job, offset + |Chunk(job.data, offset)|)
  }

  function Resend(job: Job, offsets: seq<nat>): seq<SpiFrame> {
    if offsets == [] then [EndFrame(job)] else [DataFrame(job, offsets[0])] + Resend(job, offsets[1..])
  }

  // ---- answers -------------------------------------------------------------

  datatype Ack = Ack(sid: nat, offset: nat, ok: nat, missing: Option<seq<nat>>)

  function MissingFrom(bitmap: Bytes, fi: nat, n: nat): seq<nat>
    requires n <= 8 * |bitmap|
    decreases n - fi
  {
    if fi >= n then []
    else if BitSet(bitmap, fi) then MissingFrom(bitmap, fi + 1, n)
    else [fi * CHUNK] + MissingFrom(bitmap, fi + 1, n)
  }

  function DecodeAck(payload: Bytes): Ack
    requires |payload| >= 9
  {
    var nframes := if |payload| >= 11 then Be16(payload[9], payload[10]) else 0;
    var len := (nframes + 7) / 8;
    Ack(Be32(payload[..4]), Be32(payload[4..8]), Val(payload[8]),
        if nframes > 0 && |payload| >= 11 + len then Some(MissingFrom(payload[11..11 + len], 0, nframes)) else None)
  }

  /** The reader thread's loop over the bits of one answer. */
  method ReadAck(payload: Bytes) returns (a: Ack)
    requires |payload| >= 9
    ensures a == DecodeAck(payload)
  {
    hide Be16, Be32, Val, Hits, Flag;
    var sid, off, ok := Be32(payload[0..4]), Be32(payload[4..8]), Val(payload[8]);
    assert payload[0..4] == payload[..4];
    if |payload| >= 11 {
      var nframes := Be16(payload[9], payload[10]);
      var bmpLen := (nframes + 7) / 8;
      if |payload| >= 11 + bmpLen && nframes > 0 {
        var bitmap := payload[11..11 + bmpLen];
        var missing := [];
        var fi := 0;
        while fi < nframes
          invariant 0 <= fi <= nframes
          invariant MissingFrom(bitmap, 0, nframes) == missing + MissingFrom(bitmap, fi, nframes)
        {
          if !Hits(bitmap[fi / 8], Flag(fi % 8)) {
            Associate(missing, [fi * CHUNK], MissingFrom(bitmap, fi + 1, nframes));
            missing := missing + [fi * CHUNK];
          }
          fi := fi + 1;
        }
        assert missing + [] == missing;
        return Ack(sid, off, ok, Some(missing));
      }
    }
    return Ack(sid, off, ok, None);
  }

  lemma {:induction false} MissingContents(bitmap: Bytes, fi: nat, n: nat, off: nat)
    requires n <= 8 * |bitmap|
    ensures off in MissingFrom(bitmap, fi, n)
       <==> off % CHUNK == 0 && fi <= off / CHUNK < n && !BitSet(bitmap, off / CHUNK)
    decreases n - fi
  {
    hide Hits, Flag;
    if fi < n {
      MissingContents(bitmap, fi + 1, n, off);
      assert (fi * CHUNK) / CHUNK == fi;
      assert off % CHUNK == 0 && off / CHUNK == fi ==> off == fi * CHUNK;
    }
  }

  predicate Ascending(m: seq<nat>, low: nat) {
    (forall i :: 0 <= i < |m| ==> low <= m[i]) && forall i, j :: 0 <= i < j < |m| ==> m[i] < m[j]
  }

  lemma AscendingGrows(x: nat, m: seq<nat>, low: nat)
    requires Ascending(m, low) && x < low
    ensures Ascending([x] + m, x)
  {
    var all := [x] + m;
    assert forall i :: 0 < i < |all| ==> all[i] == m[i - 1];
  }

  /** The list is in ascending order, without repetitions. */
  lemma {:induction false} MissingAscends(bitmap: Bytes, fi: nat, n: nat)
    requires n <= 8 * |bitmap|
    ensures Ascending(MissingFrom(bitmap, fi, n), 256 * fi)
    decreases n - fi
  {
    hide Hits, Flag, BitSet;
    if fi < n {
      MissingAscends(bitmap, fi + 1, n);
      var rest := MissingFrom(bitmap, fi + 1, n);
      if !BitSet(bitmap, fi) {
        AscendingGrows(256 * fi, rest, 256 * (fi + 1));
      }
    }
  }

  /** The fields of an answer, byte by byte; the list is there exactly if there are frames and the
      bitmap is complete. */
  lemma AnswerFields(p: Bytes)
    requires |p| >= 9
    ensures var a := DecodeAck(p);
      var n := if |p| >= 11 then 256 * Val(p[9]) + Val(p[10]) else 0;
      && a.sid == 0x100_0000 * Val(p[0]) + 0x1_0000 * Val(p[1]) + 0x100 * Val(p[2]) + Val(p[3])
      && a.offset == 0x100_0000 * Val(p[4]) + 0x1_0000 * Val(p[5]) + 0x100 * Val(p[6]) + Val(p[7])
      && a.ok == Val(p[8])
      && (a.missing.Some? <==> n > 0 && |p| >= 11 + (n + 7) / 8)
      && (a.missing.Some? ==> forall fi: nat ::
            256 * fi in a.missing.value <==> fi < n && !Hits(p[11 + fi / 8], Flag(fi % 8)))
  {
    hide Val, Hits, Flag, MissingFrom;
    var n := if |p| >= 11 then 256 * Val(p[9]) + Val(p[10]) else 0;
    if n > 0 && |p| >= 11 + (n + 7) / 8 {
      assert DecodeAck(p).missing.value == MissingFrom(p[11..11 + (n + 7) / 8], 0, n);
      forall fi: nat
        ensures 256 * fi in DecodeAck(p).missing.value <==> fi < n && !Hits(p[11 + fi / 8], Flag(fi % 8))
      {
        ListedIff(p, n, fi);
      }
    }
  }

  lemma ListedIff(p: Bytes, n: nat, fi: nat)
    requires |p| >= 11 + (n + 7) / 8
    ensures 256 * fi in MissingFrom(p[11..11 + (n + 7) / 8], 0, n) <==> fi < n && !Hits(p[11 + fi / 8], Flag(fi % 8))
  {
    hide Hits, Flag;
    var bitmap := p[11..11 + (n + 7) / 8];
    MissingContents(bitmap, 0, n, 256 * fi);
    assert (256 * fi) / 256 == fi;
    if fi < n { assert bitmap[fi / 8] == p[11 + fi / 8]; }
  }

  lemma {:induction false} MissingOfPrefix(bitmap: Bytes, len: nat, fi: nat, n: nat)
    requires len <= |bitmap| && n <= 8 * len
    ensures MissingFrom(bitmap[..len], fi, n) == MissingFrom(bitmap, fi, n)
    decreases n - fi
  {
    if fi < n {
      MissingOfPrefix(bitmap, len, fi + 1, n);
    }
  }

  /** What the sender decodes is what the receiver knew: the answer round-trips, with the
      list of exactly the frames whose bits are clear. */
  lemma AnswerRoundTrips(session: nat, offset: nat, ok: bool, n: nat, bitmap: Bytes)
    requires session < 0x1_0000_0000 && offset < 0x1_0000_0000
    requires 0 < n <= Rx.MAX_FRAMES && |bitmap| == Rx.BITMAP_SIZE
    ensures |Rx.AckPayload(session, offset, ok, n, bitmap)| >= 9
    ensures DecodeAck(Rx.AckPayload(session, offset, ok, n, bitmap))
         == Ack(session, offset, if ok then 1 else 0, Some(MissingFrom(bitmap, 0, n)))
  {
    hide Be16, Be32, Enc16, Enc32, Hits, Flag, Val;
    var p := Rx.AckPayload(session, offset, ok, n, bitmap);
    var a, b, c := Enc32(session), Enc32(offset), Enc16(n);
    var len := (n + 7) / 8;
    assert p[..4] == a && p[4..8] == b && p[9] == c[0] && p[10] == c[1];
    assert p[11..11 + len] == bitmap[..len];
    MissingOfPrefix(bitmap, len, 0, n);
    OkByte();
  }

  lemma OkByte()
    ensures Val(1) == 1 && Val(0) == 0
  {}

  // ---- the decision on an answer -------------------------------------------

  datatype Sender =
    | Sending(queue: seq<SpiFrame>, round: nat)
    | Draining(round: nat)
    | Waiting(round: nat)
    | Finished(ok: bool)

  /** The body of the retransmission loop after `wait_bitmap_ack` has returned. */
  function AfterReply(job: Job, round: nat, ok: nat, missing: Option<seq<nat>>): Sender {
    if ok != 0 then Finished(true)
    else if missing.None? then Draining(round + 1)
    else if missing.value == [] then Finished(true)
    else Sending(Resend(job, missing.value), round + 1)
  }

  datatype Reply = Reply(ok: nat, missing: Option<seq<nat>>)

  /** Result and retransmitted frames from round `r` on, given each wait's reply. */
  function Rounds(job: Job, replies: seq<Reply>, r: nat): (bool, seq<SpiFrame>)
    requires |replies| == MAX_ROUNDS
    decreases MAX_ROUNDS - r
  {
    if r >= MAX_ROUNDS then (false, [])
    else
      match AfterReply(job, r, replies[r].ok, replies[r].missing)
      case Finished(ok) => (ok, [])
      case Sending(queue, next) =>
        var rest := Rounds(job, replies, r + 1);
        (rest.0, queue + rest.1)
      case _ => Rounds(job, replies, r + 1)
  }

  // ---- what the loop does, in plain terms -----------------------------------

  /** What `data[offset:offset + 256]` gives. */
  function Slice(data: Bytes, offset: nat): Bytes {
    if offset >= |data| then [] else if offset + 256 <= |data| then data[offset..offset + 256] else data[offset..]
  }

  /** Types 3 and 4 are a photo's data frame and its END frame. */
  function Data(job: Job, offset: nat): SpiFrame {
    SpiFrame(3, job.session, |job.data|, offset, Slice(job.data, offset))
  }

  function End(job: Job): SpiFrame {
    SpiFrame(4, job.session, |job.data|, |job.data|, [])
  }

  /** A reply that ends the loop with success. */
  predicate Accepts(x: Reply) {
    x.ok != 0 || x.missing == Some([])
  }

  /** What a round sends: after a timeout nothing, after any other reply that does not end the loop
      the frames it lists, in its order, and END. */
  function Resent(job: Job, x: Reply): seq<SpiFrame> {
    match x.missing
    case None => []
    case Some(offsets) => seq(|offsets|, i requires 0 <= i < |offsets| => Data(job, offsets[i])) + [End(job)]
  }

  function AllResent(job: Job, replies: seq<Reply>): seq<SpiFrame> {
    if replies == [] then [] else Resent(job, replies[0]) + AllResent(job, replies[1..])
  }

  lemma FramesAre(job: Job, offset: nat)
    ensures DataFrame(job, offset) == Data(job, offset) && EndFrame(job) == End(job)
  {
    assert job.data[|job.data|..] == [];
  }

  lemma {:induction false} ResendIs(job: Job, offsets: seq<nat>)
    ensures Resend(job, offsets) == Resent(job, Reply(0, Some(offsets)))
    decreases |offsets|
  {
    hide Data, End, DataFrame, EndFrame;
    if offsets == [] {
      FramesAre(job, 0);
    } else {
      FramesAre(job, offsets[0]);
      ResendIs(job, offsets[1..]);
    }
  }

  /** The first round: the photo in steps of 256 bytes, and END. */
  function FirstFrames(job: Job): seq<SpiFrame> {
    seq((|job.data| + 255) / 256, i requires 0 <= i => Data(job, 256 * i)) + [End(job)]
  }

  lemma {:induction false} FirstRoundIs(job: Job, k: nat)
    requires 256 * k < |job.data| + 256
    ensures var n := (|job.data| + 255) / 256;
      k <= n && FirstRoundFrom(job, 256 * k) == seq(n - k, i requires 0 <= i => Data(job, 256 * (k + i))) + [End(job)]
    decreases |job.data| + 256 - 256 * k
  {
    hide Data, End, DataFrame, EndFrame;
    FramesAre(job, 256 * k);
    if 256 * k < |job.data| {
      if 256 * k + 256 < |job.data| {
        FirstRoundIs(job, k + 1);
      } else {
        assert FirstRoundFrom(job, |job.data|) == [EndFrame(job)];
      }
    }
  }

  /** The loop stops at the first reply that accepts, with success, or after six without; until
      then each round sends what its reply asks for. */
  lemma {:induction false} RoundsAre(job: Job, replies: seq<Reply>, r: nat) returns (stop: nat)
    requires |replies| == 6 && r <= 6
    ensures r <= stop <= 6
    ensures forall q :: r <= q < stop ==> !Accepts(replies[q])
    ensures stop < 6 ==> Accepts(replies[stop])
    ensures Rounds(job, replies, r) == (stop < 6, AllResent(job, replies[r..stop]))
    decreases 6 - r
  {
    hide Resend, Resent;
    RoundStep(job, replies, r);
    if r == 6 || Accepts(replies[r]) {
      stop := r;
      assert replies[r..r] == [];
    } else {
      stop := RoundsAre(job, replies, r + 1);
      assert replies[r..stop][0] == replies[r] && replies[r..stop][1..] == replies[r + 1..stop];
    }
  }

  /** One round of the loop. */
  lemma RoundStep(job: Job, replies: seq<Reply>, r: nat)
    requires |replies| == 6 && r <= 6
    ensures r == 6 ==> Rounds(job, replies, r) == (false, [])
    ensures r < 6 && Accepts(replies[r]) ==> Rounds(job, replies, r) == (true, [])
    ensures r < 6 && !Accepts(replies[r]) ==>
      var rest := Rounds(job, replies, r + 1);
      Rounds(job, replies, r) == (rest.0, Resent(job, replies[r]) + rest.1)
  {
    hide Resend, Data, End;
    if r < 6 && !Accepts(replies[r]) {
      var x, rest := replies[r], Rounds(job, replies, r + 1);
      assert [] + rest.1 == rest.1;
      if x.missing.Some? {
        ResendIs(job, x.missing.value);
      }
    }
  }

  lemma OutcomeIs(job: Job, replies: seq<Reply>) returns (stop: nat)
    requires |replies| == 6
    ensures stop <= 6
    ensures (forall q :: 0 <= q < stop ==> !Accepts(replies[q])) && (stop < 6 ==> Accepts(replies[stop]))
    ensures Rounds(job, replies, 0) == (stop < 6, AllResent(job, replies[..stop]))
    ensures FirstRoundFrom(job, 0) == FirstFrames(job)
  {
    hide Rounds, AllResent, FirstRoundFrom, Data, End;
    stop := RoundsAre(job, replies, 0);
    assert replies[0..stop] == replies[..stop];
    FirstRoundIs(job, 0);
    var n := (|job.data| + 255) / 256;
    assert seq(n - 0, i requires 0 <= i => Data(job, 256 * (0 + i))) == seq(n, i requires 0 <= i => Data(job, 256 * i));
  }

  method SendFramesByOffsets(job: Job, offsets: seq<nat>) returns (sent: seq<SpiFrame>)
    ensures sent == Resend(job, offsets)
  {
    sent := [];
    var i := 0;
    while i < |offsets|
      invariant 0 <= i <= |offsets|
      invariant Resend(job, offsets) == sent + Resend(job, offsets[i..])
    {
      assert offsets[i..][1..] == offsets[i + 1..];
      Associate(sent, [DataFrame(job, offsets[i])], Resend(job, offsets[i + 1..]));
      sent := sent + [DataFrame(job, offsets[i])];
      i := i + 1;
    }
    sent := sent + [EndFrame(job)];
  }

  /** All frames once, then six rounds at most: `stop` is the round whose reply ends the loop. */
  method SpiSendImage(job: Job, replies: seq<Reply>) returns (ok: bool, sent: seq<SpiFrame>, ghost stop: nat)
    requires |replies| == MAX_ROUNDS
    ensures stop <= 6 && (ok <==> stop < 6)
    ensures (forall q :: 0 <= q < stop ==> !Accepts(replies[q])) && (stop < 6 ==> Accepts(replies[stop]))
    ensures sent == FirstFrames(job) + AllResent(job, replies[..stop])
  {
    stop := OutcomeIs(job, replies);
    ok, sent := SendRounds(job, replies);
  }

  /** The loop itself. */
  method SendRounds(job: Job, replies: seq<Reply>) returns (ok: bool, sent: seq<SpiFrame>)
    requires |replies| == MAX_ROUNDS
    ensures (ok, sent) == (Rounds(job, replies, 0).0, FirstRoundFrom(job, 0) + Rounds(job, replies, 0).1)
  {
    hide Resend;
    var total := |job.data|;
    sent := [];
    var offset := 0;
    while offset < total
      invariant FirstRoundFrom(job, 0) == sent + FirstRoundFrom(job, offset)
      decreases total - offset
    {
      var chunk := Chunk(job.data, offset);
      Associate(sent, [DataFrame(job, offset)], FirstRoundFrom(job, offset + |chunk|));
      sent := sent + [SpiFrame(BIG_DATA, job.session, total, offset, chunk)];
      offset := offset + |chunk|;
    }
    sent := sent + [EndFrame(job)];
    assert sent == FirstRoundFrom(job, 0);
    ghost var first := sent;
    ghost var again := [];
    assert again + Rounds(job, replies, 0).1 == Rounds(job, replies, 0).1;
    var r := 0;
    while r < MAX_ROUNDS
      invariant 0 <= r <= MAX_ROUNDS
      invariant sent == first + again
      invariant Rounds(job, replies, 0) == (Rounds(job, replies, r).0, again + Rounds(job, replies, r).1)
    {
      var reply := replies[r];
      if reply.ok != 0 {
        assert again + [] == again;
        return true, sent;
      }
      if reply.missing.None? {
        r := r + 1;
        continue;
      }
      var missing := reply.missing.value;
      if |missing| == 0 {
        assert again + [] == again;
        return true, sent;
      }
      var resent := SendFramesByOffsets(job, missing);
      Associate(again, resent, Rounds(job, replies, r + 1).1);
      Associate(first, again, resent);
      again := again + resent;
      sent := sent + resent;
      r := r + 1;
    }
    assert again + [] == again;
    ok := false;
  }
}
