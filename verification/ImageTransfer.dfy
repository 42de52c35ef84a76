/** One photo transfer as a protocol: a sender, a receiver, and two channels that may lose,
    repeat and reorder whatever was put on them.

    A frame or answer once put on a channel stays in its set and may be delivered any number
    of times, in any order, or never; one that is damaged fails its CRC and is not delivered.
    The link carries frames of the current transfer only. The receiver reads a batch of frames
    into its stream buffer and handles them one by one; it reads only while it is active. A run
    is any sequence of enabled events. */
module ImageTransfer {
  import opened Bytes
  import opened Bitmap
  import opened SpiStream
  import opened ImageSender
  import opened Rx = ImageReceiver
  import Uart = UartFrames
  import Parser = Incremental

  const FRAME_ACK: Byte := 0x08

  /** `air` and `replies` hold what was ever put on the SPI and UART channels; `pass` is what the
      receiver has read and not handled yet; `kept` is whether the photo's file still exists;
      `inbox` is the sender's queue of decoded answers. */
  datatype State = State(
    sender: Sender, air: set<SpiFrame>, pass: seq<SpiFrame>, rx: Receiver, kept: bool,
    replies: set<Bytes>, inbox: seq<Ack>)

  datatype Event =
    | Send                                       // the sender puts its next frame on SPI
    | DrainOne | DrainDone                       // emptying the answer queue before a wait
    | Read(frames: seq<SpiFrame>)                // the receiver reads frames off the SPI link
    | Deliver(frame: SpiFrame, written: nat, answered: bool)   // and handles the first of them
    | Discard                                    // the received photo does not decode and is deleted
    | AnswerArrives(payload: Bytes)
    | Dequeue                                    // the wait takes an answer
    | Timeout

  function Init(job: Job): State
    requires Legal(job)
  {
    State(Sending(FirstRoundFrom(job, 0), 0), {}, [], Fresh(|job.data|), true, {}, [])
  }

  predicate Enabled(job: Job, s: State, e: Event) {
    match e
    case Send => s.sender.Sending? && s.sender.queue != []
    case DrainOne => s.sender.Draining? && s.sender.round < MAX_ROUNDS && s.inbox != []
    case DrainDone => s.sender.Draining? && (s.sender.round >= MAX_ROUNDS || s.inbox == [])
    case Read(frames) => s.rx.active && s.pass == [] && forall f | f in frames :: f in s.air
    case Deliver(f, written, _) =>
      s.pass != [] && f == s.pass[0] && written <= |f.payload| && Rx.Valid(s.rx)
      && (f.kind == BIG_DATA ==> f.offset < 0x1_0000_0000)
      && (f.kind == BIG_END ==> Counted(s.rx) <= MAX_FRAMES && f.session < 0x1_0000_0000)
    case Discard => !s.rx.active && s.kept
    case AnswerArrives(p) => p in s.replies && |p| >= 9
    case Dequeue => s.sender.Waiting? && s.inbox != []
    case Timeout => s.sender.Waiting?
  }

  function Apply(job: Job, s: State, e: Event): State
    requires Enabled(job, s, e)
  {
    match e
    case Send =>
      var rest := s.sender.queue[1..];
      s.(air := s.air + {s.sender.queue[0]},
         sender := if rest == [] then Draining(s.sender.round) else Sending(rest, s.sender.round))
    case DrainOne => s.(inbox := s.inbox[1..])
    case DrainDone =>
      s.(sender := if s.sender.round >= MAX_ROUNDS then Finished(false) else Waiting(s.sender.round))
    case Read(frames) => s.(pass := frames)
    case Deliver(f, written, answered) => Handle(s.(pass := s.pass[1..]), f, written, answered)
    case Discard => s.(kept := false)
    case AnswerArrives(p) => s.(inbox := s.inbox + [DecodeAck(p)])
    case Dequeue => TakeAnswer(job, s)
    case Timeout => s.(sender := AfterReply(job, s.sender.round, 0, None))
  }

  function Handle(s: State, f: SpiFrame, written: nat, answered: bool): State
    requires Rx.Valid(s.rx) && written <= |f.payload|
    requires f.kind == BIG_DATA ==> f.offset < 0x1_0000_0000
    requires f.kind == BIG_END ==> Counted(s.rx) <= MAX_FRAMES && f.session < 0x1_0000_0000
  {
    if f.kind == BIG_DATA then s.(rx := OnData(s.rx, f.offset, f.payload, written))
    else if f.kind == BIG_END then
      var a := OnEnd(s.rx, f.session);
      s.(rx := a.0, replies := if answered then s.replies + {a.1} else s.replies)
    else s
  }

  /** Answers for another session are thrown away and the wait goes on. */
  function TakeAnswer(job: Job, s: State): State
    requires s.sender.Waiting? && s.inbox != []
  {
    var a := s.inbox[0];
    s.(inbox := s.inbox[1..],
       sender := if a.sid == job.session then AfterReply(job, s.sender.round, a.ok, a.missing) else s.sender)
  }

  predicate Run(job: Job, s: State, events: seq<Event>)
    decreases |events|
  {
    events == [] || (Enabled(job, s, events[0]) && Run(job, Apply(job, s, events[0]), events[1..]))
  }

  function After(job: Job, s: State, events: seq<Event>): State
    requires Run(job, s, events)
    decreases |events|
  {
    if events == [] then s else After(job, Apply(job, s, events[0]), events[1..])
  }

  // ---- the invariant -------------------------------------------------------

  function FrameCount(job: Job): nat {
    (|job.data| + CHUNK - 1) / CHUNK
  }

  /** Frame `i` of the photo is on the receiver's disk. */
  ghost predicate Stored(job: Job, file: Bytes, i: nat) {
    && FrameEnd(job, i) <= |file|
    && forall k :: CHUNK * i <= k < FrameEnd(job, i) ==> file[k] == job.data[k]
  }

  function FrameEnd(job: Job, i: nat): (end: nat)
    ensures end <= |job.data|
  {
    if CHUNK * i + CHUNK < |job.data| then CHUNK * i + CHUNK else |job.data|
  }

  ghost predicate Missing(job: Job, rx: Receiver, i: nat)
    requires Legal(job) && Rx.Valid(rx)
  {
    i < FrameCount(job) && !BitSet(rx.bitmap, i)
  }

  ghost predicate RxInv(job: Job, rx: Receiver)
    requires Legal(job)
  {
    && Rx.Valid(rx) && rx.total == |job.data|
    && |rx.file| <= rx.total && rx.bigOffset <= rx.total && rx.nframes <= FrameCount(job)
    && (forall i :: 0 <= i < MAX_FRAMES && BitSet(rx.bitmap, i) ==> i < FrameCount(job) && Stored(job, rx.file, i))
    && (BitSet(rx.bitmap, FrameCount(job) - 1) ==> rx.bigOffset == rx.total)
    && (!rx.open ==> AllSet(rx.bitmap, FrameCount(job)))
    && rx.active == rx.open
  }

  predicate IsData(job: Job, f: SpiFrame) {
    f.offset % CHUNK == 0 && f.offset < |job.data| && f == DataFrame(job, f.offset)
  }

  predicate Genuine(job: Job, f: SpiFrame) {
    f == EndFrame(job) || IsData(job, f)
  }

  /** An answer lists every frame that is missing now (it may list more, being older), lists
      only offsets of real frames, and says ok exactly when it lists none. */
  ghost predicate Honest(job: Job, rx: Receiver, a: Ack)
    requires Legal(job) && Rx.Valid(rx)
  {
    && a.sid == job.session && a.missing.Some?
    && (a.ok != 0 <==> a.missing.value == [])
    && (forall off :: off in a.missing.value ==> off % CHUNK == 0 && off < |job.data|)
    && (forall i :: Missing(job, rx, i) ==> CHUNK * i in a.missing.value)
  }

  ghost predicate Reported(replies: set<Bytes>, off: nat) {
    exists p :: p in replies && |p| >= 9 && DecodeAck(p).missing.Some? && off in DecodeAck(p).missing.value
  }

  ghost predicate Decoded(replies: set<Bytes>, a: Ack) {
    exists p :: p in replies && |p| >= 9 && a == DecodeAck(p)
  }

  ghost predicate QueueInv(job: Job, sender: Sender, replies: set<Bytes>) {
    match sender
    case Sending(queue, round) =>
      && queue != [] && round <= MAX_ROUNDS && queue[|queue| - 1] == EndFrame(job)
      && (forall f :: f in queue ==> Genuine(job, f))
      && (round > 0 ==> forall f :: f in queue && f.kind == BIG_DATA ==> Reported(replies, f.offset))
    case Draining(round) => round <= MAX_ROUNDS
    case Waiting(round) => round < MAX_ROUNDS
    case Finished(_) => true
  }

  ghost predicate RepliesOk(job: Job, rx: Receiver, replies: set<Bytes>)
    requires Legal(job) && Rx.Valid(rx)
  {
    forall p :: p in replies ==> |p| >= 9 && Honest(job, rx, DecodeAck(p))
  }

  ghost predicate InboxOk(job: Job, rx: Receiver, replies: set<Bytes>, inbox: seq<Ack>)
    requires Legal(job) && Rx.Valid(rx)
  {
    forall a :: a in inbox ==> Honest(job, rx, a) && Decoded(replies, a)
  }

  ghost predicate Inv(job: Job, s: State)
    requires Legal(job)
  {
    && RxInv(job, s.rx)
    && (forall f :: f in s.air ==> Genuine(job, f))
    && (forall f :: f in s.pass ==> Genuine(job, f))
    && QueueInv(job, s.sender, s.replies)
    && RepliesOk(job, s.rx, s.replies)
    && InboxOk(job, s.rx, s.replies, s.inbox)
    && (s.sender == Finished(true) ==> AllSet(s.rx.bitmap, FrameCount(job)))
  }

  // ---- one frame at the receiver -------------------------------------------

  lemma WriteKeepsStored(job: Job, file: Bytes, offset: nat, written: nat, i: nat)
    requires offset + written <= |job.data|
    requires Stored(job, file, i)
    ensures Stored(job, WriteAt(file, offset, job.data[offset..offset + written]), i)
  {
    var bytes := job.data[offset..offset + written];
    var after := WriteAt(file, offset, bytes);
    forall k | CHUNK * i <= k < FrameEnd(job, i)
      ensures after[k] == job.data[k]
    {
      assert file[k] == job.data[k];
      if offset <= k < offset + written {
        assert after[k] == bytes[k - offset];
      }
    }
  }

  lemma FullWriteStores(job: Job, file: Bytes, offset: nat)
    requires offset % CHUNK == 0 && offset < |job.data|
    ensures Stored(job, WriteAt(file, offset, Chunk(job.data, offset)), offset / CHUNK)
  {
    hide WriteAt;
    var c := Chunk(job.data, offset);
    assert CHUNK * (offset / CHUNK) == offset;
    assert c == job.data[offset..offset + |c|];
  }

  /** The bit of a frame becomes set by its own complete write and by nothing else. */
  lemma DeliverySetsBitIff(job: Job, rx: Receiver, f: SpiFrame, written: nat, i: nat)
    requires Legal(job) && RxInv(job, rx) && IsData(job, f)
    requires written <= |f.payload| && i < MAX_FRAMES
    ensures BitSet(OnData(rx, f.offset, f.payload, written).bitmap, i)
       <==> BitSet(rx.bitmap, i) || (rx.open && written == |f.payload| && f.offset == CHUNK * i)
  {
    hide Hits, Flag, Set, WriteAt, Stored;
    var fidx := f.offset / CHUNK;
    assert FrameIndex(f.offset) == fidx < MAX_FRAMES;
    SetSetsOne(rx.bitmap, fidx, i);
  }

  lemma SizesAfterData(job: Job, rx: Receiver, f: SpiFrame, written: nat)
    requires Legal(job) && RxInv(job, rx) && IsData(job, f) && written <= |f.payload|
    ensures var r := OnData(rx, f.offset, f.payload, written);
      && r.total == rx.total && r.open == rx.open && r.active == rx.active && |r.file| <= |job.data|
      && rx.bigOffset <= r.bigOffset <= |job.data| && r.nframes <= FrameCount(job)
      && (rx.open && written == |f.payload| ==> f.offset + |f.payload| <= r.bigOffset)
  {
    hide Hits, Flag, Set, WriteAt, Stored, AllSet, BitSet;
    var c := Chunk(job.data, f.offset);
    assert FrameIndex(f.offset) == f.offset / CHUNK < FrameCount(job);
    assert U32(f.offset + |c|) == f.offset + |c|;
  }

  lemma LastBitAfterData(job: Job, rx: Receiver, f: SpiFrame, written: nat)
    requires Legal(job) && RxInv(job, rx) && IsData(job, f) && written <= |f.payload|
    ensures var r := OnData(rx, f.offset, f.payload, written);
      BitSet(r.bitmap, FrameCount(job) - 1) ==> r.bigOffset == |job.data|
  {
    hide OnData, Stored, BitSet, AllSet;
    SizesAfterData(job, rx, f, written);
    DeliverySetsBitIff(job, rx, f, written, FrameCount(job) - 1);
  }

  lemma OnDataKeeps(job: Job, rx: Receiver, f: SpiFrame, written: nat)
    requires Legal(job) && RxInv(job, rx) && IsData(job, f) && written <= |f.payload|
    ensures RxInv(job, OnData(rx, f.offset, f.payload, written))
  {
    hide OnData, BitSet, Stored;
    var r := OnData(rx, f.offset, f.payload, written);
    SizesAfterData(job, rx, f, written);
    LastBitAfterData(job, rx, f, written);
    forall i | 0 <= i < MAX_FRAMES && BitSet(r.bitmap, i)
      ensures i < FrameCount(job) && Stored(job, r.file, i)
    {
      StoredAfterData(job, rx, f, written, i);
    }
    if !r.open {
      forall i | 0 <= i < FrameCount(job)
        ensures BitSet(r.bitmap, i)
      {
        DeliverySetsBitIff(job, rx, f, written, i);
      }
    }
  }

  lemma StoredAfterData(job: Job, rx: Receiver, f: SpiFrame, written: nat, i: nat)
    requires Legal(job) && RxInv(job, rx) && IsData(job, f) && written <= |f.payload|
    requires i < MAX_FRAMES && BitSet(OnData(rx, f.offset, f.payload, written).bitmap, i)
    ensures i < FrameCount(job) && Stored(job, OnData(rx, f.offset, f.payload, written).file, i)
  {
    hide Hits, Flag, Set, WriteAt, Stored;
    var c := Chunk(job.data, f.offset);
    assert c[..written] == job.data[f.offset..f.offset + written];
    assert c[..|c|] == c;
    DeliverySetsBitIff(job, rx, f, written, i);
    if BitSet(rx.bitmap, i) {
      if rx.open { WriteKeepsStored(job, rx.file, f.offset, written, i); }
    } else {
      FullWriteStores(job, rx.file, f.offset);
    }
  }

  lemma OnEndKeeps(job: Job, rx: Receiver)
    requires Legal(job) && RxInv(job, rx)
    ensures Counted(rx) == FrameCount(job)
    ensures RxInv(job, OnEnd(rx, job.session).0) && OnEnd(rx, job.session).0.bitmap == rx.bitmap
    ensures BigOk(rx) <==> AllSet(rx.bitmap, FrameCount(job))
  {
    hide Hits, Flag, Stored, AckPayload, AllSet, Counted;
    CountedIsAll(job, rx);
    LastBitMeansAllSeen(job, rx);
  }

  lemma CountedIsAll(job: Job, rx: Receiver)
    requires Legal(job) && RxInv(job, rx)
    ensures Counted(rx) == FrameCount(job)
  {
    hide Hits, Flag, Stored, AllSet, BitSet;
    var n := |job.data| + CHUNK - 1;
    assert n < 0x1_0000 * CHUNK;
    assert U32(n) == n && U16(n / CHUNK) == n / CHUNK;
  }

  lemma LastBitMeansAllSeen(job: Job, rx: Receiver)
    requires Legal(job) && RxInv(job, rx)
    ensures AllSet(rx.bitmap, FrameCount(job)) ==> rx.bigOffset == rx.total
  {
    hide Hits, Flag, Stored;
    if AllSet(rx.bitmap, FrameCount(job)) {
      assert BitSet(rx.bitmap, FrameCount(job) - 1);
    }
  }

  /** The answer an END frame would get now. */
  ghost function AnswerOf(job: Job, rx: Receiver): (p: Bytes)
    requires Legal(job) && RxInv(job, rx)
    ensures |p| >= 9
  {
    OnEndKeeps(job, rx);
    OnEnd(rx, job.session).1
  }

  lemma AnswerIsHonest(job: Job, rx: Receiver)
    requires Legal(job) && RxInv(job, rx)
    ensures var p := OnEnd(rx, job.session).1;
      && |p| >= 9 && Honest(job, OnEnd(rx, job.session).0, DecodeAck(p))
      && (DecodeAck(p).ok != 0 <==> AllSet(rx.bitmap, FrameCount(job)))
  {
    hide Hits, Flag, Stored, AckPayload, DecodeAck;
    OnEndKeeps(job, rx);
    var n := FrameCount(job);
    AnswerRoundTrips(job.session, rx.bigOffset, BigOk(rx), n, rx.bitmap);
    var missing := MissingFrom(rx.bitmap, 0, n);
    forall off: nat
      ensures off in missing <==> off % CHUNK == 0 && off / CHUNK < n && !BitSet(rx.bitmap, off / CHUNK)
    {
      MissingContents(rx.bitmap, 0, n, off);
    }
    forall i | 0 <= i < n && !BitSet(rx.bitmap, i)
      ensures CHUNK * i in missing
    {
      assert (CHUNK * i) / CHUNK == i;
    }
    if missing != [] {
      assert missing[0] in missing;
      assert !AllSet(rx.bitmap, n);
    }
  }

  lemma HonestStays(job: Job, rx: Receiver, rx': Receiver, a: Ack)
    requires Legal(job) && Rx.Valid(rx) && Rx.Valid(rx')
    requires forall i :: Missing(job, rx', i) ==> Missing(job, rx, i)
    requires Honest(job, rx, a)
    ensures Honest(job, rx', a)
  {}

  /** All bits set means the disk holds the photo, byte for byte and no more. */
  lemma AllSetIsComplete(job: Job, rx: Receiver)
    requires Legal(job) && RxInv(job, rx)
    requires AllSet(rx.bitmap, FrameCount(job))
    ensures rx.file == job.data
  {
    hide Hits, Flag;
    var last := FrameCount(job) - 1;
    assert BitSet(rx.bitmap, last) && Stored(job, rx.file, last);
    assert FrameEnd(job, last) == |job.data|;
    forall k | 0 <= k < |job.data|
      ensures rx.file[k] == job.data[k]
    {
      var i := k / CHUNK;
      assert i < FrameCount(job) && CHUNK * i <= k < CHUNK * i + CHUNK;
      assert BitSet(rx.bitmap, i);
      assert Stored(job, rx.file, i);
    }
  }

  // ---- every event keeps the invariant -------------------------------------

  lemma {:induction false} FirstRoundIsGenuine(job: Job, offset: nat)
    requires Legal(job)
    requires offset % CHUNK == 0 || offset >= |job.data|
    ensures var q := FirstRoundFrom(job, offset);
      q != [] && q[|q| - 1] == EndFrame(job) && forall f :: f in q ==> Genuine(job, f)
    decreases |job.data| - offset
  {
    if offset < |job.data| {
      FirstRoundIsGenuine(job, offset + |Chunk(job.data, offset)|);
    }
  }

  lemma {:induction false} ResendIsGenuine(job: Job, offsets: seq<nat>)
    requires Legal(job)
    requires forall off :: off in offsets ==> off % CHUNK == 0 && off < |job.data|
    ensures var q := Resend(job, offsets);
      && q != [] && q[|q| - 1] == EndFrame(job)
      && (forall f :: f in q ==> Genuine(job, f) && (f.kind == BIG_DATA ==> f.offset in offsets))
    decreases |offsets|
  {
    if offsets != [] {
      assert offsets[0] in offsets;
      assert forall off :: off in offsets[1..] ==> off in offsets;
      ResendIsGenuine(job, offsets[1..]);
    }
  }

  lemma InitInv(job: Job)
    requires Legal(job)
    ensures Inv(job, Init(job))
  {
    hide Hits, Flag, FirstRoundFrom, EndFrame;
    FirstRoundIsGenuine(job, 0);
    forall i | 0 <= i < MAX_FRAMES
      ensures !BitSet(Empty(BITMAP_SIZE), i)
    {
      EmptyHasNone(BITMAP_SIZE, i);
    }
  }

  lemma SendInv(job: Job, s: State)
    requires Legal(job) && Inv(job, s) && Enabled(job, s, Send)
    ensures Inv(job, Apply(job, s, Send))
  {
    hide RxInv, Honest, Decoded, Genuine, EndFrame, Reported, Hits, Flag;
    var q := s.sender.queue;
    assert q[0] in q;
    assert forall f :: f in q[1..] ==> f in q;
  }

  lemma GenuineKinds(job: Job, f: SpiFrame)
    requires Genuine(job, f)
    ensures if f.kind == BIG_DATA then IsData(job, f) else f == EndFrame(job)
  {}

  /** Taking the first frame of the pass changes nothing else. */
  lemma PassInv(job: Job, s: State)
    requires Legal(job) && Inv(job, s) && s.pass != []
    ensures Inv(job, s.(pass := s.pass[1..])) && Genuine(job, s.pass[0])
  {
    hide RxInv, QueueInv, RepliesOk, InboxOk, Genuine;
    assert s.pass[0] in s.pass;
    assert forall f :: f in s.pass[1..] ==> f in s.pass;
  }

  lemma HandleDataInv(job: Job, s: State, f: SpiFrame, written: nat)
    requires Legal(job) && Inv(job, s) && IsData(job, f) && written <= |f.payload|
    ensures var rx' := OnData(s.rx, f.offset, f.payload, written);
      && Inv(job, s.(rx := rx'))
      && forall i :: Missing(job, rx', i) ==> Missing(job, s.rx, i)
  {
    hide RxInv, Honest, Decoded, Reported, OnData, Hits, Flag, QueueInv, Genuine;
    var rx := s.rx;
    RxInvIsValid(job, rx);
    OnDataKeeps(job, rx, f, written);
    var rx' := OnData(rx, f.offset, f.payload, written);
    RxInvIsValid(job, rx');
    BitsOnlyGrow(job, rx, f, written);
    forall p | p in s.replies
      ensures Honest(job, rx', DecodeAck(p))
    {
      HonestStays(job, rx, rx', DecodeAck(p));
    }
    forall a | a in s.inbox
      ensures Honest(job, rx', a)
    {
      HonestStays(job, rx, rx', a);
    }
  }

  lemma RxInvIsValid(job: Job, rx: Receiver)
    requires Legal(job) && RxInv(job, rx)
    ensures Rx.Valid(rx) && Counted(rx) <= MAX_FRAMES
  {
    OnEndKeeps(job, rx);
  }

  lemma BitsOnlyGrow(job: Job, rx: Receiver, f: SpiFrame, written: nat)
    requires Legal(job) && RxInv(job, rx) && IsData(job, f) && written <= |f.payload|
    ensures var rx' := OnData(rx, f.offset, f.payload, written);
      && (forall i :: Missing(job, rx', i) ==> Missing(job, rx, i))
      && (AllSet(rx.bitmap, FrameCount(job)) ==> AllSet(rx'.bitmap, FrameCount(job)))
  {
    hide OnData, Hits, Flag, Stored;
    var rx' := OnData(rx, f.offset, f.payload, written);
    forall i | 0 <= i < FrameCount(job)
      ensures BitSet(rx.bitmap, i) ==> BitSet(rx'.bitmap, i)
    {
      DeliverySetsBitIff(job, rx, f, written, i);
    }
  }

  lemma HandleEndInv(job: Job, s: State, answered: bool)
    requires Legal(job) && Inv(job, s) && Rx.Valid(s.rx) && Counted(s.rx) <= MAX_FRAMES
    ensures var a := OnEnd(s.rx, job.session);
      && Inv(job, s.(rx := a.0, replies := if answered then s.replies + {a.1} else s.replies))
      && a.0.bitmap == s.rx.bitmap
  {
    hide RxInv, Honest, Decoded, Reported, OnEnd, Hits, Flag, Genuine, AllSet;
    var rx, a := s.rx, OnEnd(s.rx, job.session);
    OnEndKeeps(job, rx);
    AnswerIsHonest(job, rx);
    var rx' := a.0;
    RxInvIsValid(job, rx');
    var replies := if answered then s.replies + {a.1} else s.replies;
    forall p | p in replies
      ensures |p| >= 9 && Honest(job, rx', DecodeAck(p))
    {
      if p in s.replies { HonestStays(job, rx, rx', DecodeAck(p)); }
    }
    forall b | b in s.inbox
      ensures Honest(job, rx', b) && Decoded(replies, b)
    {
      HonestStays(job, rx, rx', b);
      DecodedGrows(s.replies, replies, b);
    }
    if s.sender.Sending? {
      forall f | f in s.sender.queue && Reported(s.replies, f.offset)
        ensures Reported(replies, f.offset)
      {
        ReportedGrows(s.replies, replies, f.offset);
      }
    }
  }

  lemma DeliverInv(job: Job, s: State, e: Event)
    requires Legal(job) && Inv(job, s) && e.Deliver? && Enabled(job, s, e)
    ensures Inv(job, Apply(job, s, e))
    ensures forall i :: Missing(job, Apply(job, s, e).rx, i) ==> Missing(job, s.rx, i)
  {
    hide RxInv, OnData, OnEnd, Honest, QueueInv, RepliesOk, InboxOk, Genuine, IsData, EndFrame, AllSet, Hits, Flag;
    PassInv(job, s);
    var f, m := e.frame, s.(pass := s.pass[1..]);
    GenuineKinds(job, f);
    if f.kind == BIG_DATA {
      HandleDataInv(job, m, f, e.written);
    } else {
      EndFrameKind(job);
      HandleEndInv(job, m, e.answered);
    }
  }

  lemma EndFrameKind(job: Job)
    ensures EndFrame(job).kind == BIG_END && EndFrame(job).session == job.session
  {}

  lemma DecodedGrows(r: set<Bytes>, r': set<Bytes>, a: Ack)
    requires r <= r' && Decoded(r, a)
    ensures Decoded(r', a)
  {}

  lemma ReportedGrows(r: set<Bytes>, r': set<Bytes>, off: nat)
    requires r <= r' && Reported(r, off)
    ensures Reported(r', off)
  {}

  lemma DequeueInv(job: Job, s: State)
    requires Legal(job) && Inv(job, s) && s.sender.Waiting? && s.inbox != []
    ensures Inv(job, TakeAnswer(job, s))
  {
    assert Rx.Valid(s.rx);
    hide RxInv, AfterReply, AllSet, QueueInv, RepliesOk, InboxOk, Legal;
    HeadAndTail(job, s.rx, s.replies, s.inbox);
    WaitingRound(job, s);
    ReplyInv(job, s.rx, s.replies, s.inbox[0], s.sender.round);
  }

  lemma HeadAndTail(job: Job, rx: Receiver, replies: set<Bytes>, inbox: seq<Ack>)
    requires Legal(job) && Rx.Valid(rx) && inbox != [] && InboxOk(job, rx, replies, inbox)
    ensures Honest(job, rx, inbox[0]) && Decoded(replies, inbox[0])
    ensures InboxOk(job, rx, replies, inbox[1..])
  {
    hide Honest, Decoded;
    assert inbox[0] in inbox;
    assert forall b :: b in inbox[1..] ==> b in inbox;
  }

  lemma WaitingRound(job: Job, s: State)
    requires s.sender.Waiting? && QueueInv(job, s.sender, s.replies)
    ensures s.sender.round < MAX_ROUNDS
  {}

  lemma ReplyInv(job: Job, rx: Receiver, replies: set<Bytes>, a: Ack, round: nat)
    requires Legal(job) && RxInv(job, rx) && Honest(job, rx, a) && Decoded(replies, a) && round < MAX_ROUNDS
    ensures var next := AfterReply(job, round, a.ok, a.missing);
      && QueueInv(job, next, replies)
      && (next == Finished(true) ==> AllSet(rx.bitmap, FrameCount(job)))
  {
    if a.missing.value == [] {
      HonestOkMeansAllSet(job, rx, a);
    } else {
      hide RxInv, Hits, Flag, EndFrame, DataFrame, Genuine, Resend;
      ResendIsGenuine(job, a.missing.value);
      forall off | off in a.missing.value
        ensures Reported(replies, off)
      {
        ListedIsReported(replies, a, off);
      }
    }
  }

  lemma ListedIsReported(replies: set<Bytes>, a: Ack, off: nat)
    requires Decoded(replies, a) && a.missing.Some? && off in a.missing.value
    ensures Reported(replies, off)
  {
    hide DecodeAck;
    var p :| p in replies && |p| >= 9 && a == DecodeAck(p);
  }

  /** Nothing listed as missing means nothing is missing. */
  lemma HonestOkMeansAllSet(job: Job, rx: Receiver, a: Ack)
    requires Legal(job) && RxInv(job, rx) && Honest(job, rx, a) && a.missing.value == []
    ensures AllSet(rx.bitmap, FrameCount(job))
  {
    hide Hits, Flag, Stored;
    forall i | 0 <= i < FrameCount(job)
      ensures BitSet(rx.bitmap, i)
    {
      assert !Missing(job, rx, i);
    }
  }

  lemma InboxInv(job: Job, s: State, e: Event)
    requires Legal(job) && Inv(job, s) && Enabled(job, s, e)
    requires !e.Send? && !e.Deliver? && !e.Dequeue?
    ensures Inv(job, Apply(job, s, e)) && Apply(job, s, e).rx == s.rx
  {
    hide RxInv, Honest, Genuine, Hits, Flag, DecodeAck;
    if e.AnswerArrives? {
      assert Decoded(s.replies, DecodeAck(e.payload));
    }
    if e.DrainOne? {
      assert forall b :: b in s.inbox[1..] ==> b in s.inbox;
    }
  }

  lemma StepInv(job: Job, s: State, e: Event)
    requires Legal(job) && Inv(job, s) && Enabled(job, s, e)
    ensures Inv(job, Apply(job, s, e))
    ensures forall i :: Missing(job, Apply(job, s, e).rx, i) ==> Missing(job, s.rx, i)
  {
    hide RxInv, QueueInv, Honest, Genuine, Decoded, Handle, OnData, OnEnd, Hits, Flag, DecodeAck, AfterReply;
    match e
    case Send => SendInv(job, s);
    case Deliver(_, _, _) => DeliverInv(job, s, e);
    case Dequeue => DequeueInv(job, s);
    case _ => InboxInv(job, s, e);
  }

  lemma {:induction false} RunInv(job: Job, s: State, events: seq<Event>)
    requires Legal(job) && Inv(job, s) && Run(job, s, events)
    ensures Inv(job, After(job, s, events))
    ensures forall i :: Missing(job, After(job, s, events).rx, i) ==> Missing(job, s.rx, i)
    decreases |events|
  {
    hide Inv, Missing, Apply, Enabled;
    if events != [] {
      StepInv(job, s, events[0]);
      RunInv(job, Apply(job, s, events[0]), events[1..]);
    }
  }

  // ---- what every run guarantees -------------------------------------------

  /** The photo's file, unless it has been deleted. */
  function OnDisk(s: State): Option<Bytes> {
    if s.kept then Some(s.rx.file) else None
  }

  /** Safety. In every run over channels that lose, repeat and reorder frames and answers,
      with disk writes that may fall short, success at the sender means that the receiver has
      written the photo, byte for byte, and that its file is the photo at that moment and from
      then on, unless the receiver itself deletes it because it does not decode. */
  lemma SuccessMeansDelivered(job: Job, events: seq<Event>, later: seq<Event>)
    requires Legal(job) && Run(job, Init(job), events)
    requires After(job, Init(job), events).sender == Finished(true)
    requires Run(job, After(job, Init(job), events), later)
    ensures var s := After(job, Init(job), events); var t := After(job, s, later);
      && s.rx.file == job.data && t.rx.file == job.data
      && OnDisk(s) == (if Discard in events then None else Some(job.data))
      && OnDisk(t) == (if Discard in events || Discard in later then None else Some(job.data))
  {
    hide Run, After, Init, Hits, Flag;
    var s := After(job, Init(job), events);
    InitInv(job);
    RunInv(job, Init(job), events);
    AllSetIsComplete(job, s.rx);
    RunInv(job, s, later);
    var t := After(job, s, later);
    forall i | 0 <= i < FrameCount(job)
      ensures BitSet(t.rx.bitmap, i)
    {
      assert BitSet(s.rx.bitmap, i);
      assert !Missing(job, s.rx, i);
      assert !Missing(job, t.rx, i);
    }
    AllSetIsComplete(job, t.rx);
    KeptUnlessDiscarded(job, Init(job), events);
    KeptUnlessDiscarded(job, s, later);
    StartsKept(job);
  }

  lemma StartsKept(job: Job)
    requires Legal(job)
    ensures Init(job).kept
  {}

  lemma {:induction false} KeptUnlessDiscarded(job: Job, s: State, events: seq<Event>)
    requires Run(job, s, events)
    ensures After(job, s, events).kept <==> s.kept && Discard !in events
    decreases |events|
  {
    hide OnData, OnEnd, AfterReply, DecodeAck;
    if events != [] {
      KeptUnlessDiscarded(job, Apply(job, s, events[0]), events[1..]);
      assert Discard in events <==> events[0] == Discard || Discard in events[1..];
    }
  }

  /** The sender's branch for an answer that is not ok yet lists nothing as missing is dead:
      no answer of this transfer, however old, takes it. */
  lemma NotOkAnswersListSomething(job: Job, events: seq<Event>, a: Ack)
    requires Legal(job) && Run(job, Init(job), events)
    requires a in After(job, Init(job), events).inbox
    ensures a.sid == job.session && a.missing.Some? && (a.ok == 0 <==> a.missing.value != [])
  {
    InitInv(job);
    RunInv(job, Init(job), events);
  }

  /** The missing set only shrinks, over any stretch of any run. */
  lemma MissingOnlyShrinks(job: Job, events: seq<Event>, later: seq<Event>, i: nat)
    requires Legal(job) && Run(job, Init(job), events)
    requires Run(job, After(job, Init(job), events), later)
    ensures Rx.Valid(After(job, Init(job), events).rx)
    ensures Rx.Valid(After(job, After(job, Init(job), events), later).rx)
    ensures Missing(job, After(job, After(job, Init(job), events), later).rx, i)
        ==> Missing(job, After(job, Init(job), events).rx, i)
  {
    hide Run, After, Init, Missing;
    InitInv(job);
    RunInv(job, Init(job), events);
    RunInv(job, After(job, Init(job), events), later);
  }

  /** Retransmission is selective: a data frame sent after the first round carries a real
      frame offset that some answer of the receiver listed as missing. */
  lemma ResentFramesWereReported(job: Job, events: seq<Event>)
    requires Legal(job) && Run(job, Init(job), events)
    requires var s := After(job, Init(job), events);
      s.sender.Sending? && s.sender.round > 0 && s.sender.queue != [] && s.sender.queue[0].kind == BIG_DATA
    ensures var s := After(job, Init(job), events); var f := s.sender.queue[0];
      IsData(job, f) && Reported(s.replies, f.offset)
  {
    hide Run, After, Init, RxInv, Honest, Decoded;
    InitInv(job);
    RunInv(job, Init(job), events);
    var s := After(job, Init(job), events);
    assert s.sender.queue[0] in s.sender.queue;
  }

  /** What travels fits its framing: every SPI frame can be packed, and every answer, whole
      bitmap included, is a UART frame that the reader parses back. */
  lemma MessagesFitTheirFrames(job: Job, events: seq<Event>)
    requires Legal(job) && Run(job, Init(job), events)
    ensures var s := After(job, Init(job), events);
      && (forall f :: f in s.air ==> Packable(f))
      && (forall p :: p in s.replies ==> Uart.Sendable(Uart.Frame(FRAME_ACK, 0, p)))
  {
    hide After, Run, DecodeAck, AckPayload, Packable, Uart.Sendable;
    InitInv(job);
    RunInv(job, Init(job), events);
    RepliesAreShort(job, Init(job), events);
    var s := After(job, Init(job), events);
    forall f | f in s.air
      ensures Packable(f)
    {
      GenuineIsPackable(job, f);
    }
    forall p | p in s.replies
      ensures Uart.Sendable(Uart.Frame(FRAME_ACK, 0, p))
    {
      assert |p| <= 11 + BITMAP_SIZE;
      ShortIsSendable(p);
    }
  }

  lemma GenuineIsPackable(job: Job, f: SpiFrame)
    requires Legal(job) && Genuine(job, f)
    ensures Packable(f)
  {}

  lemma ShortIsSendable(p: Bytes)
    requires |p| <= 11 + BITMAP_SIZE
    ensures Uart.Sendable(Uart.Frame(FRAME_ACK, 0, p))
  {}

  lemma {:induction false} RepliesAreShort(job: Job, s: State, events: seq<Event>)
    requires Run(job, s, events)
    requires forall p :: p in s.replies ==> |p| <= 11 + BITMAP_SIZE
    ensures forall p :: p in After(job, s, events).replies ==> |p| <= 11 + BITMAP_SIZE
    decreases |events|
  {
    hide Enabled, Apply;
    if events != [] {
      StepRepliesAreShort(job, s, events[0]);
      RepliesAreShort(job, Apply(job, s, events[0]), events[1..]);
    }
  }

  lemma StepRepliesAreShort(job: Job, s: State, e: Event)
    requires Enabled(job, s, e)
    requires forall p :: p in s.replies ==> |p| <= 11 + BITMAP_SIZE
    ensures forall p :: p in Apply(job, s, e).replies ==> |p| <= 11 + BITMAP_SIZE
  {
    hide AckPayload, OnData, DecodeAck, AfterReply, Hits, Flag;
  }

  // ---- the bitmap is a record of complete deliveries ------------------------

  predicate DeliversFully(job: Job, e: Event, i: nat) {
    e.Deliver? && IsData(job, e.frame) && e.frame.offset == CHUNK * i && e.written == |e.frame.payload|
  }

  ghost predicate DeliveredIn(job: Job, events: seq<Event>, i: nat) {
    exists j :: 0 <= j < |events| && DeliversFully(job, events[j], i)
  }

  lemma {:induction false} BitsRecordDeliveries(job: Job, s: State, events: seq<Event>, i: nat)
    requires Legal(job) && Inv(job, s) && Run(job, s, events) && i < FrameCount(job)
    ensures Inv(job, After(job, s, events))
    ensures BitSet(After(job, s, events).rx.bitmap, i) <==> BitSet(s.rx.bitmap, i) || DeliveredIn(job, events, i)
    decreases |events|
  {
    hide Inv, Apply, Enabled, BitSet, DeliversFully;
    if events != [] {
      var t := Apply(job, s, events[0]);
      StepRecords(job, s, events[0], i);
      BitsRecordDeliveries(job, t, events[1..], i);
      if DeliveredIn(job, events, i) && !DeliversFully(job, events[0], i) {
        var j :| 0 <= j < |events| && DeliversFully(job, events[j], i);
        assert events[1..][j - 1] == events[j];
      }
    }
  }

  lemma StepRecords(job: Job, s: State, e: Event, i: nat)
    requires Legal(job) && Inv(job, s) && Enabled(job, s, e) && i < FrameCount(job)
    ensures Inv(job, Apply(job, s, e))
    ensures BitSet(Apply(job, s, e).rx.bitmap, i) <==> BitSet(s.rx.bitmap, i) || DeliversFully(job, e, i)
  {
    StepInv(job, s, e);
    hide OnData, OnEnd, Hits, Flag, Honest, Genuine, IsData, DecodeAck, QueueInv, RepliesOk, InboxOk;
    hide RxInv, AllSet, BitSet;
    if e.Deliver? {
      PassInv(job, s);
      GenuineKinds(job, e.frame);
      if e.frame.kind == BIG_DATA {
        DataRecords(job, s.rx, e.frame, e.written, i);
      } else {
        EndFrameKind(job);
        OnEndKeeps(job, s.rx);
        EndIsNoData(job);
      }
    }
  }

  lemma DataRecords(job: Job, rx: Receiver, f: SpiFrame, written: nat, i: nat)
    requires Legal(job) && RxInv(job, rx) && IsData(job, f) && written <= |f.payload| && i < FrameCount(job)
    ensures BitSet(OnData(rx, f.offset, f.payload, written).bitmap, i)
       <==> BitSet(rx.bitmap, i) || (f.offset == CHUNK * i && written == |f.payload|)
  {
    hide OnData, Hits, Flag, Stored;
    DeliverySetsBitIff(job, rx, f, written, i);
  }

  lemma EndIsNoData(job: Job)
    ensures !IsData(job, EndFrame(job))
  {}

  /** The receiver answers ok exactly when every frame of the photo has been delivered and
      completely written at least once during the run, in whatever order and rounds. */
  lemma AnswersOkIffAllDelivered(job: Job, events: seq<Event>)
    requires Legal(job) && Run(job, Init(job), events)
    ensures var rx := After(job, Init(job), events).rx;
      && RxInv(job, rx)
      && (DecodeAck(AnswerOf(job, rx)).ok != 0
          <==> forall i :: 0 <= i < FrameCount(job) ==> DeliveredIn(job, events, i))
  {
    hide Hits, Flag, Run, After, DeliveredIn, Stored, OnEnd, DecodeAck;
    InitInv(job);
    RunInv(job, Init(job), events);
    AnswerIsHonest(job, After(job, Init(job), events).rx);
    OnEndKeeps(job, After(job, Init(job), events).rx);
    forall i | 0 <= i < FrameCount(job)
      ensures BitSet(After(job, Init(job), events).rx.bitmap, i) <==> DeliveredIn(job, events, i)
    {
      EmptyHasNone(BITMAP_SIZE, i);
      BitsRecordDeliveries(job, Init(job), events, i);
    }
  }

  /** Once every frame has been delivered, whichever way, the next answer to END makes the
      sender finish with success in any state in which it comes to the head of the wait. */
  lemma AnswerAfterDeliveryFinishes(job: Job, events: seq<Event>, u: State)
    requires Legal(job) && Run(job, Init(job), events)
    requires forall i :: 0 <= i < FrameCount(job) ==> DeliveredIn(job, events, i)
    ensures var rx := After(job, Init(job), events).rx;
      && RxInv(job, rx)
      && (u.sender.Waiting? && u.inbox != [] && u.inbox[0] == DecodeAck(AnswerOf(job, rx))
          ==> TakeAnswer(job, u).sender == Finished(true))
  {
    hide Hits, Flag, Run, After, DeliveredIn, Stored, OnEnd, DecodeAck;
    AnswersOkIffAllDelivered(job, events);
    AnswerIsHonest(job, After(job, Init(job), events).rx);
  }
}
