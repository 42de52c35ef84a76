/** When the image transfer can still succeed. A receiver that has answered ok stops reading
    the SPI link, so an ok answer that never arrives is not repeated. */
module ImageProgress {
  import opened Bytes
  import opened Bitmap
  import opened SpiStream
  import opened ImageSender
  import opened Rx = ImageReceiver
  import opened ImageTransfer

  // ---- the frames of a round --------------------------------------------------

  lemma {:induction false} ResendCovers(job: Job, offsets: seq<nat>)
    requires forall off :: off in offsets ==> off % CHUNK == 0 && off < |job.data|
    ensures var q := Resend(job, offsets);
      && |q| == |offsets| + 1 && q[|offsets|] == EndFrame(job)
      && forall k :: 0 <= k < |offsets| ==> IsData(job, q[k]) && q[k].offset == offsets[k]
    decreases |offsets|
  {
    if offsets != [] {
      assert offsets[0] in offsets;
      assert forall off :: off in offsets[1..] ==> off in offsets;
      ResendCovers(job, offsets[1..]);
    }
  }

  lemma {:induction false} FirstRoundCovers(job: Job, i: nat)
    requires Legal(job) && i <= FrameCount(job)
    ensures var q := FirstRoundFrom(job, CHUNK * i);
      && |q| == FrameCount(job) - i + 1 && q[|q| - 1] == EndFrame(job)
      && forall k :: 0 <= k < |q| - 1 ==> IsData(job, q[k]) && q[k].offset == CHUNK * (i + k)
    decreases FrameCount(job) - i
  {
    if i < FrameCount(job) {
      hide IsData, EndFrame;
      FirstRoundCovers(job, i + 1);
      var q, rest := FirstRoundFrom(job, CHUNK * i), FirstRoundFrom(job, CHUNK * (i + 1));
      RestOfFirstRound(job, i);
      DataFrameIsData(job, i);
      forall k | 0 <= k < |q| - 1
        ensures IsData(job, q[k]) && q[k].offset == CHUNK * (i + k)
      {
        if k > 0 { assert q[k] == rest[k - 1]; }
      }
    }
  }

  lemma RestOfFirstRound(job: Job, i: nat)
    requires CHUNK * i < |job.data|
    ensures FirstRoundFrom(job, CHUNK * i) == [DataFrame(job, CHUNK * i)] + FirstRoundFrom(job, CHUNK * (i + 1))
  {
    hide DataFrame, EndFrame;
    var next := CHUNK * i + |Chunk(job.data, CHUNK * i)|;
    if next != CHUNK * (i + 1) {
      assert next == |job.data|;
    }
  }

  lemma DataFrameIsData(job: Job, i: nat)
    requires CHUNK * i < |job.data|
    ensures IsData(job, DataFrame(job, CHUNK * i))
  {}

  // ---- runs one after the other --------------------------------------------

  ghost predicate Takes(job: Job, s: State, events: seq<Event>, t: State) {
    Run(job, s, events) && After(job, s, events) == t
  }

  lemma TakesNone(job: Job, s: State)
    ensures Takes(job, s, [], s)
  {}

  lemma TakesFirst(job: Job, s: State, e: Event, t: State, rest: seq<Event>, u: State)
    requires Enabled(job, s, e) && t == Apply(job, s, e) && Takes(job, t, rest, u)
    ensures Takes(job, s, [e] + rest, u)
  {
    hide Enabled, Apply;
    assert ([e] + rest)[1..] == rest;
  }

  lemma TakesOne(job: Job, s: State, e: Event, t: State)
    requires Enabled(job, s, e) && t == Apply(job, s, e)
    ensures Takes(job, s, [e], t)
  {
    hide Enabled, Apply;
    TakesNone(job, t);
    TakesFirst(job, s, e, t, [], t);
    assert [e] + [] == [e];
  }

  lemma {:induction false} TakesThen(job: Job, s: State, a: seq<Event>, t: State, b: seq<Event>, u: State)
    requires Takes(job, s, a, t) && Takes(job, t, b, u)
    ensures Takes(job, s, a + b, u)
    decreases |a|
  {
    hide Enabled, Apply;
    if a == [] {
      assert a + b == b;
    } else {
      assert (a + b)[1..] == a[1..] + b;
      TakesThen(job, Apply(job, s, a[0]), a[1..], t, b, u);
    }
  }

  // ---- what has been sent --------------------------------------------------

  /** Every frame of the photo, and END, has been put on the link or is about to be. */
  ghost predicate Underway(job: Job, s: State) {
    forall f :: f in FirstRoundFrom(job, 0) ==> f in s.air || (s.sender.Sending? && f in s.sender.queue)
  }

  lemma StepUnderway(job: Job, s: State, e: Event)
    requires Legal(job) && Inv(job, s) && Underway(job, s) && Enabled(job, s, e)
    ensures Underway(job, Apply(job, s, e))
  {
    hide Inv, FirstRoundFrom, OnData, OnEnd, DecodeAck, AfterReply;
    if e.Send? {
      assert forall f :: f in s.sender.queue ==> f == s.sender.queue[0] || f in s.sender.queue[1..];
    }
  }

  lemma {:induction false} RunUnderway(job: Job, s: State, events: seq<Event>)
    requires Legal(job) && Inv(job, s) && Underway(job, s) && Run(job, s, events)
    ensures Inv(job, After(job, s, events)) && Underway(job, After(job, s, events))
    decreases |events|
  {
    hide Inv, Underway, Enabled, Apply, Missing;
    if events != [] {
      StepInv(job, s, events[0]);
      StepUnderway(job, s, events[0]);
      RunUnderway(job, Apply(job, s, events[0]), events[1..]);
    }
  }

  lemma InitUnderway(job: Job)
    requires Legal(job)
    ensures Underway(job, Init(job))
  {
    hide FirstRoundFrom;
  }

  // ---- ok answers ----------------------------------------------------------

  ghost predicate OkAnswer(job: Job, p: Bytes) {
    |p| >= 9 && DecodeAck(p).sid == job.session && DecodeAck(p).ok != 0
  }

  /** Some ok answer has been put on the UART. */
  ghost predicate OkReplied(job: Job, replies: set<Bytes>) {
    exists p :: p in replies && OkAnswer(job, p)
  }

  lemma OkOfInbox(job: Job, s: State)
    requires Legal(job) && Inv(job, s) && s.inbox != []
    ensures s.inbox[0].sid == job.session && s.inbox[0].missing.Some?
    ensures s.inbox[0].ok != 0 <==> s.inbox[0].missing.value == []
    ensures s.inbox[0].ok != 0 ==> OkReplied(job, s.replies)
  {
    hide RxInv, RepliesOk, QueueInv, Genuine, DecodeAck, Legal;
    var a := s.inbox[0];
    RxIsValid(job, s);
    assert a in s.inbox;
    assert Honest(job, s.rx, a) && Decoded(s.replies, a);
    var p :| p in s.replies && |p| >= 9 && a == DecodeAck(p);
    if a.ok != 0 {
      assert OkAnswer(job, p);
    }
  }

  // ---- when success is out of reach ----------------------------------------

  /** The sender waits for an answer now or can still come to, and the first answer it then
      takes need not be one that is not ok. */
  predicate MayWait(s: State) {
    match s.sender
    case Sending(_, round) => round < MAX_ROUNDS
    case Draining(round) => round < MAX_ROUNDS
    case Waiting(round) => round + 1 < MAX_ROUNDS || s.inbox == [] || s.inbox[0].ok != 0
    case Finished(_) => false
  }

  /** An ok answer has been sent or can still be: the receiver reads, or has an END to handle. */
  ghost predicate MayAnswer(job: Job, s: State) {
    s.rx.active || EndFrame(job) in s.pass || OkReplied(job, s.replies)
  }

  ghost predicate MaySucceed(job: Job, s: State) {
    s.sender == Finished(true) || (MayWait(s) && MayAnswer(job, s))
  }

  lemma WaitStaysLost(job: Job, s: State, e: Event)
    requires Legal(job) && Inv(job, s) && Enabled(job, s, e)
    requires s.sender != Finished(true) && !MayWait(s)
    ensures Apply(job, s, e).sender != Finished(true) && !MayWait(Apply(job, s, e))
  {
    hide RxInv, OnData, OnEnd, DecodeAck, Resend, Genuine, RepliesOk, InboxOk;
    if e.Dequeue? {
      OkOfInbox(job, s);
    }
  }

  /** The receiver has stopped reading and has no END left to handle. */
  predicate Silent(job: Job, s: State) {
    !s.rx.active && EndFrame(job) !in s.pass
  }

  lemma StepStaysSilent(job: Job, s: State, e: Event)
    requires Legal(job) && Inv(job, s) && Enabled(job, s, e) && Silent(job, s)
    ensures Silent(job, Apply(job, s, e)) && Apply(job, s, e).replies == s.replies
  {
    hide DecodeAck, Resend, EndFrame, OnEnd;
    assert !s.rx.open;
    if e.Deliver? {
      var f := s.pass[0];
      assert f in s.pass;
      GenuineKinds(job, f);
      assert forall g :: g in s.pass[1..] ==> g in s.pass;
    }
  }

  /** A complete receiver never answers again, whatever the sender resends. */
  lemma {:induction false} CompleteReceiverIsSilent(job: Job, s: State, events: seq<Event>)
    requires Legal(job) && Inv(job, s) && Run(job, s, events) && Silent(job, s)
    ensures After(job, s, events).replies == s.replies
    decreases |events|
  {
    hide Inv, Enabled, Apply, Silent, Missing;
    if events != [] {
      StepInv(job, s, events[0]);
      StepStaysSilent(job, s, events[0]);
      CompleteReceiverIsSilent(job, Apply(job, s, events[0]), events[1..]);
    }
  }

  lemma AnswerStaysLost(job: Job, s: State, e: Event)
    requires Legal(job) && Inv(job, s) && Enabled(job, s, e) && !MayAnswer(job, s)
    requires s.sender != Finished(true)
    ensures Apply(job, s, e).sender != Finished(true) && !MayAnswer(job, Apply(job, s, e))
  {
    hide DecodeAck, Resend, OkReplied, EndFrame, OnEnd, OnData;
    StepStaysSilent(job, s, e);
    if e.Dequeue? {
      OkOfInbox(job, s);
    }
  }

  /** Once out of reach, success stays out of reach. */
  lemma {:induction false} LostStaysLost(job: Job, s: State, events: seq<Event>)
    requires Legal(job) && Inv(job, s) && Run(job, s, events) && !MaySucceed(job, s)
    ensures After(job, s, events).sender != Finished(true)
    decreases |events|
  {
    hide Inv, Enabled, Apply, MayWait, MayAnswer, Missing;
    if events != [] {
      var e, t := events[0], Apply(job, s, events[0]);
      StepInv(job, s, e);
      if !MayWait(s) {
        WaitStaysLost(job, s, e);
      } else {
        AnswerStaysLost(job, s, e);
      }
      LostStaysLost(job, t, events[1..]);
    }
  }

  // ---- reaching success ----------------------------------------------------

  /** Everything queued goes on the link. */
  lemma {:induction false} SendAll(job: Job, s: State) returns (events: seq<Event>, t: State)
    requires s.sender.Sending? && s.sender.queue != []
    ensures Takes(job, s, events, t)
    ensures t.sender == Draining(s.sender.round) && t.pass == s.pass && t.rx == s.rx
    ensures t.replies == s.replies && t.inbox == s.inbox
    ensures s.air <= t.air && forall f :: f in s.sender.queue ==> f in t.air
    decreases |s.sender.queue|
  {
    hide Takes;
    var m := Apply(job, s, Send);
    if |s.sender.queue| == 1 {
      TakesOne(job, s, Send, m);
      return [Send], m;
    }
    var rest;
    rest, t := SendAll(job, m);
    TakesFirst(job, s, Send, m, rest, t);
    events := [Send] + rest;
    assert forall f :: f in s.sender.queue ==> f == s.sender.queue[0] || f in s.sender.queue[1..];
  }

  lemma RxIsValid(job: Job, s: State)
    requires Legal(job) && Inv(job, s)
    ensures Rx.Valid(s.rx) && Counted(s.rx) <= MAX_FRAMES
  {
    RxInvIsValid(job, s.rx);
  }

  lemma InactiveIsComplete(job: Job, s: State)
    requires Legal(job) && Inv(job, s)
    ensures !s.rx.active ==> AllSet(s.rx.bitmap, FrameCount(job))
  {}

  /** An END handled when all frames are there is answered ok. */
  lemma EndAnswersOk(job: Job, rx: Receiver)
    requires Legal(job) && RxInv(job, rx) && Rx.Valid(rx) && Counted(rx) <= MAX_FRAMES
    ensures var a := OnEnd(rx, job.session);
      if AllSet(rx.bitmap, FrameCount(job)) then OkAnswer(job, a.1) else a.0.active == rx.active
  {
    hide Hits, Flag, Stored, DecodeAck, AckPayload;
    AnswerIsHonest(job, rx);
    OnEndKeeps(job, rx);
  }

  lemma HandleFirst(job: Job, s: State) returns (e: Event, t: State)
    requires Legal(job) && Inv(job, s) && MayAnswer(job, s) && s.pass != []
    ensures e == Deliver(s.pass[0], |s.pass[0].payload|, true)
    ensures Enabled(job, s, e) && t == Apply(job, s, e) && Inv(job, t) && MayAnswer(job, t)
    ensures t.pass == s.pass[1..] && t.sender == s.sender && t.inbox == s.inbox && t.air == s.air
  {
    hide RxInv, OnEnd, OnData, DecodeAck, RepliesOk, InboxOk, QueueInv, Genuine, IsData, EndFrame, AllSet, Legal;
    var f := s.pass[0];
    RxIsValid(job, s);
    assert f in s.pass;
    GenuineKinds(job, f);
    EndFrameKind(job);
    SizesFit(job, f);
    e := Deliver(f, |f.payload|, true);
    t := Apply(job, s, e);
    StepInv(job, s, e);
    assert forall g :: g in s.pass <==> g == f || g in s.pass[1..];
    if f.kind == BIG_DATA {
      ActiveAfterData(s.rx, f);
      EndIsNoData(job);
    } else {
      EndAnswersOk(job, s.rx);
      InactiveIsComplete(job, s);
      if OkAnswer(job, OnEnd(s.rx, job.session).1) {
        assert OnEnd(s.rx, job.session).1 in t.replies;
      }
    }
  }

  lemma SizesFit(job: Job, f: SpiFrame)
    requires Legal(job) && Genuine(job, f)
    ensures f.offset < 0x1_0000_0000 && f.session < 0x1_0000_0000
  {}

  lemma ActiveAfterData(rx: Receiver, f: SpiFrame)
    requires Rx.Valid(rx) && f.offset < 0x1_0000_0000
    ensures OnData(rx, f.offset, f.payload, |f.payload|).active == rx.active
  {}

  /** The receiver finishes what it has read. */
  lemma {:induction false} EmptyPass(job: Job, s: State) returns (events: seq<Event>, t: State)
    requires Legal(job) && Inv(job, s) && MayAnswer(job, s)
    ensures Takes(job, s, events, t) && Inv(job, t) && MayAnswer(job, t)
    ensures t.pass == [] && t.sender == s.sender && t.inbox == s.inbox && t.air == s.air
    decreases |s.pass|
  {
    hide Takes, Inv, MayAnswer, Enabled, Apply;
    if s.pass == [] {
      TakesNone(job, s);
      return [], s;
    }
    var e, m := HandleFirst(job, s);
    var rest;
    rest, t := EmptyPass(job, m);
    TakesFirst(job, s, e, m, rest, t);
    events := [e] + rest;
  }

  /** Everything has been put on the link, so everything can be read. */
  ghost predicate OnLink(job: Job, s: State) {
    EndFrame(job) in s.air && forall i: nat :: i < FrameCount(job) ==> DataFrame(job, CHUNK * i) in s.air
  }

  lemma UnderwayIsOnLink(job: Job, s: State)
    requires Legal(job) && Underway(job, s) && !s.sender.Sending?
    ensures OnLink(job, s)
  {
    hide DataFrame, EndFrame, FirstRoundFrom;
    FirstRoundHasAll(job);
  }

  lemma FirstRoundHasAll(job: Job)
    requires Legal(job)
    ensures EndFrame(job) in FirstRoundFrom(job, 0)
    ensures forall i: nat :: i < FrameCount(job) ==> DataFrame(job, CHUNK * i) in FirstRoundFrom(job, 0)
  {
    hide DataFrame, EndFrame, FirstRoundFrom;
    FirstRoundCovers(job, 0);
    var q := FirstRoundFrom(job, 0);
    assert q[|q| - 1] in q;
    forall i: nat | i < FrameCount(job)
      ensures DataFrame(job, CHUNK * i) in q
    {
      assert q[i].offset == CHUNK * i && q[i] in q;
    }
  }

  /** Reading and handling one frame of the photo. */
  lemma ReadData(job: Job, s: State, i: nat) returns (events: seq<Event>, t: State)
    requires Legal(job) && Inv(job, s) && s.rx.active && s.pass == [] && OnLink(job, s) && i < FrameCount(job)
    ensures Takes(job, s, events, t) && Inv(job, t) && t.rx.active && t.pass == [] && t.air == s.air
    ensures t.sender == s.sender && t.inbox == s.inbox && t.replies == s.replies
    ensures BitSet(t.rx.bitmap, i)
    ensures forall k :: 0 <= k < FrameCount(job) && BitSet(s.rx.bitmap, k) ==> BitSet(t.rx.bitmap, k)
  {
    hide Takes, RxInv, OnData, OnEnd, RepliesOk, InboxOk, QueueInv, BitSet, DataFrame, Legal;
    var f := DataFrame(job, CHUNK * i);
    var m := Apply(job, s, Read([f]));
    StepInv(job, s, Read([f]));
    DataFrameIsData(job, i);
    RxIsValid(job, m);
    var e := Deliver(f, |f.payload|, true);
    DataFits(job, f);
    OffsetOf(job, CHUNK * i);
    t := Apply(job, m, e);
    StepInv(job, m, e);
    ActiveAfterData(m.rx, f);
    RxIsValid(job, s);
    RxIsValid(job, t);
    CountFits(job);
    forall k | 0 <= k < FrameCount(job)
      ensures BitSet(t.rx.bitmap, k) <==> BitSet(s.rx.bitmap, k) || DeliversFully(job, e, k)
    {
      StepRecords(job, m, e, k);
    }
    assert DeliversFully(job, e, i);
    TakesOne(job, m, e, t);
    TakesFirst(job, s, Read([f]), m, [e], t);
    events := [Read([f])] + [e];
  }

  lemma OffsetOf(job: Job, offset: nat)
    ensures DataFrame(job, offset).offset == offset
  {}

  lemma CountFits(job: Job)
    requires Legal(job)
    ensures FrameCount(job) <= MAX_FRAMES
  {}

  lemma DataFits(job: Job, f: SpiFrame)
    requires Legal(job) && IsData(job, f)
    ensures f.kind == BIG_DATA && f.offset < 0x1_0000_0000
  {}

  /** Reading every frame, then END, brings an ok answer. */
  lemma {:induction false} ReadAll(job: Job, s: State, i: nat) returns (events: seq<Event>, t: State)
    requires Legal(job) && Inv(job, s) && s.rx.active && s.pass == [] && OnLink(job, s) && i <= FrameCount(job)
    requires forall k :: 0 <= k < i ==> BitSet(s.rx.bitmap, k)
    ensures Takes(job, s, events, t) && OkReplied(job, t.replies)
    ensures t.sender == s.sender && t.inbox == s.inbox
    decreases FrameCount(job) - i
  {
    hide Takes, Inv, BitSet, OkReplied, FrameCount, Legal;
    if i < FrameCount(job) {
      var a, m := ReadData(job, s, i);
      var b;
      b, t := ReadAll(job, m, i + 1);
      TakesThen(job, s, a, m, b, t);
      events := a + b;
    } else {
      events, t := ReadEnd(job, s);
    }
  }

  lemma ReadEnd(job: Job, s: State) returns (events: seq<Event>, t: State)
    requires Legal(job) && Inv(job, s) && s.rx.active && s.pass == [] && OnLink(job, s)
    requires forall k :: 0 <= k < FrameCount(job) ==> BitSet(s.rx.bitmap, k)
    ensures Takes(job, s, events, t) && OkReplied(job, t.replies)
    ensures t.sender == s.sender && t.inbox == s.inbox
  {
    hide Takes, RxInv, OnEnd, EndFrame, BitSet, DecodeAck;
    var f := EndFrame(job);
    var m := Apply(job, s, Read([f]));
    RxIsValid(job, s);
    EndFrameKind(job);
    EndAnswersOk(job, s.rx);
    var e := Deliver(f, 0, true);
    assert Enabled(job, m, e);
    t := Apply(job, m, e);
    assert OnEnd(s.rx, job.session).1 in t.replies;
    TakesOne(job, m, e, t);
    TakesFirst(job, s, Read([f]), m, [e], t);
    events := [Read([f])] + [e];
  }

  lemma {:induction false} DrainAll(job: Job, s: State) returns (events: seq<Event>, t: State)
    requires s.sender.Draining? && s.sender.round < MAX_ROUNDS
    ensures Takes(job, s, events, t) && t == s.(inbox := [], sender := Waiting(s.sender.round))
    ensures events == Emptying(|s.inbox|)
    decreases |s.inbox|
  {
    hide Takes;
    if s.inbox == [] {
      t := Apply(job, s, DrainDone);
      TakesOne(job, s, DrainDone, t);
      events := [DrainDone];
    } else {
      var m := Apply(job, s, DrainOne);
      var rest;
      rest, t := DrainAll(job, m);
      TakesFirst(job, s, DrainOne, m, rest, t);
      events := [DrainOne] + rest;
    }
  }

  function Emptying(n: nat): seq<Event> {
    if n == 0 then [DrainDone] else [DrainOne] + Emptying(n - 1)
  }

  lemma TakeOk(job: Job, s: State, p: Bytes) returns (t: State)
    requires s.sender.Waiting? && s.inbox == [] && p in s.replies && OkAnswer(job, p)
    ensures Takes(job, s, [AnswerArrives(p)] + [Dequeue], t) && t.sender == Finished(true)
  {
    hide Takes, DecodeAck;
    var m := Apply(job, s, AnswerArrives(p));
    assert m.inbox[0] == DecodeAck(p);
    t := Apply(job, m, Dequeue);
    TakesOne(job, m, Dequeue, t);
    TakesFirst(job, s, AnswerArrives(p), m, [Dequeue], t);
  }

  /** From a drained queue or an idle wait an ok answer that has been sent ends the transfer. */
  lemma FinishWithReply(job: Job, s: State) returns (events: seq<Event>, t: State)
    requires OkReplied(job, s.replies)
    requires (s.sender.Draining? && s.sender.round < MAX_ROUNDS) || (s.sender.Waiting? && s.inbox == [])
    ensures Takes(job, s, events, t) && t.sender == Finished(true)
  {
    hide Takes, OkAnswer;
    var p :| p in s.replies && OkAnswer(job, p);
    if s.sender.Draining? {
      var a, m := DrainAll(job, s);
      t := TakeOk(job, m, p);
      TakesThen(job, s, a, m, [AnswerArrives(p)] + [Dequeue], t);
      events := a + ([AnswerArrives(p)] + [Dequeue]);
    } else {
      t := TakeOk(job, s, p);
      events := [AnswerArrives(p)] + [Dequeue];
    }
  }

  /** Sends what is queued, taking a stale answer first if there is one. */
  lemma ComeToWait(job: Job, s: State) returns (events: seq<Event>, t: State)
    requires Legal(job) && Inv(job, s) && MayWait(s) && (s.sender.Waiting? && s.inbox != [] ==> s.inbox[0].ok == 0)
    ensures Takes(job, s, events, t)
    ensures (t.sender.Draining? && t.sender.round < MAX_ROUNDS) || (t.sender.Waiting? && t.inbox == [])
    ensures t.pass == s.pass && t.rx == s.rx && t.replies == s.replies
  {
    hide Takes, RxInv, RepliesOk, InboxOk, Resend, Legal;
    match s.sender
    case Sending(_, _) =>
      events, t := SendAll(job, s);
    case Draining(_) =>
      TakesNone(job, s);
      return [], s;
    case Waiting(_) =>
      if s.inbox == [] {
        TakesNone(job, s);
        return [], s;
      }
      OkOfInbox(job, s);
      var m := Apply(job, s, Dequeue);
      assert m.sender.queue != [] by { ResendIsSome(job, s.inbox[0].missing.value); }
      var rest;
      rest, t := SendAll(job, m);
      TakesFirst(job, s, Dequeue, m, rest, t);
      events := [Dequeue] + rest;
  }

  lemma ResendIsSome(job: Job, offsets: seq<nat>)
    ensures Resend(job, offsets) != []
  {}

  lemma Reach(job: Job, s: State) returns (events: seq<Event>, t: State)
    requires Legal(job) && Inv(job, s) && Underway(job, s) && MayWait(s) && MayAnswer(job, s)
    ensures Takes(job, s, events, t) && t.sender == Finished(true)
  {
    hide Inv, Underway, MayWait, OkReplied, OnLink, Legal;
    if s.sender.Waiting? && s.inbox != [] && s.inbox[0].ok != 0 {
      OkOfInbox(job, s);
      t := Apply(job, s, Dequeue);
      TakesOne(job, s, Dequeue, t);
      return [Dequeue], t;
    }
    var a, u := ComeToWait(job, s);
    RunUnderway(job, s, a);
    UnderwayIsOnLink(job, u);
    var b, v := EmptyPass(job, u);
    TakesThen(job, s, a, u, b, v);
    RunUnderway(job, u, b);
    UnderwayIsOnLink(job, v);
    var c, w := [], v;
    if v.rx.active {
      c, w := ReadAll(job, v, 0);
    } else {
      TakesNone(job, v);
    }
    TakesThen(job, s, a + b, v, c, w);
    var d;
    d, t := FinishWithReply(job, w);
    TakesThen(job, s, a + b + c, w, d, t);
    events := a + b + c + d;
  }

  /** In every reachable state: the sender can still finish with success exactly when it has, or
      it can still come to wait and an ok answer has been sent or can still be. */
  lemma SuccessIsPossibleIff(job: Job, events: seq<Event>)
    requires Legal(job) && Run(job, Init(job), events)
    ensures var s := After(job, Init(job), events);
      MaySucceed(job, s) <==> exists later :: Run(job, s, later) && After(job, s, later).sender == Finished(true)
  {
    hide Init, Inv, MayWait, MayAnswer, Underway;
    var s := After(job, Init(job), events);
    InitInv(job);
    InitUnderway(job);
    RunUnderway(job, Init(job), events);
    if s.sender == Finished(true) {
      TakesNone(job, s);
      assert Run(job, s, []) && After(job, s, []).sender == Finished(true);
    } else if MaySucceed(job, s) {
      var later, t := Reach(job, s);
      assert Run(job, s, later) && After(job, s, later).sender == Finished(true);
    } else {
      forall later | Run(job, s, later)
        ensures After(job, s, later).sender != Finished(true)
      {
        LostStaysLost(job, s, later);
      }
    }
  }

  // ---- one loss-free round is enough ----------------------------------------

  /** Each frame of a queue is sent, read alone and handled with a complete write. */
  function RoundOf(queue: seq<SpiFrame>, answered: bool): seq<Event> {
    if queue == [] then []
    else [Send, Read([queue[0]]), Deliver(queue[0], |queue[0].payload|, answered)] + RoundOf(queue[1..], answered)
  }

  /** The frames still to be sent include every missing one, and end in END. */
  ghost predicate Covers(job: Job, rx: Receiver, queue: seq<SpiFrame>)
    requires Legal(job) && Rx.Valid(rx)
  {
    && queue != [] && queue[|queue| - 1] == EndFrame(job)
    && (forall k :: 0 <= k < |queue| - 1 ==> IsData(job, queue[k]))
    && (forall i :: Missing(job, rx, i) ==> exists k :: 0 <= k < |queue| - 1 && queue[k].offset == CHUNK * i)
  }

  /** `t` is what handling the completely written frame `f` makes of receiver and answers. */
  ghost predicate Handled(s: State, f: SpiFrame, answered: bool, t: State) {
    if f.kind == BIG_DATA then
      && Rx.Valid(s.rx) && f.offset < 0x1_0000_0000
      && t.rx == OnData(s.rx, f.offset, f.payload, |f.payload|) && t.replies == s.replies
    else
      && Rx.Valid(s.rx) && Counted(s.rx) <= MAX_FRAMES && f.session < 0x1_0000_0000
      && t.rx == OnEnd(s.rx, f.session).0
      && t.replies == s.replies + (if answered then {OnEnd(s.rx, f.session).1} else {})
  }

  /** One frame of such a round. */
  lemma RoundStep(job: Job, s: State, answered: bool) returns (t: State)
    requires Legal(job) && Inv(job, s) && s.rx.active && s.pass == [] && s.sender.Sending? && s.sender.queue != []
    ensures var f := s.sender.queue[0]; var rest := s.sender.queue[1..];
      && Genuine(job, f)
      && Takes(job, s, [Send, Read([f]), Deliver(f, |f.payload|, answered)], t)
      && Inv(job, t) && t.pass == [] && t.inbox == s.inbox
      && t.sender == (if rest == [] then Draining(s.sender.round) else Sending(rest, s.sender.round))
      && Handled(s, f, answered, t)
  {
    hide Takes, RxInv, OnData, OnEnd, RepliesOk, InboxOk, DecodeAck, Genuine, EndFrame, Legal;
    var f := s.sender.queue[0];
    assert f in s.sender.queue;
    GenuineKinds(job, f);
    EndFrameKind(job);
    SizesFit(job, f);
    RxIsValid(job, s);
    StepInv(job, s, Send);
    var a := Apply(job, s, Send);
    var read, e := Read([f]), Deliver(f, |f.payload|, answered);
    StepInv(job, a, read);
    var b := Apply(job, a, read);
    StepInv(job, b, e);
    t := Apply(job, b, e);
    assert s.replies + {} == s.replies;
    TakesOne(job, b, e, t);
    TakesFirst(job, a, read, b, [e], t);
    TakesFirst(job, s, Send, a, [read] + [e], t);
    assert [Send] + ([read] + [e]) == [Send, read, e];
  }

  lemma CoversRest(job: Job, s: State, t: State, f: SpiFrame, rest: seq<SpiFrame>)
    requires Legal(job) && Inv(job, s) && Inv(job, t) && Rx.Valid(s.rx) && Rx.Valid(t.rx)
    requires rest != [] && Covers(job, s.rx, [f] + rest) && f.offset < 0x1_0000_0000
    requires t.rx == OnData(s.rx, f.offset, f.payload, |f.payload|)
    ensures Covers(job, t.rx, rest)
  {
    hide OnData, Inv, EndFrame, BitSet;
    var q := [f] + rest;
    assert q[0] == f && IsData(job, f);
    assert rest[|rest| - 1] == q[|q| - 1];
    forall k | 0 <= k < |rest| - 1
      ensures IsData(job, rest[k])
    {
      assert rest[k] == q[k + 1];
    }
    forall i: nat | Missing(job, t.rx, i)
      ensures exists k :: 0 <= k < |rest| - 1 && rest[k].offset == CHUNK * i
    {
      RxOf(job, s);
      DataRecords(job, s.rx, f, |f.payload|, i);
      assert Missing(job, s.rx, i);
      var k :| 0 <= k < |q| - 1 && q[k].offset == CHUNK * i;
      assert rest[k - 1].offset == CHUNK * i;
    }
  }

  lemma RxOf(job: Job, s: State)
    requires Legal(job) && Inv(job, s)
    ensures RxInv(job, s.rx)
  {}

  /** A loss-free round leaves a complete receiver that has handled END, and its ok answer if
      one was sent. */
  lemma {:induction false} CleanRound(job: Job, s: State, answered: bool) returns (t: State, p: Bytes)
    requires Legal(job) && Inv(job, s) && s.rx.active && s.pass == [] && s.sender.Sending?
    requires Rx.Valid(s.rx) && Covers(job, s.rx, s.sender.queue)
    ensures Takes(job, s, RoundOf(s.sender.queue, answered), t) && Inv(job, t)
    ensures t.sender == Draining(s.sender.round) && t.inbox == s.inbox && t.pass == []
    ensures !t.rx.active && OkAnswer(job, p) && t.replies == s.replies + (if answered then {p} else {})
    decreases |s.sender.queue|
  {
    hide Takes, Inv, OnData, OnEnd, BitSet, OkAnswer, Rx.Valid, EndFrame, Genuine, IsData, AllSet;
    var q := s.sender.queue;
    var f, rest := q[0], q[1..];
    var m := RoundStep(job, s, answered);
    assert q == [f] + rest;
    GenuineKinds(job, f);
    EndFrameKind(job);
    EndIsNoData(job);
    SizesFit(job, f);
    if rest == [] {
      RxIsValid(job, s);
      t, p := m, OnEnd(s.rx, job.session).1;
      assert RoundOf(rest, answered) == [];
      assert RoundOf(q, answered) == [Send, Read([f]), Deliver(f, |f.payload|, answered)];
      CoveredByEnd(job, s, q);
    } else {
      assert IsData(job, f);
      ActiveAfterData(s.rx, f);
      RxIsValid(job, m);
      CoversRest(job, s, m, f, rest);
      t, p := CleanRound(job, m, answered);
      TakesThen(job, s, [Send, Read([f]), Deliver(f, |f.payload|, answered)], m, RoundOf(rest, answered), t);
    }
  }

  lemma CoveredByEnd(job: Job, s: State, q: seq<SpiFrame>)
    requires Legal(job) && Inv(job, s) && Rx.Valid(s.rx) && Counted(s.rx) <= MAX_FRAMES
    requires Covers(job, s.rx, q) && |q| == 1
    ensures OkAnswer(job, OnEnd(s.rx, job.session).1) && !OnEnd(s.rx, job.session).0.active
  {
    hide Hits, Flag, Stored, DecodeAck, AckPayload, OkAnswer, BitSet;
    CountFits(job);
    forall i | 0 <= i < FrameCount(job)
      ensures BitSet(s.rx.bitmap, i)
    {
      assert !Missing(job, s.rx, i);
    }
    EndAnswersOk(job, s.rx);
    OnEndKeeps(job, s.rx);
  }

  /** How a round ends: the answer queue is emptied, the answer arrives and is taken. */
  function Ending(stale: nat, p: Bytes): seq<Event> {
    Emptying(stale) + ([AnswerArrives(p)] + [Dequeue])
  }

  lemma EndRound(job: Job, s: State, p: Bytes) returns (t: State)
    requires s.sender.Draining? && s.sender.round < MAX_ROUNDS && p in s.replies && OkAnswer(job, p)
    ensures Takes(job, s, Ending(|s.inbox|, p), t) && t.sender == Finished(true)
  {
    hide Takes, OkAnswer;
    var a, m := DrainAll(job, s);
    t := TakeOk(job, m, p);
    TakesThen(job, s, a, m, [AnswerArrives(p)] + [Dequeue], t);
  }

  /** Progress. Whenever the sender, before its last round, takes an answer that is not ok from a
      receiver that still reads, one loss-free round ends the transfer with success: the listed
      frames and END are delivered once each and the answer comes back. */
  lemma OneCleanRoundSuffices(job: Job, s: State) returns (t: State, p: Bytes)
    requires Legal(job) && Inv(job, s) && s.rx.active && s.pass == []
    requires s.sender.Waiting? && s.sender.round + 1 < MAX_ROUNDS
    requires s.inbox != [] && s.inbox[0].ok == 0
    ensures s.inbox[0].missing.Some?
    ensures var round := RoundOf(Resend(job, s.inbox[0].missing.value), true);
      Takes(job, s, [Dequeue] + (round + Ending(|s.inbox| - 1, p)), t)
    ensures t.sender == Finished(true)
  {
    hide Takes, RxInv, EndFrame, DataFrame, Resend, Genuine, QueueInv, Hits, Flag, DecodeAck, RepliesOk, OkAnswer;
    var a := s.inbox[0];
    assert a in s.inbox;
    OkOfInbox(job, s);
    RxIsValid(job, s);
    assert Honest(job, s.rx, a);
    StepInv(job, s, Dequeue);
    var m := Apply(job, s, Dequeue);
    var missing := a.missing.value;
    ResendCovers(job, missing);
    assert Covers(job, m.rx, m.sender.queue) by {
      var q := m.sender.queue;
      forall i: nat | Missing(job, m.rx, i)
        ensures exists k :: 0 <= k < |q| - 1 && q[k].offset == CHUNK * i
      {
        var k :| 0 <= k < |missing| && missing[k] == CHUNK * i;
        assert q[k].offset == CHUNK * i;
      }
    }
    var u;
    u, p := CleanRound(job, m, true);
    t := EndRound(job, u, p);
    TakesThen(job, m, RoundOf(m.sender.queue, true), u, Ending(|u.inbox|, p), t);
    TakesFirst(job, s, Dequeue, m, RoundOf(m.sender.queue, true) + Ending(|u.inbox|, p), t);
  }

  lemma FirstRoundIsCovering(job: Job)
    requires Legal(job)
    ensures Rx.Valid(Init(job).rx) && Covers(job, Init(job).rx, FirstRoundFrom(job, 0))
  {
    hide EndFrame, DataFrame, Hits, Flag, FirstRoundFrom;
    FirstRoundCovers(job, 0);
    var q := FirstRoundFrom(job, 0);
    forall i: nat | Missing(job, Init(job).rx, i)
      ensures exists k :: 0 <= k < |q| - 1 && q[k].offset == CHUNK * i
    {
      assert q[i].offset == CHUNK * i;
    }
  }

  /** A loss-free first round ends in success. */
  lemma CleanFirstRoundSuffices(job: Job) returns (t: State, p: Bytes)
    requires Legal(job)
    ensures Takes(job, Init(job), RoundOf(FirstRoundFrom(job, 0), true) + Ending(0, p), t)
    ensures t.sender == Finished(true)
  {
    hide Takes, Covers, FirstRoundFrom, OkAnswer;
    InitInv(job);
    FirstRoundIsCovering(job);
    var u;
    u, p := CleanRound(job, Init(job), true);
    t := EndRound(job, u, p);
    TakesThen(job, Init(job), RoundOf(FirstRoundFrom(job, 0), true), u, Ending(0, p), t);
  }

  /** The one answer matters: if END of a loss-free first round is handled but its answer is not
      sent, the receiver has the whole photo and the sender can never report success. */
  lemma LostAnswerIsFatal(job: Job) returns (s: State)
    requires Legal(job)
    ensures Takes(job, Init(job), RoundOf(FirstRoundFrom(job, 0), false), s)
    ensures OnDisk(s) == Some(job.data)
    ensures forall later :: Run(job, s, later) ==> After(job, s, later).sender != Finished(true)
  {
    hide Takes, Covers, FirstRoundFrom, OkAnswer, Inv;
    InitInv(job);
    FirstRoundIsCovering(job);
    var p;
    s, p := CleanRound(job, Init(job), false);
    assert s.replies == {};
    assert !MaySucceed(job, s);
    forall later | Run(job, s, later)
      ensures After(job, s, later).sender != Finished(true)
    {
      LostStaysLost(job, s, later);
    }
    CompleteOnDisk(job, s);
    NothingDiscarded(FirstRoundFrom(job, 0));
    TakenIsKept(job, Init(job), RoundOf(FirstRoundFrom(job, 0), false), s);
  }

  lemma CompleteOnDisk(job: Job, s: State)
    requires Legal(job) && Inv(job, s) && !s.rx.active
    ensures s.rx.file == job.data
  {
    hide Stored, BitSet;
    AllSetIsComplete(job, s.rx);
  }

  lemma {:induction false} NothingDiscarded(queue: seq<SpiFrame>)
    ensures Discard !in RoundOf(queue, false)
    decreases |queue|
  {
    if queue != [] {
      NothingDiscarded(queue[1..]);
    }
  }

  lemma TakenIsKept(job: Job, s: State, events: seq<Event>, t: State)
    requires Takes(job, s, events, t) && Discard !in events && s.kept
    ensures t.kept
  {
    KeptUnlessDiscarded(job, s, events);
  }
}
