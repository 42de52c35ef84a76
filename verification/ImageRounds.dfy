/** The sender's own loop is the sender of the protocol: a run finishes with the result, and has
    sent the frames, that `SpiSendImage` gives for the replies its waits returned. */
module ImageRounds {
  import opened Bytes
  import opened SpiStream
  import opened ImageSender
  import opened ImageTransfer

  /** What a step makes a wait return, and in which round. */
  datatype Answer = NoAnswer | Answer(round: nat, reply: Reply)

  function Returned(job: Job, s: State, e: Event): Answer
    requires Enabled(job, s, e)
  {
    match e
    case Dequeue =>
      var a := s.inbox[0];
      if a.sid == job.session then Answer(s.sender.round, Reply(a.ok, a.missing)) else NoAnswer
    case Timeout => Answer(s.sender.round, Reply(0, None))
    case _ => NoAnswer
  }

  /** `replies[r]` is what the wait of round `r` returned, for every wait of the run. */
  predicate Replied(job: Job, s: State, events: seq<Event>, replies: seq<Reply>)
    requires Run(job, s, events)
    decreases |events|
  {
    events == [] ||
    (var x := Returned(job, s, events[0]);
     && (x.Answer? ==> x.round < |replies| && replies[x.round] == x.reply)
     && Replied(job, Apply(job, s, events[0]), events[1..], replies))
  }

  /** The frames a run sends, in order. */
  function Sent(job: Job, s: State, events: seq<Event>): seq<SpiFrame>
    requires Run(job, s, events)
    decreases |events|
  {
    if events == [] then []
    else SentBy(job, s, events[0]) + Sent(job, Apply(job, s, events[0]), events[1..])
  }

  function SentBy(job: Job, s: State, e: Event): seq<SpiFrame>
    requires Enabled(job, s, e)
  {
    if e.Send? then [s.sender.queue[0]] else []
  }

  /** Result and frames still to come, given every wait's reply. */
  function Ahead(job: Job, sender: Sender, replies: seq<Reply>): (bool, seq<SpiFrame>)
    requires |replies| == MAX_ROUNDS
  {
    match sender
    case Sending(queue, round) => (Rounds(job, replies, round).0, queue + Rounds(job, replies, round).1)
    case Draining(round) => Rounds(job, replies, round)
    case Waiting(round) => Rounds(job, replies, round)
    case Finished(ok) => (ok, [])
  }

  lemma HandlingKeepsSender(job: Job, s: State, e: Event)
    requires Enabled(job, s, e) && (e.Deliver? || e.Read? || e.Discard? || e.AnswerArrives? || e.DrainOne?)
    ensures Apply(job, s, e).sender == s.sender && Returned(job, s, e).NoAnswer?
  {}

  lemma SendAhead(job: Job, s: State, replies: seq<Reply>)
    requires Enabled(job, s, Send) && |replies| == MAX_ROUNDS
    ensures var t := Apply(job, s, Send);
      && Ahead(job, s.sender, replies).0 == Ahead(job, t.sender, replies).0
      && Ahead(job, s.sender, replies).1 == SentBy(job, s, Send) + Ahead(job, t.sender, replies).1
  {
    hide Rounds;
    var q, rest := s.sender.queue, Rounds(job, replies, s.sender.round).1;
    assert q == [q[0]] + q[1..];
    assert ([q[0]] + q[1..]) + rest == [q[0]] + (q[1..] + rest);
    assert [] + rest == rest;
  }

  lemma ReplyAhead(job: Job, round: nat, ok: nat, missing: Option<seq<nat>>, replies: seq<Reply>)
    requires |replies| == MAX_ROUNDS && round < MAX_ROUNDS && replies[round] == Reply(ok, missing)
    ensures Ahead(job, AfterReply(job, round, ok, missing), replies) == Rounds(job, replies, round)
  {
    hide Resend;
  }

  lemma StepAhead(job: Job, s: State, e: Event, replies: seq<Reply>)
    requires Enabled(job, s, e) && |replies| == MAX_ROUNDS
    requires var x := Returned(job, s, e);
      x.Answer? ==> x.round < |replies| && replies[x.round] == x.reply
    ensures var t := Apply(job, s, e);
      && Ahead(job, s.sender, replies).0 == Ahead(job, t.sender, replies).0
      && Ahead(job, s.sender, replies).1 == SentBy(job, s, e) + Ahead(job, t.sender, replies).1
  {
    hide Handle, AfterReply;
    var t := Apply(job, s, e);
    var later := Ahead(job, t.sender, replies).1;
    assert [] + later == later;
    match e
    case Send => SendAhead(job, s, replies);
    case Dequeue =>
      var a := s.inbox[0];
      if a.sid == job.session {
        ReplyAhead(job, s.sender.round, a.ok, a.missing, replies);
      }
    case Timeout => ReplyAhead(job, s.sender.round, 0, None, replies);
    case DrainDone =>
    case _ => HandlingKeepsSender(job, s, e);
  }

  lemma {:induction false} RunAhead(job: Job, s: State, events: seq<Event>, replies: seq<Reply>)
    requires Run(job, s, events) && |replies| == MAX_ROUNDS && Replied(job, s, events, replies)
    ensures var t := After(job, s, events);
      && Ahead(job, s.sender, replies).0 == Ahead(job, t.sender, replies).0
      && Ahead(job, s.sender, replies).1 == Sent(job, s, events) + Ahead(job, t.sender, replies).1
    decreases |events|
  {
    hide Ahead, Enabled, Apply, Returned, SentBy;
    if events == [] {
      var later := Ahead(job, s.sender, replies).1;
      assert [] + later == later;
    } else {
      var m := Apply(job, s, events[0]);
      StepAhead(job, s, events[0], replies);
      RunAhead(job, m, events[1..], replies);
      Associate(SentBy(job, s, events[0]), Sent(job, m, events[1..]),
                Ahead(job, After(job, s, events).sender, replies).1);
    }
  }

  // ---- every run has such replies ------------------------------------------

  /** No wait of an earlier round is still to come. */
  function Floor(sender: Sender): nat {
    match sender
    case Sending(_, round) => round
    case Draining(round) => round
    case Waiting(round) => round
    case Finished(_) => MAX_ROUNDS
  }

  lemma StepFloor(job: Job, s: State, e: Event)
    requires Legal(job) && Inv(job, s) && Enabled(job, s, e)
    ensures Floor(s.sender) <= Floor(Apply(job, s, e).sender)
    ensures var x := Returned(job, s, e);
      x.Answer? ==> x.round == Floor(s.sender) < MAX_ROUNDS && x.round < Floor(Apply(job, s, e).sender)
  {
    hide RxInv, RepliesOk, InboxOk, Resend, Handle, DecodeAck;
    if e.Deliver? {
      HandlingKeepsSender(job, s, e);
    }
  }

  lemma {:induction false} EarlierRoundsAreFree(job: Job, s: State, events: seq<Event>, replies: seq<Reply>,
                                                   r: nat, x: Reply)
    requires Legal(job) && Inv(job, s) && Run(job, s, events)
    requires Replied(job, s, events, replies) && r < |replies| && r < Floor(s.sender)
    ensures Replied(job, s, events, replies[r := x])
    decreases |events|
  {
    hide Inv, Enabled, Apply, Returned, Floor, Missing;
    if events != [] {
      StepInv(job, s, events[0]);
      StepFloor(job, s, events[0]);
      EarlierRoundsAreFree(job, Apply(job, s, events[0]), events[1..], replies, r, x);
    }
  }

  lemma {:induction false} RepliesOf(job: Job, s: State, events: seq<Event>) returns (replies: seq<Reply>)
    requires Legal(job) && Inv(job, s) && Run(job, s, events)
    ensures |replies| == MAX_ROUNDS && Replied(job, s, events, replies)
    decreases |events|
  {
    hide Inv, Enabled, Apply, Returned, Floor, Missing;
    if events == [] {
      replies := seq(MAX_ROUNDS, _ => Reply(0, None));
    } else {
      var m, x := Apply(job, s, events[0]), Returned(job, s, events[0]);
      StepInv(job, s, events[0]);
      StepFloor(job, s, events[0]);
      var rest := RepliesOf(job, m, events[1..]);
      if x.NoAnswer? {
        return rest;
      }
      EarlierRoundsAreFree(job, m, events[1..], rest, x.round, x.reply);
      replies := rest[x.round := x.reply];
    }
  }

  /** For every run there are replies, one for each wait, such that the run, once finished, has
      the result of the sender's loop on them and has sent exactly the loop's frames: all frames
      once, and then for each reply before the one that ends the loop what it lists, and END. */
  lemma RunsAreTheLoop(job: Job, events: seq<Event>) returns (replies: seq<Reply>, stop: nat)
    requires Legal(job) && Run(job, Init(job), events)
    requires After(job, Init(job), events).sender.Finished?
    ensures |replies| == 6 && Replied(job, Init(job), events, replies)
    ensures stop <= 6 && After(job, Init(job), events).sender == Finished(stop < 6)
    ensures (forall q :: 0 <= q < stop ==> !Accepts(replies[q])) && (stop < 6 ==> Accepts(replies[stop]))
    ensures Sent(job, Init(job), events) == FirstFrames(job) + AllResent(job, replies[..stop])
  {
    hide Run, After, Inv, Replied, Sent, Rounds, FirstRoundFrom, AllResent, FirstFrames, Accepts;
    InitInv(job);
    replies := RepliesOf(job, Init(job), events);
    RunAhead(job, Init(job), events, replies);
    var sent := Sent(job, Init(job), events);
    assert sent + [] == sent;
    stop := OutcomeIs(job, replies);
  }

  /** A wait that times out leaves nothing to send: the next wait follows, or after the sixth the
      end. */
  lemma TimeoutSendsNothing(job: Job, s: State)
    requires Legal(job) && Inv(job, s) && Enabled(job, s, Timeout)
    ensures var t := Apply(job, s, Timeout);
      && t == s.(sender := Draining(s.sender.round + 1)) && !Enabled(job, t, Send)
      && (s.sender.round == 5 ==> Enabled(job, t, DrainDone) && Apply(job, t, DrainDone).sender == Finished(false))
      && (s.sender.round < 5 && s.inbox == [] ==>
            Enabled(job, t, DrainDone) && Apply(job, t, DrainDone).sender == Waiting(s.sender.round + 1))
  {
    hide RxInv, RepliesOk, InboxOk;
  }

  /** Nothing but a not-ok answer that lists frames gives the sender something to send again. */
  lemma OnlyAnswersOpenRounds(job: Job, s: State, e: Event)
    requires Enabled(job, s, e) && !s.sender.Sending? && Apply(job, s, e).sender.Sending?
    ensures e.Dequeue? && s.sender.Waiting?
    ensures var a := s.inbox[0];
      && a.sid == job.session && a.ok == 0 && a.missing.Some? && a.missing.value != []
      && Apply(job, s, e).sender == Sending(Resent(job, Reply(0, a.missing)), s.sender.round + 1)
  {
    hide Handle, Resend, Resent;
    if e.Deliver? || e.Read? || e.Discard? || e.AnswerArrives? || e.DrainOne? {
      HandlingKeepsSender(job, s, e);
    } else if e.Dequeue? && s.inbox[0].missing.Some? {
      ResendIs(job, s.inbox[0].missing.value);
    }
  }
}
