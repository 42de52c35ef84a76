/** The file-backed audio cache between the receiver thread, which appends, and the consumer
    thread, which plays. One step is what a thread does between two points where the other can
    interfere. Both threads seek and transfer on the same descriptor: the receiver holds a mutex
    from its seek to its write, which the consumer takes for its look at the positions but not
    for its own seek and read. */
module OmniCache {
  import opened Bytes

  const READ_CHUNK: nat := 8192
  const PREBUFFER: nat := 72 * 1024

  // ---- states --------------------------------------------------------------

  /** The receiver thread: the packets it enqueues, then one close. */
  datatype Producer<T> =
    | Idle
    | Writing(rest: seq<T>)
    | Aimed(rest: seq<T>)   // has seeked, holds the mutex
    | Posting
    | Closing      // eof is set
    | Stopping     // the first post is out
    | LastPost     // the consumer is told to stop
    | Joining      // the second post is out
    | Returned

  datatype Consumer =
    | Loop
    | Looked(avail: nat, total: nat, eof: bool)
    | NoData(eof: bool)
    | Asleep(eof: bool)      // in sem_wait, having seen `eof` last
    | Copying(toRead: nat)
    | Reading(toRead: nat)   // has seeked
    | Done

  /** `offset` is the descriptor's position; `sent` is all that the writes have accepted, as many
      bytes as the write position says. The threads never look at the bytes. */
  datatype State<T> = State(
    packets: seq<seq<T>>, producer: Producer<T>,
    file: seq<T>, hole: T, sent: seq<T>, offset: nat, readPos: nat, eof: bool, running: bool, sem: nat,
    consumer: Consumer, prebuffered: bool, played: seq<T>)

  function Opened<T>(packets: seq<seq<T>>, hole: T): State<T> {
    State(packets, Idle, [], hole, [], 0, 0, false, true, 0, Loop, false, [])
  }

  // ---- steps ---------------------------------------------------------------

  datatype Event =
    | Enqueue
    | AimWrite
    | Write(n: nat)
    | WriteFails
    | WriteDone
    | Post
    | Close
    | FirstPost
    | Stop
    | SecondPost
    | Join
    | Look
    | Decide(timeout: bool)
    | TestRunning
    | Wake
    | AimRead
    | Copy(n: nat)

  predicate Enabled<T>(s: State<T>, e: Event) {
    match e
    case Enqueue => s.producer.Idle? && s.packets != []
    case AimWrite => s.producer.Writing? && s.producer.rest != []
    case Write(n) => s.producer.Aimed? && 1 <= n <= |s.producer.rest|
    case WriteFails => s.producer.Aimed?
    case WriteDone => s.producer.Writing? && s.producer.rest == []
    case Post => s.producer.Posting?
    case Close => s.producer.Idle? && s.packets == []
    case FirstPost => s.producer.Closing?
    case Stop => s.producer.Stopping?
    case SecondPost => s.producer.LastPost?
    case Join => s.producer.Joining? && s.consumer.Done?
    case Look => s.consumer.Loop? && !s.producer.Aimed?
    case Decide(timeout) => s.consumer.Looked?
    case TestRunning => s.consumer.NoData?
    case Wake => s.consumer.Asleep? && s.sem > 0
    case AimRead => s.consumer.Copying?
    case Copy(n) => s.consumer.Reading? && n <= s.consumer.toRead && (n == 0 || s.offset + n <= |s.file|)
  }

  /** What the consumer does with a snapshot: hold back until enough is buffered, then read. */
  function Decided<T>(s: State<T>, timeout: bool): State<T>
    requires s.consumer.Looked?
  {
    var c := s.consumer;
    if !s.prebuffered && c.total < PREBUFFER && !c.eof then
      s.(prebuffered := timeout, consumer := Asleep(false))
    else if c.avail == 0 then s.(prebuffered := true, consumer := NoData(c.eof))
    else s.(prebuffered := true, consumer := Copying(if c.avail < READ_CHUNK then c.avail else READ_CHUNK))
  }

  function Snapshot<T>(s: State<T>): Consumer {
    Looked(if s.readPos < |s.sent| then |s.sent| - s.readPos else 0, |s.sent|, s.eof)
  }

  function Apply<T>(s: State<T>, e: Event): State<T>
    requires Enabled(s, e)
  {
    match e
    case Enqueue =>
      s.(packets := s.packets[1..], producer := if s.packets[0] == [] then Idle else Writing(s.packets[0]))
    case AimWrite => s.(offset := |s.sent|, producer := Aimed(s.producer.rest))
    case Write(n) =>
      var data := s.producer.rest[..n];
      s.(file := Overwritten(s.file, s.offset, data, s.hole), sent := s.sent + data, offset := s.offset + n,
         producer := Writing(s.producer.rest[n..]))
    case WriteFails => s.(producer := Posting)
    case WriteDone => s.(producer := Posting)
    case Post => s.(sem := s.sem + 1, producer := Idle)
    case Close => s.(eof := true, producer := Closing)
    case FirstPost => s.(sem := s.sem + 1, producer := Stopping)
    case Stop => if s.running then s.(running := false, producer := LastPost) else s.(producer := Returned)
    case SecondPost => s.(sem := s.sem + 1, producer := Joining)
    case Join => s.(producer := Returned)
    case Look => s.(consumer := Snapshot(s))
    case Decide(timeout) => Decided(s, timeout)
    case TestRunning => s.(consumer := if !s.running && s.consumer.eof then Done else Asleep(s.consumer.eof))
    case Wake => s.(sem := s.sem - 1, consumer := Loop)
    case AimRead => s.(offset := s.readPos, consumer := Reading(s.consumer.toRead))
    case Copy(n) =>
      var more := if n == 0 then [] else s.file[s.offset..s.offset + n];
      s.(played := s.played + more, readPos := s.readPos + n, offset := s.offset + n, consumer := Loop)
  }

  predicate Run<T>(s: State<T>, events: seq<Event>)
    decreases |events|
  {
    events == [] || (Enabled(s, events[0]) && Run(Apply(s, events[0]), events[1..]))
  }

  function After<T>(s: State<T>, events: seq<Event>): State<T>
    requires Run(s, events)
    decreases |events|
  {
    if events == [] then s else After(Apply(s, events[0]), events[1..])
  }

  // ---- what every step keeps -----------------------------------------------

  predicate EofSet<T>(p: Producer<T>) {
    p.Closing? || p.Stopping? || p.LastPost? || p.Joining? || p.Returned?
  }

  predicate StopSet<T>(p: Producer<T>) {
    p.LastPost? || p.Joining? || p.Returned?
  }

  /** The consumer is on its way to sleep without having seen the end of the input. */
  predicate Blind(c: Consumer) {
    (c.Looked? && !c.eof) || (c.NoData? && !c.eof) || (c.Asleep? && !c.eof)
  }

  /** The positions: the file is never longer than what was sent, the receiver's aim is off at
      most as far back as the consumer reads, and the consumer's only ahead. */
  predicate Positions<T>(s: State<T>) {
    && |s.played| == s.readPos <= |s.sent| && |s.file| <= |s.sent|
    && (s.producer.Aimed? ==> s.offset == |s.sent| || s.offset == s.readPos)
    && (s.consumer.Reading? ==> s.offset >= s.readPos)
  }

  predicate Flags<T>(s: State<T>) {
    && s.eof == EofSet(s.producer) && s.running == !StopSet(s.producer)
    && (s.eof ==> s.packets == [])
    && (s.producer.Returned? ==> s.consumer.Done?)
  }

  predicate SnapshotHolds<T>(s: State<T>) {
    match s.consumer
    case Loop => true
    case Looked(avail, total, eof) =>
      s.readPos + avail <= |s.sent| && (eof ==> s.eof && s.readPos + avail == |s.sent|)
    case NoData(eof) => eof ==> s.eof && s.readPos == |s.sent|
    case Asleep(eof) => eof ==> s.eof
    case Copying(toRead) => 1 <= toRead && s.readPos + toRead <= |s.sent|
    case Reading(toRead) => 1 <= toRead && s.readPos + toRead <= |s.sent|
    case Done => s.eof && !s.running && s.readPos == |s.sent|
  }

  /** A consumer that has not seen the end has every closing post still to come or pending; one
      that has seen it but not the stop flag has the second. */
  predicate PostsPending<T>(s: State<T>) {
    && (Blind(s.consumer) && (s.producer.Stopping? || s.producer.LastPost?) ==> s.sem >= 1)
    && (Blind(s.consumer) && s.producer.Joining? ==> s.sem >= 2)
    && (s.consumer.Asleep? && s.producer.Joining? ==> s.sem >= 1)
  }

  predicate Inv<T>(s: State<T>) {
    Positions(s) && Flags(s) && SnapshotHolds(s) && PostsPending(s)
  }

  lemma ProducerStepInv<T>(s: State<T>, e: Event)
    requires Inv(s) && Enabled(s, e) && !ByConsumer(e)
    ensures Inv(Apply(s, e))
  {}

  lemma TransferStepInv<T>(s: State<T>, e: Event)
    requires Inv(s) && Enabled(s, e) && (e.AimRead? || e.Copy?)
    ensures Inv(Apply(s, e))
  {}

  lemma ConsumerStepInv<T>(s: State<T>, e: Event)
    requires Inv(s) && Enabled(s, e) && ByConsumer(e) && !e.AimRead? && !e.Copy?
    ensures Inv(Apply(s, e))
  {}

  lemma StepInv<T>(s: State<T>, e: Event)
    requires Inv(s) && Enabled(s, e)
    ensures Inv(Apply(s, e))
  {
    hide Inv, Enabled, Apply;
    if e.AimRead? || e.Copy? {
      TransferStepInv(s, e);
    } else if ByConsumer(e) {
      ConsumerStepInv(s, e);
    } else {
      ProducerStepInv(s, e);
    }
  }

  lemma {:induction false} RunInv<T>(s: State<T>, events: seq<Event>)
    requires Inv(s) && Run(s, events)
    ensures Inv(After(s, events))
    decreases |events|
  {
    hide Inv, Enabled, Apply;
    if events != [] {
      StepInv(s, events[0]);
      RunInv(Apply(s, events[0]), events[1..]);
    }
  }

  /** A read never asks for more than the 8192 bytes of the consumer's buffer. */
  predicate FitsBuffer<T>(s: State<T>) {
    s.consumer.Copying? || s.consumer.Reading? ==> 1 <= s.consumer.toRead <= 8192
  }

  lemma StepFitsBuffer<T>(s: State<T>, e: Event)
    requires FitsBuffer(s) && Enabled(s, e)
    ensures FitsBuffer(Apply(s, e))
  {
    hide Overwritten;
  }

  lemma {:induction false} ReadsFitTheBuffer<T>(s: State<T>, events: seq<Event>)
    requires FitsBuffer(s) && Run(s, events)
    ensures FitsBuffer(After(s, events))
    decreases |events|
  {
    hide FitsBuffer, Enabled, Apply;
    if events != [] {
      StepFitsBuffer(s, events[0]);
      ReadsFitTheBuffer(Apply(s, events[0]), events[1..]);
    }
  }

  /** In every run a step plays at most 8192 bytes, those of the file at the descriptor's
      position. */
  lemma StepPlays<T>(packets: seq<seq<T>>, hole: T, events: seq<Event>, e: Event)
    requires Run(Opened(packets, hole), events) && Enabled(After(Opened(packets, hole), events), e)
    ensures var s := After(Opened(packets, hole), events); var t := Apply(s, e);
      && s.played <= t.played && |t.played| - |s.played| == t.readPos - s.readPos <= 8192
      && (e.Copy? && e.n > 0 ==> s.offset + e.n <= |s.file| && t.played == s.played + s.file[s.offset..s.offset + e.n])
      && (!e.Copy? ==> t.played == s.played)
  {
    hide Overwritten, After;
    ReadsFitTheBuffer(Opened(packets, hole), events);
  }

  // ---- close returns only after the consumer has read to the end -------------

  /** Whatever the interleaving: as many bytes have been played as were written when close has
      returned. */
  lemma CloseMeansRead<T>(packets: seq<seq<T>>, hole: T, events: seq<Event>)
    requires Run(Opened(packets, hole), events)
    ensures var s := After(Opened(packets, hole), events);
      && |s.played| <= |s.sent|
      && (s.producer.Returned? ==> |s.played| == |s.sent|)
  {
    RunInv(Opened(packets, hole), events);
  }

  function Pending<T>(s: State<T>): seq<T> {
    (if s.producer.Writing? || s.producer.Aimed? then s.producer.rest else []) + Flatten(s.packets)
  }

  lemma WriteKeepsBytes<T>(s: State<T>, n: nat)
    requires Enabled(s, Write(n))
    ensures var t := Apply(s, Write(n)); t.sent + Pending(t) == s.sent + Pending(s)
  {
    hide Flatten, Overwritten;
    var rest := s.producer.rest;
    assert rest == rest[..n] + rest[n..];
    Regroup(s.sent, rest[..n], rest[n..], Flatten(s.packets));
  }

  lemma EnqueueKeepsBytes<T>(s: State<T>)
    requires Enabled(s, Enqueue)
    ensures Pending(Apply(s, Enqueue)) == Pending(s)
  {
    assert Flatten(s.packets) == s.packets[0] + Flatten(s.packets[1..]);
    assert [] + Flatten(s.packets) == Flatten(s.packets);
  }

  lemma StepKeepsBytes<T>(s: State<T>, e: Event)
    requires Enabled(s, e) && !e.WriteFails?
    ensures var t := Apply(s, e); t.sent + Pending(t) == s.sent + Pending(s)
  {
    hide Flatten;
    if e.Write? {
      WriteKeepsBytes(s, e.n);
    } else if e.Enqueue? {
      EnqueueKeepsBytes(s);
    }
  }

  lemma Regroup<T>(a: seq<T>, b: seq<T>, c: seq<T>, d: seq<T>)
    ensures (a + b) + (c + d) == a + ((b + c) + d)
  {}

  predicate NoneFails(events: seq<Event>) {
    forall e | e in events :: !e.WriteFails?
  }

  lemma {:induction false} RunKeepsBytes<T>(s: State<T>, events: seq<Event>)
    requires Run(s, events) && NoneFails(events)
    ensures var t := After(s, events); t.sent + Pending(t) == s.sent + Pending(s)
    decreases |events|
  {
    hide Enabled, Apply, Pending;
    if events != [] {
      StepKeepsBytes(s, events[0]);
      RunKeepsBytes(Apply(s, events[0]), events[1..]);
    }
  }

  /** With no failed write, all packets have been sent when close has returned. */
  lemma EveryPacketIsSent<T>(packets: seq<seq<T>>, hole: T, events: seq<Event>)
    requires Run(Opened(packets, hole), events) && NoneFails(events)
    requires After(Opened(packets, hole), events).producer.Returned?
    ensures After(Opened(packets, hole), events).sent == Flatten(packets)
  {
    var t := After(Opened(packets, hole), events);
    RunInv(Opened(packets, hole), events);
    RunKeepsBytes(Opened(packets, hole), events);
    assert t.sent + ([] + []) == t.sent;
    assert [] + ([] + Flatten(packets)) == Flatten(packets);
  }

  // ---- no interleaving gets stuck ------------------------------------------

  ghost predicate Stuck<T>(s: State<T>) {
    forall e :: !Enabled(s, e)
  }

  lemma ConsumerMoves<T>(s: State<T>) returns (e: Event)
    requires Inv(s) && !s.producer.Aimed? && !s.consumer.Done? && !(s.consumer.Asleep? && s.sem == 0)
    ensures Enabled(s, e)
  {
    match s.consumer
    case Loop => e := Look;
    case Looked(_, _, _) => e := Decide(false);
    case NoData(_) => e := TestRunning;
    case Asleep(_) => e := Wake;
    case Copying(_) => e := AimRead;
    case Reading(_) => e := Copy(0);
  }

  /** Some step is always possible until close has returned: the consumer is never left in
      `sem_wait` with nobody to wake it. */
  lemma NeverStuck<T>(s: State<T>) returns (e: Event)
    requires Inv(s) && !s.producer.Returned?
    ensures Enabled(s, e)
  {
    match s.producer
    case Idle => e := if s.packets == [] then Close else Enqueue;
    case Writing(rest) => e := if rest == [] then WriteDone else AimWrite;
    case Aimed(_) => e := WriteFails;
    case Posting => e := Post;
    case Closing => e := FirstPost;
    case Stopping => e := Stop;
    case LastPost => e := SecondPost;
    case Joining =>
      if s.consumer.Done? {
        e := Join;
      } else {
        e := ConsumerMoves(s);
      }
  }

  // ---- every run ends ------------------------------------------------------

  function Size<T>(packets: seq<seq<T>>): nat {
    if packets == [] then 0 else |packets[0]| + Size(packets[1..])
  }

  /** Posts the receiver thread may still make. */
  function PostsToCome<T>(producer: Producer<T>, packets: seq<seq<T>>): nat {
    match producer
    case Idle => |packets| + 2
    case Writing(_) => |packets| + 3
    case Aimed(_) => |packets| + 3
    case Posting => |packets| + 3
    case Closing => 2
    case Stopping => 1
    case LastPost => 1
    case Joining => 0
    case Returned => 0
  }

  function Rank(c: Consumer): nat {
    match c
    case Loop => 5
    case Looked(_, _, _) => 4
    case NoData(_) => 3
    case Asleep(_) => 1
    case Copying(_) => 3
    case Reading(_) => 2
    case Done => 0
  }

  function ProducerRank<T>(p: Producer<T>): nat {
    match p
    case Idle => 5
    case Writing(_) => 8
    case Aimed(_) => 7
    case Posting => 6
    case Closing => 4
    case Stopping => 3
    case LastPost => 2
    case Joining => 1
    case Returned => 0
  }

  function Unwritten<T>(producer: Producer<T>, packets: seq<seq<T>>): nat {
    (if producer.Writing? || producer.Aimed? then |producer.rest| else 0) + Size(packets)
  }

  function ProducerWork<T>(producer: Producer<T>, packets: seq<seq<T>>): nat {
    20 * Unwritten(producer, packets) + 10 * PostsToCome(producer, packets) + 10 * |packets| + ProducerRank(producer)
  }

  function Unread<T>(s: State<T>): nat {
    if s.readPos < |s.sent| then |s.sent| - s.readPos else 0
  }

  function Measure<T>(s: State<T>): nat {
    ProducerWork(s.producer, s.packets) + 10 * Unread(s) + 10 * s.sem + Rank(s.consumer)
  }

  predicate FailedRead(e: Event) {
    e == Copy(0)
  }

  predicate ByConsumer(e: Event) {
    e.Look? || e.Decide? || e.TestRunning? || e.Wake? || e.AimRead? || e.Copy?
  }

  lemma CopyDecreases<T>(s: State<T>, n: nat)
    requires Enabled(s, Copy(n)) && SnapshotHolds(s)
    ensures Measure(Apply(s, Copy(n))) < Measure(s) + if n == 0 then 5 else 0
  {
    hide ProducerWork;
  }

  lemma ConsumerStepDecreases<T>(s: State<T>, e: Event)
    requires Enabled(s, e) && ByConsumer(e) && !e.Copy?
    ensures Measure(Apply(s, e)) < Measure(s)
  {
    hide ProducerWork;
    match e
    case Look =>
    case Decide(_) =>
    case TestRunning =>
    case Wake =>
    case AimRead =>
  }

  lemma EnqueueDecreases<T>(s: State<T>)
    requires Enabled(s, Enqueue)
    ensures Measure(Apply(s, Enqueue)) < Measure(s)
  {
    assert Size(s.packets) == |s.packets[0]| + Size(s.packets[1..]);
  }

  lemma ProducerStepDecreases<T>(s: State<T>, e: Event)
    requires Enabled(s, e) && !ByConsumer(e) && !e.Enqueue?
    ensures Measure(Apply(s, e)) < Measure(s)
  {
    hide Size, Overwritten, Rank;
  }

  lemma StepDecreases<T>(s: State<T>, e: Event)
    requires Inv(s) && Enabled(s, e)
    ensures Measure(Apply(s, e)) < Measure(s) + if FailedRead(e) then 5 else 0
  {
    hide Measure, Enabled, Apply;
    if e.Enqueue? {
      EnqueueDecreases(s);
    } else if e.Copy? {
      CopyDecreases(s, e.n);
    } else if ByConsumer(e) {
      ConsumerStepDecreases(s, e);
    } else {
      ProducerStepDecreases(s, e);
    }
  }

  function FailedReads(events: seq<Event>): nat {
    if events == [] then 0 else (if FailedRead(events[0]) then 1 else 0) + FailedReads(events[1..])
  }

  /** A run is no longer than this, whatever the interleaving: the two threads cannot keep each
      other busy, and only reads that bring nothing can prolong it. */
  lemma {:induction false} RunsEnd<T>(s: State<T>, events: seq<Event>)
    requires Inv(s) && Run(s, events)
    ensures |events| <= Measure(s) + 5 * FailedReads(events)
    decreases |events|
  {
    hide Inv, Enabled, Apply, Measure, FailedRead;
    if events != [] {
      StepInv(s, events[0]);
      StepDecreases(s, events[0]);
      RunsEnd(Apply(s, events[0]), events[1..]);
    }
  }

  /** A run that cannot go on has returned from close. */
  lemma MaximalRunsReturn<T>(packets: seq<seq<T>>, hole: T, events: seq<Event>)
    requires Run(Opened(packets, hole), events) && Stuck(After(Opened(packets, hole), events))
    ensures var s := After(Opened(packets, hole), events);
      s.producer.Returned? && s.consumer.Done? && |s.played| == |s.sent|
  {
    hide Enabled, Apply;
    var s := After(Opened(packets, hole), events);
    RunInv(Opened(packets, hole), events);
    if !s.producer.Returned? {
      var e := NeverStuck(s);
    }
  }

  // ---- prebuffering --------------------------------------------------------

  /** Without a timeout, enough has been written, or everything has. */
  predicate Buffered<T>(s: State<T>) {
    && (s.consumer.Copying? || s.consumer.Reading? || s.played != [] ==> s.prebuffered)
    && (s.prebuffered ==> |s.sent| >= PREBUFFER || s.eof)
    && (s.consumer.Looked? ==> s.consumer.total <= |s.sent|)
  }

  lemma StepKeepsBuffered<T>(s: State<T>, e: Event)
    requires SnapshotHolds(s) && Buffered(s) && Enabled(s, e) && e != Decide(true)
    ensures Buffered(Apply(s, e))
  {
    hide Overwritten;
  }

  lemma SnapshotOf<T>(s: State<T>)
    requires Inv(s)
    ensures SnapshotHolds(s)
  {}

  lemma {:induction false} RunKeepsBuffered<T>(s: State<T>, events: seq<Event>)
    requires Inv(s) && Buffered(s) && Run(s, events) && Decide(true) !in events
    ensures Buffered(After(s, events))
    decreases |events|
  {
    hide Inv, Buffered, Enabled, Apply;
    if events != [] {
      StepInv(s, events[0]);
      SnapshotOf(s);
      assert events[0] in events;
      StepKeepsBuffered(s, events[0]);
      RunKeepsBuffered(Apply(s, events[0]), events[1..]);
    }
  }

  /** In a run without a timeout nothing is played before 72 KiB have come or the input has
      ended. */
  lemma PlaybackWaitsForData<T>(packets: seq<seq<T>>, hole: T, events: seq<Event>)
    requires Run(Opened(packets, hole), events) && Decide(true) !in events
    ensures var s := After(Opened(packets, hole), events);
      s.played != [] ==> |s.sent| >= 73728 || s.eof
  {
    hide Enabled, Apply, Run, After;
    RunKeepsBuffered(Opened(packets, hole), events);
  }

  // ---- the threads' own code -----------------------------------------------

  lemma {:induction false} RunSnoc<T>(s: State<T>, events: seq<Event>, e: Event)
    requires Run(s, events) && Enabled(After(s, events), e)
    ensures Run(s, events + [e]) && After(s, events + [e]) == Apply(After(s, events), e)
    decreases |events|
  {
    hide Enabled, Apply;
    var all := events + [e];
    if events == [] {
      assert all == [e] && all[1..] == [];
    } else {
      assert all[0] == events[0] && all[1..] == events[1..] + [e];
      RunSnoc(Apply(s, events[0]), events[1..], e);
    }
  }

  /** The run goes from one state to the other by exactly these steps. */
  ghost predicate Takes<T>(s: State<T>, events: seq<Event>, t: State<T>) {
    Run(s, events) && After(s, events) == t
  }

  lemma TakesOne<T>(s: State<T>, e: Event, t: State<T>)
    requires Enabled(s, e) && t == Apply(s, e)
    ensures Takes(s, [e], t)
  {
    hide Enabled, Apply;
    assert Run(s, []) && After(s, []) == s;
    RunSnoc(s, [], e);
    assert [] + [e] == [e];
  }

  lemma TakesMore<T>(s: State<T>, events: seq<Event>, t: State<T>, e: Event, u: State<T>)
    requires Takes(s, events, t) && Enabled(t, e) && u == Apply(t, e)
    ensures Takes(s, events + [e], u)
  {
    hide Enabled, Apply;
    RunSnoc(s, events, e);
  }

  lemma LookSteps<T>(s: State<T>, timeout: bool)
    ensures s.consumer.Loop? && !s.producer.Aimed? && s.readPos <= |s.sent| ==>
      Enabled(s, Look) && Apply(s, Look) == s.(consumer := Looked(|s.sent| - s.readPos, |s.sent|, s.eof))
    ensures s.consumer.Looked? ==> Enabled(s, Decide(timeout)) && Apply(s, Decide(timeout)) == Decided(s, timeout)
    ensures s.consumer.NoData? ==>
      var next := if !s.running && s.consumer.eof then Done else Asleep(s.consumer.eof);
      Enabled(s, TestRunning) && Apply(s, TestRunning) == s.(consumer := next)
  {
    hide Decided;
  }

  lemma AimStep<T>(s: State<T>)
    requires s.consumer.Copying?
    ensures Enabled(s, AimRead)
    ensures Apply(s, AimRead) == s.(offset := s.readPos, consumer := Reading(s.consumer.toRead))
  {}

  function Read<T>(file: seq<T>, from: nat, n: nat): seq<T> {
    if n == 0 || from + n > |file| then [] else file[from..from + n]
  }

  lemma CopyStep<T>(s: State<T>, n: nat)
    requires s.consumer.Reading? && n <= s.consumer.toRead && (n == 0 || s.offset + n <= |s.file|)
    ensures Enabled(s, Copy(n)) && Apply(s, Copy(n)) == s.(consumer := Loop, readPos := s.readPos + n,
      offset := s.offset + n, played := s.played + Read(s.file, s.offset, n))
  {}

  lemma EnqueueSteps<T>(s: State<T>)
    ensures s.producer.Idle? && s.packets != [] ==>
      var p := if s.packets[0] == [] then Idle else Writing(s.packets[0]);
      Enabled(s, Enqueue) && Apply(s, Enqueue) == s.(packets := s.packets[1..], producer := p)
    ensures s.producer.Writing? && s.producer.rest != [] ==>
      Enabled(s, AimWrite) && Apply(s, AimWrite) == s.(offset := |s.sent|, producer := Aimed(s.producer.rest))
    ensures s.producer.Aimed? ==> Enabled(s, WriteFails) && Apply(s, WriteFails) == s.(producer := Posting)
    ensures s.producer.Writing? && s.producer.rest == [] ==>
      Enabled(s, WriteDone) && Apply(s, WriteDone) == s.(producer := Posting)
    ensures s.producer.Posting? ==> Enabled(s, Post) && Apply(s, Post) == s.(sem := s.sem + 1, producer := Idle)
  {}

  lemma WriteSteps<T>(s: State<T>, pcm: seq<T>, written: nat, n: nat)
    requires written + n <= |pcm| && 1 <= n && s.producer == Aimed(pcm[written..])
    ensures var data := pcm[written..written + n];
      Enabled(s, Write(n)) && Apply(s, Write(n)) ==
        s.(file := Overwritten(s.file, s.offset, data, s.hole), sent := s.sent + data,
           offset := s.offset + n, producer := Writing(pcm[written + n..]))
  {
    assert pcm[written..][..n] == pcm[written..written + n];
    assert pcm[written..][n..] == pcm[written + n..];
  }

  lemma CloseSteps<T>(s: State<T>)
    ensures s.producer.Idle? && s.packets == [] ==>
      Enabled(s, Close) && Apply(s, Close) == s.(eof := true, producer := Closing)
    ensures s.producer.Closing? ==>
      Enabled(s, FirstPost) && Apply(s, FirstPost) == s.(sem := s.sem + 1, producer := Stopping)
    ensures s.producer.Stopping? ==>
      var t := if s.running then s.(running := false, producer := LastPost) else s.(producer := Returned);
      Enabled(s, Stop) && Apply(s, Stop) == t
    ensures s.producer.LastPost? ==>
      Enabled(s, SecondPost) && Apply(s, SecondPost) == s.(sem := s.sem + 1, producer := Joining)
  {}

  lemma SliceGrows(a: Bytes, p: Bytes, i: nat, n: nat)
    requires i + n <= |p|
    ensures (a + p[..i]) + p[i..i + n] == a + p[..i + n]
  {}

  lemma AtTheEnd(file: Bytes, data: Bytes)
    ensures Overwritten(file, |file|, data, 0) == file + data
  {}

  function Least(a: nat, b: nat): nat {
    if a < b then a else b
  }

  /** The shared variables of both threads. */
  class Cache {
    var file: Bytes
    var offset: nat
    var writePos: nat
    var readPos: nat
    var eof: bool
    var running: bool
    var sem: nat
    var played: Bytes
    ghost var sent: Bytes

    ghost predicate Valid()
      reads this
    {
      writePos == |sent|
    }

    ghost function Abs(packets: seq<Bytes>, p: Producer<Byte>, c: Consumer, prebuffered: bool): State<Byte>
      reads this
    {
      State(packets, p, file, 0, sent, offset, readPos, eof, running, sem, c, prebuffered, played)
    }

    constructor (ghost packets: seq<Bytes>)
      ensures Valid() && Abs(packets, Idle, Loop, false) == Opened(packets, 0)
    {
      file, offset, writePos, readPos, eof, running, sem, played, sent := [], 0, 0, 0, false, true, 0, [], [];
    }

    /** One seek and write of the loop, of which `n` bytes are accepted. */
    method WriteOnce(pcm: Bytes, written: nat, n: nat, ghost packets: seq<Bytes>, ghost c: Consumer, ghost b: bool,
                     ghost start: State<Byte>, ghost before: seq<Event>)
      returns (ghost events: seq<Event>)
      requires Valid() && written < |pcm| && n <= |pcm| - written
      requires Takes(start, before, Abs(packets, Writing(pcm[written..]), c, b))
      modifies this`file, this`offset, this`writePos, this`sent
      ensures Valid()
      ensures Takes(start, events, Abs(packets, if n == 0 then Posting else Writing(pcm[written + n..]), c, b))
      ensures sent == old(sent) + pcm[written..written + n]
      ensures |old(file)| == old(writePos) ==> file == old(file) + pcm[written..written + n]
    {
      hide Takes, Overwritten, Enabled, Apply;
      AtTheEnd(file, pcm[written..written + n]);
      ghost var writing := Abs(packets, Writing(pcm[written..]), c, b);
      offset := writePos;
      ghost var aimed := Abs(packets, Aimed(pcm[written..]), c, b);
      EnqueueSteps(writing);
      EnqueueSteps(aimed);
      TakesMore(start, before, writing, AimWrite, aimed);
      if n == 0 {
        TakesMore(start, before + [AimWrite], aimed, WriteFails, Abs(packets, Posting, c, b));
        events := before + [AimWrite] + [WriteFails];
      } else {
        WriteSteps(aimed, pcm, written, n);
        file := Overwritten(file, offset, pcm[written..written + n], 0);
        sent := sent + pcm[written..written + n];
        offset, writePos := offset + n, writePos + n;
        TakesMore(start, before + [AimWrite], aimed, Write(n), Abs(packets, Writing(pcm[written + n..]), c, b));
        events := before + [AimWrite] + [Write(n)];
      }
    }

    /** The write loop, with whatever each write accepts. */
    method WriteLoop(pcm: Bytes, accepts: seq<int>, ghost packets: seq<Bytes>, ghost c: Consumer, ghost b: bool,
                     ghost start: State<Byte>, ghost before: seq<Event>)
      returns (ghost events: seq<Event>, failed: bool, ghost accepted: nat)
      requires Valid() && Takes(start, before, Abs(packets, Writing(pcm), c, b))
      modifies this`file, this`offset, this`writePos, this`sent
      ensures Valid() && accepted <= |pcm|
      ensures Takes(start, events, Abs(packets, if failed then Posting else Writing([]), c, b))
      ensures sent == old(sent) + pcm[..accepted]
      ensures |old(file)| == old(writePos) ==> file == old(file) + pcm[..accepted]
      ensures if failed then exists i :: 0 <= i < |accepts| && accepts[i] <= 0 else accepted == |pcm|
    {
      hide Takes, Overwritten, Enabled, Apply;
      var written, i := 0, 0;
      failed, events := false, before;
      assert pcm[0..] == pcm && pcm[..0] == [] && sent + [] == sent && file + [] == file;
      while written < |pcm| && !failed
        invariant 0 <= written <= |pcm| && 0 <= i && Valid()
        invariant Takes(start, events, Abs(packets, if failed then Posting else Writing(pcm[written..]), c, b))
        invariant sent == old(sent) + pcm[..written]
        invariant |old(file)| == old(writePos) ==> file == old(file) + pcm[..written] && |file| == writePos
        invariant failed ==> exists k :: 0 <= k < |accepts| && accepts[k] <= 0
        decreases |pcm| - written, !failed
      {
        var left := |pcm| - written;
        var n := if i < |accepts| && accepts[i] < left then accepts[i] else left;
        i := i + 1;
        failed := n <= 0;
        n := if n <= 0 then 0 else n;
        SliceGrows(old(sent), pcm, written, n);
        SliceGrows(old(file), pcm, written, n);
        events := WriteOnce(pcm, written, n, packets, c, b, start, events);
        written := written + n;
      }
      accepted := written;
      assert !failed ==> pcm[written..] == [];
    }

    /** The packet is written and one post made: steps of the machine, between any two of which the
        consumer may step. Only a write that accepts nothing keeps it from writing the whole
        packet. */
    method EnqueuePacket(pcm: Bytes, accepts: seq<int>, ghost packets: seq<Bytes>, ghost c: Consumer, ghost b: bool)
      returns (ghost events: seq<Event>, ghost accepted: nat)
      requires Valid()
      modifies this`file, this`offset, this`writePos, this`sent, this`sem
      ensures Valid()
      ensures Takes(old(Abs([pcm] + packets, Idle, c, b)), events, Abs(packets, Idle, c, b))
      ensures accepted <= |pcm| && sent == old(sent) + pcm[..accepted]
      ensures accepted < |pcm| ==> exists i :: 0 <= i < |accepts| && accepts[i] <= 0
      ensures |old(file)| == old(writePos) ==> file == old(file) + pcm[..accepted]
      ensures sem == old(sem) + if pcm == [] then 0 else 1
    {
      hide Takes, Enabled, Apply;
      ghost var start, first := Abs([pcm] + packets, Idle, c, b), if pcm == [] then Idle else Writing(pcm);
      assert ([pcm] + packets)[1..] == packets;
      EnqueueSteps(start);
      TakesOne(start, Enqueue, Abs(packets, first, c, b));
      events, accepted := [Enqueue], 0;
      if |pcm| == 0 {
        assert sent + [] == sent && file + [] == file;
        return;
      }
      var failed;
      events, failed, accepted := WriteLoop(pcm, accepts, packets, c, b, start, events);
      ghost var posting := Abs(packets, Posting, c, b);
      if !failed {
        ghost var all := Abs(packets, Writing([]), c, b);
        EnqueueSteps(all);
        TakesMore(start, events, all, WriteDone, posting);
        events := events + [WriteDone];
      }
      EnqueueSteps(posting);
      sem := sem + 1;
      TakesMore(start, events, posting, Post, Abs(packets, Idle, c, b));
      events := events + [Post];
    }

    /** Closing up to the join. */
    method CloseInput(ghost c: Consumer, ghost b: bool) returns (joins: bool, ghost events: seq<Event>)
      modifies this`eof, this`running, this`sem
      ensures joins == old(running)
      ensures eof && !running && sem == old(sem) + if joins then 2 else 1
      ensures Takes(old(Abs([], Idle, c, b)), events, Abs([], if joins then Joining else Returned, c, b))
    {
      hide Takes, Enabled, Apply;
      ghost var start := Abs([], Idle, c, b);
      CloseSteps(start);
      eof := true;
      ghost var s := Abs([], Closing, c, b);
      CloseSteps(s);
      TakesOne(start, Close, s);
      sem := sem + 1;
      ghost var t := Abs([], Stopping, c, b);
      CloseSteps(t);
      TakesMore(start, [Close], s, FirstPost, t);
      events := [Close] + [FirstPost];
      joins := running;
      if running {
        running := false;
        s := Abs([], LastPost, c, b);
        CloseSteps(s);
        TakesMore(start, events, t, Stop, s);
        events := events + [Stop];
        sem := sem + 1;
        TakesMore(start, events, s, SecondPost, Abs([], Joining, c, b));
        events := events + [SecondPost];
      } else {
        TakesMore(start, events, t, Stop, Abs([], Returned, c, b));
        events := events + [Stop];
      }
    }

    /** The bytes of the file from a position on. */
    function Ahead(from: nat): nat
      reads this
    {
      if from < |file| then |file| - from else 0
    }

    /** Before 72 KiB are cached or the input has ended, playback does not start. */
    predicate Shut(prebuffered: bool)
      reads this
    {
      !prebuffered && writePos < 73728 && !eof
    }

    /** The seek and read of a turn: `n` of the bytes wanted come. */
    method Transfer(toRead: nat, n: nat, ghost packets: seq<Bytes>, ghost p: Producer<Byte>, ghost b: bool,
                    ghost start: State<Byte>, ghost before: seq<Event>)
      returns (ghost events: seq<Event>)
      requires n <= toRead && Takes(start, before, Abs(packets, p, Copying(toRead), b))
      modifies this`offset, this`readPos, this`played
      ensures Takes(start, events, Abs(packets, p, Loop, b))
      ensures readPos - old(readPos) == Least(n, Ahead(old(readPos)))
      ensures played == old(played) + Read(file, old(readPos), readPos - old(readPos))
    {
      hide Takes, Enabled, Apply, Read;
      ghost var ready := Abs(packets, p, Copying(toRead), b);
      AimStep(ready);
      offset := readPos;
      ghost var aimed := Abs(packets, p, Reading(toRead), b);
      TakesMore(start, before, ready, AimRead, aimed);
      var got := Least(n, Ahead(readPos));
      CopyStep(aimed, got);
      played := played + Read(file, offset, got);
      offset, readPos := offset + got, readPos + got;
      TakesMore(start, before + [AimRead], aimed, Copy(got), Abs(packets, p, Loop, b));
      events := before + [AimRead] + [Copy(got)];
    }

    /** One turn of the consumer's loop, up to its wait: a snapshot, the prebuffering gate, the
        exit test, or one transfer of at most 8 KiB, of which `n` bytes come if they are there. */
    method ConsumerTurn(prebuffered: bool, timeout: bool, n: nat, ghost packets: seq<Bytes>, ghost p: Producer<Byte>)
      returns (next: Consumer, done: bool, ghost events: seq<Event>)
      requires Valid() && readPos <= writePos && !p.Aimed?
      modifies this`offset, this`readPos, this`played
      ensures next.Loop? || next.Asleep? || next.Done?
      ensures Takes(old(Abs(packets, p, Loop, prebuffered)), events, Abs(packets, p, next, done))
      ensures Shut(prebuffered) ==>
        next == Asleep(false) && done == timeout && readPos == old(readPos) && played == old(played)
      ensures !Shut(prebuffered) && old(readPos) == writePos ==>
        next == (if !running && eof then Done else Asleep(eof)) && done
        && readPos == old(readPos) && played == old(played)
      ensures !Shut(prebuffered) && old(readPos) < writePos ==>
        && next == Loop && done
        && readPos - old(readPos) == Least(Least(n, 8192), Least(writePos - old(readPos), Ahead(old(readPos))))
        && played == old(played) + Read(file, old(readPos), readPos - old(readPos))
    {
      hide Takes, Enabled, Apply;
      var avail, total, end := writePos - readPos, writePos, eof;
      done := prebuffered;
      ghost var start := Abs(packets, p, Loop, done);
      ghost var looked := Abs(packets, p, Looked(avail, total, end), done);
      LookSteps(start, timeout);
      LookSteps(looked, timeout);
      TakesOne(start, Look, looked);
      events := [Look];
      if !done {
        if total >= PREBUFFER || end {
          done := true;
        } else {
          done := timeout;
          next := Asleep(false);
          TakesMore(start, events, looked, Decide(timeout), Abs(packets, p, next, done));
          events := events + [Decide(timeout)];
          return;
        }
      }
      if avail <= 0 {
        ghost var empty := Abs(packets, p, NoData(end), done);
        TakesMore(start, events, looked, Decide(timeout), empty);
        LookSteps(empty, timeout);
        next := if !running && end then Done else Asleep(end);
        TakesMore(start, events + [Decide(timeout)], empty, TestRunning, Abs(packets, p, next, done));
        events := events + [Decide(timeout)] + [TestRunning];
        return;
      }
      var toRead := if avail < READ_CHUNK then avail else READ_CHUNK;
      TakesMore(start, events, looked, Decide(timeout), Abs(packets, p, Copying(toRead), done));
      events := Transfer(toRead, Least(n, toRead), packets, p, done, start, events + [Decide(timeout)]);
      next := Loop;
    }
  }
}
