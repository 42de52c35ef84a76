/** Whether the audio cache plays what it was sent, in order: the two threads seek on the same
    descriptor, and a seek of the consumer between the receiver's seek and its write makes the
    packet land on audio that has not been played. */
module OmniOrder {
  import opened Bytes
  import opened OmniCache

  /** A write that does not go to the end of what was sent. */
  predicate Miss<T>(s: State<T>, e: Event) {
    e.Write? && s.offset != |s.sent|
  }

  predicate NoMiss<T>(s: State<T>, events: seq<Event>)
    requires Run(s, events)
    decreases |events|
  {
    events == [] || (!Miss(s, events[0]) && NoMiss(Apply(s, events[0]), events[1..]))
  }

  // ---- when a write misses ---------------------------------------------------

  /** Whether the consumer has seeked since the receiver's last seek. */
  function SeekedSince(events: seq<Event>, before: bool): bool {
    if events == [] then before
    else SeekedSince(events[1..], if events[0].AimWrite? then false else before || events[0].AimRead?)
  }

  predicate AimIs<T>(s: State<T>, seeked: bool) {
    s.producer.Aimed? ==> s.offset == if seeked then s.readPos else |s.sent|
  }

  lemma AimStep<T>(s: State<T>, e: Event, seeked: bool)
    requires Inv(s) && Enabled(s, e) && AimIs(s, seeked)
    ensures AimIs(Apply(s, e), if e.AimWrite? then false else seeked || e.AimRead?)
  {
    hide Overwritten;
  }

  lemma {:induction false} AimOf<T>(s: State<T>, events: seq<Event>, seeked: bool)
    requires Inv(s) && Run(s, events) && AimIs(s, seeked)
    ensures AimIs(After(s, events), SeekedSince(events, seeked))
    decreases |events|
  {
    hide Inv, Enabled, Apply, AimIs;
    if events != [] {
      StepInv(s, events[0]);
      AimStep(s, events[0], seeked);
      AimOf(Apply(s, events[0]), events[1..], if events[0].AimWrite? then false else seeked || events[0].AimRead?);
    }
  }

  /** A write misses exactly when the consumer has seeked since the receiver did and has not read
      up to the end since. */
  lemma MissIff<T>(packets: seq<seq<T>>, hole: T, events: seq<Event>, n: nat)
    requires Run(Opened(packets, hole), events) && Enabled(After(Opened(packets, hole), events), Write(n))
    ensures var s := After(Opened(packets, hole), events);
      Miss(s, Write(n)) <==> SeekedSince(events, false) && s.readPos < |s.sent|
  {
    RunInv(Opened(packets, hole), events);
    AimOf(Opened(packets, hole), events, false);
  }

  // ---- without a miss --------------------------------------------------------

  /** The file is what was sent, and what was played is its front. */
  ghost predicate Clean<T>(s: State<T>) {
    && s.file == s.sent && s.readPos <= |s.sent| && s.played == s.sent[..s.readPos]
    && (s.consumer.Reading? ==> s.offset == s.readPos || s.offset == |s.sent|)
  }

  lemma CopyIsClean<T>(s: State<T>, n: nat)
    requires Inv(s) && Clean(s) && Enabled(s, Copy(n))
    ensures Clean(Apply(s, Copy(n)))
    ensures s.offset != s.readPos ==> n == 0
  {
    if n > 0 {
      assert s.sent[..s.readPos] + s.sent[s.readPos..s.readPos + n] == s.sent[..s.readPos + n];
    }
  }

  lemma WriteIsClean<T>(s: State<T>, n: nat)
    requires Inv(s) && Clean(s) && Enabled(s, Write(n)) && !Miss(s, Write(n))
    ensures Clean(Apply(s, Write(n)))
  {
    var data := s.producer.rest[..n];
    assert Overwritten(s.file, s.offset, data, s.hole) == s.sent + data;
    assert (s.sent + data)[..s.readPos] == s.sent[..s.readPos];
  }

  lemma StepIsClean<T>(s: State<T>, e: Event)
    requires Inv(s) && Clean(s) && Enabled(s, e) && !Miss(s, e)
    ensures Clean(Apply(s, e))
  {
    hide Overwritten;
    if e.Copy? {
      CopyIsClean(s, e.n);
    } else if e.Write? {
      WriteIsClean(s, e.n);
    }
  }

  lemma {:induction false} RunIsClean<T>(s: State<T>, events: seq<Event>)
    requires Inv(s) && Clean(s) && Run(s, events) && NoMiss(s, events)
    ensures Clean(After(s, events))
    decreases |events|
  {
    hide Inv, Clean, Enabled, Apply, Miss;
    if events != [] {
      StepInv(s, events[0]);
      StepIsClean(s, events[0]);
      RunIsClean(Apply(s, events[0]), events[1..]);
    }
  }

  /** Without a miss, playback is in order at every moment, and close returns only after
      everything sent has been played; a read behind the receiver's seek brings nothing and is
      made again. */
  lemma NoMissMeansInOrder<T>(packets: seq<seq<T>>, hole: T, events: seq<Event>)
    requires Run(Opened(packets, hole), events) && NoMiss(Opened(packets, hole), events)
    ensures var s := After(Opened(packets, hole), events);
      && s.played <= s.sent
      && (s.producer.Returned? ==> s.played == s.sent)
      && (s.producer.Returned? && NoneFails(events) ==> s.played == Flatten(packets))
  {
    hide Enabled, Apply;
    RunInv(Opened(packets, hole), events);
    RunIsClean(Opened(packets, hole), events);
    if NoneFails(events) && After(Opened(packets, hole), events).producer.Returned? {
      EveryPacketIsSent(packets, hole, events);
    }
  }

  // ---- after a miss ----------------------------------------------------------

  /** The byte is one that was sent later than as the p-th, or a gap. */
  ghost predicate Late<T>(sent: seq<T>, hole: T, v: T, p: nat) {
    v == hole || exists j :: p < j < |sent| && v == sent[j]
  }

  ghost predicate NotEarly<T>(sent: seq<T>, hole: T, v: T, p: nat) {
    Late(sent, hole, v, p) || (p < |sent| && v == sent[p])
  }

  /** No byte of the file is at a place behind its own. */
  ghost predicate NoneEarly<T>(sent: seq<T>, hole: T, file: seq<T>) {
    forall q :: 0 <= q < |file| ==> NotEarly(sent, hole, file[q], q)
  }

  /** A wrong byte has been played. */
  ghost predicate WrongPlayed<T>(sent: seq<T>, hole: T, played: seq<T>) {
    exists p :: 0 <= p < |played| && Late(sent, hole, played[p], p)
  }

  /** A wrong byte has been played, or will be next. */
  ghost predicate Spoiled<T>(s: State<T>) {
    || WrongPlayed(s.sent, s.hole, s.played)
    || (s.readPos < |s.file| && Late(s.sent, s.hole, s.file[s.readPos], s.readPos))
  }

  /** What was sent stays sent. */
  lemma StaysLate<T>(sent: seq<T>, more: seq<T>, hole: T, v: T, p: nat)
    ensures Late(sent, hole, v, p) ==> Late(sent + more, hole, v, p)
    ensures NotEarly(sent, hole, v, p) ==> NotEarly(sent + more, hole, v, p)
  {
    if v != hole && Late(sent, hole, v, p) {
      var j :| p < j < |sent| && v == sent[j];
      assert v == (sent + more)[j];
    }
  }

  lemma StaysWrong<T>(sent: seq<T>, more: seq<T>, hole: T, played: seq<T>, next: seq<T>)
    requires WrongPlayed(sent, hole, played)
    ensures WrongPlayed(sent + more, hole, played + next)
  {
    hide Late;
    var p :| 0 <= p < |played| && Late(sent, hole, played[p], p);
    StaysLate(sent, more, hole, played[p], p);
    assert (played + next)[p] == played[p];
  }

  /** A byte written is at its place, or at one before. */
  lemma WrittenByte<T>(sent: seq<T>, data: seq<T>, hole: T, offset: nat, q: nat)
    requires offset <= |sent| && offset <= q < offset + |data|
    ensures NotEarly(sent + data, hole, data[q - offset], q)
    ensures offset < |sent| ==> Late(sent + data, hole, data[q - offset], q)
  {
    assert (sent + data)[|sent| + (q - offset)] == data[q - offset];
  }

  lemma Gap<T>(sent: seq<T>, hole: T, q: nat)
    ensures NotEarly(sent, hole, hole, q)
  {}

  lemma WrittenFile<T>(sent: seq<T>, data: seq<T>, hole: T, offset: nat, file: seq<T>)
    requires NoneEarly(sent, hole, file) && offset <= |sent| && data != []
    ensures NoneEarly(sent + data, hole, Overwritten(file, offset, data, hole))
  {
    hide NotEarly;
    var after := Overwritten(file, offset, data, hole);
    forall q | 0 <= q < |after|
      ensures NotEarly(sent + data, hole, after[q], q)
    {
      if offset <= q < offset + |data| {
        WrittenByte(sent, data, hole, offset, q);
      } else if q < |file| {
        StaysLate(sent, data, hole, file[q], q);
      } else {
        Gap(sent + data, hole, q);
      }
    }
  }

  lemma WriteSpoils<T>(s: State<T>, n: nat)
    requires Inv(s) && NoneEarly(s.sent, s.hole, s.file) && Enabled(s, Write(n))
    ensures var t := Apply(s, Write(n));
      && NoneEarly(t.sent, t.hole, t.file)
      && (Spoiled(s) || Miss(s, Write(n)) ==> Spoiled(t))
  {
    hide Late, NotEarly, WrongPlayed;
    var t, data, p := Apply(s, Write(n)), s.producer.rest[..n], s.readPos;
    WrittenFile(s.sent, data, s.hole, s.offset, s.file);
    if WrongPlayed(s.sent, s.hole, s.played) {
      StaysWrong(s.sent, data, s.hole, s.played, []);
      assert s.played + [] == s.played;
    } else if Miss(s, Write(n)) {
      WrittenByte(s.sent, data, s.hole, s.offset, p);
    } else if Spoiled(s) {
      StaysLate(s.sent, data, s.hole, s.file[p], p);
    }
  }

  lemma LaterStill<T>(sent: seq<T>, hole: T, v: T, p: nat, q: nat)
    requires p < q && NotEarly(sent, hole, v, q)
    ensures Late(sent, hole, v, p)
  {}

  /** Reading on from a wrong byte, or behind it, plays a wrong byte. */
  lemma CopySpoils<T>(s: State<T>, n: nat)
    requires Inv(s) && NoneEarly(s.sent, s.hole, s.file) && Enabled(s, Copy(n)) && Spoiled(s)
    ensures Spoiled(Apply(s, Copy(n)))
  {
    hide Late, NotEarly, WrongPlayed;
    var p, o := s.readPos, s.offset;
    if n > 0 {
      var more := s.file[o..o + n];
      if WrongPlayed(s.sent, s.hole, s.played) {
        StaysWrong(s.sent, [], s.hole, s.played, more);
        assert s.sent + [] == s.sent;
      } else {
        FirstBehind(s.played, s.file, o, n);
        assert |s.played| == p && p <= o;
        if o > p {
          LaterStill(s.sent, s.hole, s.file[o], p, o);
        }
        PlayedWrong(s.sent, s.hole, s.played + more, p);
      }
    } else {
      assert s.played + [] == s.played;
    }
  }

  lemma FirstBehind<T>(played: seq<T>, file: seq<T>, o: nat, n: nat)
    requires n > 0 && o + n <= |file|
    ensures (played + file[o..o + n])[|played|] == file[o]
  {}

  lemma PlayedWrong<T>(sent: seq<T>, hole: T, played: seq<T>, p: nat)
    requires p < |played| && Late(sent, hole, played[p], p)
    ensures WrongPlayed(sent, hole, played)
  {}

  lemma StepStaysSpoiled<T>(s: State<T>, e: Event)
    requires Inv(s) && NoneEarly(s.sent, s.hole, s.file) && Enabled(s, e)
    ensures var t := Apply(s, e);
      NoneEarly(t.sent, t.hole, t.file) && (Spoiled(s) || Miss(s, e) ==> Spoiled(t))
  {
    hide Late, Overwritten, WrongPlayed, NoneEarly;
    if e.Write? {
      WriteSpoils(s, e.n);
    } else if e.Copy? && Spoiled(s) {
      CopySpoils(s, e.n);
    }
  }

  lemma {:induction false} RunSpoils<T>(s: State<T>, events: seq<Event>)
    requires Inv(s) && NoneEarly(s.sent, s.hole, s.file) && Run(s, events)
    requires Spoiled(s) || !NoMiss(s, events)
    ensures Spoiled(After(s, events))
    decreases |events|
  {
    hide Inv, NoneEarly, Spoiled, Enabled, Apply, Miss;
    if events != [] {
      StepInv(s, events[0]);
      StepStaysSpoiled(s, events[0]);
      RunSpoils(Apply(s, events[0]), events[1..]);
    }
  }

  /** Bytes of sound that can be told apart, and from a gap. */
  ghost predicate Told<T>(sent: seq<T>, hole: T) {
    && (forall i, j :: 0 <= i < j < |sent| ==> sent[i] != sent[j])
    && hole !in sent
  }

  /** When close has returned, everything sent has been played in order exactly when no write
      missed. */
  lemma ClosedInOrderIff<T>(packets: seq<seq<T>>, hole: T, events: seq<Event>)
    requires Run(Opened(packets, hole), events) && After(Opened(packets, hole), events).producer.Returned?
    requires Told(After(Opened(packets, hole), events).sent, hole)
    ensures var s := After(Opened(packets, hole), events);
      s.played == s.sent <==> NoMiss(Opened(packets, hole), events)
  {
    hide Enabled, Apply, WrongPlayed, Told, NoMiss;
    var s := After(Opened(packets, hole), events);
    RunInv(Opened(packets, hole), events);
    if NoMiss(Opened(packets, hole), events) {
      NoMissMeansInOrder(packets, hole, events);
    } else {
      RunSpoils(Opened(packets, hole), events);
      KeepsHole(Opened(packets, hole), events);
      WrongIsHeard(s);
    }
  }

  lemma StepKeepsHole<T>(s: State<T>, e: Event)
    requires Enabled(s, e)
    ensures Apply(s, e).hole == s.hole
  {
    hide Overwritten;
  }

  lemma {:induction false} KeepsHole<T>(s: State<T>, events: seq<Event>)
    requires Run(s, events)
    ensures After(s, events).hole == s.hole
    decreases |events|
  {
    hide Enabled, Apply;
    if events != [] {
      StepKeepsHole(s, events[0]);
      KeepsHole(Apply(s, events[0]), events[1..]);
    }
  }

  lemma WrongIsHeard<T>(s: State<T>)
    requires WrongPlayed(s.sent, s.hole, s.played) && Told(s.sent, s.hole)
    ensures s.played != s.sent
  {
    hide Late, Told;
    var p :| 0 <= p < |s.played| && Late(s.sent, s.hole, s.played[p], p);
    if p < |s.sent| {
      LateIsWrong(s.sent, s.hole, s.played[p], p);
    }
  }

  lemma LateIsWrong<T>(sent: seq<T>, hole: T, v: T, p: nat)
    requires p < |sent| && Told(sent, hole) && Late(sent, hole, v, p)
    ensures v != sent[p]
  {
    assert sent[p] in sent;
  }

  // ---- a miss at the end -----------------------------------------------------

  /** The file is too short and nothing more will be written. */
  predicate Short<T>(s: State<T>) {
    && s.readPos <= |s.file| < |s.sent| && s.packets == []
    && !s.producer.Aimed? && (s.producer.Writing? ==> s.producer.rest == [])
  }

  lemma StaysShort<T>(s: State<T>, e: Event)
    requires Inv(s) && Short(s) && Enabled(s, e)
    ensures Short(Apply(s, e))
  {
    hide Overwritten;
  }

  lemma {:induction false} ShortNeverReturns<T>(s: State<T>, events: seq<Event>)
    requires Inv(s) && Short(s) && Run(s, events)
    ensures !After(s, events).producer.Returned?
    decreases |events|
  {
    if events != [] {
      hide Inv, Enabled, Apply, Short;
      StepInv(s, events[0]);
      StaysShort(s, events[0]);
      ShortNeverReturns(Apply(s, events[0]), events[1..]);
    }
  }

  /** If the last write of all misses, close never returns: the consumer keeps trying to read
      what is not there. */
  lemma LastMissHangs<T>(packets: seq<seq<T>>, hole: T, events: seq<Event>, more: seq<Event>)
    requires Run(Opened(packets, hole), events)
    requires var s := After(Opened(packets, hole), events);
      && s.packets == [] && s.producer.Aimed? && s.producer.rest != []
      && var e := Write(|s.producer.rest|);
      Miss(s, e) && Run(Apply(s, e), more)
    ensures var s := After(Opened(packets, hole), events);
      !After(Apply(s, Write(|s.producer.rest|)), more).producer.Returned?
  {
    hide Run, After;
    var s := After(Opened(packets, hole), events);
    var e := Write(|s.producer.rest|);
    RunInv(Opened(packets, hole), events);
    StepInv(s, e);
    ShortNeverReturns(Apply(s, e), more);
  }

  // ---- a run with a miss -----------------------------------------------------

  /** Two bytes are written; the consumer's patience ends and it is about to read them. */
  function ReadyToRead<T>(x: T, y: T, z: T, hole: T): State<T> {
    State([[z]], Idle, [x, y], hole, [x, y], 2, 0, false, true, 0, Copying(2), true, [])
  }

  lemma GetsReady<T>(x: T, y: T, z: T, hole: T) returns (events: seq<Event>)
    ensures Takes(Opened([[x, y], [z]], hole), events, ReadyToRead(x, y, z, hole))
  {
    hide Takes, Enabled, Apply;
    var s0 := Opened([[x, y], [z]], hole);
    var s1 := s0.(packets := [[z]], producer := Writing([x, y]));
    assert s0.packets[1..] == s1.packets;
    EnqueueSteps(s0);
    TakesOne(s0, Enqueue, s1);
    var s2 := s1.(producer := Aimed([x, y]));
    EnqueueSteps(s1);
    TakesMore(s0, [Enqueue], s1, AimWrite, s2);
    var s3 := s2.(file := [x, y], sent := [x, y], offset := 2, producer := Writing([]));
    FirstWrite(s2, x, y);
    TakesMore(s0, [Enqueue] + [AimWrite], s2, Write(2), s3);
    var e3 := [Enqueue] + [AimWrite] + [Write(2)];
    var s4 := s3.(producer := Posting);
    EnqueueSteps(s3);
    TakesMore(s0, e3, s3, WriteDone, s4);
    var s5 := s4.(sem := 1, producer := Idle);
    EnqueueSteps(s4);
    TakesMore(s0, e3 + [WriteDone], s4, Post, s5);
    events := Wakes(s0, e3 + [WriteDone] + [Post], s5);
  }

  lemma FirstWrite<T>(s: State<T>, x: T, y: T)
    requires s.producer == Aimed([x, y]) && s.file == [] && s.sent == [] && s.offset == 0
    ensures Enabled(s, Write(2))
    ensures Apply(s, Write(2)) == s.(file := [x, y], sent := [x, y], offset := 2, producer := Writing([]))
  {
    WriteSteps(s, [x, y], 0, 2);
    assert [x, y][0..] == [x, y] && [x, y][0..2] == [x, y] && [x, y][2..] == [];
    assert Overwritten([], 0, [x, y], s.hole) == [x, y];
  }

  lemma Wakes<T>(start: State<T>, before: seq<Event>, s: State<T>) returns (events: seq<Event>)
    requires Takes(start, before, s)
    requires s.producer.Idle? && s.consumer.Loop? && s.sem == 1 && !s.prebuffered && !s.eof
    requires s.readPos == 0 && |s.sent| == 2
    ensures Takes(start, events, s.(sem := 0, prebuffered := true, consumer := Copying(2)))
  {
    hide Takes, Enabled, Apply;
    var looked := s.(consumer := Looked(2, 2, false));
    LookSteps(s, true);
    TakesMore(start, before, s, Look, looked);
    var asleep := looked.(prebuffered := true, consumer := Asleep(false));
    LookSteps(looked, true);
    TakesMore(start, before + [Look], looked, Decide(true), asleep);
    var awake := asleep.(sem := 0, consumer := Loop);
    WakeStep(asleep);
    TakesMore(start, before + [Look] + [Decide(true)], asleep, Wake, awake);
    var e := before + [Look] + [Decide(true)] + [Wake];
    var again := awake.(consumer := Looked(2, 2, false));
    LookSteps(awake, false);
    TakesMore(start, e, awake, Look, again);
    LookSteps(again, false);
    TakesMore(start, e + [Look], again, Decide(false), again.(consumer := Copying(2)));
    events := e + [Look] + [Decide(false)];
  }

  lemma WakeStep<T>(s: State<T>)
    requires s.consumer.Asleep? && s.sem > 0
    ensures Enabled(s, Wake) && Apply(s, Wake) == s.(sem := s.sem - 1, consumer := Loop)
  {}

  /** It does happen: the consumer seeks between the receiver's seek and its write, and the second
      packet takes the place of the first byte, which has not been played. */
  lemma SeekBetween<T>(x: T, y: T, z: T, hole: T) returns (events: seq<Event>, t: State<T>)
    ensures Takes(Opened([[x, y], [z]], hole), events, t)
    ensures Enabled(t, Write(1)) && Miss(t, Write(1))
    ensures var u := Apply(t, Write(1)); u.file == [z, y] && u.sent == [x, y, z] && u.played == [] && u.readPos == 0
  {
    hide Takes, Enabled, Apply;
    events := GetsReady(x, y, z, hole);
    var s0, s := Opened([[x, y], [z]], hole), ReadyToRead(x, y, z, hole);
    var s1 := s.(packets := [], producer := Writing([z]));
    EnqueueSteps(s);
    assert s.packets[1..] == [];
    TakesMore(s0, events, s, Enqueue, s1);
    var s2 := s1.(producer := Aimed([z]));
    EnqueueSteps(s1);
    TakesMore(s0, events + [Enqueue], s1, AimWrite, s2);
    t := s2.(offset := 0, consumer := Reading(2));
    OmniCache.AimStep(s2);
    TakesMore(s0, events + [Enqueue] + [AimWrite], s2, AimRead, t);
    events := events + [Enqueue] + [AimWrite] + [AimRead];
    WriteSteps(t, [z], 0, 1);
    assert [z][0..] == [z] && [z][0..1] == [z];
    assert Overwritten([x, y], 0, [z], hole) == [z, y];
    assert [x, y] + [z] == [x, y, z];
  }
}
