/** The life of the meeting page: its threads hand results to the UI thread through the dispatch
    ring, and the text is put together while some of them are still waiting there. */
module TranscriptLife {
  import opened Bytes
  import opened CStrings
  import opened Transcript
  import opened TranscriptLog
  import DispatchRing

  /** What waits in the ring: a result to show, the minutes of a meeting, anything else. */
  datatype Item = Text(r: Result) | Minutes | Other

  /** The page is absent, shows its start button, or has started its meeting; the start button
      works once. */
  datatype Phase = Absent | Ready | Meeting

  datatype Page = Page(phase: Phase, text: State, queue: seq<Item>)

  const BOOT := Page(Absent, START, [])

  /** `Post` comes from any thread and is lost if memory runs out or the ring is full; `Take`
      handles the oldest item; `Finish` is the last append of a transcription thread, of this
      meeting or of one before. */
  datatype Event = Create | Begin | Post(item: Item, memory: bool) | Take | Finish | Leave

  predicate Can(p: Page, e: Event) {
    match e
    case Create => p.phase.Absent?
    case Begin => p.phase.Ready?
    case Leave => !p.phase.Absent?
    case Take => p.queue != []
    case _ => true
  }

  predicate Enqueues(p: Page, memory: bool) {
    memory && |p.queue| < DispatchRing.SIZE - 1
  }

  function Handled(s: State, item: Item): State {
    match item
    case Text(r) => Update(s, r)
    case Minutes => Cleared(s)
    case Other => s
  }

  function Next(p: Page, e: Event): Page
    requires Can(p, e)
  {
    match e
    case Create => p.(phase := Ready)
    case Begin => p.(phase := Meeting, text := Begun(p.text))
    case Post(item, memory) => if Enqueues(p, memory) then p.(queue := p.queue + [item]) else p
    case Take =>
      Page(p.phase, if p.phase.Absent? then p.text else Handled(p.text, p.queue[0]), p.queue[1..])
    case Finish => p.(text := p.text.(full := Finished(p.text)))
    case Leave => p.(phase := Absent, text := Closed(p.text))
  }

  predicate Lives(p: Page, events: seq<Event>)
    decreases |events|, 0
  {
    events == [] ||
    (var n := |events| - 1; Lives(p, events[..n]) && Can(After(p, events[..n]), events[n]))
  }

  function After(p: Page, events: seq<Event>): Page
    requires Lives(p, events)
    decreases |events|
  {
    if events == [] then p
    else Next(After(p, events[..|events| - 1]), events[|events| - 1])
  }

  lemma OneMore(p: Page, before: seq<Event>, e: Event)
    requires Lives(p, before) && Can(After(p, before), e)
    ensures Lives(p, before + [e]) && After(p, before + [e]) == Next(After(p, before), e)
  {
    assert (before + [e])[..|before|] == before;
  }

  lemma OneLess(p: Page, before: seq<Event>, e: Event)
    requires Lives(p, before + [e])
    ensures Lives(p, before) && Can(After(p, before), e)
    ensures After(p, before + [e]) == Next(After(p, before), e)
  {
    assert (before + [e])[..|before|] == before;
  }

  lemma {:induction false} LivesSplit(p: Page, a: seq<Event>, b: seq<Event>)
    requires Lives(p, a + b)
    ensures Lives(p, a) && Lives(After(p, a), b) && After(p, a + b) == After(After(p, a), b)
    decreases |b|
  {
    hide Next, Can;
    if b == [] {
      assert a + b == a;
    } else {
      var n := |b| - 1;
      assert a + b == (a + b[..n]) + [b[n]];
      OneLess(p, a + b[..n], b[n]);
      LivesSplit(p, a, b[..n]);
      OneMore(After(p, a), b[..n], b[n]);
      assert b[..n] + [b[n]] == b;
    }
  }

  /** The ring takes an item exactly as the dispatch ring does: with memory, and with fewer than 31
      waiting. */
  lemma RingTakes(p: Page, item: Item, memory: bool, ring: DispatchRing.State, waiting: DispatchRing.Item)
    requires |ring.pending| == |p.queue| && waiting.cb != 0
    ensures Next(p, Post(item, memory)) == p.(queue := p.queue + if memory && |p.queue| < 31 then [item] else [])
    ensures memory ==>
      |DispatchRing.Offer(ring, waiting).pending| == |Next(p, Post(item, memory)).queue|
  {
    assert p.queue + [] == p.queue;
  }

  // ---- what every life keeps ------------------------------------------------

  predicate ProperItem(item: Item) {
    item.Text? ==> item.r.text != [] && item.r.sid >= 0
  }

  /** The service's results have text and, unlike its error notices, an id. */
  predicate Proper(events: seq<Event>) {
    forall e | e in events :: e.Post? ==> ProperItem(e.item)
  }

  predicate Sound(p: Page) {
    && (forall item | item in p.queue :: ProperItem(item))
    && |p.text.current| < CURRENT_SIZE
    && (p.text.current == [] ==> p.text.sid == -1 && !p.text.labelled)
    && (p.text.current != [] ==> p.text.sid >= 0 && !p.phase.Absent?)
  }

  lemma NextIsSound(p: Page, e: Event)
    requires Sound(p) && Can(p, e) && (e.Post? ==> ProperItem(e.item))
    ensures Sound(Next(p, e))
  {
    hide Appended;
    if e.Take? {
      assert p.queue[0] in p.queue;
    }
  }

  lemma {:induction false} AfterIsSound(p: Page, events: seq<Event>)
    requires Sound(p) && Lives(p, events) && Proper(events)
    ensures Sound(After(p, events))
    decreases |events|
  {
    if events != [] {
      hide Sound, Next, Can, ProperItem;
      var n := |events| - 1;
      assert events[n] in events;
      assert forall e :: e in events[..n] ==> e in events;
      AfterIsSound(p, events[..n]);
      NextIsSound(After(p, events[..n]), events[n]);
    }
  }

  lemma BootIsSound()
    ensures Sound(BOOT) && Lives(BOOT, []) && After(BOOT, []) == BOOT
  {}

  /** Taking an item shows a result. */
  predicate Shows(p: Page, e: Event) {
    e.Take? && Can(p, e) && p.queue[0].Text? && !p.phase.Absent?
  }

  /** A result has been shown since the present page was created. */
  predicate ShownSinceCreate(p: Page, events: seq<Event>)
    requires Lives(p, events)
    decreases |events|
  {
    events != [] &&
    (var n := |events| - 1;
     Shows(After(p, events[..n]), events[n]) || (!events[n].Create? && ShownSinceCreate(p, events[..n])))
  }

  lemma OpenNext(p: Page, e: Event, since: bool)
    requires Sound(p) && Can(p, e)
    requires p.text.current != [] <==> !p.phase.Absent? && since
    ensures Next(p, e).text.current != [] <==>
      !Next(p, e).phase.Absent? && (Shows(p, e) || (!e.Create? && since))
  {
    hide Appended;
    if e.Take? {
      assert p.queue[0] in p.queue;
    }
  }

  /** A sentence is open exactly while a page is there that has been shown a result. */
  lemma {:induction false} OpenSentence(events: seq<Event>)
    requires Lives(BOOT, events) && Proper(events)
    ensures After(BOOT, events).text.current != []
      <==> !After(BOOT, events).phase.Absent? && ShownSinceCreate(BOOT, events)
    decreases |events|
  {
    BootIsSound();
    if events != [] {
      hide Shows, Sound, Next, Can, ProperItem;
      var n := |events| - 1;
      assert events[n] in events;
      assert forall e :: e in events[..n] ==> e in events;
      OpenSentence(events[..n]);
      AfterIsSound(BOOT, events[..n]);
      OpenNext(After(BOOT, events[..n]), events[n], ShownSinceCreate(BOOT, events[..n]));
    }
  }

  // ---- a life as happenings to the text -------------------------------------

  function OpsOf(p: Page, e: Event): seq<Op>
    requires Can(p, e)
  {
    match e
    case Take =>
      if p.phase.Absent? then []
      else (match p.queue[0]
            case Text(r) => [Seen(r)]
            case Minutes => [Min]
            case Other => [])
    case Finish => [Fin]
    case Leave => [Gone]
    case _ => []
  }

  function Ops(p: Page, events: seq<Event>): seq<Op>
    requires Lives(p, events)
    decreases |events|
  {
    if events == [] then []
    else
      var n := |events| - 1;
      Ops(p, events[..n]) + OpsOf(After(p, events[..n]), events[n])
  }

  lemma StepsOne(s: State, op: Op)
    ensures Steps(s, [op]) == Step(s, op) && Steps(s, []) == s
  {
    assert [op][..0] == [];
  }

  lemma NextIsOps(p: Page, e: Event)
    requires Can(p, e) && !e.Begin?
    ensures Next(p, e).text == Steps(p.text, OpsOf(p, e))
  {
    hide Appended, Steps, Update, Finished;
    StepsOne(p.text, Fin);
    StepsOne(p.text, Min);
    StepsOne(p.text, Gone);
    if Shows(p, e) {
      StepsOne(p.text, Seen(p.queue[0].r));
    }
  }

  lemma {:induction false} LifeIsOps(p: Page, events: seq<Event>)
    requires Lives(p, events) && Begin !in events
    ensures After(p, events).text == Steps(p.text, Ops(p, events))
    decreases |events|
  {
    if events == [] {
      StepsOne(p.text, Fin);
    } else {
      hide Steps, Next, Can, OpsOf;
      var n := |events| - 1;
      assert events[n] in events && forall e :: e in events[..n] ==> e in events;
      LifeIsOps(p, events[..n]);
      NextIsOps(After(p, events[..n]), events[n]);
      StepsAppend(p.text, Ops(p, events[..n]), OpsOf(After(p, events[..n]), events[n]));
    }
  }

  /** The happenings that leave a fresh text in this state. */
  function Opening(s: State): seq<Op> {
    if s.current == [] then []
    else [Seen(Result(s.current, s.sid))] + (if s.labelled then [] else [Min])
  }

  lemma OpeningOpens(p: Page)
    requires Sound(p) && p.text.full == []
    ensures Steps(START, Opening(p.text)) == p.text
  {
    hide Steps;
    var s := p.text;
    var r := Seen(Result(s.current, s.sid));
    StepsOne(START, r);
    StepsOne(Step(START, r), Min);
    StepsAppend(START, [r], [Min]);
    assert [r] + [] == [r];
  }

  // ---- one meeting, whatever else happens -----------------------------------

  /** A meeting begun on any page the program can reach, and what happens until a transcription
      thread appends the last sentence. */
  function MeetingLife(before: seq<Event>, middle: seq<Event>): seq<Event> {
    before + [Begin] + middle + [Finish]
  }

  predicate IsMeeting(before: seq<Event>, middle: seq<Event>) {
    Lives(BOOT, MeetingLife(before, middle)) && Proper(MeetingLife(before, middle)) && Begin !in middle
  }

  function MeetingText(before: seq<Event>, middle: seq<Event>): Bytes
    requires IsMeeting(before, middle)
  {
    After(BOOT, MeetingLife(before, middle)).text.full
  }

  lemma MeetingParts(before: seq<Event>, middle: seq<Event>)
    requires IsMeeting(before, middle)
    ensures Lives(BOOT, before) && Can(After(BOOT, before), Begin) && Proper(before)
    ensures var q := Next(After(BOOT, before), Begin);
      && Lives(BOOT, before + [Begin]) && After(BOOT, before + [Begin]) == q
      && Sound(q) && q.text.full == []
      && Lives(q, middle) && Proper(middle) && MeetingText(before, middle) == Finished(After(q, middle).text)
  {
    hide Lives, After, Sound, ProperItem;
    var all := MeetingLife(before, middle);
    assert forall e :: e in before || e in middle || e == Begin ==> e in all;
    OneLess(BOOT, before + [Begin] + middle, Finish);
    LivesSplit(BOOT, before + [Begin], middle);
    OneLess(BOOT, before, Begin);
    BootIsSound();
    AfterIsSound(BOOT, before);
    NextIsSound(After(BOOT, before), Begin);
  }

  /** The page as the meeting begins. */
  function Begins(before: seq<Event>): Page
    requires Lives(BOOT, before) && Can(After(BOOT, before), Begin)
  {
    Next(After(BOOT, before), Begin)
  }

  /** What the meeting's text is made of: the sentence left open and the results shown, each
      with what happens before the next. */
  function MeetingStays(before: seq<Event>, middle: seq<Event>): seq<Stay>
    requires IsMeeting(before, middle)
  {
    MeetingParts(before, middle);
    Stays(Opening(Begins(before).text) + Ops(Begins(before), middle))
  }

  function Seens(ops: seq<Op>): seq<Result>
    decreases |ops|
  {
    if ops == [] then []
    else
      var n := |ops| - 1;
      Seens(ops[..n]) + (if ops[n].Seen? then [ops[n].r] else [])
  }

  lemma HappenedSeens(stays: seq<Stay>, op: Op)
    ensures Results(Happened(stays, op)) == Results(stays) + (if op.Seen? then [op.r] else [])
  {}

  lemma {:induction false} StaysAreSeens(ops: seq<Op>)
    ensures Results(Stays(ops)) == Seens(ops)
    decreases |ops|
  {
    if ops != [] {
      hide Happened, Results;
      StaysAreSeens(ops[..|ops| - 1]);
      HappenedSeens(Stays(ops[..|ops| - 1]), ops[|ops| - 1]);
    } else {
      assert Results([]) == [];
    }
  }

  lemma {:induction false} SeensAppend(a: seq<Op>, b: seq<Op>)
    ensures Seens(a + b) == Seens(a) + Seens(b)
    decreases |b|
  {
    if b == [] {
      assert a + b == a;
    } else {
      var n := |b| - 1;
      assert (a + b)[..|a + b| - 1] == a + b[..n];
      SeensAppend(a, b[..n]);
    }
  }

  /** The sentence left open when the meeting began. */
  function Carry(s: State): seq<Result> {
    if s.current == [] then [] else [Result(s.current, s.sid)]
  }

  lemma SeensOfOpening(s: State)
    ensures Seens(Opening(s)) == Carry(s)
  {
    var r := Seen(Result(s.current, s.sid));
    assert [r][..0] == [] && [Min][..0] == [];
    SeensAppend([r], if s.labelled then [] else [Min]);
  }

  function Shown(p: Page, events: seq<Event>): seq<Result>
    requires Lives(p, events)
  {
    Seens(Ops(p, events))
  }

  lemma {:induction false} OpsHaveText(p: Page, events: seq<Event>)
    requires Sound(p) && Lives(p, events) && Proper(events)
    ensures NoEmptyOps(Ops(p, events))
    decreases |events|
  {
    if events != [] {
      hide Next, ProperItem;
      var n := |events| - 1;
      assert forall e :: e in events[..n] ==> e in events;
      OpsHaveText(p, events[..n]);
      AfterIsSound(p, events[..n]);
      OpHasText(After(p, events[..n]), events[n]);
    }
  }

  lemma OpHasText(p: Page, e: Event)
    requires Sound(p) && Can(p, e)
    ensures NoEmptyOps(OpsOf(p, e))
  {
    if e.Take? {
      assert p.queue[0] in p.queue;
    }
  }

  lemma OpeningHasText(s: State)
    ensures NoEmptyOps(Opening(s))
  {}

  /** In every life of the page, whatever happens during the meeting: the text is the join of the
      log, cut at 8190 bytes; and the log holds the last version of every sentence exactly once
      and nothing else exactly when each result shown meets its condition. */
  lemma MeetingTextIsTheLog(before: seq<Event>, middle: seq<Event>)
    requires IsMeeting(before, middle)
    ensures var stays := MeetingStays(before, middle);
      && MeetingText(before, middle) == Cut(Joined(Texts(Results(stays), Log(stays, None))), ROOM)
      && (Log(stays, None) == LastOnes(stays, None) <==> EachOnce(stays, None))
  {
    hide Stays, Steps, Ops, Opening, Log, LastOnes, EachOnce, Joined, Cut, Texts, Finished;
    hide Lives, After, Sound, Next, Can;
    MeetingParts(before, middle);
    var q := Begins(before);
    var ops := Opening(q.text) + Ops(q, middle);
    OpeningOpens(q);
    LifeIsOps(q, middle);
    StepsAppend(START, Opening(q.text), Ops(q, middle));
    OpeningHasText(q.text);
    OpsHaveText(q, middle);
    TextIsTheLog(ops);
    EachOnceIff(Stays(ops), None);
  }

  /** The results in the text are those shown during the meeting, behind the sentence left open,
      which is there only if a result came between the creation of the page and the start. */
  lemma MeetingResults(before: seq<Event>, middle: seq<Event>)
    requires IsMeeting(before, middle)
    ensures Lives(BOOT, before) && Can(After(BOOT, before), Begin) && Lives(Begins(before), middle)
    ensures Results(MeetingStays(before, middle)) == Carry(Begins(before).text) + Shown(Begins(before), middle)
    ensures Carry(Begins(before).text) == [] <==> !ShownSinceCreate(BOOT, before)
  {
    hide Stays, Ops, Opening, Seens, Results, Lives, After, ShownSinceCreate;
    MeetingParts(before, middle);
    var q := Begins(before);
    StaysAreSeens(Opening(q.text) + Ops(q, middle));
    SeensAppend(Opening(q.text), Ops(q, middle));
    SeensOfOpening(q.text);
    OpenSentence(before);
  }

  lemma HappenedNeverLeft(stays: seq<Stay>, op: Op)
    requires NeverLeft(stays) && !op.Gone?
    ensures NeverLeft(Happened(stays, op))
  {
    var all := Happened(stays, op);
    if !op.Seen? && stays != [] {
      var n := |stays| - 1;
      assert forall i :: 0 <= i < n ==> all[i] == stays[i];
      assert !Left(stays[n].q);
      QuietNext(stays[n].q, op);
    }
  }

  lemma {:induction false} NoLeaveNeverLeft(ops: seq<Op>)
    requires Gone !in ops
    ensures NeverLeft(Stays(ops))
    decreases |ops|
  {
    if ops != [] {
      hide NeverLeft, Happened;
      var n := |ops| - 1;
      assert ops[n] in ops && forall op :: op in ops[..n] ==> op in ops;
      NoLeaveNeverLeft(ops[..n]);
      HappenedNeverLeft(Stays(ops[..n]), ops[n]);
    }
  }

  lemma {:induction false} NoLeaveNoGone(p: Page, events: seq<Event>)
    requires Lives(p, events) && Leave !in events
    ensures Gone !in Ops(p, events)
    decreases |events|
  {
    if events != [] {
      hide Next, Can, OpsOf;
      var n := |events| - 1;
      assert events[n] in events && forall e :: e in events[..n] ==> e in events;
      NoLeaveNoGone(p, events[..n]);
      NoLeaveOp(After(p, events[..n]), events[n]);
    }
  }

  lemma NoLeaveOp(p: Page, e: Event)
    requires Can(p, e) && !e.Leave?
    ensures Gone !in OpsOf(p, e)
  {}

  /** Below capacity, and without newlines in the sentences: on a page that is not left, the text
      is the join of the last versions of what is shown exactly when no thread appends while a
      sentence is open and the minutes do not take the screen between two versions of one. */
  lemma MeetingTextIff(before: seq<Event>, middle: seq<Event>)
    requires IsMeeting(before, middle) && Leave !in middle
    requires var stays := MeetingStays(before, middle);
      PlainResults(Results(stays)) && |Joined(Texts(Results(stays), Log(stays, None)))| <= ROOM
    ensures var stays := MeetingStays(before, middle);
      MeetingText(before, middle) == Joined(LastVersions(Results(stays))) <==> EachOnce(stays, None)
  {
    hide Stays, Steps, Ops, Opening, Log, EachOnce, Joined, Texts, Finished, Lives, After, Sound, Next, Can;
    hide LastVersions, PlainResults, Results, NeverLeft;
    MeetingParts(before, middle);
    var q := Begins(before);
    var ops := Opening(q.text) + Ops(q, middle);
    OpeningOpens(q);
    LifeIsOps(q, middle);
    StepsAppend(START, Opening(q.text), Ops(q, middle));
    OpeningHasText(q.text);
    OpsHaveText(q, middle);
    NoLeaveNoGone(q, middle);
    OpeningStays(q.text);
    NoLeaveNeverLeft(ops);
    TextIsLastVersionsIff(ops);
  }

  lemma OpeningStays(s: State)
    ensures Gone !in Opening(s)
  {}
}
