/** Results that still wait in the dispatch ring when the transcript's last sentence is appended,
    or that the ring had no room for: what they cost. */
module TranscriptRing {
  import opened Bytes
  import opened CStrings
  import opened Transcript
  import opened TranscriptLog
  import opened TranscriptLife

  // ---- results still waiting in the ring ------------------------------------

  /** During the meeting the threads hand out items, the UI thread takes them, and the minutes
      are not shown. */
  predicate Undisturbed(p: Page, events: seq<Event>)
    requires Lives(p, events)
  {
    (forall e | e in events :: e.Post? || e.Take?) && Min !in Ops(p, events)
  }

  lemma {:induction false} OnlySeens(s: State, ops: seq<Op>)
    requires forall op | op in ops :: op.Seen?
    ensures Steps(s, ops) == AfterFrom(s, Seens(ops))
    decreases |ops|
  {
    hide Update;
    if ops != [] {
      var n := |ops| - 1;
      assert ops[n] in ops && forall op :: op in ops[..n] ==> op in ops;
      OnlySeens(s, ops[..n]);
      var rs := Seens(ops[..n]);
      assert (rs + [ops[n].r])[..|rs|] == rs;
    }
  }

  lemma {:induction false} UndisturbedOps(p: Page, events: seq<Event>)
    requires Lives(p, events) && Undisturbed(p, events)
    ensures forall op | op in Ops(p, events) :: op.Seen?
    ensures After(p, events).phase == p.phase
    decreases |events|
  {
    if events != [] {
      hide Update, Can;
      var n := |events| - 1;
      assert events[n] in events && forall e :: e in events[..n] ==> e in events;
      UndisturbedOps(p, events[..n]);
    }
  }

  /** What became of a result handed out: the ring or the memory had no room for it, it waits in
      the ring, or it has been shown. */
  datatype Fate = Dropped | Waiting | OnScreen

  datatype Handed = Handed(r: Result, fate: Fate)

  /** The oldest waiting result is shown. */
  function ShowFirst(h: seq<Handed>): seq<Handed> {
    if h == [] then []
    else
      var n := |h| - 1;
      if Of(h[..n], Waiting) != [] then ShowFirst(h[..n]) + [h[n]]
      else if h[n].fate == Waiting then h[..n] + [h[n].(fate := OnScreen)]
      else h
  }

  function Of(h: seq<Handed>, fate: Fate): seq<Result> {
    if h == [] then []
    else
      var n := |h| - 1;
      Of(h[..n], fate) + (if h[n].fate == fate then [h[n].r] else [])
  }

  function All(h: seq<Handed>): (rs: seq<Result>)
    ensures |rs| == |h| && forall i :: 0 <= i < |h| ==> rs[i] == h[i].r
  {
    seq(|h|, i requires 0 <= i < |h| => h[i].r)
  }

  function Pending(queue: seq<Item>): seq<Handed> {
    if queue == [] then []
    else
      var n := |queue| - 1;
      if queue[n].Text? then Pending(queue[..n]) + [Handed(queue[n].r, Waiting)]
      else Pending(queue[..n])
  }

  function HandNext(h: seq<Handed>, q: Page, e: Event): seq<Handed>
    requires Can(q, e)
  {
    if e.Post? && e.item.Text? then h + [Handed(e.item.r, if Enqueues(q, e.memory) then Waiting else Dropped)]
    else if e.Take? && q.queue[0].Text? then ShowFirst(h)
    else h
  }

  /** Everything that was waiting at first or handed out since, in order, and what became of
      it. */
  function HandedOut(p: Page, events: seq<Event>): seq<Handed>
    requires Lives(p, events)
    decreases |events|
  {
    if events == [] then Pending(p.queue)
    else
      var n := |events| - 1;
      HandNext(HandedOut(p, events[..n]), After(p, events[..n]), events[n])
  }

  /** Nothing is shown before what was handed out earlier and still waits. */
  predicate InOrder(h: seq<Handed>) {
    h == [] ||
    (var n := |h| - 1; InOrder(h[..n]) && (h[n].fate == OnScreen ==> Of(h[..n], Waiting) == []))
  }

  lemma HandedOne(h: seq<Handed>, x: Handed, fate: Fate)
    ensures Of(h + [x], fate) == Of(h, fate) + (if x.fate == fate then [x.r] else [])
    ensures InOrder(h + [x]) <==> InOrder(h) && (x.fate == OnScreen ==> Of(h, Waiting) == [])
  {
    assert (h + [x])[..|h|] == h;
  }

  lemma {:induction false} ShowsFirst(h: seq<Handed>)
    requires InOrder(h) && Of(h, Waiting) != []
    ensures var m := ShowFirst(h);
      && InOrder(m) && All(m) == All(h)
      && Of(m, Waiting) == Of(h, Waiting)[1..]
      && Of(m, OnScreen) == Of(h, OnScreen) + [Of(h, Waiting)[0]]
  {
    hide Of, InOrder;
    var n := |h| - 1;
    EmptyWaits();
    var front, x := h[..n], h[n];
    assert h == front + [x];
    HandedOne(front, x, Waiting);
    HandedOne(front, x, OnScreen);
    if Of(front, Waiting) != [] {
      ShowsFirst(front);
      HandedOne(ShowFirst(front), x, Waiting);
      HandedOne(ShowFirst(front), x, OnScreen);
    } else {
      var y := x.(fate := OnScreen);
      HandedOne(front, y, Waiting);
      HandedOne(front, y, OnScreen);
    }
  }

  lemma EmptyWaits()
    ensures Of([], Waiting) == []
  {}

  lemma {:induction false} PendingIsWaiting(queue: seq<Item>)
    ensures var h := Pending(queue); Of(h, OnScreen) == [] && InOrder(h)
  {
    if queue != [] {
      var n := |queue| - 1;
      PendingIsWaiting(queue[..n]);
      if queue[n].Text? {
        HandedOne(Pending(queue[..n]), Handed(queue[n].r, Waiting), OnScreen);
      }
    }
  }

  function TextsIn(queue: seq<Item>): seq<Result> {
    Of(Pending(queue), Waiting)
  }

  lemma PendingOne(queue: seq<Item>, item: Item)
    ensures TextsIn(queue + [item]) == TextsIn(queue) + (if item.Text? then [item.r] else [])
  {
    assert (queue + [item])[..|queue|] == queue;
    if item.Text? {
      HandedOne(Pending(queue), Handed(item.r, Waiting), Waiting);
    }
  }

  lemma {:induction false} PendingFirst(queue: seq<Item>)
    requires queue != []
    ensures TextsIn(queue) == (if queue[0].Text? then [queue[0].r] else []) + TextsIn(queue[1..])
    decreases |queue|
  {
    var n := |queue| - 1;
    assert queue == queue[..n] + [queue[n]];
    PendingOne(queue[..n], queue[n]);
    if n > 0 {
      PendingFirst(queue[..n]);
      assert queue[..n][1..] + [queue[n]] == queue[1..];
      PendingOne(queue[..n][1..], queue[n]);
    } else {
      assert queue[..0] == [] && queue[1..] == [];
    }
  }

  /** First in, first out: what is on the screen is what was handed out and not lost, in order;
      the rest of it waits in the ring. */
  lemma {:induction false} RingIsFifo(p: Page, events: seq<Event>)
    requires Lives(p, events) && Undisturbed(p, events) && !p.phase.Absent?
    ensures var h := HandedOut(p, events);
      && InOrder(h)
      && Of(h, Waiting) == TextsIn(After(p, events).queue)
      && Of(h, OnScreen) == Shown(p, events)
    decreases |events|
  {
    if events == [] {
      PendingIsWaiting(p.queue);
    } else {
      hide InOrder, Of, Pending, TextsIn, Update, ShowFirst;
      var n := |events| - 1;
      assert events[n] in events && forall e :: e in events[..n] ==> e in events;
      RingIsFifo(p, events[..n]);
      UndisturbedOps(p, events[..n]);
      var q, e, h := After(p, events[..n]), events[n], HandedOut(p, events[..n]);
      if e.Take? {
        PendingFirst(q.queue);
        if q.queue[0].Text? {
          ShowsFirst(h);
          var ops := Ops(p, events[..n]);
          assert (ops + [Seen(q.queue[0].r)])[..|ops|] == ops;
        } else {
          assert Ops(p, events) == Ops(p, events[..n]);
        }
      } else {
        assert Ops(p, events) == Ops(p, events[..n]);
        PendingOne(q.queue, e.item);
        if e.item.Text? {
          var x := Handed(e.item.r, if Enqueues(q, e.memory) then Waiting else Dropped);
          HandedOne(h, x, Waiting);
          HandedOne(h, x, OnScreen);
        }
      }
    }
  }

  function PostedBy(e: Event): seq<Result> {
    if e.Post? && e.item.Text? then [e.item.r] else []
  }

  /** The results handed out by the threads, in order. */
  function Posted(events: seq<Event>): seq<Result> {
    if events == [] then []
    else
      var n := |events| - 1;
      Posted(events[..n]) + PostedBy(events[n])
  }

  lemma {:induction false} PendingIsAll(queue: seq<Item>)
    ensures All(Pending(queue)) == TextsIn(queue)
  {
    if queue != [] {
      var n := |queue| - 1;
      PendingIsAll(queue[..n]);
      if queue[n].Text? {
        HandedOne(Pending(queue[..n]), Handed(queue[n].r, Waiting), Waiting);
      }
    }
  }

  lemma AllOne(h: seq<Handed>, x: Handed)
    ensures All(h + [x]) == All(h) + [x.r]
  {}

  lemma AllNext(h: seq<Handed>, q: Page, e: Event)
    requires Can(q, e) && InOrder(h) && Of(h, Waiting) == TextsIn(q.queue)
    ensures All(HandNext(h, q, e)) == All(h) + PostedBy(e)
  {
    hide InOrder, Of, TextsIn, ShowFirst;
    if e.Take? {
      PendingFirst(q.queue);
      if q.queue[0].Text? {
        ShowsFirst(h);
      }
    }
  }

  /** Every result handed out is accounted for. */
  lemma {:induction false} HandedIsAll(p: Page, events: seq<Event>)
    requires Lives(p, events) && Undisturbed(p, events) && !p.phase.Absent?
    ensures All(HandedOut(p, events)) == TextsIn(p.queue) + Posted(events)
    decreases |events|
  {
    if events == [] {
      PendingIsAll(p.queue);
    } else {
      hide InOrder, Of, Pending, TextsIn, Next, HandNext, All, OpsOf, Can;
      var n := |events| - 1;
      assert events[n] in events && forall e :: e in events[..n] ==> e in events;
      HandedIsAll(p, events[..n]);
      RingIsFifo(p, events[..n]);
      AllNext(HandedOut(p, events[..n]), After(p, events[..n]), events[n]);
      Associate(TextsIn(p.queue), Posted(events[..n]), PostedBy(events[n]));
    }
  }

  // ---- when what is on the screen says it all -------------------------------

  /** The last text on the screen in the run of results with the last result's id. */
  function LastShown(h: seq<Handed>): Option<Bytes> {
    if h == [] then None
    else
      var n := |h| - 1;
      if h[n].fate == OnScreen then Some(Clip(h[n].r.text))
      else if n > 0 && h[n - 1].r.sid == h[n].r.sid then LastShown(h[..n])
      else None
  }

  /** The result is the last one handed out for its sentence. */
  predicate LastOfSentence(h: seq<Handed>, i: nat)
    requires i < |h|
  {
    i == |h| - 1 || h[i].r.sid != h[i + 1].r.sid
  }

  predicate CoveredAt(h: seq<Handed>, i: nat)
    requires i < |h|
  {
    LastOfSentence(h, i) ==> LastShown(h[..i + 1]) == Some(Clip(h[i].r.text))
  }

  /** Of every sentence something has been shown, and the last text shown is that of its last
      version. */
  predicate Covered(h: seq<Handed>) {
    forall i :: 0 <= i < |h| ==> CoveredAt(h, i)
  }

  /** The same of the sentences before the last. */
  predicate CoveredBefore(h: seq<Handed>) {
    |h| < 2 ||
    (var n := |h| - 1;
     && CoveredBefore(h[..n])
     && (h[n - 1].r.sid == h[n].r.sid || LastShown(h[..n]) == Some(Clip(h[n - 1].r.text))))
  }

  lemma CoveredAtPrefix(h: seq<Handed>, n: nat, i: nat)
    requires n <= |h| && i + 1 < n
    ensures CoveredAt(h[..n], i) <==> CoveredAt(h, i)
  {
    hide LastShown, Clip;
    assert h[..n][..i + 1] == h[..i + 1];
  }

  lemma {:induction false} CoveredIs(h: seq<Handed>)
    ensures Covered(h) <==>
      h == [] || (CoveredBefore(h) && LastShown(h) == Some(Clip(h[|h| - 1].r.text)))
    ensures CoveredBefore(h) <==> forall i :: 0 <= i < |h| - 1 ==> CoveredAt(h, i)
    decreases |h|
  {
    hide LastShown, Clip, CoveredAt, LastOfSentence;
    if h != [] {
      var n := |h| - 1;
      CoveredIs(h[..n]);
      forall i | 0 <= i < n - 1
        ensures CoveredAt(h[..n], i) <==> CoveredAt(h, i)
      {
        CoveredAtPrefix(h, n, i);
      }
      CoveredAtEnd(h);
    }
  }

  lemma CoveredAtEnd(h: seq<Handed>)
    requires h != []
    ensures var n := |h| - 1;
      && (CoveredAt(h, n) <==> LastShown(h) == Some(Clip(h[n].r.text)))
      && (n > 0 ==> (CoveredAt(h, n - 1) <==>
            h[n - 1].r.sid == h[n].r.sid || LastShown(h[..n]) == Some(Clip(h[n - 1].r.text))))
  {
    hide LastShown, Clip;
    assert h[..|h|] == h;
  }

  predicate Worded(h: seq<Handed>) {
    forall x | x in h :: x.r.text != [] && x.r.sid >= 0
  }

  function Screen(h: seq<Handed>): seq<Result> {
    Of(h, OnScreen)
  }

  /** The sentences on the screen but for the one the last result handed out belongs to. */
  function ScreenDone(h: seq<Handed>): seq<Bytes> {
    if LastShown(h).Some? then Done(Screen(h)) else LastVersions(Screen(h))
  }

  /** One more result with an id. */
  lemma OneMoreResult(rs: seq<Result>, r: Result)
    requires r.text != [] && r.sid >= 0
    requires rs != [] ==> var p := rs[|rs| - 1]; p.text != [] && p.sid >= 0
    ensures LastVersions(rs + [r]) == Done(rs + [r]) + [Clip(r.text)]
    ensures Done(rs + [r]) == (if rs == [] then []
      else if rs[|rs| - 1].sid == r.sid then Done(rs) else LastVersions(rs))
  {
    hide Done;
    ClipNotEmpty(r);
    if rs == [] {
      NothingDone(r);
      assert [] + [r] == [r];
    } else {
      ClipNotEmpty(rs[|rs| - 1]);
      DoneStep(rs, r);
    }
  }

  lemma OneOpen(rs: seq<Result>)
    requires rs != [] && rs[|rs| - 1].text != []
    ensures |LastVersions(rs)| == |Done(rs)| + 1
  {
    hide Done, Clip;
    ClipNotEmpty(rs[|rs| - 1]);
  }

  lemma NothingDone(r: Result)
    ensures Done([r]) == [] && LastVersions([]) == []
  {}

  lemma {:induction false} ScreenIsWorded(h: seq<Handed>)
    requires Worded(h)
    ensures forall r | r in Screen(h) :: r.text != [] && r.sid >= 0
    ensures |Screen(h)| <= |h|
  {
    if h != [] {
      var n := |h| - 1;
      assert h[n] in h && forall x :: x in h[..n] ==> x in h;
      ScreenIsWorded(h[..n]);
    }
  }

  lemma OneMoreInAll(h: seq<Handed>, x: Handed)
    requires Worded(h + [x]) && h != []
    ensures var g, y := h + [x], h[|h| - 1];
      && Done(All(g)) == (if y.r.sid == x.r.sid then Done(All(h)) else LastVersions(All(h)))
      && LastVersions(All(g)) == Done(All(g)) + [Clip(x.r.text)]
  {
    hide Done, LastVersions, Clip, All;
    assert x in h + [x] && h[|h| - 1] in h + [x];
    AllOne(h, x);
    OneMoreResult(All(h), x.r);
  }

  lemma OneMoreOnScreen(h: seq<Handed>, x: Handed)
    requires Worded(h + [x])
    ensures var s := Screen(h);
      && Screen(h + [x]) == (if x.fate == OnScreen then s + [x.r] else s)
      && (s != [] ==> |LastVersions(s)| == |Done(s)| + 1)
      && LastVersions(s + [x.r]) == Done(s + [x.r]) + [Clip(x.r.text)]
      && Done(s + [x.r]) == (if s == [] then []
         else if s[|s| - 1].sid == x.r.sid then Done(s) else LastVersions(s))
  {
    hide Done, LastVersions, Clip, Of;
    assert x in h + [x] && forall z :: z in h ==> z in h + [x];
    HandedOne(h, x, OnScreen);
    ScreenIsWorded(h);
    var s := Screen(h);
    if s != [] {
      assert s[|s| - 1] in s;
      OneOpen(s);
    }
    OneMoreResult(s, x.r);
  }

  lemma OneMoreToCover(h: seq<Handed>, x: Handed)
    requires h != []
    ensures var g, y := h + [x], h[|h| - 1];
      && LastShown(g) == (if x.fate == OnScreen then Some(Clip(x.r.text))
         else if y.r.sid == x.r.sid then LastShown(h) else None)
      && (CoveredBefore(g) <==>
            (CoveredBefore(h) && (y.r.sid == x.r.sid || LastShown(h) == Some(Clip(y.r.text)))))
  {
    hide Clip;
    assert (h + [x])[..|h|] == h;
  }

  /** The sentences finished on the screen are no more than those finished by all that was handed
      out, and the same exactly if each of those is covered. */
  ghost predicate Matches(h: seq<Handed>)
    requires h != []
  {
    var y, s := h[|h| - 1].r, Screen(h);
    && |ScreenDone(h)| <= |Done(All(h))|
    && (ScreenDone(h) == Done(All(h)) <==> CoveredBefore(h))
    && LastVersions(All(h)) == Done(All(h)) + [Clip(y.text)]
    && (LastShown(h).Some? ==>
          s != [] && s[|s| - 1].sid == y.sid && LastVersions(s) == Done(s) + [LastShown(h).value])
    && (CoveredBefore(h) && LastShown(h).None? && Done(All(h)) != [] ==>
          s != [] && s[|s| - 1].sid != y.sid)
  }

  lemma LastOf2(a: seq<Bytes>, x: Bytes, b: seq<Bytes>, y: Bytes)
    ensures a + [x] == b + [y] <==> a == b && x == y
  {
    if a + [x] == b + [y] {
      assert a == (a + [x])[..|a|] && b == (b + [y])[..|b|];
      assert x == (a + [x])[|a|] && y == (b + [y])[|b|];
    }
  }

  lemma MatchesHidden(h: seq<Handed>, x: Handed)
    requires Worded(h + [x]) && h != [] && Matches(h) && x.fate != OnScreen
    ensures Matches(h + [x])
  {
    hide Done, LastVersions, Clip, LastShown, CoveredBefore, Of, All;
    OneMoreInAll(h, x);
    OneMoreOnScreen(h, x);
    OneMoreToCover(h, x);
    if LastShown(h).Some? {
      LastOf2(Done(Screen(h)), LastShown(h).value, Done(All(h)), Clip(h[|h| - 1].r.text));
    }
  }

  lemma MatchesShown(h: seq<Handed>, x: Handed)
    requires Worded(h + [x]) && h != [] && Matches(h) && x.fate == OnScreen
    ensures Matches(h + [x])
  {
    hide Done, LastVersions, Clip, LastShown, CoveredBefore, Of, All;
    OneMoreInAll(h, x);
    OneMoreOnScreen(h, x);
    OneMoreToCover(h, x);
    if LastShown(h).Some? {
      LastOf2(Done(Screen(h)), LastShown(h).value, Done(All(h)), Clip(h[|h| - 1].r.text));
    }
  }

  lemma {:induction false} AlwaysMatches(h: seq<Handed>)
    requires Worded(h) && h != []
    ensures Matches(h)
    decreases |h|
  {
    hide Matches;
    var n := |h| - 1;
    var x := h[n];
    assert h == h[..n] + [x];
    assert forall z :: z in h[..n] ==> z in h;
    if n == 0 {
      assert h == [x];
      MatchesOne(x);
    } else {
      AlwaysMatches(h[..n]);
      if x.fate == OnScreen {
        MatchesShown(h[..n], x);
      } else {
        MatchesHidden(h[..n], x);
      }
    }
  }

  lemma MatchesOne(x: Handed)
    requires Worded([x])
    ensures Matches([x])
  {
    hide Done, LastVersions, Clip;
    assert x in [x];
    assert [x][..0] == [] && All([x]) == [x.r];
    NothingHanded();
    assert [] + [x] == [x];
    OneMoreOnScreen([], x);
    NothingDone(x.r);
    OneMoreResult([], x.r);
    assert [] + [x.r] == [x.r];
  }

  /** The screen shows the last version of every sentence handed out, and nothing else, exactly
      when every sentence is covered: a lost or waiting version does not matter if a later one of
      its sentence is shown. */
  lemma ScreenIsAllIff(h: seq<Handed>)
    requires Worded(h)
    ensures LastVersions(Screen(h)) == LastVersions(All(h)) <==> Covered(h)
  {
    hide Done, LastVersions, Clip, LastShown, CoveredBefore, Of, All, Covered;
    CoveredIs(h);
    if h == [] {
      NothingHanded();
    } else {
      AlwaysMatches(h);
      var y := h[|h| - 1].r;
      if LastShown(h).Some? {
        LastOf2(Done(Screen(h)), LastShown(h).value, Done(All(h)), Clip(y.text));
      }
    }
  }

  lemma NothingHanded()
    ensures Screen([]) == [] && All([]) == []
  {}

  // ---- the text of the meeting ----------------------------------------------

  /** The sentence left open when the meeting begins counts as shown if its line is still on the
      screen. */
  function OpenLine(s: State): seq<Handed> {
    if s.labelled && s.current != [] then [Handed(Result(s.current, s.sid), OnScreen)] else []
  }

  predicate HaveText(rs: seq<Result>) {
    forall r | r in rs :: r.text != [] && r.sid >= 0
  }

  /** One sentence in front of the others. */
  function Heading(c: Result, rs: seq<Result>): seq<Bytes> {
    if rs != [] && rs[0].sid == c.sid then [] else [Clip(c.text)]
  }

  lemma {:induction false} SentenceInFront(c: Result, rs: seq<Result>)
    requires HaveText([c]) && HaveText(rs)
    ensures LastVersions([c] + rs) == Heading(c, rs) + LastVersions(rs)
    ensures rs != [] ==> Done([c] + rs) == Heading(c, rs) + Done(rs)
    decreases |rs|
  {
    hide Done, LastVersions, Clip;
    assert c in [c];
    NothingDone(c);
    if rs == [] {
      OneMoreResult([], c);
      assert [] + [c] == [c] && [c] + rs == [c];
      assert [] + [Clip(c.text)] == [Clip(c.text)] + [];
    } else {
      var n := |rs| - 1;
      var front, r := rs[..n], rs[n];
      assert r in rs && forall z :: z in front ==> z in rs;
      SentenceInFront(c, front);
      assert rs == front + [r] && [c] + rs == ([c] + front) + [r];
      if n > 0 { assert rs[n - 1] in rs; }
      OneMoreResult(front, r);
      OneMoreResult([c] + front, r);
      if n == 0 {
        NothingDone(r);
        assert front == [] && [c] + front == [c] && rs == [r];
        assert [Clip(c.text)] + [] == [Clip(c.text)];
        assert Done(rs) == [] && Heading(c, rs) + [] == Heading(c, rs);
      }
      Associate(Heading(c, rs), Done(rs), [Clip(r.text)]);
    }
  }

  /** A sentence left open whose line has gone is never continued. */
  function Orphan(s: State): seq<Bytes> {
    if !s.labelled && s.current != [] then [s.current] else []
  }

  lemma CarriedIs(s: State, rs: seq<Result>)
    requires |s.current| < CURRENT_SIZE && (s.current != [] ==> s.sid >= 0)
    requires HaveText(rs)
    ensures Carried(s, rs) + LastVersions(rs) == Orphan(s) + LastVersions(All(OpenLine(s)) + rs)
  {
    hide LastVersions, Carried, Heading;
    CarriedHeads(s, rs);
    if OpenLine(s) != [] {
      SentenceInFront(Result(s.current, s.sid), rs);
      assert [] + LastVersions(All(OpenLine(s)) + rs) == LastVersions(All(OpenLine(s)) + rs);
    } else {
      assert [] + rs == rs;
    }
  }

  lemma CarriedHeads(s: State, rs: seq<Result>)
    requires |s.current| < CURRENT_SIZE && (s.current != [] ==> s.sid >= 0)
    requires HaveText(rs)
    ensures if OpenLine(s) == [] then Carried(s, rs) == Orphan(s) && All(OpenLine(s)) == []
      else
        var c := Result(s.current, s.sid);
        Carried(s, rs) == Heading(c, rs) && Orphan(s) == [] && All(OpenLine(s)) == [c]
  {
    if rs != [] { assert rs[0] in rs; }
    assert Clip(s.current) == s.current;
  }

  lemma {:induction false} OfAppend(a: seq<Handed>, b: seq<Handed>, fate: Fate)
    ensures Of(a + b, fate) == Of(a, fate) + Of(b, fate)
    ensures All(a + b) == All(a) + All(b)
    decreases |b|
  {
    if b == [] {
      assert a + b == a;
    } else {
      var n := |b| - 1;
      assert (a + b)[..|a + b| - 1] == a + b[..n];
      OfAppend(a, b[..n], fate);
    }
  }

  lemma ScreenOfLine(s: State, h: seq<Handed>)
    ensures Screen(OpenLine(s) + h) == All(OpenLine(s)) + Screen(h)
    ensures All(OpenLine(s) + h) == All(OpenLine(s)) + All(h)
  {
    hide All;
    OfAppend(OpenLine(s), h, OnScreen);
    if OpenLine(s) != [] {
      var x := Handed(Result(s.current, s.sid), OnScreen);
      AllOne([], x);
      HandedOne([], x, OnScreen);
      assert [] + [x] == [x];
    }
    NothingHanded();
  }

  lemma {:induction false} WaitingHaveText(queue: seq<Item>)
    requires forall item | item in queue :: ProperItem(item)
    ensures HaveText(TextsIn(queue))
  {
    if queue != [] {
      hide TextsIn;
      var n := |queue| - 1;
      assert queue == queue[..n] + [queue[n]] && queue[n] in queue;
      assert forall item :: item in queue[..n] ==> item in queue;
      WaitingHaveText(queue[..n]);
      PendingOne(queue[..n], queue[n]);
    } else {
      assert TextsIn(queue) == [];
    }
  }

  lemma {:induction false} PostedHaveText(events: seq<Event>)
    requires Proper(events)
    ensures HaveText(Posted(events))
  {
    if events != [] {
      var n := |events| - 1;
      assert events[n] in events && forall e :: e in events[..n] ==> e in events;
      PostedHaveText(events[..n]);
    }
  }

  lemma HandedAreWorded(p: Page, events: seq<Event>)
    requires Sound(p) && Lives(p, events) && Proper(events) && Undisturbed(p, events) && !p.phase.Absent?
    ensures Worded(OpenLine(p.text) + HandedOut(p, events))
    ensures HaveText(All(HandedOut(p, events))) && HaveText(Screen(HandedOut(p, events)))
  {
    hide Posted, HandedOut, Undisturbed, Lives, Proper, TextsIn;
    HandedIsAll(p, events);
    WaitingHaveText(p.queue);
    PostedHaveText(events);
    var h := HandedOut(p, events);
    forall x | x in h
      ensures x.r.text != [] && x.r.sid >= 0
    {
      var i :| 0 <= i < |h| && h[i] == x;
      assert All(h)[i] == x.r;
    }
    ScreenIsWorded(h);
  }

  /** A meeting during which the threads hand out results and the UI thread shows them. */
  predicate IsQuietMeeting(before: seq<Event>, middle: seq<Event>) {
    && IsMeeting(before, middle)
    && (MeetingParts(before, middle); Undisturbed(Begins(before), middle))
  }

  /** The text of the meeting is made of the results on the screen when the last sentence is
      appended, in the order in which they were handed out, behind the sentence left open. */
  lemma QuietMeetingText(before: seq<Event>, middle: seq<Event>)
    requires IsQuietMeeting(before, middle)
    ensures Lives(BOOT, before) && Can(After(BOOT, before), Begin) && Lives(Begins(before), middle)
    ensures var q := Begins(before); var h := HandedOut(q, middle);
      && MeetingText(before, middle) == Cut(Joined(Carried(q.text, Screen(h)) + LastVersions(Screen(h))), ROOM)
      && All(h) == TextsIn(q.queue) + Posted(middle)
  {
    hide Lives, After, Joined, Cut, LastVersions, Carried, Sound, HandedOut, Finished, Steps;
    MeetingParts(before, middle);
    var q := Begins(before);
    LifeIsOps(q, middle);
    UndisturbedOps(q, middle);
    OnlySeens(q.text, Ops(q, middle));
    RingIsFifo(q, middle);
    HandedIsAll(q, middle);
    FinalTextIsLastVersions(q.text, Shown(q, middle));
  }

  lemma OneIsPlain(r: Result)
    requires NEWLINE !in r.text
    ensures Plain(One(r))
  {}

  lemma {:induction false} LastVersionsArePlain(rs: seq<Result>)
    requires PlainResults(rs)
    ensures Plain(LastVersions(rs)) && Plain(Done(rs))
    decreases |rs|
  {
    hide Follows, One;
    if rs != [] {
      var n := |rs| - 1;
      assert rs[n] in rs && forall r :: r in rs[..n] ==> r in rs;
      OneIsPlain(rs[n]);
      if n > 0 {
        OneIsPlain(rs[n - 1]);
        LastVersionsArePlain(rs[..n]);
      }
    }
  }

  lemma {:induction false} ScreenIsHanded(h: seq<Handed>)
    ensures forall r | r in Screen(h) :: r in All(h)
  {
    if h != [] {
      var n := |h| - 1;
      ScreenIsHanded(h[..n]);
      AllOne(h[..n], h[n]);
      assert h == h[..n] + [h[n]];
    }
  }

  /** Below capacity, and without newlines in the sentences: the text is the one that all results
      handed out would make exactly when every sentence is covered. */
  lemma QuietMeetingTextIff(before: seq<Event>, middle: seq<Event>)
    requires IsQuietMeeting(before, middle)
    requires Lives(BOOT, before) && Can(After(BOOT, before), Begin) && Lives(Begins(before), middle)
    requires var s := Begins(before).text; var h := HandedOut(Begins(before), middle);
      && NEWLINE !in s.current && PlainResults(All(h))
      && |Joined(Carried(s, Screen(h)) + LastVersions(Screen(h)))| <= ROOM
    ensures var s := Begins(before).text; var h := HandedOut(Begins(before), middle);
      MeetingText(before, middle) == Joined(Carried(s, All(h)) + LastVersions(All(h))) <==> Covered(OpenLine(s) + h)
  {
    hide Lives, After, Joined, LastVersions, Carried, HandedOut, Screen, All, Covered, OpenLine, Orphan;
    hide PlainResults, MeetingText, Undisturbed, Plain, HaveText, Worded;
    QuietMeetingText(before, middle);
    MeetingParts(before, middle);
    var q := Begins(before);
    HandedAreWorded(q, middle);
    CoveredText(q.text, HandedOut(q, middle));
  }

  lemma CoveredText(s: State, h: seq<Handed>)
    requires |s.current| < CURRENT_SIZE && (s.current != [] ==> s.sid >= 0)
    requires Worded(OpenLine(s) + h) && HaveText(All(h)) && HaveText(Screen(h))
    requires NEWLINE !in s.current && PlainResults(All(h))
    ensures Joined(Carried(s, Screen(h)) + LastVersions(Screen(h))) == Joined(Carried(s, All(h)) + LastVersions(All(h)))
      <==> Covered(OpenLine(s) + h)
  {
    hide Joined, LastVersions, Carried, Screen, All, Covered, OpenLine, HaveText, Worded;
    var shown, all := Screen(h), All(h);
    CarriedIs(s, shown);
    CarriedIs(s, all);
    ScreenOfLine(s, h);
    ScreenIsAllIff(OpenLine(s) + h);
    ScreenIsHanded(h);
    LastVersionsArePlain(shown);
    LastVersionsArePlain(all);
    CarriedIsPlain(s, shown);
    CarriedIsPlain(s, all);
    var a, b := Carried(s, shown) + LastVersions(shown), Carried(s, all) + LastVersions(all);
    if Joined(a) == Joined(b) {
      JoinTakesApart(a, b);
      SameBehind(Orphan(s), LastVersions(All(OpenLine(s)) + shown), LastVersions(All(OpenLine(s)) + all));
    }
  }

  lemma CarriedIsPlain(s: State, rs: seq<Result>)
    requires NEWLINE !in s.current
    ensures Plain(Carried(s, rs))
  {}

  lemma SameBehind<T>(a: seq<T>, b: seq<T>, c: seq<T>)
    requires a + b == a + c
    ensures b == c
  {
    assert b == (a + b)[|a|..] && c == (a + c)[|a|..];
  }

  // ---- runs that go wrong ----------------------------------------------------

  predicate Said(r: Result) {
    0 < |r.text| < CURRENT_SIZE && r.sid >= 0
  }

  lemma AppendTo(full: Bytes, text: Bytes)
    requires text != [] && |full| + 1 + |text| <= ROOM
    ensures Appended(full, text) == if full == [] then text else full + [NEWLINE] + text
  {}

  /** The first result of a page, and the next. */
  lemma FirstUpdate(r: Result)
    requires Said(r)
    ensures Update(START, r) == State([], r.text, r.sid, true)
  {}

  lemma NextUpdate(s: State, r: Result)
    requires Said(r) && s.labelled && s.current != [] && s.sid >= 0 && |s.full| + 1 + |s.current| <= ROOM
    ensures Update(s, r) == State(
      if r.sid == s.sid then s.full else if s.full == [] then s.current else s.full + [NEWLINE] + s.current,
      r.text, r.sid, true)
  {
    AppendTo(s.full, s.current);
  }

  lemma TwoVersions(a: Result, b: Result)
    requires Said(a) && Said(b) && a.sid == b.sid
    ensures LastVersions([a, b]) == [b.text]
  {
    OneResult(a);
    assert [a] + [b] == [a, b];
    VersionReplaces([a], [], a.text, b.text, b.sid);
  }

  lemma OneResult(r: Result)
    requires Said(r)
    ensures LastVersions([r]) == [] + [r.text]
  {
    ShortText(r.text, r.sid);
  }

  /** Life from the start to a second page. */
  lemma SecondPage()
    ensures Lives(BOOT, [Create, Begin, Leave, Create])
    ensures After(BOOT, [Create, Begin, Leave, Create]) == Page(Ready, START, [])
  {
    hide Lives, After;
    BootIsSound();
    OneMore(BOOT, [], Create);
    assert [] + [Create] == [Create];
    OneMore(BOOT, [Create], Begin);
    assert [Create] + [Begin] == [Create, Begin];
    OneMore(BOOT, [Create, Begin], Leave);
    assert [Create, Begin] + [Leave] == [Create, Begin, Leave];
    OneMore(BOOT, [Create, Begin, Leave], Create);
    assert [Create, Begin, Leave] + [Create] == [Create, Begin, Leave, Create];
  }

  /** A result is handed out and shown. */
  lemma HandAndShow(before: seq<Event>, r: Result)
    requires Lives(BOOT, before) && After(BOOT, before).queue == [] && !After(BOOT, before).phase.Absent?
    ensures var p := After(BOOT, before); var events := before + [Post(Text(r), true)] + [Take];
      Lives(BOOT, events) && After(BOOT, events) == p.(text := Update(p.text, r))
  {
    hide Lives, After, Update;
    OneMore(BOOT, before, Post(Text(r), true));
    OneMore(BOOT, before + [Post(Text(r), true)], Take);
  }

  /** The first page, its meeting begun. */
  lemma FirstMeeting()
    ensures Lives(BOOT, [Create] + [Begin]) && After(BOOT, [Create] + [Begin]) == Page(Meeting, START, [])
  {
    hide Lives, After;
    BootIsSound();
    OneMore(BOOT, [], Create);
    assert [] + [Create] == [Create];
    OneMore(BOOT, [Create], Begin);
  }

  /** The last version is handed out but still waits in the ring when the thread appends: the
      text ends in the version before. */
  lemma LastVersionWaits(a: Result, b: Result)
    requires Said(a) && Said(b) && a.sid == b.sid && a.text != b.text
    ensures var middle := [Post(Text(a), true), Take, Post(Text(b), true)];
      IsMeeting([Create], middle) && MeetingText([Create], middle) == a.text
    ensures LastVersions([a, b]) == [b.text]
  {
    hide Lives, After, Update, Appended, LastVersions;
    var middle := [Post(Text(a), true), Take, Post(Text(b), true)];
    var l := [Create] + [Begin];
    FirstMeeting();
    HandAndShow(l, a);
    FirstUpdate(a);
    var l2 := l + [middle[0]] + [Take];
    OneMore(BOOT, l2, middle[2]);
    OneMore(BOOT, l2 + [middle[2]], Finish);
    AppendTo([], a.text);
    assert MeetingLife([Create], middle) == l2 + [middle[2]] + [Finish];
    TwoVersions(a, b);
  }

  /** A version that the ring drops is harmless if a later one of its sentence is shown. */
  lemma LostVersionIsHarmless(a: Result, b: Result)
    requires Said(a) && Said(b) && a.sid == b.sid
    ensures var middle := [Post(Text(a), false), Post(Text(b), true), Take];
      IsMeeting([Create], middle) && MeetingText([Create], middle) == b.text
    ensures LastVersions([a, b]) == [b.text]
  {
    hide Lives, After, Update, Appended, LastVersions;
    var middle := [Post(Text(a), false), Post(Text(b), true), Take];
    var l := [Create] + [Begin];
    FirstMeeting();
    OneMore(BOOT, l, middle[0]);
    HandAndShow(l + [middle[0]], b);
    FirstUpdate(b);
    OneMore(BOOT, l + [middle[0]] + [middle[1]] + [Take], Finish);
    AppendTo([], b.text);
    assert MeetingLife([Create], middle) == l + [middle[0]] + [middle[1]] + [Take] + [Finish];
    TwoVersions(a, b);
  }

  /** The thread of a page left before appends during the meeting: the open sentence is there
      twice. */
  lemma EarlierThreadAppends(a: Result, b: Result)
    requires Said(a) && Said(b) && a.sid != b.sid
    ensures var before, middle := [Create, Begin, Leave, Create],
                                  [Post(Text(a), true), Take, Finish, Post(Text(b), true), Take];
      && IsMeeting(before, middle)
      && MeetingText(before, middle) == a.text + [NEWLINE] + a.text + [NEWLINE] + b.text
  {
    hide Lives, After, Update, Appended, Finished;
    var before := [Create, Begin, Leave, Create];
    var middle := [Post(Text(a), true), Take, Finish, Post(Text(b), true), Take];
    var l := before + [Begin] + [middle[0]] + [Take] + [Finish];
    EarlyAppend(a);
    assert MeetingLife(before, middle) == l + [middle[3]] + [Take] + [Finish];
    LateSentence(l, a, b);
  }

  lemma EarlyAppend(a: Result)
    requires Said(a)
    ensures var l := [Create, Begin, Leave, Create] + [Begin] + [Post(Text(a), true)] + [Take] + [Finish];
      Lives(BOOT, l) && After(BOOT, l) == Page(Meeting, State(a.text, a.text, a.sid, true), [])
  {
    hide Lives, After, Update, Appended, Finished;
    var l := [Create, Begin, Leave, Create] + [Begin];
    SecondPage();
    OneMore(BOOT, [Create, Begin, Leave, Create], Begin);
    HandAndShow(l, a);
    FirstUpdate(a);
    OneMore(BOOT, l + [Post(Text(a), true)] + [Take], Finish);
    FinishedIs(State([], a.text, a.sid, true));
  }

  lemma LateSentence(l: seq<Event>, a: Result, b: Result)
    requires Said(a) && Said(b) && a.sid != b.sid
    requires Lives(BOOT, l) && After(BOOT, l) == Page(Meeting, State(a.text, a.text, a.sid, true), [])
    ensures var all := l + [Post(Text(b), true)] + [Take] + [Finish];
      && Lives(BOOT, all)
      && After(BOOT, all).text.full == a.text + [NEWLINE] + a.text + [NEWLINE] + b.text
  {
    hide Lives, After, Update, Appended, Finished;
    var s := State(a.text, a.text, a.sid, true);
    HandAndShow(l, b);
    NextUpdate(s, b);
    OneMore(BOOT, l + [Post(Text(b), true)] + [Take], Finish);
    FinishedIs(Update(s, b));
  }

  lemma FinishedIs(s: State)
    requires s.current != [] && |s.full| + 1 + |s.current| <= ROOM
    ensures Finished(s) == if s.full == [] then s.current else s.full + [NEWLINE] + s.current
  {
    AppendTo(s.full, s.current);
  }

  /** A meeting is left while its thread's last result waits in the ring; the result is shown on
      the page created next and heads the text of that page's meeting. */
  lemma LateResultShows(a: Result, r: Result)
    requires Said(a) && Said(r) && a.sid != r.sid
    ensures var before, middle := [Create, Begin, Post(Text(a), true), Leave, Create, Take],
                                  [Post(Text(r), true), Take];
      IsMeeting(before, middle) && MeetingText(before, middle) == a.text + [NEWLINE] + r.text
  {
    hide Lives, After, Update, Appended, Finished;
    var before, next := [Create, Begin, Post(Text(a), true), Leave, Create, Take], Post(Text(r), true);
    LateLife(a);
    OneMore(BOOT, before, Begin);
    HandAndShow(before + [Begin], r);
    var s := State([], a.text, a.sid, true);
    NextUpdate(s, r);
    OneMore(BOOT, before + [Begin] + [next] + [Take], Finish);
    FinishedIs(Update(s, r));
    assert MeetingLife(before, [next, Take]) == before + [Begin] + [next] + [Take] + [Finish];
  }

  lemma LateLife(a: Result)
    requires Said(a)
    ensures var before := [Create, Begin, Post(Text(a), true), Leave, Create, Take];
      Lives(BOOT, before) && After(BOOT, before) == Page(Ready, State([], a.text, a.sid, true), [])
  {
    hide Lives, After, Update;
    var post := Post(Text(a), true);
    FirstMeeting();
    var l := [Create] + [Begin];
    OneMore(BOOT, l, post);
    OneMore(BOOT, l + [post], Leave);
    OneMore(BOOT, l + [post] + [Leave], Create);
    OneMore(BOOT, l + [post] + [Leave] + [Create], Take);
    FirstUpdate(a);
    assert [Create, Begin, post, Leave, Create, Take] == l + [post] + [Leave] + [Create] + [Take];
  }
}
