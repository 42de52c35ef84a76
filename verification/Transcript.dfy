/** The meeting transcript: sentence results arrive as ever better versions, and only the last
    version of each sentence goes into the 8 KiB text. */
module Transcript {
  import opened Bytes
  import opened CStrings

  const FULL_SIZE: nat := 8192
  const ROOM: nat := FULL_SIZE - 2
  const CURRENT_SIZE: nat := 512

  datatype Result = Result(text: Bytes, sid: int)

  /** `full` holds the finished sentences, `current` the latest version of the open one. */
  datatype State = State(full: Bytes, current: Bytes, sid: int, labelled: bool)

  const START := State([], [], -1, false)

  // ---- one result ----------------------------------------------------------

  function Appended(full: Bytes, text: Bytes): Bytes {
    Cut(if full == [] then text else full + [NEWLINE] + text, ROOM)
  }

  /** The same sentence by its id; without ids, by not getting shorter. */
  predicate Continues(s: State, r: Result) {
    && s.labelled && s.current != []
    && (if r.sid >= 0 && s.sid >= 0 then r.sid == s.sid else |r.text| >= |s.current|)
  }

  function Update(s: State, r: Result): State {
    State(if !Continues(s, r) && s.current != [] then Appended(s.full, s.current) else s.full,
          Cut(r.text, CURRENT_SIZE - 1), r.sid, true)
  }

  function Finished(s: State): Bytes {
    if s.current != [] then Appended(s.full, s.current) else s.full
  }

  function AfterFrom(s: State, results: seq<Result>): State
    decreases |results|
  {
    if results == [] then s
    else Update(AfterFrom(s, results[..|results| - 1]), results[|results| - 1])
  }

  /** A new meeting empties the text and nothing else. */
  function Begun(s: State): State {
    s.(full := [])
  }

  /** Leaving the page forgets the open sentence. */
  function Closed(s: State): State {
    s.(current := [], sid := -1, labelled := false)
  }

  function Cleared(s: State): State {
    s.(labelled := false)
  }

  // ---- the buffers ---------------------------------------------------------

  class Buffers {
    const full: array<Byte>
    const current: array<Byte>
    var sid: int
    var labelled: bool
    var chatArea: bool
    ghost var state: State

    ghost predicate Valid()
      reads this, full, current
    {
      && full != current && full.Length == FULL_SIZE && current.Length == CURRENT_SIZE
      && Holds(full, state.full) && Holds(current, state.current)
      && |state.full| <= ROOM
      && sid == state.sid && labelled == state.labelled
    }

    constructor ()
      ensures Valid() && state == START && !chatArea && fresh(full) && fresh(current)
    {
      full := new Byte[FULL_SIZE](i => 0);
      current := new Byte[CURRENT_SIZE](i => 0);
      sid, labelled, chatArea, state := -1, false, false, START;
    }

    method CreatePage()
      requires Valid()
      modifies this`chatArea
      ensures Valid() && chatArea && state == old(state)
    {
      chatArea := true;
    }

    /** The start of a meeting. */
    method Begin()
      requires Valid()
      modifies this`state, full
      ensures Valid() && state == Begun(old(state))
    {
      full[0] := 0;
      state := Begun(state);
    }

    /** Leaving the page forgets the open sentence. */
    method Cleanup()
      requires Valid()
      modifies this, current
      ensures Valid() && !chatArea && state == Closed(old(state))
    {
      chatArea := false;
      current[0] := 0;
      sid, labelled := -1, false;
      state := Closed(state);
    }

    /** Showing the minutes clears the lines on the screen. */
    method ShowSummary()
      requires Valid()
      modifies this`labelled, this`state
      ensures Valid() && state == if chatArea then Cleared(old(state)) else old(state)
    {
      if chatArea {
        labelled := false;
        state := Cleared(state);
      }
    }

    /** Appends the open sentence. `FULL_SIZE - length - 2` cannot wrap, and nothing is written
        past the buffer. */
    method AppendCurrent()
      requires Valid() && state.current != []
      modifies full
      ensures Holds(full, Appended(state.full, state.current)) && Holds(current, state.current)
    {
      hide Appended, Cut;
      ghost var was, cur := state.full, state.current;
      var text := Contents(current, cur);
      var length := Strlen(full, was);
      var available := FULL_SIZE - length - 2;
      AppendedParts(was, cur);
      if available > 0 && length < FULL_SIZE - 2 {
        ghost var now := was;
        if length > 0 {
          Strncat(full, was, [NEWLINE], available);
          now := was + Cut([NEWLINE], available);
          available := available - 1;
        }
        Strncat(full, now, text, available);
      }
    }

    method OnResult(text: Bytes, sentenceId: int)
      requires Valid() && 0 !in text
      modifies this, full, current
      ensures Valid() && chatArea == old(chatArea)
      ensures state == if chatArea then Update(old(state), Result(text, sentenceId)) else old(state)
    {
      if !chatArea {
        return;
      }
      var isContinuation := false;
      var open := Strlen(current, state.current);
      if labelled && open != 0 {
        if sentenceId >= 0 && sid >= 0 {
          isContinuation := sentenceId == sid;
        } else {
          isContinuation := |text| >= open;
        }
      }
      if !isContinuation && open != 0 {
        AppendCurrent();
      }
      CopyCut(current, text, CURRENT_SIZE - 1);
      sid, labelled := sentenceId, true;
      state := Update(state, Result(text, sentenceId));
    }

    /** The same at the end of the transcription, with its own order of tests. */
    method AppendLast(text: Bytes)
      requires Valid() && state.current != [] && text == state.current && 0 !in text
      modifies full
      ensures Holds(full, Appended(state.full, state.current)) && Holds(current, state.current)
    {
      hide Appended, Cut;
      ghost var was := state.full;
      var length := Strlen(full, was);
      var available := FULL_SIZE - length - 2;
      AppendedParts(was, text);
      ghost var now := was;
      if available > 0 && length > 0 {
        Strncat(full, was, [NEWLINE], available);
        now := was + Cut([NEWLINE], available);
        available := available - 1;
      }
      if available > 0 {
        Strncat(full, now, text, available);
      }
    }

    /** What the meeting minutes are made from. */
    method Finish() returns (whole: Bytes)
      requires Valid()
      modifies this, full
      ensures Valid() && whole == Finished(old(state)) && state == old(state).(full := whole)
    {
      hide Appended, Cut;
      var text := Contents(current, state.current);
      if |text| != 0 {
        AppendedParts(state.full, text);
        AppendLast(text);
      }
      whole := Contents(full, Finished(state));
      state := state.(full := whole);
    }
  }

  lemma AppendedParts(full: Bytes, text: Bytes)
    requires |full| <= ROOM && text != []
    ensures var a := ROOM - |full|; var r := Appended(full, text);
      && |r| <= ROOM
      && (a == 0 ==> r == full)
      && (full == [] ==> r == full + Cut(text, a))
      && (a > 0 && full != [] ==> r == (full + Cut([NEWLINE], a)) + Cut(text, a - 1))
      && (a == 1 ==> r == full + Cut([NEWLINE], a))
  {
    var a := ROOM - |full|;
    if full == [] {
      assert full + Cut(text, a) == Cut(text, a);
    } else if a > 0 {
      assert Cut([NEWLINE], a) == [NEWLINE];
      assert (full + [NEWLINE]) + Cut(text, a - 1) == Cut(full + [NEWLINE] + text, ROOM);
    }
  }

  /** A result replaces the open sentence, if its line is on the screen and the ids agree, or
      without ids if it is at least as long; otherwise the open sentence goes into the text, behind
      a newline, as far as 8190 bytes allow. The open sentence is kept as far as 511 bytes. */
  lemma ResultReplacesOrEnds(s: State, r: Result)
    ensures var t := Update(s, r);
      var same := s.labelled && (if r.sid >= 0 && s.sid >= 0 then r.sid == s.sid else |r.text| >= |s.current|);
      var longer := if s.full == [] then s.current else s.full + [10] + s.current;
      && t.full == (if s.current == [] || same then s.full else if |longer| <= 8190 then longer else longer[..8190])
      && t.current == (if |r.text| <= 511 then r.text else r.text[..511]) && t.sid == r.sid && t.labelled
  {}

  // ---- which versions are kept ---------------------------------------------

  function Clip(text: Bytes): Bytes {
    Cut(text, CURRENT_SIZE - 1)
  }

  predicate Follows(p: Result, r: Result) {
    Clip(p.text) != [] && (if r.sid >= 0 && p.sid >= 0 then r.sid == p.sid else |r.text| >= |Clip(p.text)|)
  }

  function One(r: Result): seq<Bytes> {
    if Clip(r.text) == [] then [] else [Clip(r.text)]
  }

  /** The versions already finished: those the next result does not continue. */
  function Done(results: seq<Result>): seq<Bytes> {
    if |results| < 2 then []
    else
      var n := |results| - 1;
      Done(results[..n]) + (if Follows(results[n - 1], results[n]) then [] else One(results[n - 1]))
  }

  function LastVersions(results: seq<Result>): seq<Bytes> {
    if results == [] then [] else Done(results) + One(results[|results| - 1])
  }

  function Joined(parts: seq<Bytes>): Bytes {
    if parts == [] then []
    else if |parts| == 1 then parts[0]
    else Joined(parts[..|parts| - 1]) + [NEWLINE] + parts[|parts| - 1]
  }

  predicate Inked(parts: seq<Bytes>) {
    forall p | p in parts :: p != []
  }

  lemma {:induction false} JoinGrows(parts: seq<Bytes>, text: Bytes)
    requires Inked(parts) && text != []
    ensures Appended(Cut(Joined(parts), ROOM), text) == Cut(Joined(parts + [text]), ROOM)
  {
    var all := parts + [text];
    if parts != [] {
      assert all[..|all| - 1] == parts;
      assert parts[|parts| - 1] in parts;
      var j := Joined(parts);
      assert j != [];
      CutTwice(j, [NEWLINE] + text);
      assert Cut(j, ROOM) + [NEWLINE] + text == Cut(j, ROOM) + ([NEWLINE] + text);
      assert j + [NEWLINE] + text == j + ([NEWLINE] + text);
    }
  }

  lemma CutTwice(a: Bytes, b: Bytes)
    ensures Cut(Cut(a, ROOM) + b, ROOM) == Cut(a + b, ROOM)
  {
    assert Cut(Cut(a, ROOM) + b, ROOM) == Cut(a + b, ROOM);
  }

  lemma {:induction false} DoneIsInked(results: seq<Result>)
    ensures Inked(Done(results))
  {
    if |results| >= 2 {
      DoneIsInked(results[..|results| - 1]);
    }
  }

  lemma UpdateStep(full: Bytes, p: Result, r: Result)
    ensures Update(State(full, Clip(p.text), p.sid, true), r) ==
      State(if Follows(p, r) || Clip(p.text) == [] then full else Appended(full, Clip(p.text)),
            Clip(r.text), r.sid, true)
  {
    hide Cut, Appended;
  }

  lemma DoneGrows(results: seq<Result>)
    requires |results| >= 2
    ensures var n := |results| - 1; var p := results[n - 1];
      Done(results) == if Follows(p, results[n]) || Clip(p.text) == [] then Done(results[..n])
                         else Done(results[..n]) + [Clip(p.text)]
  {
    hide Follows, Clip;
    var before := results[..|results| - 1];
    assert Done(before) + [] == Done(before);
  }

  // ---- what a run of results leaves ----------------------------------------

  /** The sentence left open by an earlier meeting, unless the first result continues it. */
  function Carried(s: State, results: seq<Result>): seq<Bytes> {
    if s.current == [] || (results != [] && Continues(s, results[0])) then [] else [s.current]
  }

  lemma JoinOfOne(s: State)
    ensures Cut(Joined([]), ROOM) == []
    ensures Appended([], s.current) == Cut(Joined([s.current]), ROOM)
  {}

  lemma StateAfterOne(s: State, r: Result)
    requires s.full == []
    ensures AfterFrom(s, [r])
      == State(Cut(Joined(Carried(s, [r]) + Done([r])), ROOM), Clip(r.text), r.sid, true)
  {
    hide Appended, Joined, Cut;
    JoinOfOne(s);
    assert [r][..0] == [];
    assert Carried(s, [r]) + [] == Carried(s, [r]);
  }

  lemma {:induction false} StateAfter(s: State, results: seq<Result>)
    requires s.full == [] && results != []
    ensures var r := results[|results| - 1];
      AfterFrom(s, results)
        == State(Cut(Joined(Carried(s, results) + Done(results)), ROOM), Clip(r.text), r.sid, true)
    decreases |results|
  {
    hide Cut, Joined, Done, Follows, Clip, Update, Appended, Inked, Continues;
    var n := |results| - 1;
    var before, r := results[..n], results[n];
    if n == 0 {
      assert results == [r];
      StateAfterOne(s, r);
    } else {
      StateAfter(s, before);
      var p, carried := results[n - 1], Carried(s, results);
      assert before[n - 1] == p && before[0] == results[0];
      UpdateStep(Cut(Joined(carried + Done(before)), ROOM), p, r);
      DoneGrows(results);
      CarriedIsInked(s, results, before);
      if Clip(p.text) != [] {
        JoinGrows(carried + Done(before), Clip(p.text));
        assert (carried + Done(before)) + [Clip(p.text)] == carried + (Done(before) + [Clip(p.text)]);
      }
    }
  }

  lemma CarriedIsInked(s: State, results: seq<Result>, before: seq<Result>)
    ensures Inked(Carried(s, results) + Done(before))
  {
    hide Continues;
    DoneIsInked(before);
  }

  /** For every run of results in a new meeting: the final text is the newline-join of the last
      versions, cut at 8190 bytes if longer; a sentence left open by an earlier meeting comes
      first. */
  lemma FinalTextIsLastVersions(s: State, results: seq<Result>)
    requires s.full == []
    ensures Finished(AfterFrom(s, results)) == Cut(Joined(Carried(s, results) + LastVersions(results)), 8190)
  {
    hide Joined, Cut, Appended, Continues, Clip, Done;
    var carried := Carried(s, results);
    if results == [] {
      JoinOfOne(s);
      assert carried + [] == carried;
    } else {
      StateAfter(s, results);
      var r, closed := results[|results| - 1], Done(results);
      assert closed + [] == closed;
      CarriedIsInked(s, results, results);
      if Clip(r.text) != [] {
        JoinGrows(carried + closed, Clip(r.text));
        assert (carried + closed) + [Clip(r.text)] == carried + (closed + [Clip(r.text)]);
      }
    }
  }

  lemma {:induction false} JoinLength(t: Bytes, parts: seq<Bytes>)
    ensures |Joined([t] + parts)| == |t| + (if parts == [] then 0 else 1 + |Joined(parts)|)
    decreases |parts|
  {
    var all := [t] + parts;
    if parts != [] {
      assert all[..|all| - 1] == [t] + parts[..|parts| - 1];
      JoinLength(t, parts[..|parts| - 1]);
    }
  }

  /** Below capacity the text consists of this meeting's sentences alone exactly when nothing was
      left open or the first result continues what was. */
  lemma OnlyThisMeetingIff(s: State, results: seq<Result>)
    requires s.full == []
    requires |Joined(Carried(s, results) + LastVersions(results))| <= ROOM
    ensures Finished(AfterFrom(s, results)) == Joined(LastVersions(results))
      <==> s.current == [] || (results != [] && Continues(s, results[0]))
  {
    hide LastVersions, Continues, Joined;
    FinalTextIsLastVersions(s, results);
    var last := LastVersions(results);
    assert [] + last == last;
    if Carried(s, results) != [] {
      JoinLength(s.current, last);
      EmptyJoin();
    }
  }

  lemma EmptyJoin()
    ensures Joined([]) == []
  {}

  // ---- sentences told apart by their ids -----------------------------------

  /** One sentence: the versions the service sends for one id, at least one, none empty. */
  datatype Sentence = Sentence(sid: nat, versions: seq<Bytes>)

  predicate Spoken(s: Sentence) {
    s.versions != [] && forall v | v in s.versions :: 0 < |v| < CURRENT_SIZE
  }

  function ResultsOf(s: Sentence): seq<Result> {
    seq(|s.versions|, i requires 0 <= i < |s.versions| => Result(s.versions[i], s.sid))
  }

  function AllResults(sentences: seq<Sentence>): seq<Result> {
    if sentences == [] then []
    else AllResults(sentences[..|sentences| - 1]) + ResultsOf(sentences[|sentences| - 1])
  }

  function FinalVersion(s: Sentence): Bytes
    requires s.versions != []
  {
    s.versions[|s.versions| - 1]
  }

  lemma DoneStep(results: seq<Result>, r: Result)
    requires results != []
    ensures Done(results + [r]) ==
      if Follows(results[|results| - 1], r) then Done(results) else LastVersions(results)
  {
    hide Follows, One;
    var all := results + [r];
    assert all[..|all| - 1] == results;
    assert Done(results) + [] == Done(results);
  }

  lemma ShortText(text: Bytes, sid: int)
    requires 0 < |text| < CURRENT_SIZE
    ensures Clip(text) == text && One(Result(text, sid)) == [text]
  {}

  /** One more version of the open sentence takes the place of the version before it. */
  lemma VersionReplaces(results: seq<Result>, kept: seq<Bytes>, old': Bytes, text: Bytes, sid: nat)
    requires results != [] && results[|results| - 1] == Result(old', sid)
    requires 0 < |old'| < CURRENT_SIZE && 0 < |text| < CURRENT_SIZE
    requires LastVersions(results) == kept + [old']
    ensures LastVersions(results + [Result(text, sid)]) == kept + [text]
  {
    hide Done, Clip, One;
    var r := Result(text, sid);
    ShortText(old', sid);
    ShortText(text, sid);
    DoneStep(results, r);
    LastOf(Done(results), kept, old');
  }

  /** The first version of another sentence finishes the one before. */
  lemma VersionOpens(results: seq<Result>, text: Bytes, sid: nat)
    requires results != [] ==> results[|results| - 1].sid >= 0 && results[|results| - 1].sid != sid
    requires 0 < |text| < CURRENT_SIZE
    ensures LastVersions(results + [Result(text, sid)]) == LastVersions(results) + [text]
  {
    hide Clip, One;
    ShortText(text, sid);
    if results != [] {
      DoneStep(results, Result(text, sid));
    }
  }

  lemma {:induction false} SentenceAdds(results: seq<Result>, s: Sentence)
    requires Spoken(s)
    requires results != [] ==> results[|results| - 1].sid >= 0 && results[|results| - 1].sid != s.sid
    ensures LastVersions(results + ResultsOf(s)) == LastVersions(results) + [FinalVersion(s)]
    decreases |s.versions|
  {
    hide LastVersions;
    var n := |s.versions| - 1;
    var all := results + ResultsOf(s);
    assert s.versions[n] in s.versions;
    if n == 0 {
      assert all == results + [Result(s.versions[0], s.sid)];
      VersionOpens(results, s.versions[0], s.sid);
    } else {
      var s' := s.(versions := s.versions[..n]);
      var before := results + ResultsOf(s');
      assert forall v :: v in s'.versions ==> v in s.versions;
      SentenceAdds(results, s');
      assert s.versions[n - 1] in s.versions;
      assert all == before + [Result(s.versions[n], s.sid)];
      VersionReplaces(before, LastVersions(results), s.versions[n - 1], s.versions[n], s.sid);
    }
  }

  lemma LastOf(a: seq<Bytes>, b: seq<Bytes>, x: Bytes)
    requires a + [x] == b + [x]
    ensures a == b
  {
    assert a == (a + [x])[..|a|] && b == (b + [x])[..|b|];
    assert |a| == |b|;
  }

  predicate Told(sentences: seq<Sentence>) {
    && (forall i :: 0 <= i < |sentences| ==> Spoken(sentences[i]))
    && forall i :: 0 < i < |sentences| ==> sentences[i - 1].sid != sentences[i].sid
  }

  function FinalVersions(sentences: seq<Sentence>): seq<Bytes>
    requires Told(sentences)
  {
    seq(|sentences|, i requires 0 <= i < |sentences| => FinalVersion(sentences[i]))
  }

  /** Every sentence appears exactly once, in order, in its last version. */
  lemma {:induction false} EachSentenceOnce(sentences: seq<Sentence>)
    requires Told(sentences)
    ensures LastVersions(AllResults(sentences)) == FinalVersions(sentences)
    ensures EndsWith(AllResults(sentences), sentences)
  {
    if sentences == [] {
      assert FinalVersions(sentences) == [];
    } else {
      hide LastVersions, ResultsOf, Spoken, Told, FinalVersions;
      var n := |sentences| - 1;
      var before, s := sentences[..n], sentences[n];
      ToldSplits(before, s, sentences);
      EachSentenceOnce(before);
      SentenceAdds(AllResults(before), s);
      VersionsGrow(before, s, sentences);
      LastResult(AllResults(before), s);
    }
  }

  lemma SpokenHasVersions(s: Sentence)
    requires Spoken(s)
    ensures s.versions != []
  {}

  lemma ToldSplits(before: seq<Sentence>, s: Sentence, sentences: seq<Sentence>)
    requires Told(sentences) && sentences == before + [s]
    ensures Told(before) && Spoken(s) && s.versions != []
    ensures before != [] ==> before[|before| - 1].sid != s.sid
  {
    hide Spoken;
    assert Spoken(sentences[|sentences| - 1]);
    SpokenHasVersions(s);
    forall i | 0 <= i < |before|
      ensures Spoken(before[i])
    {
      assert Spoken(sentences[i]);
    }
    forall i | 0 < i < |before|
      ensures before[i - 1].sid != before[i].sid
    {
      assert sentences[i - 1].sid != sentences[i].sid;
    }
    if before != [] {
      assert sentences[|before| - 1].sid != sentences[|before|].sid;
    }
  }

  lemma VersionsGrow(before: seq<Sentence>, s: Sentence, sentences: seq<Sentence>)
    requires Told(before) && Told(sentences) && s.versions != [] && sentences == before + [s]
    ensures FinalVersions(sentences) == FinalVersions(before) + [FinalVersion(s)]
  {}

  lemma LastResult(before: seq<Result>, s: Sentence)
    requires s.versions != []
    ensures var all := before + ResultsOf(s); all != [] && all[|all| - 1].sid == s.sid
  {}

  predicate EndsWith(results: seq<Result>, sentences: seq<Sentence>) {
    if sentences == [] then results == []
    else results != [] && results[|results| - 1].sid == sentences[|sentences| - 1].sid
  }

  /** In a meeting that starts with no sentence open, the final text is every sentence's last
      version, newline-joined: all of it up to 8190 bytes. */
  lemma FinalTextIsSentences(s: State, sentences: seq<Sentence>)
    requires Told(sentences) && s.full == [] && s.current == []
    ensures Finished(AfterFrom(s, AllResults(sentences))) == Cut(Joined(FinalVersions(sentences)), ROOM)
    ensures |Joined(FinalVersions(sentences))| <= ROOM ==>
      Finished(AfterFrom(s, AllResults(sentences))) == Joined(FinalVersions(sentences))
  {
    hide Joined, LastVersions, FinalVersions, AllResults;
    EachSentenceOnce(sentences);
    FinalTextIsLastVersions(s, AllResults(sentences));
    assert [] + LastVersions(AllResults(sentences)) == LastVersions(AllResults(sentences));
  }
}
