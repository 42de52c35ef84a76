/** What ends up in the transcript, whatever comes between the results: early appends by other
    threads, the minutes taking the screen, the page being left. */
module TranscriptLog {
  import opened Bytes
  import opened CStrings
  import opened Transcript

  /** What happens to the transcript: a result is shown, some thread appends the open sentence,
      the minutes clear the screen, the page is left. */
  datatype Op = Seen(r: Result) | Fin | Min | Gone

  function Step(s: State, op: Op): State {
    match op
    case Seen(r) => Update(s, r)
    case Fin => s.(full := Finished(s))
    case Min => Cleared(s)
    case Gone => Closed(s)
  }

  function Steps(s: State, ops: seq<Op>): State
    decreases |ops|
  {
    if ops == [] then s else Step(Steps(s, ops[..|ops| - 1]), ops[|ops| - 1])
  }

  lemma {:induction false} StepsAppend(s: State, a: seq<Op>, b: seq<Op>)
    ensures Steps(s, a + b) == Steps(Steps(s, a), b)
    decreases |b|
  {
    hide Step;
    if b == [] {
      assert a + b == a;
    } else {
      var n := |b| - 1;
      assert (a + b)[..|a + b| - 1] == a + b[..n];
      StepsAppend(s, a, b[..n]);
    }
  }

  // ---- results and what happens while each is open -------------------------

  /** A result and what happens before the next one is shown. */
  datatype Stay = Stay(r: Result, q: seq<Op>)

  function Happened(stays: seq<Stay>, op: Op): seq<Stay> {
    if op.Seen? then stays + [Stay(op.r, [])]
    else if stays == [] then []
    else
      var last := stays[|stays| - 1];
      stays[..|stays| - 1] + [Stay(last.r, last.q + [op])]
  }

  function Stays(ops: seq<Op>): seq<Stay>
    decreases |ops|
  {
    if ops == [] then [] else Happened(Stays(ops[..|ops| - 1]), ops[|ops| - 1])
  }

  function Results(stays: seq<Stay>): (rs: seq<Result>)
    ensures |rs| == |stays| && forall i :: 0 <= i < |stays| ==> rs[i] == stays[i].r
  {
    seq(|stays|, i requires 0 <= i < |stays| => stays[i].r)
  }

  predicate Left(q: seq<Op>) {
    Gone in q
  }

  /** How often the result is appended early. */
  function Fins(q: seq<Op>): nat
    decreases |q|
  {
    if q == [] then 0
    else
      var n := |q| - 1;
      Fins(q[..n]) + (if q[n].Fin? && !Left(q[..n]) then 1 else 0)
  }

  /** Its line has gone from the screen while it was open. */
  predicate Wiped(q: seq<Op>)
    decreases |q|
  {
    q != [] && (Wiped(q[..|q| - 1]) || (q[|q| - 1].Min? && !Left(q[..|q| - 1])))
  }

  /** The result is the last version of its sentence. */
  predicate Ends(r: Result, next: Option<Result>) {
    next.None? || !Follows(r, next.value)
  }

  /** How often the result is appended in all, the next result or the end included. */
  function Times(st: Stay, next: Option<Result>): nat {
    Fins(st.q) + (if !Left(st.q) && (Ends(st.r, next) || Wiped(st.q)) then 1 else 0)
  }

  function Repeat(i: nat, k: nat): (s: seq<nat>)
    ensures |s| == k && forall j :: 0 <= j < k ==> s[j] == i
  {
    seq(k, _ => i)
  }

  /** The results appended, by their indices, up to the next result or the end. */
  function Log(stays: seq<Stay>, next: Option<Result>): (ix: seq<nat>)
    ensures forall i | i in ix :: i < |stays|
    decreases |stays|
  {
    if stays == [] then []
    else
      var n := |stays| - 1;
      Log(stays[..n], Some(stays[n].r)) + Repeat(n, Times(stays[n], next))
  }

  /** The last versions, by their indices. */
  function LastOnes(stays: seq<Stay>, next: Option<Result>): (ix: seq<nat>)
    ensures forall i | i in ix :: i < |stays|
    decreases |stays|
  {
    if stays == [] then []
    else
      var n := |stays| - 1;
      LastOnes(stays[..n], Some(stays[n].r)) + Repeat(n, if Ends(stays[n].r, next) then 1 else 0)
  }

  function Texts(rs: seq<Result>, ix: seq<nat>): seq<Bytes> {
    seq(|ix|, k requires 0 <= k < |ix| => if ix[k] < |rs| then Clip(rs[ix[k]].text) else [])
  }

  lemma TextsAppend(rs: seq<Result>, a: seq<nat>, b: seq<nat>)
    ensures Texts(rs, a + b) == Texts(rs, a) + Texts(rs, b)
  {}

  lemma TextsPrefix(rs: seq<Result>, n: nat, a: seq<nat>)
    requires n <= |rs| && forall i | i in a :: i < n
    ensures Texts(rs[..n], a) == Texts(rs, a)
  {
    assert forall k :: 0 <= k < |a| ==> a[k] in a;
  }

  lemma TextsRepeat(rs: seq<Result>, i: nat, k: nat)
    requires i < |rs|
    ensures Texts(rs, Repeat(i, k + 1)) == Texts(rs, Repeat(i, k)) + [Clip(rs[i].text)]
    ensures Texts(rs, Repeat(i, 0)) == []
  {}

  // ---- the text is the log -------------------------------------------------

  predicate NoEmpty(rs: seq<Result>) {
    forall r | r in rs :: r.text != []
  }

  lemma {:induction false} TextsAreInked(rs: seq<Result>, ix: seq<nat>)
    requires NoEmpty(rs) && forall i | i in ix :: i < |rs|
    ensures Inked(Texts(rs, ix))
  {
    forall k | 0 <= k < |ix|
      ensures Texts(rs, ix)[k] != []
    {
      assert ix[k] in ix;
      assert rs[ix[k]] in rs;
    }
  }

  /** What has been appended while the last result is still open. */
  function SoFar(stays: seq<Stay>): (ix: seq<nat>)
    requires stays != []
    ensures forall i | i in ix :: i < |stays|
  {
    var n := |stays| - 1;
    Log(stays[..n], Some(stays[n].r)) + Repeat(n, Fins(stays[n].q))
  }

  /** The state after some happenings, described by the stays. */
  ghost predicate Describes(stays: seq<Stay>, s: State) {
    if stays == [] then s.full == [] && s.current == []
    else
      var l := stays[|stays| - 1];
      && s.full == Cut(Joined(Texts(Results(stays), SoFar(stays))), ROOM)
      && s.current == (if Left(l.q) then [] else Clip(l.r.text))
      && (!Left(l.q) ==> s.sid == l.r.sid && s.labelled == !Wiped(l.q))
  }

  /** One more copy of result `n` at the end of the text. */
  lemma OneMoreCopy(rs: seq<Result>, ix: seq<nat>, n: nat, k: nat)
    requires NoEmpty(rs) && n < |rs| && forall i | i in ix :: i < |rs|
    ensures Appended(Cut(Joined(Texts(rs, ix + Repeat(n, k))), ROOM), Clip(rs[n].text))
      == Cut(Joined(Texts(rs, ix + Repeat(n, k + 1))), ROOM)
  {
    hide Joined, Appended, Cut, Clip, Texts;
    TextsAppend(rs, ix, Repeat(n, k));
    TextsAppend(rs, ix, Repeat(n, k + 1));
    TextsRepeat(rs, n, k);
    assert rs[n] in rs;
    ClipNotEmpty(rs[n]);
    TextsAreInked(rs, ix + Repeat(n, k));
    var parts := Texts(rs, ix) + Texts(rs, Repeat(n, k));
    JoinGrows(parts, Clip(rs[n].text));
    assert parts + [Clip(rs[n].text)] == Texts(rs, ix) + (Texts(rs, Repeat(n, k)) + [Clip(rs[n].text)]);
  }

  lemma ClipNotEmpty(r: Result)
    requires r.text != []
    ensures Clip(r.text) != []
  {}

  /** A further result closes the one before. */
  lemma SeenNext(stays: seq<Stay>, s: State, r: Result)
    requires NoEmpty(Results(stays)) && Describes(stays, s)
    ensures Describes(stays + [Stay(r, [])], Update(s, r))
  {
    hide Joined, Cut, Appended, Texts, Wiped, Fins;
    var all := stays + [Stay(r, [])];
    assert all[..|stays|] == stays;
    EmptyQuiet();
    var rs := Results(all);
    if stays == [] {
      assert SoFar(all) == [];
      TextsOfNone(rs);
    } else {
      var n := |stays| - 1;
      var l, front := stays[n], Log(stays[..n], Some(stays[n].r));
      assert l.r in Results(stays) by { assert Results(stays)[n] == l.r; }
      ClipNotEmpty(l.r);
      assert Results(stays) == rs[..|stays|];
      assert SoFar(all) == front + Repeat(n, Times(l, Some(r)));
      TextsPrefix(rs, |stays|, SoFar(stays));
      TextsPrefix(rs, |stays|, SoFar(all));
      OneMoreCopy(Results(stays), front, n, Fins(l.q));
      ContinuesIs(s, l, r);
    }
  }

  lemma ContinuesIs(s: State, l: Stay, r: Result)
    requires s.current == (if Left(l.q) then [] else Clip(l.r.text)) && l.r.text != []
    requires !Left(l.q) ==> s.sid == l.r.sid && s.labelled == !Wiped(l.q)
    ensures !Continues(s, r) && s.current != [] <==> !Left(l.q) && (Ends(l.r, Some(r)) || Wiped(l.q))
  {
    ClipNotEmpty(l.r);
  }

  lemma EmptyQuiet()
    ensures Fins([]) == 0 && !Wiped([])
  {}

  lemma TextsOfNone(rs: seq<Result>)
    ensures Cut(Joined(Texts(rs, [])), ROOM) == []
  {}

  lemma QuietNext(q: seq<Op>, op: Op)
    ensures Fins(q + [op]) == Fins(q) + (if op.Fin? && !Left(q) then 1 else 0)
    ensures Wiped(q + [op]) <==> Wiped(q) || (op.Min? && !Left(q))
    ensures Left(q + [op]) <==> Left(q) || op.Gone?
  {
    assert (q + [op])[..|q|] == q;
  }

  /** Anything else happens to the open result. */
  lemma HappensNext(stays: seq<Stay>, s: State, op: Op)
    requires NoEmpty(Results(stays)) && Describes(stays, s) && !op.Seen? && stays != []
    ensures var l := stays[|stays| - 1];
      Describes(stays[..|stays| - 1] + [Stay(l.r, l.q + [op])], Step(s, op))
  {
    hide Joined, Cut, Appended, Texts, Wiped, Fins, Clip;
    var n := |stays| - 1;
    var l := stays[n];
    var all := stays[..n] + [Stay(l.r, l.q + [op])];
    assert all[..n] == stays[..n];
    assert Results(all) == Results(stays);
    QuietNext(l.q, op);
    assert l.r in Results(stays) by { assert Results(stays)[n] == l.r; }
    ClipNotEmpty(l.r);
    OneMoreCopy(Results(stays), Log(stays[..n], Some(l.r)), n, Fins(l.q));
  }

  predicate NoEmptyOps(ops: seq<Op>) {
    forall op | op in ops :: op.Seen? ==> op.r.text != []
  }

  lemma HappenedDescribes(stays: seq<Stay>, s: State, op: Op)
    requires NoEmpty(Results(stays)) && Describes(stays, s) && (op.Seen? ==> op.r.text != [])
    ensures NoEmpty(Results(Happened(stays, op))) && Describes(Happened(stays, op), Step(s, op))
  {
    hide Describes, Step, Update;
    if op.Seen? {
      SeenNext(stays, s, op.r);
      StepSeen(s, op.r);
      StayAdded(stays, op.r);
    } else if stays == [] {
      NothingOpen(s, op);
    } else {
      HappensNext(stays, s, op);
      assert Results(Happened(stays, op)) == Results(stays);
    }
  }

  lemma {:induction false} StaysDescribe(ops: seq<Op>)
    requires NoEmptyOps(ops)
    ensures NoEmpty(Results(Stays(ops))) && Describes(Stays(ops), Steps(START, ops))
    decreases |ops|
  {
    hide Describes, Step, Happened, Results;
    if ops == [] {
      StartDescribed();
    } else {
      var n := |ops| - 1;
      assert ops[n] in ops && forall op :: op in ops[..n] ==> op in ops;
      StaysDescribe(ops[..n]);
      HappenedDescribes(Stays(ops[..n]), Steps(START, ops[..n]), ops[n]);
    }
  }

  lemma StartDescribed()
    ensures Describes([], START)
  {}

  lemma StepSeen(s: State, r: Result)
    ensures Step(s, Seen(r)) == Update(s, r)
  {}

  lemma StayAdded(stays: seq<Stay>, r: Result)
    requires NoEmpty(Results(stays)) && r.text != []
    ensures NoEmpty(Results(stays + [Stay(r, [])]))
  {
    assert Results(stays + [Stay(r, [])]) == Results(stays) + [r];
  }

  lemma NothingOpen(s: State, op: Op)
    requires Describes([], s) && !op.Seen?
    ensures Describes([], Step(s, op))
  {}

  /** The text that an append at the end leaves is the join of the log, cut at 8190 bytes:
      result `i` appears `Times` times, in order. */
  lemma TextIsTheLog(ops: seq<Op>)
    requires NoEmptyOps(ops)
    ensures var stays := Stays(ops);
      Finished(Steps(START, ops)) == Cut(Joined(Texts(Results(stays), Log(stays, None))), ROOM)
  {
    hide Joined, Cut, Appended, Texts, Fins, Wiped, Steps, Stays;
    StaysDescribe(ops);
    var stays := Stays(ops);
    if stays == [] {
      TextsOfNone(Results(stays));
    } else {
      var n := |stays| - 1;
      var l := stays[n];
      assert l.r in Results(stays) by { assert Results(stays)[n] == l.r; }
      ClipNotEmpty(l.r);
      OneMoreCopy(Results(stays), Log(stays[..n], Some(l.r)), n, Fins(l.q));
    }
  }

  // ---- when each sentence is there exactly once -----------------------------

  function NextOf(stays: seq<Stay>, i: nat, next: Option<Result>): Option<Result>
    requires i < |stays|
  {
    if i + 1 < |stays| then Some(stays[i + 1].r) else next
  }

  /** The last version of a sentence is appended early exactly if the page is left before it
      would be appended; another version is not appended early, and its line does not go from
      the screen before the next version comes, unless the page is left. */
  predicate Once(st: Stay, next: Option<Result>) {
    if Ends(st.r, next) then Fins(st.q) == (if Left(st.q) then 1 else 0)
    else Fins(st.q) == 0 && (Left(st.q) || !Wiped(st.q))
  }

  predicate EachOnce(stays: seq<Stay>, next: Option<Result>) {
    forall i :: 0 <= i < |stays| ==> Once(stays[i], NextOf(stays, i, next))
  }

  lemma OnceIs(st: Stay, next: Option<Result>)
    ensures Once(st, next) <==> Times(st, next) == (if Ends(st.r, next) then 1 else 0)
    ensures !Left(st.q) ==> Times(st, next) >= (if Ends(st.r, next) then 1 else 0)
  {}

  lemma EachOnceSplits(stays: seq<Stay>, next: Option<Result>)
    requires stays != []
    ensures var n := |stays| - 1;
      EachOnce(stays, next) <==> EachOnce(stays[..n], Some(stays[n].r)) && Once(stays[n], next)
  {
    hide Once;
    var n := |stays| - 1;
    var front := stays[..n];
    assert forall i :: 0 <= i < n ==> NextOf(stays, i, next) == NextOf(front, i, Some(stays[n].r));
    assert forall i :: 0 <= i < n ==> front[i] == stays[i];
    if EachOnce(front, Some(stays[n].r)) && Once(stays[n], next) {
      forall i | 0 <= i < |stays|
        ensures Once(stays[i], NextOf(stays, i, next))
      {
        if i < n { assert Once(front[i], NextOf(front, i, Some(stays[n].r))); }
      }
    }
    if EachOnce(stays, next) {
      assert Once(stays[n], NextOf(stays, n, next));
      forall i | 0 <= i < n
        ensures Once(front[i], NextOf(front, i, Some(stays[n].r)))
      {
        assert Once(stays[i], NextOf(stays, i, next));
      }
    }
  }

  lemma PadIsBehind(a: seq<nat>, b: seq<nat>, n: nat, k: nat, m: nat)
    requires forall i | i in a :: i < n
    ensures a + Repeat(n, k) == b + Repeat(n, m) ==> |a| <= |b|
  {
    var x, y := a + Repeat(n, k), b + Repeat(n, m);
    if |b| < |a| {
      assert a[|b|] in a && x[|b|] == a[|b|];
      assert m > 0 ==> y[|b|] == Repeat(n, m)[0];
      assert |x| > |b| && (m == 0 ==> |y| == |b|);
    }
  }

  lemma Unpadded(a: seq<nat>, b: seq<nat>, n: nat, k: nat, m: nat)
    requires (forall i | i in a :: i < n) && (forall i | i in b :: i < n)
    ensures a + Repeat(n, k) == b + Repeat(n, m) <==> a == b && k == m
  {
    var x, y := a + Repeat(n, k), b + Repeat(n, m);
    PadIsBehind(a, b, n, k, m);
    PadIsBehind(b, a, n, m, k);
    if x == y {
      assert a == x[..|a|] && b == y[..|b|];
    }
  }

  /** For whatever happens: every sentence is appended exactly once, in its last version, and
      nothing else is, exactly when each result meets its condition. */
  lemma {:induction false} EachOnceIff(stays: seq<Stay>, next: Option<Result>)
    ensures Log(stays, next) == LastOnes(stays, next) <==> EachOnce(stays, next)
    decreases |stays|
  {
    hide Once, Times, Ends, EachOnce;
    if stays == [] {
      NoneIsOnce(stays, next);
    } else {
      var n := |stays| - 1;
      EachOnceIff(stays[..n], Some(stays[n].r));
      EachOnceSplits(stays, next);
      OnceIs(stays[n], next);
      Unpadded(Log(stays[..n], Some(stays[n].r)), LastOnes(stays[..n], Some(stays[n].r)), n,
               Times(stays[n], next), if Ends(stays[n].r, next) then 1 else 0);
    }
  }

  lemma NoneIsOnce(stays: seq<Stay>, next: Option<Result>)
    requires stays == []
    ensures EachOnce(stays, next)
  {}

  predicate NeverLeft(stays: seq<Stay>) {
    forall i :: 0 <= i < |stays| ==> !Left(stays[i].q)
  }

  /** While the page stays, the log is never shorter than it should be. */
  lemma {:induction false} LogIsLonger(stays: seq<Stay>, next: Option<Result>)
    requires NeverLeft(stays)
    ensures |Log(stays, next)| >= |LastOnes(stays, next)|
    ensures |Log(stays, next)| == |LastOnes(stays, next)| <==> EachOnce(stays, next)
    decreases |stays|
  {
    hide Once, Times, Ends, EachOnce;
    if stays == [] {
      NoneIsOnce(stays, next);
    } else {
      var n := |stays| - 1;
      assert forall i :: 0 <= i < n ==> stays[..n][i] == stays[i];
      LogIsLonger(stays[..n], Some(stays[n].r));
      EachOnceSplits(stays, next);
      OnceIs(stays[n], next);
    }
  }

  /** The same for one more result, shown behind `front`. */
  lemma LastOnesGrow(front: seq<Stay>, rs: seq<Result>)
    requires front != [] && |rs| == |front| + 1 && Results(front) == rs[..|front|] && NoEmpty(rs)
    requires var m := |front| - 1; Done(rs[..m + 1]) == Texts(rs[..m + 1], LastOnes(front[..m], Some(rs[m])))
    ensures Done(rs) == Texts(rs, LastOnes(front, Some(rs[|front|])))
  {
    hide Clip, Follows, Texts, Repeat, Results, NoEmpty, Done;
    var n, m := |front|, |front| - 1;
    var ended := LastOnes(front[..m], Some(rs[m]));
    assert front[m].r == rs[m] by { assert Results(front)[m] == rs[..n][m]; }
    DoneEnds(rs);
    TextsPrefix(rs, n, ended);
    TextsAppend(rs, ended, Repeat(m, if Ends(rs[m], Some(rs[n])) then 1 else 0));
    TextsRepeat(rs, m, 0);
  }

  lemma DoneEnds(rs: seq<Result>)
    requires |rs| >= 2 && NoEmpty(rs)
    ensures var n := |rs| - 1;
      Done(rs) == Done(rs[..n]) + (if Ends(rs[n - 1], Some(rs[n])) then [Clip(rs[n - 1].text)] else [])
  {
    hide Clip, Follows;
    assert rs[|rs| - 2] in rs;
    ClipNotEmpty(rs[|rs| - 2]);
  }

  lemma {:induction false} LastOnesAreLast(stays: seq<Stay>)
    requires stays != [] && NoEmpty(Results(stays))
    ensures var n := |stays| - 1; var rs := Results(stays);
      Done(rs) == Texts(rs, LastOnes(stays[..n], Some(rs[n])))
    decreases |stays|
  {
    hide Clip, Follows, Texts, Done, LastOnes;
    var n := |stays| - 1;
    var rs, front := Results(stays), stays[..n];
    if n == 0 {
      NothingEnds(rs);
      assert front == [];
    } else {
      assert Results(front) == rs[..n];
      assert NoEmpty(Results(front)) by { assert forall r :: r in rs[..n] ==> r in rs; }
      LastOnesAreLast(front);
      LastOnesGrow(front, rs);
    }
  }

  lemma NothingEnds(rs: seq<Result>)
    requires |rs| == 1
    ensures Done(rs) == [] && forall next :: Texts(rs, LastOnes([], next)) == []
  {}

  lemma LastVersionsAre(stays: seq<Stay>)
    requires NoEmpty(Results(stays))
    ensures LastVersions(Results(stays)) == Texts(Results(stays), LastOnes(stays, None))
  {
    hide Done, Clip, Texts;
    if stays == [] {
      NoTexts(Results(stays));
    } else {
      var n := |stays| - 1;
      var rs := Results(stays);
      LastOnesAreLast(stays);
      assert rs[n] in rs;
      ClipNotEmpty(rs[n]);
      TextsAppend(rs, LastOnes(stays[..n], Some(rs[n])), Repeat(n, 1));
      TextsRepeat(rs, n, 0);
      assert [] + [Clip(rs[n].text)] == [Clip(rs[n].text)];
    }
  }

  lemma NoTexts(rs: seq<Result>)
    ensures Texts(rs, []) == []
  {}

  // ---- joining is reversible -----------------------------------------------

  /** Texts without newlines: every join can be taken apart again. */
  predicate Plain(parts: seq<Bytes>) {
    forall p | p in parts :: p != [] && NEWLINE !in p
  }

  lemma LastNewline(x: Bytes, p: Bytes, y: Bytes, q: Bytes)
    requires NEWLINE !in q
    ensures x + [NEWLINE] + p == y + [NEWLINE] + q ==> |x| <= |y|
  {
    var a, b := x + [NEWLINE] + p, y + [NEWLINE] + q;
    if |y| < |x| {
      assert a[|x|] == NEWLINE;
      assert |x| < |b| ==> b[|x|] == q[|x| - |y| - 1];
    }
  }

  lemma LastLine(x: Bytes, p: Bytes, y: Bytes, q: Bytes)
    requires NEWLINE !in p && NEWLINE !in q
    requires x + [NEWLINE] + p == y + [NEWLINE] + q
    ensures x == y && p == q
  {
    var a, b := x + [NEWLINE] + p, y + [NEWLINE] + q;
    LastNewline(x, p, y, q);
    LastNewline(y, q, x, p);
    assert x == a[..|x|] && y == b[..|y|] && p == a[|x| + 1..] && q == b[|y| + 1..];
  }

  lemma {:induction false} JoinTakesApart(a: seq<Bytes>, b: seq<Bytes>)
    requires Plain(a) && Plain(b) && Joined(a) == Joined(b)
    ensures a == b
    decreases |a|
  {
    if |a| >= 2 && |b| >= 2 {
      var n, m := |a| - 1, |b| - 1;
      assert a[n] in a && b[m] in b;
      LastLine(Joined(a[..n]), a[n], Joined(b[..m]), b[m]);
      assert forall p :: p in a[..n] ==> p in a;
      assert forall p :: p in b[..m] ==> p in b;
      JoinTakesApart(a[..n], b[..m]);
      assert a == a[..n] + [a[n]] && b == b[..m] + [b[m]];
    } else {
      JoinShape(a);
      JoinShape(b);
    }
  }

  lemma JoinShape(a: seq<Bytes>)
    requires Plain(a)
    ensures a == [] <==> Joined(a) == []
    ensures NEWLINE in Joined(a) <==> |a| >= 2
    ensures |a| == 1 ==> a == [Joined(a)]
  {
    if |a| == 1 {
      assert a[0] in a;
    } else if |a| >= 2 {
      var n := |a| - 1;
      assert (Joined(a[..n]) + [NEWLINE] + a[n])[|Joined(a[..n])|] == NEWLINE;
    }
  }

  /** Only sentences that hold no newline can be told apart in the text. */
  predicate PlainResults(rs: seq<Result>) {
    forall r | r in rs :: r.text != [] && NEWLINE !in r.text
  }

  lemma TextsArePlain(rs: seq<Result>, ix: seq<nat>)
    requires PlainResults(rs) && forall i | i in ix :: i < |rs|
    ensures Plain(Texts(rs, ix))
  {
    forall k | 0 <= k < |ix|
      ensures Texts(rs, ix)[k] != [] && NEWLINE !in Texts(rs, ix)[k]
    {
      assert ix[k] in ix;
      assert rs[ix[k]] in rs;
    }
  }

  /** Below capacity and without newlines in the sentences: while the page is there, the text is
      the join of the last versions shown exactly when no early append meets an open sentence
      and the screen is not cleared between two versions of one sentence. */
  lemma TextIsLastVersionsIff(ops: seq<Op>)
    requires NoEmptyOps(ops) && NeverLeft(Stays(ops)) && PlainResults(Results(Stays(ops)))
    requires |Joined(Texts(Results(Stays(ops)), Log(Stays(ops), None)))| <= ROOM
    ensures Finished(Steps(START, ops)) == Joined(LastVersions(Results(Stays(ops)))) <==> EachOnce(Stays(ops), None)
  {
    hide Joined, Texts, Steps, Stays, EachOnce, LastVersions, Finished;
    var stays := Stays(ops);
    var rs := Results(stays);
    TextIsTheLog(ops);
    StaysDescribe(ops);
    LastVersionsAre(stays);
    LogIsLonger(stays, None);
    EachOnceIff(stays, None);
    TextsArePlain(rs, Log(stays, None));
    TextsArePlain(rs, LastOnes(stays, None));
    if Joined(Texts(rs, Log(stays, None))) == Joined(Texts(rs, LastOnes(stays, None))) {
      JoinTakesApart(Texts(rs, Log(stays, None)), Texts(rs, LastOnes(stays, None)));
      SameLength(rs, Log(stays, None), LastOnes(stays, None));
    }
  }

  lemma SameLength(rs: seq<Result>, a: seq<nat>, b: seq<nat>)
    requires Texts(rs, a) == Texts(rs, b)
    ensures |a| == |b|
  {
    assert |Texts(rs, a)| == |a| && |Texts(rs, b)| == |b|;
  }
}
