/** Audio that is read while the transcription connection is still being made: a bounded linked
    queue, the catch-up sender and the live loop. */
module AsrBacklog {
  import opened Bytes

  const PCM_CHUNK: nat := 3200
  const MAX_NODES: nat := 100
  const WAIT_ROUNDS: nat := 120
  const EIO: int := -5
  const ECONNREFUSED: int := -111

  // ---- the queue as a value ------------------------------------------------

  function Newest(s: seq<Bytes>): (r: seq<Bytes>)
    ensures |r| <= MAX_NODES
  {
    if |s| > MAX_NODES then s[|s| - MAX_NODES..] else s
  }

  predicate Storable(b: Bytes) {
    0 < |b| <= PCM_CHUNK
  }

  function Pushed(q: seq<Bytes>, b: Bytes): seq<Bytes> {
    if !Storable(b) then q
    else if |q| + 1 > MAX_NODES then (q + [b])[1..]
    else q + [b]
  }

  lemma PushKeepsNewest(s: seq<Bytes>, b: Bytes)
    requires Storable(b)
    ensures Pushed(Newest(s), b) == Newest(s + [b])
  {
    if |s| >= MAX_NODES {
      assert (Newest(s) + [b])[1..] == (s + [b])[|s| + 1 - MAX_NODES..];
    }
  }

  // ---- recorder and link ---------------------------------------------------

  /** What read `i` brings, at most one chunk; nothing when the script is over. */
  function ReadAt(script: seq<Bytes>, i: nat): (b: Bytes)
    ensures |b| <= 3200
  {
    if i >= |script| then [] else if |script[i]| > PCM_CHUNK then script[i][..PCM_CHUNK] else script[i]
  }

  /** The blocks that reads `from` to `to` bring, without the empty ones. */
  function Heard(script: seq<Bytes>, from: nat, until: nat): seq<Bytes>
    requires from <= until
    decreases until - from
  {
    if from == until then []
    else Heard(script, from, until - 1) + (if ReadAt(script, until - 1) == [] then [] else [ReadAt(script, until - 1)])
  }

  lemma HeardMore(script: seq<Bytes>, from: nat, at: nat)
    requires from <= at
    ensures Heard(script, from, from) == []
    ensures Heard(script, from, at + 1)
      == if ReadAt(script, at) == [] then Heard(script, from, at) else Heard(script, from, at) + [ReadAt(script, at)]
  {}

  lemma {:induction false} HeardAppend(script: seq<Bytes>, a: nat, b: nat, c: nat)
    requires a <= b <= c
    ensures Heard(script, a, c) == Heard(script, a, b) + Heard(script, b, c)
    decreases c - b
  {
    hide ReadAt;
    if b < c {
      HeardAppend(script, a, b, c - 1);
      Associate(Heard(script, a, b), Heard(script, b, c - 1),
                if ReadAt(script, c - 1) == [] then [] else [ReadAt(script, c - 1)]);
    } else {
      assert Heard(script, a, b) + [] == Heard(script, a, b);
    }
  }

  /** The recorder: `at` reads have been made, `heard` is all they brought. */
  class Recorder {
    const script: seq<Bytes>
    var at: nat
    ghost var heard: seq<Bytes>

    constructor (script: seq<Bytes>)
      ensures heard == [] && at == 0 && this.script == script
    {
      this.script, at, heard := script, 0, [];
    }

    method Read() returns (b: Bytes)
      modifies this
      ensures b == ReadAt(script, old(at)) && at == old(at) + 1
      ensures b == [] || Storable(b)
      ensures heard == if b == [] then old(heard) else old(heard) + [b]
    {
      b := ReadAt(script, at);
      at := at + 1;
      if b != [] {
        heard := heard + [b];
      }
    }
  }

  predicate Works(fates: seq<bool>, i: nat) {
    i >= |fates| || fates[i]
  }

  /** The sends from `from` on all went through, but for the last if that is said to have failed. */
  predicate Worked(fates: seq<bool>, from: nat, until: nat, failed: bool) {
    && from <= until && (failed ==> from < until && !Works(fates, until - 1))
    && forall k :: from <= k < (if failed then until - 1 else until) ==> Works(fates, k)
  }

  /** One more send. */
  lemma SendsMore(fates: seq<bool>, from: nat, at: nat)
    ensures Worked(fates, from, from, false)
    ensures Worked(fates, from, at, false) ==> Worked(fates, from, at + 1, !Works(fates, at))
  {}

  lemma SendsAppend(fates: seq<bool>, a: nat, b: nat, c: nat, failed: bool)
    requires Worked(fates, a, b, false) && Worked(fates, b, c, failed)
    ensures Worked(fates, a, c, failed)
  {}

  /** The binary messages that reached the connection; `tries` sends have been made. */
  class Link {
    const fates: seq<bool>
    var tries: nat
    ghost var sent: seq<Bytes>

    constructor (fates: seq<bool>)
      ensures sent == [] && tries == 0 && this.fates == fates
    {
      this.fates, tries, sent := fates, 0, [];
    }

    method SendBinary(b: Bytes) returns (ret: int)
      modifies this
      ensures ret == (if Works(fates, old(tries)) then 0 else EIO) && tries == old(tries) + 1
      ensures sent == if ret == 0 then old(sent) + [b] else old(sent)
    {
      tries := tries + 1;
      if !Works(fates, tries - 1) {
        return EIO;
      }
      sent := sent + [b];
      return 0;
    }
  }

  // ---- the linked list -----------------------------------------------------

  class Node {
    var next: Node?
    const data: Bytes

    constructor (data: Bytes)
      ensures next == null && this.data == data
    {
      this.data, next := data, null;
    }
  }

  class Backlog {
    var head: Node?
    var tail: Node?
    ghost var nodes: seq<Node>
    ghost var repr: set<Node>
    ghost var contents: seq<Bytes>

    ghost function At(i: nat): Node?
      reads this
    {
      if i < |nodes| then nodes[i] else null
    }

    ghost predicate Linked()
      reads this, repr
    {
      && (forall i, j :: 0 <= i < j < |nodes| ==> nodes[i] != nodes[j])
      && (forall i :: 0 <= i < |nodes| ==> nodes[i] in repr)
      && (forall i :: 0 <= i < |nodes| - 1 ==> nodes[i].next == nodes[i + 1])
      && (nodes != [] ==> nodes[|nodes| - 1].next == null)
      && head == At(0)
      && |contents| == |nodes|
      && (forall i :: 0 <= i < |nodes| ==> nodes[i].data == contents[i])
    }

    /** `head` is null exactly when `tail` is. */
    ghost predicate Ends()
      reads this
    {
      if nodes == [] then head == null && tail == null else tail == nodes[|nodes| - 1]
    }

    ghost predicate Valid()
      reads this, repr
    {
      && Linked() && Ends() && |nodes| <= MAX_NODES
      && forall b | b in contents :: Storable(b)
    }

    constructor ()
      ensures Valid() && contents == [] && repr == {}
    {
      head, tail, nodes, repr, contents := null, null, [], {}, [];
    }

    method Count() returns (count: nat)
      requires Linked()
      ensures count == |nodes|
    {
      count := 0;
      var p := head;
      while p != null
        invariant count <= |nodes|
        invariant p == At(count)
        decreases |nodes| - count
      {
        count := count + 1;
        p := p.next;
      }
    }

    method Append(node: Node)
      requires Linked() && Ends() && node !in nodes && node.next == null
      modifies this, repr
      ensures Linked() && Ends()
      ensures nodes == old(nodes) + [node] && repr == old(repr) + {node}
      ensures contents == old(contents) + [node.data]
    {
      if tail != null {
        tail.next := node;
      } else {
        head := node;
      }
      tail := node;
      nodes := nodes + [node];
      repr := repr + {node};
      contents := contents + [node.data];
    }

    method Unlink()
      requires Linked() && head != null
      modifies this`head, this`nodes, this`contents
      ensures Linked()
      ensures nodes == old(nodes)[1..] && contents == old(contents)[1..]
    {
      head := head.next;
      nodes := nodes[1..];
      contents := contents[1..];
    }

    method Push(pcm: Bytes)
      requires Valid()
      modifies this, repr
      ensures Valid()
      ensures contents == Pushed(old(contents), pcm)
      ensures contents == if |pcm| == 0 || |pcm| > 3200 then old(contents)
        else if |old(contents)| < 100 then old(contents) + [pcm]
        else old(contents)[1..] + [pcm]
      ensures fresh(repr - old(repr))
    {
      if |pcm| == 0 || |pcm| > PCM_CHUNK {
        return;
      }
      var node := new Node(pcm);
      Append(node);
      assert nodes == old(nodes) + [node];
      var count := Count();
      if count > MAX_NODES {
        Unlink();
      }
    }

    /** Frees the whole list; the caller still has to clear its tail. */
    method Free()
      requires Linked()
      modifies this`head, this`nodes, this`contents
      ensures Linked() && head == null && contents == [] && nodes == []
    {
      while head != null
        invariant Linked()
        decreases |nodes|
      {
        Unlink();
      }
    }

    /** Takes the first block off the queue. */
    method Pop()
      requires Valid() && head != null
      modifies this`head, this`tail, this`nodes, this`contents
      ensures Valid()
      ensures contents == old(contents)[1..]
    {
      hide Storable;
      Unlink();
      if head == null { tail := null; }
    }

    lemma Front()
      requires Valid()
      ensures |contents| <= MAX_NODES
      ensures if head == null then contents == [] && tail == null else contents != [] && head.data == contents[0]
    {}

    /** One block in, unless nothing is there; a queue below its limit drops nothing. */
    method Refill(rec: Recorder) returns (ghost got: seq<Bytes>)
      requires Valid() && |contents| < MAX_NODES
      modifies this, repr, rec
      ensures Valid() && fresh(repr - old(repr))
      ensures |got| <= 1 && contents == old(contents) + got && rec.heard == old(rec.heard) + got
      ensures rec.at == old(rec.at) + 1 && got == Heard(rec.script, old(rec.at), rec.at)
    {
      hide Linked, Ends, Heard, ReadAt, Pushed;
      HeardMore(rec.script, rec.at, rec.at);
      var pcm := rec.Read();
      got := [];
      if pcm != [] {
        got := [pcm];
        Push(pcm);
      }
    }

    /** Sends the first block and unlinks it; a failed send frees the queue. */
    method SendFirst(link: Link) returns (ret: int)
      requires Valid() && head != null
      modifies this`head, this`tail, this`nodes, this`contents, link
      ensures Valid() && old(contents) != []
      ensures ret == (if Works(link.fates, old(link.tries)) then 0 else EIO) && link.tries == old(link.tries) + 1
      ensures if ret == 0 then contents == old(contents)[1..] && link.sent == old(link.sent) + [old(contents)[0]]
        else contents == [] && head == null && tail == null && link.sent == old(link.sent)
    {
      hide Linked, Ends, Storable;
      Front();
      ret := link.SendBinary(head.data);
      if ret != 0 {
        Free();
        tail := null;
        Emptied();
        return;
      }
      Pop();
    }

    /** One send, and after every second one a read. */
    method Turn(link: Link, rec: Recorder, sinceRead: int) returns (ret: int, since: int, ghost got: seq<Bytes>)
      requires Valid() && head != null && 0 <= sinceRead <= 1
      modifies this, repr, link, rec
      ensures Valid() && fresh(repr - old(repr)) && old(contents) != []
      ensures ret == (if Works(link.fates, old(link.tries)) then 0 else EIO) && link.tries == old(link.tries) + 1
      ensures ret != 0 ==>
        contents == [] && head == null && tail == null && link.sent == old(link.sent)
        && rec.at == old(rec.at) && rec.heard == old(rec.heard)
      ensures ret == 0 ==>
        && contents == old(contents)[1..] + got && link.sent == old(link.sent) + [old(contents)[0]]
        && since == 1 - sinceRead && rec.at == old(rec.at) + sinceRead && |got| <= sinceRead
        && got == Heard(rec.script, old(rec.at), rec.at) && rec.heard == old(rec.heard) + got
    {
      hide Linked, Ends, Storable, Heard, Works;
      Front();
      HeardMore(rec.script, rec.at, rec.at);
      ret := SendFirst(link);
      got, since := [], sinceRead + 1;
      if ret == 0 {
        assert contents + [] == contents && rec.heard + [] == rec.heard;
        if since >= 2 {
          since := 0;
          got := Refill(rec);
        }
      }
    }

    /** Two blocks out, one block in. Nothing is dropped, the order is that of reading, every second
        send is followed by one read, and the queue of `n` blocks empties after at most `2n - 1`
        sends. It fails exactly when a send does. */
    method CatchUp(link: Link, rec: Recorder) returns (ret: int)
      requires Valid()
      modifies this, repr, link, rec
      ensures Valid() && fresh(repr - old(repr)) && head == null && tail == null
      ensures ret == 0 || ret == EIO
      ensures Worked(link.fates, old(link.tries), link.tries, ret != 0)
      ensures old(rec.at) <= rec.at && rec.heard == old(rec.heard) + Heard(rec.script, old(rec.at), rec.at)
      ensures var sends := |link.sent| - |old(link.sent)|; rec.at - old(rec.at) == sends / 2
      ensures var due := old(contents) + Heard(rec.script, old(rec.at), rec.at);
        if ret == 0 then link.sent == old(link.sent) + due
        else old(link.sent) <= link.sent < old(link.sent) + due
      ensures var n := |old(contents)|; var sends := |link.sent| - |old(link.sent)|;
        sends <= 2 * n && (n > 0 ==> sends < 2 * n)
    {
      hide Linked, Ends, Storable, Heard, Works, Worked;
      SendsMore(link.fates, link.tries, link.tries);
      HeardMore(rec.script, rec.at, rec.at);
      ghost var sent0, heard0, q0, at0 := link.sent, rec.heard, contents, rec.at;
      ghost var more: seq<Bytes> := [];
      var sinceRead := 0;
      Front();
      assert q0 + [] == q0 && heard0 + [] == heard0;
      while head != null
        invariant Valid() && (head == null <==> contents == [])
        invariant fresh(repr - old(repr))
        invariant rec.heard == heard0 + more && at0 <= rec.at && more == Heard(rec.script, at0, rec.at)
        invariant 2 * (rec.at - at0) + sinceRead == |link.sent| - |sent0|
        invariant Worked(link.fates, old(link.tries), link.tries, false)
        invariant link.sent + contents == sent0 + (q0 + more) && |sent0| <= |link.sent|
        invariant 0 <= sinceRead <= 1
        invariant |link.sent| - |sent0| + 2 * |contents| + sinceRead <= 2 * |q0|
        invariant contents == [] && sinceRead == 0 && q0 != [] ==> |link.sent| - |sent0| < 2 * |q0|
        decreases 2 * |contents| + sinceRead
      {
        ghost var q, s, got, at := contents, link.sent, [], rec.at;
        SendsMore(link.fates, old(link.tries), link.tries);
        ret, sinceRead, got := Turn(link, rec, sinceRead);
        if ret != 0 {
          Unsent(s, q, sent0, q0 + more);
          return;
        }
        Shift(s, q);
        Grow(link.sent, q[1..], sent0, q0, more, got);
        Associate(heard0, more, got);
        HeardAppend(rec.script, at0, at, rec.at);
        more := more + got;
        Front();
      }
      Front();
      assert link.sent + [] == link.sent;
      return 0;
    }

    lemma Emptied()
      requires head == null && tail == null && contents == [] && nodes == []
      ensures Valid()
    {}
  }

  lemma Shift(sent: seq<Bytes>, q: seq<Bytes>)
    requires q != []
    ensures (sent + [q[0]]) + q[1..] == sent + q
  {}

  lemma Grow(sent: seq<Bytes>, q: seq<Bytes>, sent0: seq<Bytes>, q0: seq<Bytes>, more: seq<Bytes>, got: seq<Bytes>)
    requires sent + q == sent0 + (q0 + more)
    ensures sent + (q + got) == sent0 + (q0 + (more + got))
  {
    assert sent + (q + got) == (sent + q) + got;
    assert sent0 + (q0 + (more + got)) == (sent0 + (q0 + more)) + got;
  }

  lemma Unsent(s: seq<Bytes>, q: seq<Bytes>, sent0: seq<Bytes>, due: seq<Bytes>)
    requires s + q == sent0 + due && |sent0| <= |s| && q != []
    ensures sent0 <= s < sent0 + due
  {
    assert s <= s + q;
    assert forall i :: 0 <= i < |sent0| ==> sent0[i] == (s + q)[i];
  }

  // ---- the three phases ----------------------------------------------------

  /** What one round of a loop sees of the flags other threads set. */
  datatype Poll = Poll(stop: bool, paused: bool, warm: bool, connecting: bool)

  function Seen(polls: seq<Poll>, i: nat): Poll {
    if i < |polls| then polls[i] else Poll(false, false, false, true)
  }

  /** How many of the first `n` rounds are not paused; each of these makes one read. */
  function Reads(polls: seq<Poll>, n: nat): nat {
    if n == 0 then 0 else Reads(polls, n - 1) + (if Seen(polls, n - 1).paused then 0 else 1)
  }

  lemma ReadsMore(polls: seq<Poll>, n: nat)
    ensures Reads(polls, 0) == 0
    ensures Reads(polls, n + 1) == Reads(polls, n) + (if Seen(polls, n).paused then 0 else 1)
  {}

  /** The wait has come to round `n` and goes no further. */
  predicate WaitEnds(polls: seq<Poll>, n: nat) {
    n == 120 || Seen(polls, n).stop || (n > 0 && (Seen(polls, n - 1).warm || !Seen(polls, n - 1).connecting))
  }

  /** The wait takes so many rounds: none if a connection is there or none is being made. */
  ghost predicate Waits(now: Poll, polls: seq<Poll>, rounds: nat) {
    if now.warm || !now.connecting then rounds == 0
    else rounds <= 120 && WaitEnds(polls, rounds) && forall n :: 0 <= n < rounds ==> !WaitEnds(polls, n)
  }

  /** A connection made in time is taken; after a stop there is none; otherwise a cold one is
      tried. */
  predicate Connects(now: Poll, polls: seq<Poll>, rounds: nat, stopped: bool, cold: bool) {
    if now.warm then true
    else if !now.connecting then cold
    else if rounds > 0 && Seen(polls, rounds - 1).warm then true
    else if rounds < 120 && (rounds == 0 || Seen(polls, rounds - 1).connecting) then false
    else !stopped && cold
  }

  lemma NothingNew()
    ensures Newest([]) == []
  {}

  lemma WaitGoesOn(polls: seq<Poll>, n: nat)
    requires n < 120 && !Seen(polls, n).stop
    requires n > 0 ==> !Seen(polls, n - 1).warm && Seen(polls, n - 1).connecting
    ensures !WaitEnds(polls, n)
  {}

  /** One round of the wait: one read unless paused, and the block into the queue. */
  method WaitRound(q: Backlog, rec: Recorder, paused: bool, ghost from: nat, ghost more: seq<Bytes>)
    returns (ghost now: seq<Bytes>)
    requires q.Valid() && q.contents == Newest(more)
    requires from <= rec.at && more == Heard(rec.script, from, rec.at)
    modifies q, q.repr, rec
    ensures q.Valid() && fresh(q.repr - old(q.repr)) && q.contents == Newest(now)
    ensures rec.at == old(rec.at) + (if paused then 0 else 1) && now == Heard(rec.script, from, rec.at)
    ensures more <= now && |now| <= |more| + 1 && rec.heard == old(rec.heard) + now[|more|..]
  {
    hide Newest, Heard, ReadAt, Pushed;
    now := more;
    assert rec.heard + [] == rec.heard && more[|more|..] == [];
    if !paused {
      var pcm := rec.Read();
      HeardMore(rec.script, from, rec.at - 1);
      if pcm != [] {
        q.Push(pcm);
        PushKeepsNewest(more, pcm);
        now := more + [pcm];
        assert now[|more|..] == [pcm];
      }
    }
  }

  /** Waiting for the connection: for at most twelve seconds, while the connection is being made
      and nobody stops, each round that is not paused reads once; the queue ends up holding the
      newest blocks read. Stopped, it gives up; otherwise a connection that is not there in time is
      replaced by a cold one, which succeeds, with its one retry, if `cold` says so. */
  method ConnectWait(q: Backlog, rec: Recorder, now: Poll, polls: seq<Poll>, stopped: bool, cold: bool)
    returns (connected: bool, ghost more: seq<Bytes>, ghost rounds: nat)
    requires q.Valid() && q.contents == []
    modifies q, q.repr, rec
    ensures q.Valid() && fresh(q.repr - old(q.repr))
    ensures rec.at == old(rec.at) + Reads(polls, rounds) && more == Heard(rec.script, old(rec.at), rec.at)
    ensures rec.heard == old(rec.heard) + more && |more| <= 120
    ensures q.contents == Newest(more)
    ensures Waits(now, polls, rounds) && connected == Connects(now, polls, rounds, stopped, cold)
  {
    hide Heard, Reads, Seen, Newest;
    NothingNew();
    more, rounds := [], 0;
    assert rec.heard + [] == rec.heard;
    HeardMore(rec.script, rec.at, rec.at);
    ReadsMore(polls, 0);
    if now.warm {
      return true, [], 0;
    }
    if now.connecting {
      var waited := 0;
      while waited < WAIT_ROUNDS && !Seen(polls, waited).stop
        invariant 0 <= waited <= WAIT_ROUNDS && |more| <= waited && rounds == waited
        invariant q.Valid() && fresh(q.repr - old(q.repr))
        invariant rec.at == old(rec.at) + Reads(polls, waited) && more == Heard(rec.script, old(rec.at), rec.at)
        invariant rec.heard == old(rec.heard) + more && q.contents == Newest(more)
        invariant forall n :: 0 <= n < waited ==> !WaitEnds(polls, n)
        invariant waited > 0 ==> !Seen(polls, waited - 1).warm && Seen(polls, waited - 1).connecting
      {
        var poll := Seen(polls, waited);
        ghost var was := more;
        ReadsMore(polls, waited);
        WaitGoesOn(polls, waited);
        more := WaitRound(q, rec, poll.paused, old(rec.at), more);
        assert was + more[|was|..] == more;
        Associate(old(rec.heard), was, more[|was|..]);
        rounds := rounds + 1;
        if poll.warm {
          return true, more, rounds;
        }
        if !poll.connecting {
          break;
        }
        waited := waited + 1;
      }
      if stopped || (waited < WAIT_ROUNDS && Seen(polls, waited).stop) {
        return false, more, rounds;
      }
    }
    return cold, more, rounds;
  }

  /** Fifty-one reads in a row, up to read `until`, have brought nothing. */
  predicate Silent(script: seq<Bytes>, from: nat, until: nat) {
    until >= from + 51 && forall k :: until - 51 <= k < until ==> ReadAt(script, k) == []
  }

  /** The last `silent` reads, and no more, have brought nothing, and the limit has not been
      reached. */
  predicate Quiet(script: seq<Bytes>, from: nat, at: nat, silent: nat) {
    && silent <= 50 && from + silent <= at
    && (forall k :: at - silent <= k < at ==> ReadAt(script, k) == [])
    && (from + silent < at ==> ReadAt(script, at - silent - 1) != [])
    && (forall m :: from <= m <= at ==> !Silent(script, from, m))
  }

  lemma QuietStep(script: seq<Bytes>, from: nat, at: nat, silent: nat)
    requires Quiet(script, from, at, silent)
    ensures if ReadAt(script, at) != [] then Quiet(script, from, at + 1, 0)
      else if silent < 50 then Quiet(script, from, at + 1, silent + 1)
      else Silent(script, from, at + 1)
  {
    hide ReadAt;
    if ReadAt(script, at) != [] || silent < 50 {
      assert !Silent(script, from, at + 1) by {
        if ReadAt(script, at) == [] && at + 1 >= from + 51 {
          assert at + 1 - 51 <= at - silent - 1;
        }
      }
    }
  }

  lemma QuietStart(script: seq<Bytes>, from: nat)
    ensures Quiet(script, from, from, 0)
  {}

  lemma QuietSays(script: seq<Bytes>, from: nat, at: nat, silent: nat)
    requires Quiet(script, from, at, silent)
    ensures silent <= 50 && forall m :: from <= m <= at ==> !Silent(script, from, m)
  {}

  /** One read of the live loop, and the block out. */
  method LiveRound(link: Link, rec: Recorder, silent: nat, ghost from: nat)
    returns (ret: int, now: nat, ghost got: seq<Bytes>)
    requires from <= rec.at && Quiet(rec.script, from, rec.at, silent)
    modifies link, rec
    ensures rec.at == old(rec.at) + 1 && rec.heard == old(rec.heard) + got
    ensures Heard(rec.script, from, rec.at) == Heard(rec.script, from, old(rec.at)) + got
    ensures link.tries == old(link.tries) + (if got == [] then 0 else 1)
    ensures ret == (if got == [] || Works(link.fates, old(link.tries)) then 0 else EIO)
    ensures link.sent == old(link.sent) + (if ret == 0 then got else []) && |got| <= 1
    ensures ret == 0 ==> if now > 50 then Silent(rec.script, from, rec.at) else Quiet(rec.script, from, rec.at, now)
  {
    hide Heard, ReadAt, Quiet, Silent, Works;
    HeardMore(rec.script, from, rec.at);
    QuietStep(rec.script, from, rec.at, silent);
    QuietSays(rec.script, from, rec.at, silent);
    var pcm := rec.Read();
    got, now, ret := [], silent + 1, 0;
    assert rec.heard + [] == rec.heard && link.sent + [] == link.sent;
    if pcm != [] {
      got, now := [pcm], 0;
      ret := link.SendBinary(pcm);
      assert link.sent + [] == link.sent;
    }
  }

  /** The live loop sends every block it reads. Each round that is not paused reads once; the loop
      ends with the stop flag, with the rounds, with five silent seconds or with a failed send, and
      with nothing else. */
  method SendLive(link: Link, rec: Recorder, polls: seq<Poll>)
    returns (ret: int, ghost more: seq<Bytes>, ghost rounds: nat)
    modifies link, rec
    ensures ret == 0 || ret == EIO
    ensures Worked(link.fates, old(link.tries), link.tries, ret != 0)
    ensures rounds <= |polls| && forall n :: 0 <= n < rounds ==> !polls[n].stop
    ensures rec.at == old(rec.at) + Reads(polls, rounds) && more == Heard(rec.script, old(rec.at), rec.at)
    ensures forall m :: old(rec.at) <= m < rec.at ==> !Silent(rec.script, old(rec.at), m)
    ensures ret == 0 ==>
      rounds == |polls| || polls[rounds].stop || Silent(rec.script, old(rec.at), rec.at)
    ensures rec.heard == old(rec.heard) + more
    ensures if ret == 0 then link.sent == old(link.sent) + more
      else more != [] && link.sent == old(link.sent) + more[..|more| - 1]
  {
    hide Heard, Reads, ReadAt, Quiet, Silent, Works, Worked;
    SendsMore(link.fates, link.tries, link.tries);
    more, rounds := [], 0;
    assert rec.heard + [] == rec.heard && link.sent + [] == link.sent;
    ghost var from, tries := rec.at, link.tries;
    HeardMore(rec.script, from, from);
    ReadsMore(polls, 0);
    QuietStart(rec.script, from);
    var silent: nat, i := 0, 0;
    while i < |polls| && !polls[i].stop
      invariant 0 <= i <= |polls| && rounds == i && (forall n :: 0 <= n < i ==> !polls[n].stop)
      invariant rec.at == from + Reads(polls, i) && more == Heard(rec.script, from, rec.at)
      invariant from <= rec.at && Quiet(rec.script, from, rec.at, silent)
      invariant Worked(link.fates, tries, link.tries, false)
      invariant rec.heard == old(rec.heard) + more && link.sent == old(link.sent) + more
    {
      ReadsMore(polls, i);
      QuietSays(rec.script, from, rec.at, silent);
      i, rounds := i + 1, rounds + 1;
      if polls[i - 1].paused {
        continue;
      }
      ghost var was, got := more, [];
      SendsMore(link.fates, tries, link.tries);
      ret, silent, got := LiveRound(link, rec, silent, from);
      Associate(old(rec.heard), was, got);
      Associate(old(link.sent), was, got);
      more := was + got;
      if ret != 0 {
        assert more[..|more| - 1] == was && link.sent + [] == link.sent;
        return;
      }
      if silent > 50 {
        return 0, more, rounds;
      }
    }
    QuietSays(rec.script, from, rec.at, silent);
    return 0, more, rounds;
  }

  /** What the service is owed of the blocks `more`, the first `waited` of which were read
      while waiting. */
  function Owed(more: seq<Bytes>, waited: nat): seq<Bytes>
    requires waited <= |more|
  {
    Newest(more[..waited]) + more[waited..]
  }

  /** Only a prefix of the waiting phase is ever lost, at most its first two seconds. */
  lemma OnlyAPrefixIsLost(more: seq<Bytes>, waited: nat)
    requires waited <= |more| && waited <= WAIT_ROUNDS
    ensures var lost := if waited > 100 then waited - 100 else 0;
      lost <= 20 && Owed(more, waited) == more[lost..]
  {
    var lost := if waited > MAX_NODES then waited - MAX_NODES else 0;
    assert Newest(more[..waited]) == more[lost..waited];
    assert more[lost..] == more[lost..waited] + more[waited..];
  }

  /** What is known of a live phase that began at read `from` and ended with success. */
  ghost predicate LiveEnded(script: seq<Bytes>, from: nat, until: nat, polls: seq<Poll>, rounds: nat) {
    && rounds <= |polls| && (forall n :: 0 <= n < rounds ==> !polls[n].stop)
    && until == from + Reads(polls, rounds)
    && (forall m :: from <= m < until ==> !Silent(script, from, m))
    && (rounds == |polls| || polls[rounds].stop || Silent(script, from, until))
  }

  /** The whole transcription: every block read is sent once and in order, except a prefix of
      those read while waiting; a failure leaves a prefix of that sent. With success the live
      phase, from read `from` on, has not ended before it had to. */
  method TranscribeStream(link: Link, rec: Recorder, now: Poll, waiting: seq<Poll>, stopped: bool, cold: bool,
                          handshake: bool, live: seq<Poll>)
    returns (ret: int, ghost more: seq<Bytes>, ghost waited: nat, ghost wait: nat, ghost from: nat, ghost rounds: nat)
    modifies link, rec
    ensures old(rec.at) <= rec.at && more == Heard(rec.script, old(rec.at), rec.at)
    ensures rec.heard == old(rec.heard) + more && waited <= |more| && waited <= WAIT_ROUNDS
    ensures ret == 0 ==> link.sent == old(link.sent) + Owed(more, waited)
    ensures ret != 0 ==> old(link.sent) <= link.sent <= old(link.sent) + Owed(more, waited)
    ensures ret == 0 ==> old(rec.at) <= from && LiveEnded(rec.script, from, rec.at, live, rounds)
    ensures Waits(now, waiting, wait)
    ensures if !Connects(now, waiting, wait, stopped, cold) then ret == ECONNREFUSED
      else if !handshake then ret == EIO
      else Worked(link.fates, old(link.tries), link.tries, ret != 0) && (ret != 0 ==> ret == EIO)
  {
    hide Newest, Heard, Reads, Silent, Works, Worked, Waits, Connects, WaitEnds, Seen;
    ghost var sent0, at0, tries0 := link.sent, rec.at, link.tries;
    SendsMore(link.fates, tries0, tries0);
    var q := new Backlog();
    from, rounds := rec.at, 0;
    var connected;
    connected, more, wait := ConnectWait(q, rec, now, waiting, stopped, cold);
    waited := |more|;
    ghost var first := q.contents;
    assert more[..waited] == more && more[waited..] == [];
    assert Owed(more, waited) == first;
    if !connected {
      q.Free();
      return ECONNREFUSED, more, waited, wait, from, rounds;
    }
    if !handshake {
      q.Free();
      return EIO, more, waited, wait, from, rounds;
    }
    if q.head != null {
      ghost var at := rec.at;
      ret := q.CatchUp(link, rec);
      ghost var late := Heard(rec.script, at, rec.at);
      HeardAppend(rec.script, at0, at, rec.at);
      Associate(old(rec.heard), more, late);
      OwedGrows(more, waited, late);
      more := more + late;
      if ret != 0 {
        return ret, more, waited, wait, from, rounds;
      }
    } else {
      q.Front();
      assert sent0 + first == sent0;
    }
    from := rec.at;
    ghost var tail, tries := [], link.tries;
    ret, tail, rounds := SendLive(link, rec, live);
    SendsAppend(link.fates, tries0, tries, link.tries, ret != 0);
    HeardAppend(rec.script, at0, from, rec.at);
    Associate(old(rec.heard), more, tail);
    OwedGrows(more, waited, tail);
    Chain(sent0, Owed(more, waited), tail);
    more := more + tail;
  }

  // ---- nothing goes unread ---------------------------------------------------

  lemma {:induction false} NothingBeyond(script: seq<Bytes>, from: nat, until: nat)
    requires from <= |script| <= until
    ensures Heard(script, from, until) == Heard(script, from, |script|)
    decreases until
  {
    if until > |script| {
      NothingBeyond(script, from, until - 1);
    }
  }

  /** A feed of blocks of at most 3200 bytes is heard block by block, as it is. */
  lemma {:induction false} FeedIsHeard(script: seq<Bytes>, from: nat, until: nat)
    requires from <= until <= |script|
    requires forall i :: from <= i < until ==> 0 < |script[i]| <= 3200
    ensures Heard(script, from, until) == script[from..until]
    decreases until
  {
    if from < until {
      FeedIsHeard(script, from, until - 1);
      assert script[from..until] == script[from..until - 1] + [script[until - 1]];
    }
  }

  /** If nobody stops, the rounds suffice, and of any 51 reads in a row one brings something, then
      a transcription that began at read `start` and went live at read `from` has read all the
      recorder has. */
  lemma EverythingIsHeard(script: seq<Bytes>, start: nat, from: nat, until: nat, polls: seq<Poll>, rounds: nat)
    requires start <= from && start <= |script| && LiveEnded(script, from, until, polls, rounds)
    requires (forall n :: 0 <= n < |polls| ==> !polls[n].stop) && from + Reads(polls, |polls|) >= |script|
    requires forall k :: from <= k && k + 51 <= |script| && script[k] == [] ==>
      exists i :: k < i < k + 51 && script[i] != []
    ensures Heard(script, start, until) == Heard(script, start, |script|)
    ensures (forall i :: start <= i < |script| ==> 0 < |script[i]| <= 3200) ==>
              Heard(script, start, until) == script[start..]
  {
    hide Heard, Reads;
    forall m | from <= m <= |script| ensures !Silent(script, from, m) {
      if m >= from + 51 {
        var k := m - 51;
        var i := k;
        if script[k] == [] {
          i :| k < i < k + 51 && script[i] != [];
        }
        assert |ReadAt(script, i)| > 0;
      }
    }
    NothingBeyond(script, start, until);
    if forall i :: start <= i < |script| ==> 0 < |script[i]| <= 3200 {
      FeedIsHeard(script, start, |script|);
    }
  }

  lemma OwedGrows(more: seq<Bytes>, waited: nat, late: seq<Bytes>)
    requires waited <= |more|
    ensures Owed(more + late, waited) == Owed(more, waited) + late
  {
    hide Newest;
    assert (more + late)[..waited] == more[..waited];
    assert (more + late)[waited..] == more[waited..] + late;
  }

  lemma Chain(sent0: seq<Bytes>, owed: seq<Bytes>, tail: seq<Bytes>)
    ensures (sent0 + owed) + tail == sent0 + (owed + tail)
    ensures tail != [] ==> sent0 <= (sent0 + owed) + tail[..|tail| - 1] <= sent0 + (owed + tail)
  {}
}
