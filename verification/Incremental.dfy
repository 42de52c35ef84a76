/** Parsing a byte stream that arrives in pieces.

    A parser is given by what it does at the front of its buffer: wait for more bytes, or
    take some bytes and hand out what they held. The UART reader in Python and the SPI
    reader in C are both of this kind. */
module Incremental {
  import opened Bytes

  datatype Move<T> = Wait | Take(n: nat, out: seq<T>)

  ghost predicate Settled<T(!new)>(step: Bytes -> Move<T>, s: Bytes, t: Bytes) {
    step(s).Take? ==> step(s + t) == step(s)
  }

  /** A decision always makes progress and, once made, needs no later bytes. */
  ghost predicate Steady<T(!new)>(step: Bytes -> Move<T>) {
    && step([]).Wait?
    && (forall s :: step(s).Take? ==> 1 <= step(s).n <= |s|)
    && (forall s, t :: Settled(step, s, t))
  }

  /** What comes out of a buffer, and the bytes left in it. */
  function Parse<T>(step: Bytes -> Move<T>, s: Bytes): (r: (seq<T>, Bytes))
    ensures |r.1| <= |s|
    decreases |s|
  {
    match step(s)
    case Wait => ([], s)
    case Take(n, out) =>
      if 1 <= n <= |s| then
        var r := Parse(step, s[n..]);
        (out + r.0, r.1)
      else ([], s)
  }

  /** The leftover carried from one read to the next. */
  function Feed<T>(step: Bytes -> Move<T>, left: Bytes, chunks: seq<Bytes>): (seq<T>, Bytes)
    decreases |chunks|
  {
    if chunks == [] then ([], left)
    else
      var r := Parse(step, left + chunks[0]);
      var q := Feed(step, r.1, chunks[1..]);
      (r.0 + q.0, q.1)
  }

  lemma {:induction false} ParseSplit<T(!new)>(step: Bytes -> Move<T>, a: Bytes, b: Bytes)
    requires Steady(step)
    ensures var r := Parse(step, a); var q := Parse(step, r.1 + b);
      Parse(step, a + b) == (r.0 + q.0, q.1)
    decreases |a|
  {
    var r := Parse(step, a);
    var q := Parse(step, r.1 + b);
    if step(a).Wait? {
      assert [] + q.0 == q.0;
    } else {
      var n, out := step(a).n, step(a).out;
      var rest := Parse(step, a[n..]);
      assert Settled(step, a, b);
      assert (a + b)[n..] == a[n..] + b;
      ParseSplit(step, a[n..], b);
      assert r.0 == out + rest.0;
      Associate(out, rest.0, q.0);
    }
  }

  lemma {:induction false} LeftoverWaits<T(!new)>(step: Bytes -> Move<T>, s: Bytes)
    requires Steady(step)
    ensures step(Parse(step, s).1).Wait?
    decreases |s|
  {
    if step(s).Take? {
      LeftoverWaits(step, s[step(s).n..]);
    }
  }

  /** However the stream is cut up, the items and the final leftover are those of the whole
      stream parsed at once. */
  lemma {:induction false} ChunkingIsInvisible<T(!new)>(step: Bytes -> Move<T>, left: Bytes, chunks: seq<Bytes>)
    requires Steady(step)
    requires step(left).Wait?
    ensures Feed(step, left, chunks) == Parse(step, left + Flatten(chunks))
    decreases |chunks|
  {
    if chunks == [] {
      assert left + [] == left;
    } else {
      var first, tail := left + chunks[0], Flatten(chunks[1..]);
      LeftoverWaits(step, first);
      ChunkingIsInvisible(step, Parse(step, first).1, chunks[1..]);
      ParseSplit(step, first, tail);
      Associate(left, chunks[0], tail);
    }
  }

  // ---- a loop that walks a buffer ------------------------------------------

  /** The loop has handed out `done` and stands at `i`; the rest of the parse is ahead. */
  ghost predicate Reached<T>(step: Bytes -> Move<T>, buf: Bytes, i: nat, done: seq<T>) {
    && i <= |buf|
    && Parse(step, buf) == (done + Parse(step, buf[i..]).0, Parse(step, buf[i..]).1)
  }

  lemma ReachedStart<T>(step: Bytes -> Move<T>, buf: Bytes)
    ensures Reached(step, buf, 0, [])
  {
    assert buf[0..] == buf;
    assert [] + Parse(step, buf).0 == Parse(step, buf).0;
  }

  lemma ReachedStep<T>(step: Bytes -> Move<T>, buf: Bytes, i: nat, done: seq<T>, n: nat, out: seq<T>)
    requires Reached(step, buf, i, done)
    requires step(buf[i..]) == Take(n, out) && 1 <= n <= |buf| - i
    ensures Reached(step, buf, i + n, done + out)
  {
    assert buf[i..][n..] == buf[i + n..];
    Associate(done, out, Parse(step, buf[i + n..]).0);
  }

  lemma ReachedSkip<T>(step: Bytes -> Move<T>, buf: Bytes, i: nat, done: seq<T>, n: nat)
    requires Reached(step, buf, i, done)
    requires step(buf[i..]) == Take(n, []) && 1 <= n <= |buf| - i
    ensures Reached(step, buf, i + n, done)
  {
    ReachedStep(step, buf, i, done, n, []);
    assert done + [] == done;
  }

  lemma ReachedEnd<T>(step: Bytes -> Move<T>, buf: Bytes, i: nat, done: seq<T>)
    requires Reached(step, buf, i, done)
    requires step(buf[i..]).Wait?
    ensures Parse(step, buf) == (done, buf[i..])
  {
    assert done + [] == done;
  }

  // ---- streams that consist of whole frames --------------------------------

  /** The bytes `part` are a frame holding `item`, and no shorter prefix is decided. */
  ghost predicate OneFrame<T>(step: Bytes -> Move<T>, part: Bytes, item: T) {
    && part != []
    && step(part) == Take(|part|, [item])
    && forall n :: 0 <= n < |part| ==> step(part[..n]).Wait?
  }

  ghost predicate Framed<T>(step: Bytes -> Move<T>, parts: seq<Bytes>, items: seq<T>) {
    |parts| == |items| && forall i :: 0 <= i < |parts| ==> OneFrame(step, parts[i], items[i])
  }

  /** Every prefix of a framed stream yields exactly the items of the frames it completes;
      what it leaves over is a proper prefix of the next frame. */
  lemma {:induction false} PrefixOfFramed<T(!new)>(step: Bytes -> Move<T>, parts: seq<Bytes>, items: seq<T>,
                                                  p: Bytes) returns (k: nat)
    requires Steady(step) && Framed(step, parts, items)
    requires p <= Flatten(parts)
    ensures k <= |parts|
    ensures Parse(step, p).0 == items[..k]
    ensures p == Flatten(parts[..k]) + Parse(step, p).1
    ensures if k == |parts| then Parse(step, p).1 == [] else Parse(step, p).1 < parts[k]
    decreases |parts|
  {
    hide Steady, Parse;
    if parts == [] {
      k := 0;
      ParseEmpty(step);
    } else {
      var head, item := parts[0], items[0];
      assert OneFrame(step, head, item);
      if |p| < |head| {
        k := 0;
        assert p == head[..|p|];
        ParseWaits(step, p);
      } else {
        var rest := p[|head|..];
        assert p == head + rest;
        FirstFrame(step, head, item, rest);
        FlattenStep(parts);
        var j := PrefixOfFramed(step, parts[1..], items[1..], rest);
        k := j + 1;
        assert items[..k] == [item] + items[1..][..j];
        assert parts[..k] == [head] + parts[1..][..j];
        FlattenStep([head] + parts[1..][..j]);
        Associate(head, Flatten(parts[1..][..j]), Parse(step, rest).1);
      }
    }
  }

  lemma FirstFrame<T(!new)>(step: Bytes -> Move<T>, head: Bytes, item: T, rest: Bytes)
    requires Steady(step) && OneFrame(step, head, item)
    ensures Parse(step, head + rest) == ([item] + Parse(step, rest).0, Parse(step, rest).1)
  {
    assert Settled(step, head, rest);
    assert (head + rest)[|head|..] == rest;
  }

  lemma {:induction false} ParseSkips<T>(step: Bytes -> Move<T>, s: Bytes, n: nat)
    requires 1 <= n <= |s| && step(s) == Take(n, [])
    ensures Parse(step, s) == Parse(step, s[n..])
  {
    var r := Parse(step, s[n..]);
    assert [] + r.0 == r.0;
  }

  lemma ParseEmpty<T(!new)>(step: Bytes -> Move<T>)
    requires Steady(step)
    ensures Parse(step, []) == ([], [])
  {}

  lemma ParseWaits<T>(step: Bytes -> Move<T>, s: Bytes)
    requires step(s).Wait?
    ensures Parse(step, s) == ([], s)
  {}

  lemma FlattenStep(parts: seq<Bytes>)
    requires parts != []
    ensures Flatten(parts) == parts[0] + Flatten(parts[1..])
  {}

  lemma WholeFramed<T(!new)>(step: Bytes -> Move<T>, parts: seq<Bytes>, items: seq<T>)
    requires Steady(step) && Framed(step, parts, items)
    ensures Parse(step, Flatten(parts)) == (items, [])
  {
    hide Steady, Parse;
    var k := PrefixOfFramed(step, parts, items, Flatten(parts));
    assert parts == parts[..k] + parts[k..];
    FlattenAppend(parts[..k], parts[k..]);
    assert Flatten(parts[k..]) == Parse(step, Flatten(parts)).1;
    assert items[..k] == items;
  }
}
