/** The receiving side of the transcription client: every call consumes one whole frame, so the
    results handed out depend on the bytes that arrive and not on how the reads cut them. */
module WebSocketReader {
  import opened Bytes
  import opened TlsStream
  import opened WebSocketFrames

  const NOT_TEXT: int := -2

  /** What a call returns: its code, the text left in the buffer, and the bytes still unread.
      `Short` when the bytes stop before the end of the frame. */
  datatype Outcome = Got(ret: int, text: Bytes, rest: Bytes) | Short

  /** The payload a call keeps in a buffer of `cap` bytes: all of it, or all that leaves room
      for the terminating zero. */
  function Kept(p: Bytes, cap: nat): (r: Bytes)
    requires cap > 0
    ensures r <= p && |r| < cap
  {
    if |p| >= cap then p[..cap - 1] else p
  }

  function Answer(opcode: nat, p: Bytes, rest: Bytes, cap: nat): Outcome
    requires cap > 0
  {
    if opcode == TEXT then Got(|Kept(p, cap)|, Kept(p, cap), rest)
    else Got(if opcode == CLOSE then 0 else NOT_TEXT, [], rest)
  }

  function PayloadLength(l: Lengths): nat
    requires l.Lengths?
  {
    l.payload % SIZE_T
  }

  function Receive(s: Bytes, cap: nat): (r: Outcome)
    requires cap > 0
    ensures r.Got? ==> r.ret == NOT_TEXT || 0 <= r.ret < cap
  {
    var l := ReadLengths(s);
    if l.Short? || |s| < l.header + PayloadLength(l) then Outcome.Short
    else
      var body := s[l.header..];
      Answer(Val(LowFour(s[0])), body[..PayloadLength(l)], body[PayloadLength(l)..], cap)
  }

  /** Whatever the frame is, exactly its bytes are consumed; text too long for the buffer is
      cut, other frames are skipped. */
  lemma OneCallOneFrame(opcode: nat, p: Bytes, rest: Bytes, cap: nat)
    requires opcode < 16 && |p| < SIZE_T && cap > 0
    ensures var text := if |p| < cap then p else p[..cap - 1];
      Receive(ServerFrame(opcode, p) + rest, cap)
        == if opcode == 1 then Got(|text|, text, rest) else Got(if opcode == 8 then 0 else -2, [], rest)
  {
    hide LengthField, FirstByte, LowFour, Val, ReadLengths, TopBit;
    var s := ServerFrame(opcode, p) + rest;
    var h := 1 + |LengthField(|p|, false)|;
    assert s == [FirstByte(opcode)] + LengthField(|p|, false) + (p + rest);
    HeaderReads(opcode, |p|, false, p + rest);
    assert s[h..][..|p|] == p && s[h..][|p|..] == rest;
  }

  // ---- reading exactly so many bytes ---------------------------------------

  /** Up to 6000 reads in a row may bring nothing, and not one more. */
  method ReadExact(tls: Tls, buf: array<Byte>, n: nat, ghost limit: nat) returns (ret: int)
    requires n <= buf.Length && limit <= 6000
    modifies tls`unread, tls`script, buf
    ensures ret == 0 || ret == EIO
    ensures ret == 0 ==> n <= |old(tls.unread)| && buf[..n] == old(tls.unread)[..n]
                         && tls.unread == old(tls.unread)[n..]
    ensures old(Calm(tls.script, limit)) ==> Calm(tls.script, limit) && (n <= |old(tls.unread)| ==> ret == 0)
    ensures n > 0 && Zeros(old(tls.script)) > 6000 ==> ret == EIO
  {
    var got, idle := 0, 0;
    ghost var stream, calm := tls.unread, Calm(tls.script, limit);
    ghost var stuck := Zeros(tls.script) > 6000;
    while got < n
      invariant got <= n && got <= |stream| && 0 <= idle <= 6000
      invariant tls.unread == stream[got..] && buf[..got] == stream[..got]
      invariant calm ==> Calm(tls.script, limit) && (n <= |stream| ==> idle + Zeros(tls.script) <= limit)
      invariant stuck ==> got == 0 && idle + Zeros(tls.script) > 6000
      decreases n - got, 6000 - idle
    {
      ghost var was := buf[..got];
      var r := tls.Read(buf, got, n - got);
      if r > 0 {
        Extend(buf[..], stream, got, r);
        got := got + r;
        idle := 0;
      } else if r != WANT_READ {
        return EIO;
      } else {
        idle := idle + 1;
        if idle > 6000 { return EIO; }
      }
    }
    return 0;
  }

  lemma Extend(now: Bytes, stream: Bytes, got: nat, r: nat)
    requires got + r <= |now| && got + r <= |stream|
    requires now[..got] == stream[..got] && now[got..got + r] == stream[got..][..r]
    ensures now[..got + r] == stream[..got + r] && stream[got..][r..] == stream[got + r..]
  {
    assert now[..got + r] == now[..got] + now[got..got + r];
    assert stream[..got + r] == stream[..got] + stream[got..][..r];
  }

  /** Up to 2000 reads in a row may bring nothing, and not one more. */
  method SkipPayload(tls: Tls, plen: nat) returns (ret: int)
    modifies tls`unread, tls`script
    ensures ret == 0 || ret == EIO
    ensures ret == 0 ==> plen <= |old(tls.unread)| && tls.unread == old(tls.unread)[plen..]
    ensures old(Calm(tls.script, 2000)) ==> Calm(tls.script, 2000) && (plen <= |old(tls.unread)| ==> ret == 0)
    ensures plen > 0 && Zeros(old(tls.script)) > 2000 ==> ret == EIO
  {
    var skip := new Byte[256];
    var left, idle := plen, 0;
    ghost var stream, calm := tls.unread, Calm(tls.script, 2000);
    ghost var stuck := Zeros(tls.script) > 2000;
    while left > 0
      invariant 0 <= left <= plen && plen - left <= |stream| && 0 <= idle <= 2000
      invariant tls.unread == stream[plen - left..]
      invariant calm ==> Calm(tls.script, 2000) && (plen <= |stream| ==> idle + Zeros(tls.script) <= 2000)
      invariant stuck ==> left == plen && idle + Zeros(tls.script) > 2000
      decreases left, 2000 - idle
    {
      var n := if left < skip.Length then left else skip.Length;
      var r := tls.Read(skip, 0, n);
      if r > 0 {
        assert stream[plen - left..][r..] == stream[plen - left + r..];
        left := left - r;
        idle := 0;
      } else if r == WANT_READ {
        idle := idle + 1;
        if idle > 2000 { return EIO; }
      } else {
        return EIO;
      }
    }
    return 0;
  }

  // ---- reading a header ----------------------------------------------------

  function BigEndian(s: Bytes): nat {
    if s == [] then 0 else BigEndian(s[..|s| - 1]) * 256 + Val(s[|s| - 1])
  }

  lemma EightBytes(s: Bytes)
    requires |s| == 8
    ensures BigEndian(s) == Be32(s[..4]) * 0x1_0000_0000 + Be32(s[4..])
  {
    hide Val;
    FourBytes(s[..4]);
    assert s[..7][..6] == s[..6] && s[..6][..5] == s[..5] && s[..5][..4] == s[..4];
    assert BigEndian(s[..5]) == BigEndian(s[..4]) * 256 + Val(s[4]);
    assert BigEndian(s[..6]) == BigEndian(s[..5]) * 256 + Val(s[5]);
    assert BigEndian(s[..7]) == BigEndian(s[..6]) * 256 + Val(s[6]);
  }

  lemma FourBytes(s: Bytes)
    requires |s| == 4
    ensures BigEndian(s) == Be32(s)
  {
    hide Val;
    assert s[..3][..2] == s[..2] && s[..2][..1] == s[..1] && s[..1][..0] == [];
    assert BigEndian(s[..1]) == Val(s[0]);
    assert BigEndian(s[..2]) == BigEndian(s[..1]) * 256 + Val(s[1]);
    assert BigEndian(s[..3]) == BigEndian(s[..2]) * 256 + Val(s[2]);
  }

  lemma ShiftWraps(x: nat, v: nat)
    ensures (x % SIZE_T * 256 + v) % SIZE_T == (x * 256 + v) % SIZE_T
  {
    var q := x / SIZE_T;
    assert x * 256 + v == (x % SIZE_T * 256 + v) + q * 256 * SIZE_T;
    Multiple(x % SIZE_T * 256 + v, q * 256);
  }

  lemma Multiple(a: nat, k: nat)
    ensures (a + k * SIZE_T) % SIZE_T == a % SIZE_T
  {}

  /** The 64-bit length is shifted into a 32-bit `size_t`. */
  method FoldLength(ext: array<Byte>) returns (plen: nat)
    requires ext.Length == 8
    ensures plen == BigEndian(ext[..]) % SIZE_T
  {
    hide Val;
    plen := 0;
    var i := 0;
    while i < 8
      invariant 0 <= i <= 8
      invariant plen == BigEndian(ext[..i]) % SIZE_T
    {
      assert ext[..i + 1][..i] == ext[..i];
      ShiftWraps(BigEndian(ext[..i]), Val(ext[i]));
      plen := (plen * 256 + Val(ext[i])) % SIZE_T;
      i := i + 1;
    }
    assert ext[..8] == ext[..];
  }

  method ReadLong(tls: Tls) returns (ret: int, plen: nat)
    modifies tls`unread, tls`script
    ensures ret == 0 || ret == EIO
    ensures var s := old(tls.unread);
      ret == 0 ==> |s| >= 8 && tls.unread == s[8..]
                   && plen == (Be32(s[..4]) * 0x1_0000_0000 + Be32(s[4..8])) % SIZE_T
    ensures old(Calm(tls.script, 2000)) ==> Calm(tls.script, 2000) && (8 <= |old(tls.unread)| ==> ret == 0)
  {
    hide Calm, Be32;
    var ext := new Byte[8];
    plen := 0;
    ghost var s := tls.unread;
    ret := ReadExact(tls, ext, 8, 2000);
    if ret == 0 {
      plen := FoldLength(ext);
      assert ext[..] == ext[..8] == s[..8];
      EightBytes(s[..8]);
      assert s[..8][..4] == s[..4] && s[..8][4..] == s[4..8];
    }
  }

  method ReadMedium(tls: Tls) returns (ret: int, plen: nat)
    modifies tls`unread, tls`script
    ensures ret == 0 || ret == EIO
    ensures var s := old(tls.unread);
      ret == 0 ==> |s| >= 2 && tls.unread == s[2..] && plen == Be16(s[0], s[1])
    ensures old(Calm(tls.script, 2000)) ==> Calm(tls.script, 2000) && (2 <= |old(tls.unread)| ==> ret == 0)
  {
    hide Calm, Val;
    var ext := new Byte[2];
    plen := 0;
    ghost var s := tls.unread;
    ret := ReadExact(tls, ext, 2, 2000);
    if ret == 0 {
      assert ext[0] == ext[..2][0] == s[0] && ext[1] == ext[..2][1] == s[1];
      plen := Val(ext[0]) * 256 + Val(ext[1]);
    }
  }

  method ReadHeader(tls: Tls) returns (ret: int, opcode: nat, plen: nat)
    modifies tls`unread, tls`script
    ensures ret == 0 || ret == EIO
    ensures var s := old(tls.unread); var l := ReadLengths(s);
      ret == 0 ==> |s| >= 2 && l.Lengths? && opcode == Val(LowFour(s[0])) && plen == PayloadLength(l)
                   && tls.unread == s[l.header..]
    ensures old(Calm(tls.script, 2000)) ==>
              Calm(tls.script, 2000) && (ReadLengths(old(tls.unread)).Lengths? ==> ret == 0)
  {
    hide Calm, Be16, Be32, LowSeven, LowFour;
    var hdr := new Byte[2];
    opcode, plen := 0, 0;
    ghost var s := tls.unread;
    ret := ReadExact(tls, hdr, 2, 2000);
    if ret != 0 {
      return;
    }
    assert hdr[0] == hdr[..2][0] == s[0] && hdr[1] == hdr[..2][1] == s[1];
    opcode := Val(LowFour(hdr[0]));
    plen := Val(LowSeven(hdr[1]));
    ghost var t := s[2..];
    if plen == 126 {
      ret, plen := ReadMedium(tls);
      if |s| >= 4 {
        assert t[0] == s[2] && t[1] == s[3] && t[2..] == s[4..];
      }
    } else if plen == 127 {
      ret, plen := ReadLong(tls);
      if |s| >= 10 {
        assert t[..4] == s[2..6] && t[4..8] == s[6..10] && t[8..] == s[10..];
      }
    }
  }

  // ---- one frame -----------------------------------------------------------

  predicate StartsClose(s: Bytes) {
    |s| >= 2 && Val(LowFour(s[0])) == CLOSE
  }

  /** The text part of a frame: keep what fits, skip what does not. */
  method ReadText(tls: Tls, buf: array<Byte>, plen: nat) returns (ret: int)
    requires buf.Length > 0
    modifies tls`unread, tls`script, buf
    ensures ret == EIO || 0 <= ret < buf.Length
    ensures var s := old(tls.unread);
      ret != EIO ==> plen <= |s| && buf[..ret] == Kept(s[..plen], buf.Length) && buf[ret] == 0
                     && tls.unread == s[plen..]
    ensures old(Calm(tls.script, 2000)) ==> Calm(tls.script, 2000) && (plen <= |old(tls.unread)| ==> ret != EIO)
  {
    hide Calm;
    ghost var s := tls.unread;
    var cap := buf.Length;
    if plen >= cap {
      var keep := cap - 1;
      var ok := ReadExact(tls, buf, keep, 2000);
      if ok != 0 { return EIO; }
      ok := SkipPayload(tls, plen - keep);
      if ok != 0 { return EIO; }
      assert s[..plen][..keep] == s[..keep];
      assert s[keep..][plen - keep..] == s[plen..];
      ghost var text := buf[..keep];
      buf[keep] := 0;
      assert buf[..keep] == text;
      return keep;
    }
    var ok := ReadExact(tls, buf, plen, 2000);
    if ok != 0 { return EIO; }
    ghost var text := buf[..plen];
    buf[plen] := 0;
    assert buf[..plen] == text;
    return plen;
  }

  /** Success is always the whole frame; only a close frame may end the connection with part of
      its payload unread. Over a calm transport nothing but a short stream fails. */
  method RecvText(tls: Tls, buf: array<Byte>) returns (ret: int, ghost text: Bytes)
    requires buf.Length > 0
    modifies tls`unread, tls`script, buf
    ensures ret == EIO || Receive(old(tls.unread), buf.Length) == Got(ret, text, tls.unread)
            || (ret == 0 && StartsClose(old(tls.unread)))
    ensures ret == EIO || ret == NOT_TEXT || 0 <= ret < buf.Length
    ensures ret > 0 ==> buf[..ret] == text && buf[ret] == 0
    ensures old(Calm(tls.script, 2000)) ==>
      && Calm(tls.script, 2000)
      && (Receive(old(tls.unread), buf.Length).Got? ==>
            Receive(old(tls.unread), buf.Length) == Got(ret, text, tls.unread))
  {
    hide Calm, ReadLengths, LowFour;
    ghost var s := tls.unread;
    text := [];
    var ok, opcode, plen := ReadHeader(tls);
    if ok != 0 {
      return EIO, [];
    }
    ghost var body := tls.unread;
    if opcode != TEXT {
      var sr := SkipPayload(tls, plen);
      ret := if opcode == CLOSE then 0 else if sr == 0 then NOT_TEXT else EIO;
      return;
    }
    ret := ReadText(tls, buf, plen);
    if ret != EIO {
      text := buf[..ret];
      assert text == Kept(body[..plen], buf.Length);
    }
  }

  // ---- draining ------------------------------------------------------------

  datatype Stop = Quiet | Closed | Starved

  /** The texts handed out while the socket polls readable `polls` times. */
  datatype Drain = Drain(texts: seq<Bytes>, rest: Bytes, stop: Stop)

  function Put(text: Bytes, d: Drain): Drain {
    d.(texts := [text] + d.texts)
  }

  function Drained(s: Bytes, cap: nat, polls: nat): Drain
    requires cap > 0
    decreases polls
  {
    if polls == 0 then Drain([], s, Quiet)
    else
      match Receive(s, cap)
      case Short => Drain([], s, Starved)
      case Got(ret, text, rest) =>
        if ret == 0 then Drain([], rest, Closed)
        else if ret == NOT_TEXT then Drained(rest, cap, polls - 1)
        else Put(text, Drained(rest, cap, polls - 1))
  }

  /** Only results already in the stream are handed out, in order; over a calm transport all of
      them are, and the next call starts where this one stopped. */
  method DrainResults(tls: Tls, buf: array<Byte>, polls: nat) returns (texts: seq<Bytes>)
    requires buf.Length > 0
    modifies tls`unread, tls`script, buf
    ensures texts <= Drained(old(tls.unread), buf.Length, polls).texts
    ensures old(Calm(tls.script, 2000)) ==>
      var d := Drained(old(tls.unread), buf.Length, polls);
      texts == d.texts && (d.stop != Starved ==> tls.unread == d.rest)
  {
    hide Calm, Receive, StartsClose;
    ghost var s, calm, cap := tls.unread, Calm(tls.script, 2000), buf.Length;
    var left := polls;
    texts := [];
    ghost var all := Drained(s, cap, polls);
    assert [] + all.texts == all.texts;
    while left > 0
      invariant calm ==> Calm(tls.script, 2000)
      invariant 0 <= left <= polls
      invariant var d := Drained(tls.unread, cap, left);
        all.texts == texts + d.texts && all.rest == d.rest && all.stop == d.stop
    {
      ghost var here := tls.unread;
      ghost var d := Drained(here, cap, left);
      var rn, text := RecvText(tls, buf);
      assert texts <= texts + d.texts;
      if rn == 0 {
        if StartsClose(here) {
          CloseEnds(here, cap, left);
        }
        assert texts + [] == texts;
        return;
      }
      if rn == NOT_TEXT {
        left := left - 1;
        continue;
      }
      if rn < 0 {
        assert texts + [] == texts;
        return;
      }
      ghost var e := Drained(tls.unread, cap, left - 1);
      assert texts + ([text] + e.texts) == (texts + [text]) + e.texts;
      texts := texts + [buf[..rn]];
      left := left - 1;
    }
    assert texts + [] == texts;
  }

  lemma CloseEnds(s: Bytes, cap: nat, polls: nat)
    requires cap > 0 && polls > 0 && StartsClose(s)
    ensures Drained(s, cap, polls).texts == []
  {
    hide LowFour, ReadLengths;
  }

  // ---- streams of server frames --------------------------------------------

  datatype Frame = Frame(opcode: nat, payload: Bytes)

  predicate Sendable(frames: seq<Frame>) {
    forall f | f in frames :: f.opcode < 16 && |f.payload| < SIZE_T
  }

  function Stream(frames: seq<Frame>): Bytes
    requires Sendable(frames)
  {
    if frames == [] then [] else ServerFrame(frames[0].opcode, frames[0].payload) + Stream(frames[1..])
  }

  /** A close frame ends a drain, and so does an empty text frame: both return 0. */
  predicate Ends(f: Frame) {
    f.opcode == 8 || (f.opcode == 1 && f.payload == [])
  }

  function Texts(frames: seq<Frame>, cap: nat): seq<Bytes>
    requires cap > 0
  {
    if frames == [] || Ends(frames[0]) then []
    else (if frames[0].opcode == 1 then [Kept(frames[0].payload, cap)] else []) + Texts(frames[1..], cap)
  }

  predicate SomeEnds(frames: seq<Frame>) {
    frames != [] && (Ends(frames[0]) || SomeEnds(frames[1..]))
  }

  /** Draining a stream of whole frames, followed by any bytes at all, hands out the text of
      each text frame up to the first that ends the drain. */
  lemma {:induction false} FramesAreDelivered(frames: seq<Frame>, tail: Bytes, cap: nat, polls: nat)
    requires Sendable(frames) && cap > 1 && polls <= |frames|
    ensures var d := Drained(Stream(frames) + tail, cap, polls);
      && d.texts == Texts(frames[..polls], cap)
      && d.stop == (if SomeEnds(frames[..polls]) then Closed else Quiet)
      && (d.stop == Quiet ==> d.rest == Stream(frames[polls..]) + tail)
    decreases polls
  {
    hide Receive, ServerFrame;
    if polls == 0 {
      assert frames[0..] == frames;
    } else {
      var f, later := frames[0], frames[1..];
      var rest := Stream(later) + tail;
      assert Stream(frames) + tail == ServerFrame(f.opcode, f.payload) + rest;
      OneCallOneFrame(f.opcode, f.payload, rest, cap);
      assert (frames[..polls])[1..] == later[..polls - 1];
      if !Ends(f) {
        assert later[polls - 1..] == frames[polls..];
        FramesAreDelivered(later, tail, cap, polls - 1);
        assert [] + Texts(later[..polls - 1], cap) == Texts(later[..polls - 1], cap);
      }
    }
  }

  /** Draining twice hands out what draining once would have. */
  lemma {:induction false} DrainsCompose(s: Bytes, cap: nat, a: nat, b: nat)
    requires cap > 0
    requires Drained(s, cap, a).stop == Quiet
    ensures var d := Drained(s, cap, a); var e := Drained(d.rest, cap, b);
      Drained(s, cap, a + b) == Drain(d.texts + e.texts, e.rest, e.stop)
    decreases a
  {
    hide Receive;
    if a == 0 {
      var e := Drained(s, cap, b);
      assert [] + e.texts == e.texts;
    } else {
      var g := Receive(s, cap);
      DrainsCompose(g.rest, cap, a - 1, b);
      if g.ret != NOT_TEXT {
        var d := Drained(g.rest, cap, a - 1);
        var e := Drained(d.rest, cap, b);
        assert [g.text] + (d.texts + e.texts) == ([g.text] + d.texts) + e.texts;
      }
    }
  }
}
