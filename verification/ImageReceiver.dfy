/** The receiving end of the image transfer: BIG_DATA and BIG_END handling.

    `Receiver` is the receive state as a value, `OnData` and `OnEnd` what one parsed frame
    does to it. `ImageReceiver` is the source's set of static variables, updated in place. */
module ImageReceiver {
  import opened Bytes
  import opened Bitmap

  const CHUNK: nat := 256
  const BITMAP_SIZE: nat := 1024
  const MAX_FRAMES: nat := 8 * BITMAP_SIZE

  /** `open` is whether the file descriptor is; `active` is the flag without which the receive
      thread does not read the SPI link; `file` is what has been written. */
  datatype Receiver = Receiver(
    total: nat, open: bool, active: bool, file: Bytes, bigOffset: nat, nframes: nat, bitmap: Bytes)

  predicate Valid(r: Receiver) {
    |r.bitmap| == BITMAP_SIZE && r.total < 0x1_0000_0000 && r.bigOffset < 0x1_0000_0000 && r.nframes < 0x1_0000
  }

  function Fresh(total: nat): (r: Receiver)
    requires total < 0x1_0000_0000
    ensures Valid(r)
  {
    Receiver(total, true, true, [], 0, 0, Empty(BITMAP_SIZE))
  }

  function U16(n: nat): (r: nat)
    ensures r < 0x1_0000
    ensures r == n - 0x1_0000 * (n / 0x1_0000)
  {
    n % 0x1_0000
  }

  /** Seek and write: a gap past the old end reads as zeros. */
  function WriteAt(file: Bytes, offset: nat, bytes: Bytes): (r: Bytes)
    ensures bytes == [] ==> r == file
    ensures bytes != [] ==> |r| == (if offset + |bytes| > |file| then offset + |bytes| else |file|)
    ensures forall k :: offset <= k < offset + |bytes| ==> r[k] == bytes[k - offset]
    ensures forall k :: 0 <= k < |file| && !(offset <= k < offset + |bytes|) ==> r[k] == file[k]
    ensures bytes != [] ==> forall k :: |file| <= k < offset ==> r[k] == 0
  {
    Overwritten(file, offset, bytes, 0)
  }

  function FrameIndex(offset: nat): nat {
    U16(offset / CHUNK)
  }

  /** A BIG_DATA frame; `written` is what the file write returned, 0 for an error. */
  function OnData(r: Receiver, offset: nat, payload: Bytes, written: nat): (r': Receiver)
    requires Valid(r) && offset < 0x1_0000_0000 && written <= |payload|
    ensures Valid(r')
  {
    if !r.open then r
    else
      var w := r.(file := WriteAt(r.file, offset, payload[..written]));
      if written != |payload| then w
      else
        var end, fidx := U32(offset + |payload|), FrameIndex(offset);
        w.(bigOffset := if end > r.bigOffset then end else r.bigOffset,
           bitmap := if |payload| > 0 && fidx < MAX_FRAMES then Set(r.bitmap, fidx) else r.bitmap,
           nframes := if |payload| > 0 && fidx + 1 > r.nframes then U16(fidx + 1) else r.nframes)
  }

  /** A whole frame of a photo counts: its bytes are in the file, the offset and the frame count
      are at least its own, and its bit is set; a short write changes the file only, and a closed
      file nothing. */
  lemma OneFrameCounts(r: Receiver, i: nat, payload: Bytes, written: nat)
    requires Valid(r) && i < 8192 && 0 < |payload| <= 256 && written <= |payload|
    ensures var t := OnData(r, 256 * i, payload, written);
      if !r.open then t == r
      else if written < |payload| then t == r.(file := WriteAt(r.file, 256 * i, payload[..written]))
      else
        && t.file == WriteAt(r.file, 256 * i, payload) && t.open && t.active == r.active && t.total == r.total
        && t.bigOffset == (if 256 * i + |payload| > r.bigOffset then 256 * i + |payload| else r.bigOffset)
        && t.nframes == (if i + 1 > r.nframes then i + 1 else r.nframes)
        && t.bitmap == Set(r.bitmap, i)
  {
    hide Set, WriteAt;
    assert (256 * i) / 256 == i;
    assert payload[..|payload|] == payload;
  }

  function ExpectedFrames(total: nat): nat {
    U16(U32(total + CHUNK - 1) / CHUNK)
  }

  function Counted(r: Receiver): nat {
    if ExpectedFrames(r.total) > r.nframes then ExpectedFrames(r.total) else r.nframes
  }

  predicate BigOk(r: Receiver)
    requires Valid(r) && Counted(r) <= MAX_FRAMES
  {
    r.bigOffset >= r.total && Counted(r) > 0 && AllSet(r.bitmap, Counted(r))
  }

  function AckPayload(session: nat, offset: nat, ok: bool, nframes: nat, bitmap: Bytes): (p: Bytes)
    requires session < 0x1_0000_0000 && offset < 0x1_0000_0000
    requires nframes < 0x1_0000 && |bitmap| == BITMAP_SIZE
    ensures |p| <= 11 + BITMAP_SIZE
  {
    var len := (nframes + 7) / 8;
    Enc32(session) + Enc32(offset) + [if ok then 1 else 0] + Enc16(nframes)
    + bitmap[..if len > BITMAP_SIZE then BITMAP_SIZE else len]
  }

  /** A BIG_END frame: the bitmap answer and, if the transfer is complete, the end of receiving.
      The source scans the bitmap for every counted frame, so more than 8192 of them are
      outside what it supports. */
  function OnEnd(r: Receiver, session: nat): (a: (Receiver, Bytes))
    requires Valid(r) && Counted(r) <= MAX_FRAMES && session < 0x1_0000_0000
    ensures Valid(a.0)
  {
    (r.(nframes := Counted(r), open := r.open && !BigOk(r), active := r.active && !BigOk(r)),
     AckPayload(session, r.bigOffset, BigOk(r), Counted(r), r.bitmap))
  }

  /** The frames an END asks for: those of the announced size, or as many as have come. */
  function Asked(r: Receiver): nat {
    if (r.total + 255) / 256 > r.nframes then (r.total + 255) / 256 else r.nframes
  }

  /** Every byte has come and every bit asked for is set. */
  predicate Complete(r: Receiver)
    requires Asked(r) <= 8 * |r.bitmap|
  {
    r.bigOffset >= r.total && Asked(r) > 0 && forall i :: 0 <= i < Asked(r) ==> BitSet(r.bitmap, i)
  }

  lemma AskedIsCounted(r: Receiver)
    requires Valid(r) && r.total <= 0x20_0000 && r.nframes <= 8192
    ensures Counted(r) == Asked(r) <= 8192 && (BigOk(r) <==> Complete(r))
  {
    hide BitSet;
    assert ExpectedFrames(r.total) == (r.total + 255) / 256 by {
      SmallTotal(r.total);
    }
    hide ExpectedFrames;
  }

  lemma SmallTotal(total: nat)
    requires total <= 0x20_0000
    ensures ExpectedFrames(total) == (total + 255) / 256 <= 8192
  {}

  lemma AnswerLayout(session: nat, offset: nat, ok: bool, n: nat, bitmap: Bytes)
    requires session < 0x1_0000_0000 && offset < 0x1_0000_0000 && n <= 8192 && |bitmap| == BITMAP_SIZE
    ensures var p := AckPayload(session, offset, ok, n, bitmap);
      && |p| == 11 + (n + 7) / 8
      && Be32(p[..4]) == session && Be32(p[4..8]) == offset && p[8] == (if ok then 1 else 0)
      && Be16(p[9], p[10]) == n && p[11..] == bitmap[..(n + 7) / 8]
  {
    hide Be16, Be32, Enc16, Enc32;
    var a, b, c := Enc32(session), Enc32(offset), Enc16(n);
    var p := AckPayload(session, offset, ok, n, bitmap);
    assert p[..4] == a && p[4..8] == b && p[9] == c[0] && p[10] == c[1];
    assert p[11..] == bitmap[..(n + 7) / 8];
  }

  /** An END of a photo of at most 2 MiB: the answer says how far the file goes, whether the
      transfer is complete, and which frames have come; a complete one stops receiving. */
  lemma EndAnswers(r: Receiver, session: nat)
    requires Valid(r) && r.total <= 0x20_0000 && r.nframes <= 8192 && session < 0x1_0000_0000
    ensures Counted(r) == Asked(r) <= 8192
    ensures var a := OnEnd(r, session); var p := a.1; var n := Asked(r);
      && a.0 == (if Complete(r) then r.(nframes := n, open := false, active := false) else r.(nframes := n))
      && |p| == 11 + (n + 7) / 8
      && Be32(p[..4]) == session && Be32(p[4..8]) == r.bigOffset
      && p[8] == (if Complete(r) then 1 else 0)
      && Be16(p[9], p[10]) == n
      && p[11..] == r.bitmap[..(n + 7) / 8]
  {
    hide Be16, Be32, Enc16, Enc32, BitSet, AckPayload, Counted, Asked, BigOk, Complete;
    AskedIsCounted(r);
    AnswerLayout(session, r.bigOffset, BigOk(r), Asked(r), r.bitmap);
  }

  // ---- the source's variables ----------------------------------------------

  class ImageReceiver {
    var fdOpen: bool
    var recvActive: bool
    var disk: Bytes
    var bigTotal: nat
    var bigOffset: nat
    var recvNframes: nat
    const recvBitmap: array<Byte>

    ghost predicate Ready()
      reads this, recvBitmap
    {
      recvBitmap.Length == BITMAP_SIZE && Valid(Abs())
    }

    ghost function Abs(): Receiver
      reads this, recvBitmap
    {
      Receiver(bigTotal, fdOpen, recvActive, disk, bigOffset, recvNframes, recvBitmap[..])
    }

    constructor (fileSize: nat)
      requires fileSize < 0x1_0000_0000
      ensures Ready() && Abs() == Fresh(fileSize) && fresh(recvBitmap)
      ensures recvBitmap.Length == 1024
    {
      fdOpen, recvActive, disk, bigTotal := true, true, [], fileSize;
      bigOffset, recvNframes := 0, 0;
      recvBitmap := new Byte[BITMAP_SIZE](_ => 0);
      new;
      assert recvBitmap[..] == Empty(BITMAP_SIZE);
    }

    method HandleData(offset: nat, payload: Bytes, written: nat)
      requires Ready() && offset < 0x1_0000_0000 && written <= |payload|
      modifies this, recvBitmap
      ensures Ready() && Abs() == OnData(old(Abs()), offset, payload, written)
    {
      hide Hits, Or, Flag, WriteAt;
      if fdOpen {
        disk := WriteAt(disk, offset, payload[..written]);
        if written == |payload| {
          if U32(offset + |payload|) > bigOffset {
            bigOffset := U32(offset + |payload|);
          }
          if |payload| > 0 {
            var fidx := U16(offset / CHUNK);
            if fidx < BITMAP_SIZE * 8 {
              recvBitmap[fidx / 8] := Or(recvBitmap[fidx / 8], Flag(fidx % 8));
              assert recvBitmap[..] == Set(old(recvBitmap[..]), fidx);
            }
            if fidx + 1 > recvNframes {
              recvNframes := U16(fidx + 1);
            }
          }
        }
      }
    }

    method HandleEnd(session: nat) returns (ack: Bytes)
      requires Ready() && Counted(Abs()) <= MAX_FRAMES && session < 0x1_0000_0000
      modifies this
      ensures Ready() && (Abs(), ack) == OnEnd(old(Abs()), session)
    {
      hide Hits, Flag, Enc16, Enc32, U16, U32, AckPayload;
      var expectedNframes := U16(U32(bigTotal + CHUNK - 1) / CHUNK);
      if expectedNframes > recvNframes {
        recvNframes := expectedNframes;
      }
      var bigOk := false;
      if bigOffset >= bigTotal && recvNframes > 0 {
        bigOk := true;
        var fi := 0;
        while fi < recvNframes
          invariant 0 <= fi <= recvNframes
          invariant bigOk && AllSet(recvBitmap[..], fi)
        {
          if !Hits(recvBitmap[fi / 8], Flag(fi % 8)) {
            bigOk := false;
            assert !BitSet(recvBitmap[..], fi);
            break;
          }
          assert BitSet(recvBitmap[..], fi);
          fi := fi + 1;
        }
      }
      ack := AckPayload(session, bigOffset, bigOk, recvNframes, recvBitmap[..]);
      if bigOk {
        recvActive := false;
        if fdOpen {
          fdOpen := false;
        }
      }
    }
  }
}
