/** WAV segments of a meeting: writing a standard header, and joining the segments of a paused
    and resumed recording into one file. */
module WavFile {
  import opened Bytes
  import opened DcBlocker
  import opened WavChunks

  const BLOCK: nat := 4096
  const MAX_SEGMENTS: nat := 64

  // ---- the standard header -------------------------------------------------

  function BuildHeader(fmt: Format, total: nat): (h: Bytes)
    requires total < 0x1_0000_0000
    ensures |h| == 44
  {
    Riff() + EncLe32(U32(total + 36)) + Wave() + Fmt() + EncLe32(16) + fmt + Data() + EncLe32(total)
  }

  lemma HeaderLayout(fmt: Format, total: nat)
    requires total < 0x1_0000_0000
    ensures var h := BuildHeader(fmt, total);
      && h[..4] == Riff() && h[4..8] == EncLe32(U32(total + 36)) && h[8..12] == Wave()
      && h[12..16] == Fmt() && h[16..20] == EncLe32(16) && h[20..36] == fmt
      && h[36..40] == Data() && h[40..44] == EncLe32(total)
  {
    hide EncLe32, Le32, Riff, Wave, Fmt, Data, U32;
  }

  /** Reading back a written header gives the format, offset 44 and the size it was given. */
  lemma HeaderReadsBack(fmt: Format, total: nat, body: Bytes)
    requires total < 0x1_0000_0000
    ensures HeaderOf(BuildHeader(fmt, total) + body) == Header(fmt, 44, total)
  {
    hide EncLe32, Le32, Riff, Wave, U32, BuildHeader;
    HeaderLayout(fmt, total);
    var h := BuildHeader(fmt, total);
    var f := h + body;
    assert f[..4] == h[..4] && f[8..12] == h[8..12];
    assert f[12..16] == h[12..16] && f[16..20] == h[16..20] && f[20..36] == h[20..36];
    assert f[36..40] == h[36..40] && f[40..44] == h[40..44];
    assert ChunkSize(f, 12) == 16;
    assert NextChunk(f, 12) == 36;
    TagsDiffer();
    assert FormatAt(f, 12, None) == Some(fmt);
    assert Walk(f, 12, None, FORMAT_LIMIT) == Walk(f, 36, Some(fmt), FORMAT_LIMIT - 1);
  }

  /** Byte by byte the header is that of a plain wave file: the size of the rest of the file, a
      format chunk of 16 bytes, and the data chunk. */
  lemma HeaderBytes(fmt: Format, total: nat)
    requires total < 0x1_0000_0000
    ensures var h := BuildHeader(fmt, total);
      && Tagged(h, 0, 0x52, 0x49, 0x46, 0x46) && SizeAt(h, 0) == (total + 36) % 0x1_0000_0000
      && Tagged(h, 8, 0x57, 0x41, 0x56, 0x45)
      && Tagged(h, 12, 0x66, 0x6D, 0x74, 0x20) && SizeAt(h, 12) == 16 && h[20..36] == fmt
      && Tagged(h, 36, 0x64, 0x61, 0x74, 0x61) && SizeAt(h, 36) == total
  {
    hide EncLe32, Le32, U32, BuildHeader, SizeAt, Fmt, Data;
    HeaderLayout(fmt, total);
    var h := BuildHeader(fmt, total);
    SizeIs(h, 0);
    SizeIs(h, 12);
    SizeIs(h, 36);
    TagIs(h, 12);
    TagIs(h, 36);
    MagicIs(h);
    FullSize(total);
  }

  lemma FullSize(total: nat)
    ensures U32(total + 36) == (total + 36) % 0x1_0000_0000
  {}

  // ---- joining the segments ------------------------------------------------

  /** What the joiner sees when it opens a segment file for its first parse, for the retry
      100 ms later, and for copying; the last segment may still be being finalized. */
  datatype Segment = Segment(first: Option<Bytes>, retry: Option<Bytes>, copied: Option<Bytes>)

  function DataIn(f: Option<Bytes>): Option<(nat, nat)> {
    if f.None? then None
    else match HeaderOf(f.value)
      case Header(_, offset, size) => Some((offset, size))
      case _ => None
  }

  function Located(g: Segment): Option<(nat, nat)> {
    if g.first.None? then None
    else if DataIn(g.first).Some? then DataIn(g.first)
    else DataIn(g.retry)
  }

  function DeclaredSize(segs: seq<Segment>): nat {
    if segs == [] then 0
    else
      var last := segs[|segs| - 1];
      DeclaredSize(segs[..|segs| - 1]) + (if Located(last).Some? then Located(last).value.1 else 0)
  }

  /** Everything from the data offset to the end of the file. */
  function Payload(f: Bytes, offset: nat): Bytes {
    if offset <= |f| then f[offset..] else []
  }

  /** A segment's contribution: its payload filtered as one sequence. */
  function SegmentBody(g: Segment): Bytes {
    if Located(g).None? || g.copied.None? then []
    else Filtered(START, Payload(g.copied.value, Located(g).value.0)).1
  }

  function Body(segs: seq<Segment>): Bytes {
    if segs == [] then [] else Body(segs[..|segs| - 1]) + SegmentBody(segs[|segs| - 1])
  }

  /** The blocks written, in segment order. */
  function AllBlocks(segs: seq<Segment>): seq<Bytes> {
    if segs == [] then [] else AllBlocks(segs[..|segs| - 1]) + Blocks(SegmentBody(segs[|segs| - 1]))
  }

  // ---- writing in blocks ---------------------------------------------------

  /** The blocks in which `s` is written: of 4096 bytes, the last one shorter. */
  function Blocks(s: Bytes): seq<Bytes>
    decreases |s|
  {
    if s == [] then []
    else
      var cut := (|s| - 1) / BLOCK * BLOCK;
      Blocks(s[..cut]) + [s[cut..]]
  }

  /** How much of `r` bytes the k-th write takes; nobody looks at it. */
  function Taken(room: seq<nat>, k: nat, r: nat): (t: nat)
    ensures t <= r
  {
    if k < |room| && room[k] < r then room[k] else r
  }

  /** What the file holds of the blocks, the first of which is the k-th write. */
  function Kept(blocks: seq<Bytes>, room: seq<nat>, k: nat): Bytes {
    if blocks == [] then []
    else
      var n := |blocks| - 1;
      Kept(blocks[..n], room, k) + blocks[n][..Taken(room, k + n, |blocks[n]|)]
  }

  lemma LastCut(d: nat, b: nat)
    requires d % BLOCK == 0 && 0 < b <= BLOCK
    ensures (d + b - 1) / BLOCK * BLOCK == d
  {}

  lemma BlocksGrow(done: Bytes, block: Bytes)
    requires |done| % BLOCK == 0 && 0 < |block| <= BLOCK
    ensures Blocks(done + block) == Blocks(done) + [block]
  {
    hide Blocks;
    LastCut(|done|, |block|);
    CutBlocks(done + block, |done|);
    assert (done + block)[..|done|] == done && (done + block)[|done|..] == block;
  }

  lemma CutBlocks(s: Bytes, cut: nat)
    requires s != [] && cut == (|s| - 1) / BLOCK * BLOCK
    ensures cut < |s| && Blocks(s) == Blocks(s[..cut]) + [s[cut..]]
  {}

  lemma KeptLast(blocks: seq<Bytes>, block: Bytes, room: seq<nat>, k: nat)
    ensures Kept(blocks + [block], room, k)
      == Kept(blocks, room, k) + block[..Taken(room, k + |blocks|, |block|)]
  {
    hide Taken;
    assert (blocks + [block])[..|blocks|] == blocks;
  }

  lemma NoBlocks(room: seq<nat>, k: nat)
    ensures Blocks([]) == [] && Kept([], room, k) == []
  {}

  lemma {:induction false} KeptAppend(a: seq<Bytes>, b: seq<Bytes>, room: seq<nat>, k: nat)
    ensures Kept(a + b, room, k) == Kept(a, room, k) + Kept(b, room, k + |a|)
    decreases |b|
  {
    hide Taken, Kept;
    if b == [] {
      NoBlocks(room, k + |a|);
      assert a + b == a && b == [];
    } else {
      var n := |b| - 1;
      KeptAppend(a, b[..n], room, k);
      KeptLast(a + b[..n], b[n], room, k);
      KeptLast(b[..n], b[n], room, k + |a|);
      assert a + b == (a + b[..n]) + [b[n]] && b == b[..n] + [b[n]];
      Associate(Kept(a, room, k), Kept(b[..n], room, k + |a|), b[n][..Taken(room, k + |a| + n, |b[n]|)]);
    }
  }

  /** Reading the next block. */
  method ReadBlock(s: Bytes, pos: nat, buf: array<Byte>) returns (r: nat)
    requires pos < |s| && buf.Length == BLOCK
    modifies buf
    ensures r == (if |s| - pos < BLOCK then |s| - pos else BLOCK) && buf[..r] == s[pos..pos + r]
  {
    r := if |s| - pos < BLOCK then |s| - pos else BLOCK;
    forall k | 0 <= k < r {
      buf[k] := s[pos + k];
    }
  }

  /** Copying one segment block by block: the 4096-byte blocking leaves no trace in the bytes,
      only in what short writes lose. */
  method CopySegment(src: Bytes, offset: nat, room: seq<nat>, k: nat) returns (body: Bytes, k': nat)
    ensures var blocks := Blocks(Filtered(START, Payload(src, offset)).1);
      body == Kept(blocks, room, k) && k' == k + |blocks|
  {
    hide Filtered, Tracked, Blocks, Kept, Taken;
    var s := Payload(src, offset);
    var buf := new Byte[BLOCK];
    var xm1: int32, ym1: int32, faded := 0, 0, 0;
    ghost var done: Bytes := [];
    NothingCopied(s, room, k);
    body, k' := [], k;
    var pos := 0;
    while pos < |s|
      invariant 0 <= pos <= |s| && |done| == pos && (pos % BLOCK == 0 || pos == |s|)
      invariant Tracked(Track(Filter(xm1 as int, ym1 as int), faded))
      invariant Filtered(START, s).1 == done + Filtered(Track(Filter(xm1 as int, ym1 as int), faded), s[pos..]).1
      invariant body == Kept(Blocks(done), room, k) && k' == k + |Blocks(done)|
    {
      var r := ReadBlock(s, pos, buf);
      ghost var t, block, rest := Track(Filter(xm1 as int, ym1 as int), faded), s[pos..pos + r], s[pos + r..];
      xm1, ym1, faded := FilterBlock(buf, r, xm1, ym1, faded);
      NextBlock(t, done, s, pos, r);
      WriteBlock(done, buf[..r], room, k);
      body := body + buf[..Taken(room, k', r)];
      assert buf[..r][..Taken(room, k', r)] == buf[..Taken(room, k', r)];
      done, pos, k' := done + buf[..r], pos + r, k' + 1;
    }
    AllCopied(Track(Filter(xm1 as int, ym1 as int), faded), s, done);
  }

  lemma NothingCopied(s: Bytes, room: seq<nat>, k: nat)
    ensures Tracked(START) && Kept(Blocks([]), room, k) == [] && |Blocks([])| == 0
    ensures Filtered(START, s).1 == [] + Filtered(START, s[0..]).1
  {
    hide Filtered;
    assert s[0..] == s;
  }

  lemma AllCopied(t: Track, s: Bytes, done: Bytes)
    requires Filtered(START, s).1 == done + Filtered(t, s[|s|..]).1
    ensures done == Filtered(START, s).1
  {
    hide Filtered;
    FilteredRest(t, s[|s|..]);
  }

  lemma NextBlock(t: Track, done: Bytes, s: Bytes, pos: nat, r: nat)
    requires pos + r <= |s| && (r % 2 == 0 || pos + r == |s|)
    ensures var f := Filtered(t, s[pos..pos + r]);
      done + Filtered(t, s[pos..]).1 == (done + f.1) + Filtered(f.0, s[pos + r..]).1
  {
    hide Filtered;
    assert s[pos..] == s[pos..pos + r] + s[pos + r..];
    OneBlock(t, done, s[pos..pos + r], s[pos + r..]);
  }

  lemma WriteBlock(done: Bytes, block: Bytes, room: seq<nat>, k: nat)
    requires |done| % BLOCK == 0 && 0 < |block| <= BLOCK
    ensures var n := |Blocks(done)|;
      && |Blocks(done + block)| == n + 1
      && Kept(Blocks(done + block), room, k)
         == Kept(Blocks(done), room, k) + block[..Taken(room, k + n, |block|)]
  {
    hide Blocks, Kept, Taken;
    BlocksGrow(done, block);
    KeptLast(Blocks(done), block, room, k);
  }

  /** A block in front: an odd one is the last. */
  lemma OneBlock(t: Track, done: Bytes, block: Bytes, rest: Bytes)
    requires |block| % 2 == 0 || rest == []
    ensures var f := Filtered(t, block);
      done + Filtered(t, block + rest).1 == (done + f.1) + Filtered(f.0, rest).1
    ensures rest == [] ==> done + Filtered(t, block + rest).1 == done + Filtered(t, block).1
  {
    hide Filtered;
    var f := Filtered(t, block);
    if rest == [] {
      assert block + rest == block;
      FilteredRest(f.0, rest);
      assert (done + f.1) + [] == done + f.1;
    } else {
      FilteredAppend(t, block, rest);
      Associate(done, f.1, Filtered(f.0, rest).1);
    }
  }

  /** The file position after writing, as a `long`; it has none from 2 GiB on. */
  function Ftell(size: nat): int {
    if size < 0x8000_0000 then size else -1
  }

  /** The output file: whether it opens, what it takes of the header, and what it takes of each
      block; short writes of blocks go unnoticed. */
  datatype Output = Output(opens: bool, header: nat, room: seq<nat>)

  /** What the output holds behind its header. */
  function Stored(segs: seq<Segment>, output: Output): Bytes {
    Kept(AllBlocks(segs), output.room, 0)
  }

  /** When the joiner reports success. `probe` is seg0 as opened for its format. */
  predicate Joins(probe: Option<Bytes>, segs: seq<Segment>, output: Output) {
    && segs != [] && probe.Some? && HeaderOf(probe.value).Header?
    && U32(DeclaredSize(segs)) != 0 && output.opens && output.header >= 44
    && Ftell(44 + |Stored(segs, output)|) == Signed32(44 + U32(DeclaredSize(segs)))
  }

  /** Parsing the segment, with the retry if that comes to it, ends. */
  predicate Parses(g: Segment) {
    && (g.first.Some? ==> !HeaderOf(g.first.value).Forever?)
    && (g.first.Some? && HeaderOf(g.first.value).Invalid? && g.retry.Some? ==> !HeaderOf(g.retry.value).Forever?)
  }

  /** When the joiner returns at all. */
  predicate Finishes(probe: Option<Bytes>, segs: seq<Segment>) {
    segs == [] || probe.None? || HeaderOf(probe.value).Invalid? ||
    (HeaderOf(probe.value).Header? && forall i :: 0 <= i < |segs| ==> Parses(segs[i]))
  }

  /** What the size test accepts: the right size, and one total for files it cannot measure. */
  lemma SizeTestIff(body: nat, total: nat)
    requires total < 0x1_0000_0000
    ensures Ftell(44 + body) == Signed32(44 + total)
      <==> if 44 + body < 0x8000_0000 then body == total else total == 0xFFFF_FFD3
  {}

  /** The joiner reports success exactly when `Joins`; the file is then a 44-byte header and what
      the writes took of the filtered payloads, in segment order, and reading its header gives
      back seg0's format, offset 44 and the declared size. That is the size of the data whenever
      the file stays below 2 GiB. */
  method Concat(probe: Option<Bytes>, segs: seq<Segment>, output: Output) returns (ret: int, out: Bytes)
    requires |segs| <= MAX_SEGMENTS && Finishes(probe, segs)
    ensures ret == 0 || ret == -1
    ensures ret == 0 <==> Joins(probe, segs, output)
    ensures ret == 0 ==>
      var fmt, total := HeaderOf(probe.value).fmt, U32(DeclaredSize(segs));
      && out == BuildHeader(fmt, total) + Stored(segs, output)
      && HeaderOf(out) == Header(fmt, 44, total)
      && (if |out| < 0x8000_0000 then |Stored(segs, output)| == total else total == 0xFFFF_FFD3)
  {
    hide HeaderOf, BuildHeader, Kept, AllBlocks, EncLe32, Riff, Wave, Ftell, Signed32, U32, DeclaredSize;
    ret, out := -1, [];
    var n := |segs|;
    if n <= 0 || probe.None? {
      return;
    }
    var h0 := ParseHeader(probe.value);
    if h0.Invalid? {
      return;
    }
    var total, offsets := LocateAll(segs);
    if total == 0 || !output.opens {
      return;
    }
    out := BuildHeader(h0.fmt, total);
    if output.header < 44 {
      return;
    }
    var body := CopyAll(segs, offsets, output.room);
    out := out + body;
    SizeTestIff(|body|, total);
    if Ftell(|out|) != Signed32(44 + total) {
      return;
    }
    HeaderReadsBack(h0.fmt, total, body);
    var verified := VerifyHeader(h0.fmt, total, out, body);
    if !verified {
      return;
    }
    ret := 0;
  }

  method CopyAll(segs: seq<Segment>, offsets: array<int>, room: seq<nat>) returns (body: Bytes)
    requires |segs| <= offsets.Length
    requires forall j :: 0 <= j < |segs| ==>
      offsets[j] == (if Located(segs[j]).Some? then Located(segs[j]).value.0 else -1)
    ensures body == Kept(AllBlocks(segs), room, 0)
  {
    hide HeaderOf, Filtered, Payload, Located, Kept, Blocks, AllBlocks;
    body := [];
    var i, k := 0, 0;
    NothingStored(room);
    assert segs[..0] == [];
    while i < |segs|
      invariant 0 <= i <= |segs| && k == |AllBlocks(segs[..i])|
      invariant body == Kept(AllBlocks(segs[..i]), room, 0)
    {
      StoreSegment(segs, i, room);
      if offsets[i] >= 0 && segs[i].copied.Some? {
        var more;
        more, k := CopySegment(segs[i].copied.value, offsets[i], room, k);
        body := body + more;
      } else {
        assert SegmentBody(segs[i]) == [];
      }
      i := i + 1;
    }
    assert segs[..|segs|] == segs;
  }

  lemma NothingStored(room: seq<nat>)
    ensures AllBlocks([]) == [] && Kept([], room, 0) == []
  {}

  lemma StoreSegment(segs: seq<Segment>, i: nat, room: seq<nat>)
    requires i < |segs|
    ensures var before, blocks := AllBlocks(segs[..i]), Blocks(SegmentBody(segs[i]));
      && AllBlocks(segs[..i + 1]) == before + blocks
      && Kept(before + blocks, room, 0) == Kept(before, room, 0) + Kept(blocks, room, |before|)
      && (SegmentBody(segs[i]) == [] ==> blocks == [] && Kept(blocks, room, |before|) == [])
  {
    hide SegmentBody, Kept, Blocks;
    assert segs[..i + 1][..i] == segs[..i];
    KeptAppend(AllBlocks(segs[..i]), Blocks(SegmentBody(segs[i])), room, 0);
    NoBlocks(room, |AllBlocks(segs[..i])|);
  }

  /** The read-back check on the finished file; it cannot fail on what was just written. */
  method VerifyHeader(ghost fmt: Format, total: nat, out: Bytes, ghost body: Bytes) returns (ok: bool)
    requires total < 0x1_0000_0000 && out == BuildHeader(fmt, total) + body
    ensures ok
  {
    hide BuildHeader, EncLe32, Le32, Riff, Wave, U32;
    ghost var head := BuildHeader(fmt, total);
    HeaderLayout(fmt, total);
    assert out[..4] == head[..4] && out[8..12] == head[8..12];
    assert out[4..8] == head[4..8] && out[40..44] == head[40..44];
    ok := out[..4] == Riff() && out[8..12] == Wave()
          && Le32(out[4..8]) == U32(total + 36) && Le32(out[40..44]) == total;
  }

  method LocateOne(g: Segment) returns (offset: int, size: nat)
    requires Parses(g)
    ensures if Located(g).Some? then (offset, size) == Located(g).value else offset == -1 && size == 0
  {
    hide HeaderOf;
    offset, size := -1, 0;
    if g.first.Some? {
      var h := ParseHeader(g.first.value);
      if h.Invalid? && g.retry.Some? {
        h := ParseHeader(g.retry.value);
      }
      if h.Header? {
        offset, size := h.offset, h.size;
      }
    }
  }

  method LocateAll(segs: seq<Segment>) returns (total: nat, dataOffsets: array<int>)
    requires |segs| <= MAX_SEGMENTS && forall i :: 0 <= i < |segs| ==> Parses(segs[i])
    ensures total == U32(DeclaredSize(segs))
    ensures fresh(dataOffsets) && dataOffsets.Length == MAX_SEGMENTS
    ensures forall i :: 0 <= i < |segs| ==>
      dataOffsets[i] == (if Located(segs[i]).Some? then Located(segs[i]).value.0 else -1)
  {
    hide Located, Parses, U32, DeclaredSize;
    dataOffsets := new int[MAX_SEGMENTS];
    total := 0;
    var i := 0;
    NothingDeclared();
    assert segs[..0] == [];
    while i < |segs|
      invariant 0 <= i <= |segs|
      invariant total == U32(DeclaredSize(segs[..i]))
      invariant forall j :: 0 <= j < i ==>
        dataOffsets[j] == (if Located(segs[j]).Some? then Located(segs[j]).value.0 else -1)
    {
      DeclaredStep(segs, i);
      var offset, size := LocateOne(segs[i]);
      dataOffsets[i] := offset;
      if offset >= 0 {
        total := U32(total + size);
      }
      i := i + 1;
    }
    assert segs[..|segs|] == segs;
  }

  lemma NothingDeclared()
    ensures U32(DeclaredSize([])) == 0
  {}

  lemma DeclaredStep(segs: seq<Segment>, i: nat)
    requires i < |segs|
    ensures var before, found := DeclaredSize(segs[..i]), Located(segs[i]);
      U32(DeclaredSize(segs[..i + 1])) == if found.Some? then U32(U32(before) + found.value.1) else U32(before)
  {
    hide Located;
    assert segs[..i + 1][..i] == segs[..i];
  }

  /** A segment whose data chunk runs to the end of the file, or that is skipped. */
  predicate Exact(g: Segment) {
    Located(g).Some? ==> g.copied.Some? && Located(g).value.0 + Located(g).value.1 == |g.copied.value|
  }

  lemma {:induction false} ExactLength(segs: seq<Segment>)
    requires forall i :: 0 <= i < |segs| ==> Exact(segs[i])
    ensures |Body(segs)| == DeclaredSize(segs)
    decreases |segs|
  {
    hide Located, Filtered;
    if segs != [] {
      assert Exact(segs[|segs| - 1]);
      ExactLength(segs[..|segs| - 1]);
    }
  }

  /** No write of a block falls short. */
  predicate AllTaken(blocks: seq<Bytes>, room: seq<nat>, k: nat) {
    forall i :: 0 <= i < |blocks| ==> Taken(room, k + i, |blocks[i]|) == |blocks[i]|
  }

  function TotalSize(blocks: seq<Bytes>): nat {
    if blocks == [] then 0
    else
      var n := |blocks| - 1;
      TotalSize(blocks[..n]) + |blocks[n]|
  }

  lemma {:induction false} KeptLength(blocks: seq<Bytes>, room: seq<nat>, k: nat)
    ensures |Kept(blocks, room, k)| <= TotalSize(blocks)
    ensures |Kept(blocks, room, k)| == TotalSize(blocks) <==> AllTaken(blocks, room, k)
  {
    hide Taken;
    if blocks != [] {
      var n := |blocks| - 1;
      KeptLength(blocks[..n], room, k);
      assert forall i :: 0 <= i < n ==> blocks[..n][i] == blocks[i];
    }
  }

  lemma {:induction false} BlocksSize(s: Bytes)
    ensures TotalSize(Blocks(s)) == |s|
    decreases |s|
  {
    if s != [] {
      var cut := (|s| - 1) / BLOCK * BLOCK;
      BlocksSize(s[..cut]);
      assert (Blocks(s[..cut]) + [s[cut..]])[..|Blocks(s[..cut])|] == Blocks(s[..cut]);
    }
  }

  lemma {:induction false} SizeAppend(a: seq<Bytes>, b: seq<Bytes>)
    ensures TotalSize(a + b) == TotalSize(a) + TotalSize(b)
    decreases |b|
  {
    if b == [] {
      assert a + b == a;
    } else {
      var n := |b| - 1;
      assert (a + b)[..|a + b| - 1] == a + b[..n];
      SizeAppend(a, b[..n]);
    }
  }

  lemma {:induction false} AllBlocksSize(segs: seq<Segment>)
    ensures TotalSize(AllBlocks(segs)) == |Body(segs)|
    decreases |segs|
  {
    if segs != [] {
      hide SegmentBody, Blocks;
      var n := |segs| - 1;
      AllBlocksSize(segs[..n]);
      SizeAppend(AllBlocks(segs[..n]), Blocks(SegmentBody(segs[n])));
      BlocksSize(SegmentBody(segs[n]));
    }
  }

  /** Segments whose data chunks run to the end of their files, together below 2 GiB, are joined
      successfully exactly when there is some data and no write falls short. From 2 GiB on the
      size test may take a file for the right one: what the writes took may agree with the
      declared size modulo 2^32, and a file too large to measure passes with one total. */
  lemma ExactSegmentsJoin(probe: Option<Bytes>, segs: seq<Segment>, output: Output)
    requires forall i :: 0 <= i < |segs| ==> Exact(segs[i])
    requires probe.Some? && HeaderOf(probe.value).Header? && output.opens
    ensures var size, stored := DeclaredSize(segs), |Stored(segs, output)|;
      if size < 0x7FFF_FFD4 then
        (Joins(probe, segs, output) <==>
          size > 0 && output.header >= 44 && AllTaken(AllBlocks(segs), output.room, 0))
      else
        (Joins(probe, segs, output) <==>
          U32(size) > 0 && output.header >= 44
          && (if stored < 0x7FFF_FFD4 then stored == U32(size) else U32(size) == 0xFFFF_FFD3))
  {
    assert segs == [] ==> DeclaredSize(segs) == 0;
    hide HeaderOf, Body, DeclaredSize, Exact, Ftell, Signed32, U32, Kept, AllBlocks, AllTaken;
    var size := DeclaredSize(segs);
    ExactLength(segs);
    AllBlocksSize(segs);
    KeptLength(AllBlocks(segs), output.room, 0);
    SizesMatch(size, |Stored(segs, output)|);
  }

  lemma SizesMatch(size: nat, stored: nat)
    requires stored <= size
    ensures var total := U32(size);
      var passes := total != 0 && Ftell(44 + stored) == Signed32(44 + total);
      if size < 0x7FFF_FFD4 then passes <==> size > 0 && stored == size
      else passes <==> total > 0 && (if stored < 0x7FFF_FFD4 then stored == total else total == 0xFFFF_FFD3)
  {
    hide Ftell, Signed32, U32;
    Fits32(size);
    SizeTestIff(stored, U32(size));
  }

  lemma Fits32(n: nat)
    ensures n < 0x1_0000_0000 ==> U32(n) == n
    ensures U32(n) == 0xFFFF_FFD3 ==> n >= 0xFFFF_FFD3
  {}

  // ---- which bytes are joined ------------------------------------------------

  predicate PieceAt(s: Bytes, b: seq<Bytes>, i: nat)
    requires i < |b|
  {
    4096 * i < |s| && b[i] == s[4096 * i..if 4096 * i + 4096 < |s| then 4096 * i + 4096 else |s|]
  }

  lemma PieceOfPrefix(s: Bytes, cut: nat, b: seq<Bytes>, last: Bytes, i: nat)
    requires cut <= |s| && cut % 4096 == 0 && i < |b| && PieceAt(s[..cut], b, i)
    ensures PieceAt(s, b + [last], i)
  {
    assert 4096 * i + 4096 <= cut;
  }

  /** The blocks of `s` are its consecutive 4096-byte pieces. */
  lemma {:induction false} BlocksAre(s: Bytes)
    ensures var b := Blocks(s);
      |b| == (|s| + 4095) / 4096 && forall i :: 0 <= i < |b| ==> PieceAt(s, b, i)
    decreases |s|
  {
    hide PieceAt;
    if s != [] {
      var cut := (|s| - 1) / 4096 * 4096;
      BlocksAre(s[..cut]);
      CutBlocks(s, cut);
      LastPiece(|s|);
      var front := Blocks(s[..cut]);
      LastPieceIs(s, cut, front);
      forall i: nat | i < |front|
        ensures PieceAt(s, front + [s[cut..]], i)
      {
        PieceOfPrefix(s, cut, front, s[cut..], i);
      }
    }
  }

  lemma LastPieceIs(s: Bytes, cut: nat, front: seq<Bytes>)
    requires cut < |s| <= cut + 4096 && cut == 4096 * |front|
    ensures PieceAt(s, front + [s[cut..]], |front|)
  {}

  lemma LastPiece(n: nat)
    requires n > 0
    ensures var cut := (n - 1) / 4096 * 4096;
      cut % 4096 == 0 && cut < n <= cut + 4096
      && cut == 4096 * ((cut + 4095) / 4096) && (n + 4095) / 4096 == (cut + 4095) / 4096 + 1
  {}

  /** Blocks that are written whole leave the data as it was. */
  lemma {:induction false} WholeBlocks(s: Bytes, room: seq<nat>, k: nat)
    requires AllTaken(Blocks(s), room, k)
    ensures Kept(Blocks(s), room, k) == s
    decreases |s|
  {
    hide Taken, AllTaken;
    if s == [] {
      NoBlocks(room, k);
    } else {
      var cut := (|s| - 1) / BLOCK * BLOCK;
      CutBlocks(s, cut);
      TakenSplits(Blocks(s[..cut]), [s[cut..]], room, k);
      WholeBlocks(s[..cut], room, k);
      KeptLast(Blocks(s[..cut]), s[cut..], room, k);
      assert s == s[..cut] + s[cut..];
    }
  }

  lemma TakenSplits(a: seq<Bytes>, b: seq<Bytes>, room: seq<nat>, k: nat)
    requires AllTaken(a + b, room, k)
    ensures AllTaken(a, room, k) && AllTaken(b, room, k + |a|)
    ensures |b| == 1 ==> Taken(room, k + |a|, |b[0]|) == |b[0]|
  {
    hide Taken;
    assert forall i :: 0 <= i < |a| ==> (a + b)[i] == a[i];
    assert forall i :: 0 <= i < |b| ==> (a + b)[|a| + i] == b[i];
  }

  /** A segment file made of a header and `d`, found where the header ends; or one that is skipped,
      without data. */
  predicate Holds(g: Segment, h: Bytes, d: Bytes) {
    if Located(g).Some? && g.copied.Some? then g.copied.value == h + d && Located(g).value.0 == |h| else d == []
  }

  /** Each segment's data is filtered as one whole sequence, from a filter at rest. */
  function Joined(data: seq<Bytes>): Bytes {
    if data == [] then [] else Joined(data[..|data| - 1]) + Filtered(START, data[|data| - 1]).1
  }

  lemma HeldBody(g: Segment, h: Bytes, d: Bytes)
    requires Holds(g, h, d)
    ensures SegmentBody(g) == Filtered(START, d).1
  {
    hide Located;
    assert (h + d)[|h|..] == d;
    assert Filtered(START, []).1 == [];
  }

  /** With no write falling short, the output holds behind its header the filtered data of the
      segments, in order: all that is behind each segment's own header, and nothing of that. */
  lemma {:induction false} SegmentsJoined(segs: seq<Segment>, heads: seq<Bytes>, data: seq<Bytes>, room: seq<nat>)
    requires |heads| == |data| == |segs| && forall i :: 0 <= i < |segs| ==> Holds(segs[i], heads[i], data[i])
    requires AllTaken(AllBlocks(segs), room, 0)
    ensures Kept(AllBlocks(segs), room, 0) == Joined(data)
    decreases |segs|
  {
    hide Taken, AllTaken, Filtered, Located, Blocks, Kept, Holds, SegmentBody;
    if segs == [] {
      NoBlocks(room, 0);
    } else {
      var n := |segs| - 1;
      var front, body := AllBlocks(segs[..n]), Filtered(START, data[n]).1;
      assert Holds(segs[n], heads[n], data[n]);
      HeldBody(segs[n], heads[n], data[n]);
      TakenSplits(front, Blocks(body), room, 0);
      assert forall i :: 0 <= i < n ==> Holds(segs[..n][i], heads[..n][i], data[..n][i]);
      SegmentsJoined(segs[..n], heads[..n], data[..n], room);
      KeptAppend(front, Blocks(body), room, 0);
      WholeBlocks(body, room, 0 + |front|);
    }
  }

  /** A segment with `d` behind a plain header. */
  function Plain(fmt: Format, d: Bytes): Segment
    requires |d| < 0x1_0000_0000
  {
    Segment(Some(BuildHeader(fmt, |d|) + d), None, Some(BuildHeader(fmt, |d|) + d))
  }

  lemma PlainIs(fmt: Format, d: Bytes)
    requires |d| < 0x1_0000_0000
    ensures var g := Plain(fmt, d);
      && HeaderOf(g.first.value) == Header(fmt, 44, |d|) && Located(g) == Some((44, |d|))
      && DeclaredSize([g]) == |d| && AllBlocks([g]) == Blocks(Filtered(START, d).1)
  {
    hide BuildHeader, HeaderOf, Filtered, Blocks;
    HeaderReadsBack(fmt, |d|, d);
    assert [Plain(fmt, d)][..0] == [] && (BuildHeader(fmt, |d|) + d)[44..] == d;
    var blocks := Blocks(Filtered(START, d).1);
    assert [] + blocks == blocks;
  }

  /** A plain segment file on its own: joining it gives its header back and its data filtered. */
  lemma OneSegment(fmt: Format, d: Bytes, room: seq<nat>)
    requires 0 < |d| < 0x7FFF_FFD4 && AllTaken(Blocks(Filtered(START, d).1), room, 0)
    ensures var g := Plain(fmt, d);
      && Finishes(g.first, [g]) && Joins(g.first, [g], Output(true, 44, room))
      && BuildHeader(HeaderOf(g.first.value).fmt, U32(DeclaredSize([g]))) + Stored([g], Output(true, 44, room))
         == BuildHeader(fmt, |d|) + Filtered(START, d).1
  {
    hide BuildHeader, HeaderOf, Filtered, Blocks, Kept, AllTaken, Ftell, Signed32, U32, DeclaredSize, AllBlocks;
    hide Located, Finishes;
    PlainIs(fmt, d);
    WholeBlocks(Filtered(START, d).1, room, 0);
    Fits32(|d|);
    SizeTestIff(|d|, |d|);
    PlainFinishes(Plain(fmt, d));
  }

  lemma PlainFinishes(g: Segment)
    requires g.first.Some? && HeaderOf(g.first.value).Header?
    ensures Finishes(g.first, [g])
  {
    hide HeaderOf;
  }

  /** A segment whose header is only complete at the second look counts as if it had been at the
      first; one that is not there at the first look does not count. */
  lemma RetryCounts(early: Bytes, late: Option<Bytes>, copied: Option<Bytes>)
    requires !HeaderOf(early).Header?
    ensures Located(Segment(Some(early), late, copied)) == Located(Segment(late, None, copied))
    ensures Located(Segment(None, late, copied)) == None
  {
    hide HeaderOf;
  }

  // ---- the segment counter -------------------------------------------------

  /** The pause button of a running recording; `ok` is whether the recorder call succeeded. */
  class Recording {
    var paused: bool
    var segCount: nat

    /** The counter stays an index into the table of data offsets, even after the resume
        that a paused recording is entitled to. */
    ghost predicate Valid()
      reads this
    {
      1 <= segCount <= MAX_SEGMENTS && (paused ==> segCount < MAX_SEGMENTS)
    }

    constructor ()
      ensures Valid() && !paused && segCount == 1
    {
      paused, segCount := false, 1;
    }

    method PauseButton(ok: bool) returns (done: bool)
      requires Valid()
      modifies this
      ensures Valid() && segCount <= 64
      ensures done <==> ok && (old(paused) || old(segCount) < 64)
      ensures paused == (old(paused) != done)
      ensures segCount == old(segCount) + (if old(paused) && done then 1 else 0)
    {
      if !paused {
        if segCount >= MAX_SEGMENTS {
          return false;
        }
        if ok { paused := true; }
      } else if ok {
        segCount := segCount + 1;
        paused := false;
      }
      done := ok;
    }
  }
}
