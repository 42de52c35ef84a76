/** Finding the format and data chunks of a WAV file, as the recorder and the uploader do it.
    File positions are 32-bit signed (`long`, `off_t`): a chunk that claims 2 GiB or more moves
    them backwards. */
module WavChunks {
  import opened Bytes

  function Riff(): (t: Bytes)
    ensures |t| == 4
  {
    [0x52, 0x49, 0x46, 0x46]
  }

  function Wave(): (t: Bytes)
    ensures |t| == 4
  {
    [0x57, 0x41, 0x56, 0x45]
  }

  function Fmt(): (t: Bytes)
    ensures |t| == 4
  {
    [0x66, 0x6D, 0x74, 0x20]
  }

  function Data(): (t: Bytes)
    ensures |t| == 4
  {
    [0x64, 0x61, 0x74, 0x61]
  }

  // ---- the walk over the chunks --------------------------------------------

  predicate HasMagic(f: Bytes) {
    |f| >= 12 && f[..4] == Riff() && f[8..12] == Wave()
  }

  function ChunkSize(f: Bytes, pos: nat): nat
    requires pos + 8 <= |f|
  {
    Le32(f[pos + 4..pos + 8])
  }

  /** A chunk header can be read: the seek does not fail and eight bytes are there. */
  predicate Readable(f: Bytes, pos: int) {
    0 <= pos && pos + 8 <= |f|
  }

  /** Chunks are aligned to even sizes. */
  function NextChunk(f: Bytes, pos: int): (next: int)
    requires Readable(f, pos)
    ensures pos % 2 == 0 ==> next % 2 == 0
  {
    var size := ChunkSize(f, pos);
    Signed32(pos + 8 + size + size % 2)
  }

  /** The walk ends here: past the limit, nothing to read, or at the data chunk. */
  predicate Stops(f: Bytes, pos: int, limit: nat) {
    pos >= limit || !Readable(f, pos) || f[pos..pos + 4] == Data()
  }

  function Onward(f: Bytes, pos: int, limit: nat): int {
    if Stops(f, pos, limit) then pos else NextChunk(f, pos)
  }

  /** The position after `k` chunks. */
  function At(f: Bytes, pos: int, limit: nat, k: nat): int
    decreases k
  {
    if k == 0 then pos else At(f, Onward(f, pos, limit), limit, k - 1)
  }

  /** The loop never ends. */
  ghost predicate Endless(f: Bytes, pos: int, limit: nat) {
    forall k: nat :: !Stops(f, At(f, pos, limit, k), limit)
  }

  // ---- when the walk never ends --------------------------------------------

  lemma {:induction false} AtOnward(f: Bytes, pos: int, limit: nat, k: nat)
    ensures At(f, pos, limit, k + 1) == Onward(f, At(f, pos, limit, k), limit)
    decreases k
  {
    hide Onward;
    if k > 0 {
      AtOnward(f, Onward(f, pos, limit), limit, k - 1);
    }
  }

  function Range(n: nat): (r: set<int>)
    ensures forall x :: x in r <==> 0 <= x < n
    ensures |r| == n
  {
    if n == 0 then {} else Range(n - 1) + {n - 1}
  }

  lemma SubsetIsSmaller(a: set<int>, b: set<int>)
    requires a <= b
    ensures |a| <= |b|
  {
    assert b == a + (b - a) && a * (b - a) == {};
  }

  lemma {:induction false} DistinctCount(s: seq<int>) returns (r: set<int>)
    requires forall i, j :: 0 <= i < j < |s| ==> s[i] != s[j]
    ensures |r| == |s| && forall x :: x in r ==> x in s
    decreases |s|
  {
    if s == [] {
      r := {};
    } else {
      var n := |s| - 1;
      var t := DistinctCount(s[..n]);
      forall x | x in t
        ensures x in s && x != s[n]
      {
        var k :| 0 <= k < n && s[..n][k] == x;
        assert s[k] == x;
      }
      assert s[n] !in t;
      r := t + {s[n]};
    }
  }

  /** More than `limit` chunks cannot all start at different places below `limit`. */
  lemma Revisit(f: Bytes, pos: int, limit: nat) returns (i: nat, j: nat)
    requires forall k: nat :: k <= limit ==> 0 <= At(f, pos, limit, k) < limit
    ensures i < j <= limit && At(f, pos, limit, i) == At(f, pos, limit, j)
  {
    hide At;
    var s := seq(limit + 1, k requires 0 <= k <= limit => At(f, pos, limit, k));
    if forall a, b :: 0 <= a < b < |s| ==> s[a] != s[b] {
      var r := DistinctCount(s);
      SubsetIsSmaller(r, Range(limit));
      assert false;
    }
    i, j :| 0 <= i < j < |s| && s[i] == s[j];
  }

  lemma {:induction false} AtPlus(f: Bytes, pos: int, limit: nat, i: nat, t: nat)
    ensures At(f, pos, limit, i + t) == At(f, At(f, pos, limit, i), limit, t)
    decreases i
  {
    if i > 0 {
      AtPlus(f, Onward(f, pos, limit), limit, i - 1, t);
    }
  }

  /** A walk that has come back to a place goes round for ever. */
  lemma {:induction false} RoundAndRound(f: Bytes, pos: int, limit: nat, i: nat, j: nat, k: nat)
    requires i < j && At(f, pos, limit, i) == At(f, pos, limit, j)
    requires forall m: nat :: m < j ==> !Stops(f, At(f, pos, limit, m), limit)
    ensures !Stops(f, At(f, pos, limit, k), limit)
    decreases k
  {
    hide At, Stops;
    if k >= j {
      AtPlus(f, pos, limit, j, k - j);
      AtPlus(f, pos, limit, i, k - j);
      RoundAndRound(f, pos, limit, i, j, i + (k - j));
    }
  }

  /** The walk comes back to a place it has read a chunk at. */
  ghost predicate Returns(f: Bytes, pos: int, limit: nat) {
    exists i: nat, j: nat :: i < j <= limit && At(f, pos, limit, i) == At(f, pos, limit, j)
      && !Stops(f, At(f, pos, limit, j), limit)
  }

  lemma {:induction false} StoppedStays(f: Bytes, pos: int, limit: nat, m: nat, k: nat)
    requires m <= k && Stops(f, At(f, pos, limit, m), limit)
    ensures Stops(f, At(f, pos, limit, k), limit)
    decreases k - m
  {
    hide At, Stops;
    if m < k {
      AtOnward(f, pos, limit, m);
      OnwardStays(f, At(f, pos, limit, m), limit);
      StoppedStays(f, pos, limit, m + 1, k);
    }
  }

  lemma OnwardStays(f: Bytes, pos: int, limit: nat)
    requires Stops(f, pos, limit)
    ensures Onward(f, pos, limit) == pos
  {}

  /** The loop never ends exactly when it comes back to a chunk, which shows within `limit`
      chunks. */
  lemma EndlessIff(f: Bytes, pos: int, limit: nat)
    ensures Endless(f, pos, limit) <==> Returns(f, pos, limit)
    ensures Endless(f, pos, limit) <==> !Stops(f, At(f, pos, limit, limit), limit)
  {
    hide At;
    if !Stops(f, At(f, pos, limit, limit), limit) {
      forall k: nat | k <= limit
        ensures !Stops(f, At(f, pos, limit, k), limit)
      {
        if Stops(f, At(f, pos, limit, k), limit) {
          StoppedStays(f, pos, limit, k, limit);
        }
      }
      var i, j := Revisit(f, pos, limit);
      assert Returns(f, pos, limit);
    }
    if Returns(f, pos, limit) {
      var i: nat, j: nat :| i < j <= limit && At(f, pos, limit, i) == At(f, pos, limit, j)
        && !Stops(f, At(f, pos, limit, j), limit);
      forall m: nat | m < j
        ensures !Stops(f, At(f, pos, limit, m), limit)
      {
        if Stops(f, At(f, pos, limit, m), limit) {
          StoppedStays(f, pos, limit, m, j);
        }
      }
      forall k: nat
        ensures !Stops(f, At(f, pos, limit, k), limit)
      {
        RoundAndRound(f, pos, limit, i, j, k);
      }
    }
  }

  /** It does happen: a chunk that claims 0xFFFFFFF8 bytes is its own successor. */
  lemma ChunkMayRepeat(f: Bytes, pos: nat, limit: nat)
    requires pos + 8 <= |f| && pos < limit && pos < 0x8000_0000 && f[pos..pos + 4] != Data()
    requires ChunkSize(f, pos) == 0xFFFF_FFF8
    ensures Endless(f, pos, limit)
  {
    hide ChunkSize;
    forall k: nat
      ensures At(f, pos, limit, k) == pos
    {
      StaysPut(f, pos, limit, k);
    }
  }

  lemma {:induction false} StaysPut(f: Bytes, pos: int, limit: nat, k: nat)
    requires Onward(f, pos, limit) == pos
    ensures At(f, pos, limit, k) == pos
    decreases k
  {
    hide Onward;
    if k > 0 {
      StaysPut(f, pos, limit, k - 1);
    }
  }

  /** With chunk sizes safely below 2 GiB the walk moves forward and ends. */
  lemma SmallChunksEnd(f: Bytes, pos: nat, limit: nat)
    requires limit <= 0x1_0000
    requires forall p: nat :: p + 8 <= |f| && p < limit ==> ChunkSize(f, p) < 0x7FF0_0000
    ensures !Endless(f, pos, limit)
  {
    MovesOn(f, pos, limit, limit);
  }

  lemma {:induction false} MovesOn(f: Bytes, pos: nat, limit: nat, k: nat)
    requires limit <= 0x1_0000
    requires forall p: nat :: p + 8 <= |f| && p < limit ==> ChunkSize(f, p) < 0x7FF0_0000
    ensures At(f, pos, limit, k) >= pos + k || Stops(f, At(f, pos, limit, k), limit)
    decreases k
  {
    if k > 0 {
      var p := Onward(f, pos, limit);
      if Stops(f, pos, limit) {
        StaysPut(f, pos, limit, k);
      } else {
        MovesOn(f, p, limit, k - 1);
      }
    }
  }

  // ---- the recorder's reader -----------------------------------------------

  const FORMAT_LIMIT: nat := 4096
  const DATA_LIMIT: nat := 0x1_0000

  type Format = b: Bytes | |b| == 16 witness [0, 0, 0, 0, 0, 0, 0, 0, 0, 0, 0, 0, 0, 0, 0, 0]

  datatype Header = Header(fmt: Format, offset: nat, size: nat) | Invalid(code: int) | Forever

  /** Reading a format into the buffer: if the file ends too soon, what there is replaces the
      front of it, and it counts as read only if it did before. */
  function ReadFormat(f: Bytes, at: nat, fmt: Option<Format>): (r: Option<Format>)
    requires at <= |f|
    ensures r.Some? <==> fmt.Some? || at + 16 <= |f|
    ensures r.Some? ==> forall i :: 0 <= i < 16 ==>
      r.value[i] == if at + i < |f| then f[at + i] else fmt.value[i]
  {
    if at + 16 <= |f| then Some(f[at..at + 16])
    else if fmt.Some? then Some(f[at..] + fmt.value[|f| - at..])
    else None
  }

  /** The format a chunk leaves behind. */
  function FormatAt(f: Bytes, pos: int, fmt: Option<Format>): Option<Format>
    requires Readable(f, pos)
  {
    if f[pos..pos + 4] == Fmt() && ChunkSize(f, pos) >= 16 then ReadFormat(f, pos + 8, fmt) else fmt
  }

  /** It wants a format chunk before the data chunk, within 4096 bytes; of several format chunks
      the last one counts. `steps` chunks are read at most. */
  function Walk(f: Bytes, pos: int, fmt: Option<Format>, steps: nat): Header
    decreases steps
  {
    if Stops(f, pos, FORMAT_LIMIT) then
      (if pos < FORMAT_LIMIT && Readable(f, pos) && fmt.Some? then Header(fmt.value, pos + 8, ChunkSize(f, pos))
       else Invalid(-3))
    else if steps == 0 then Forever
    else Walk(f, NextChunk(f, pos), FormatAt(f, pos, fmt), steps - 1)
  }

  function HeaderOf(f: Bytes): Header {
    if |f| < 12 then Invalid(-1)
    else if !HasMagic(f) then Invalid(-2)
    else Walk(f, 12, None, FORMAT_LIMIT)
  }

  lemma {:induction false} WalkForeverIff(f: Bytes, pos: int, fmt: Option<Format>, steps: nat)
    ensures Walk(f, pos, fmt, steps).Forever? <==> !Stops(f, At(f, pos, FORMAT_LIMIT, steps), FORMAT_LIMIT)
    decreases steps
  {
    hide FormatAt, NextChunk;
    if Stops(f, pos, FORMAT_LIMIT) {
      OnwardStays(f, pos, FORMAT_LIMIT);
      StaysPut(f, pos, FORMAT_LIMIT, steps);
    } else if steps > 0 {
      WalkForeverIff(f, NextChunk(f, pos), FormatAt(f, pos, fmt), steps - 1);
    }
  }

  /** The header parse has no result exactly when the source's loop never ends. */
  lemma HeaderForeverIff(f: Bytes)
    ensures HeaderOf(f).Forever? <==> HasMagic(f) && Endless(f, 12, FORMAT_LIMIT)
  {
    hide Walk, At, Stops;
    if HasMagic(f) {
      WalkForeverIff(f, 12, None, FORMAT_LIMIT);
      EndlessIff(f, 12, FORMAT_LIMIT);
    }
  }

  /** One turn of the loop. */
  lemma WalkStep(f: Bytes, pos: int, fmt: Option<Format>, steps: nat)
    requires pos < FORMAT_LIMIT && !Walk(f, pos, fmt, steps).Forever?
    ensures !Readable(f, pos) ==> Walk(f, pos, fmt, steps) == Invalid(-3)
    ensures Readable(f, pos) && f[pos..pos + 4] == Data() ==>
      Walk(f, pos, fmt, steps) == if fmt.Some? then Header(fmt.value, pos + 8, ChunkSize(f, pos)) else Invalid(-3)
    ensures Readable(f, pos) && f[pos..pos + 4] != Data() ==>
      steps > 0 && Walk(f, pos, fmt, steps) == Walk(f, NextChunk(f, pos), FormatAt(f, pos, fmt), steps - 1)
  {
    hide FormatAt, NextChunk, Data, ChunkSize;
  }

  lemma WalkEnd(f: Bytes, pos: int, fmt: Option<Format>, steps: nat)
    requires pos >= FORMAT_LIMIT
    ensures Walk(f, pos, fmt, steps) == Invalid(-3)
  {}

  lemma HeaderWalk(f: Bytes)
    ensures HasMagic(f) ==> HeaderOf(f) == Walk(f, 12, None, FORMAT_LIMIT)
    ensures |f| >= 12 && !HasMagic(f) ==> HeaderOf(f) == Invalid(-2)
    ensures |f| < 12 ==> HeaderOf(f) == Invalid(-1)
  {
    hide Walk;
  }

  method ParseHeader(f: Bytes) returns (h: Header)
    requires !HeaderOf(f).Forever?
    ensures h == HeaderOf(f)
  {
    hide HeaderOf, Walk, Le32, Riff, Wave, Fmt, Data, ReadFormat, Signed32;
    HeaderWalk(f);
    if |f| < 12 {
      return Invalid(-1);
    }
    if f[..4] != Riff() || f[8..12] != Wave() {
      return Invalid(-2);
    }
    TagsDiffer();
    var pos: int := 12;
    var fmt: Option<Format> := None;
    ghost var steps := FORMAT_LIMIT;
    while pos < FORMAT_LIMIT
      invariant HeaderOf(f) == Walk(f, pos, fmt, steps)
      decreases steps
    {
      WalkStep(f, pos, fmt, steps);
      if pos < 0 || pos + 8 > |f| {
        return Invalid(-3);
      }
      var csz := Le32(f[pos + 4..pos + 8]);
      if f[pos..pos + 4] == Fmt() && csz >= 16 {
        fmt := ReadFormat(f, pos + 8, fmt);
      } else if f[pos..pos + 4] == Data() {
        return if fmt.Some? then Header(fmt.value, pos + 8, csz) else Invalid(-3);
      }
      pos := Signed32(pos + 8 + csz + csz % 2);
      steps := steps - 1;
    }
    WalkEnd(f, pos, fmt, steps);
    return Invalid(-3);
  }

  lemma TagsDiffer()
    ensures Fmt() != Data()
  {
    assert Fmt()[0] != Data()[0];
  }

  lemma {:induction false} SizeFits(f: Bytes, pos: int, fmt: Option<Format>, steps: nat)
    ensures Walk(f, pos, fmt, steps).Header? ==> Walk(f, pos, fmt, steps).size < 0x1_0000_0000
    decreases steps
  {
    hide Fmt, Data, NextChunk, FormatAt;
    if !Stops(f, pos, FORMAT_LIMIT) && steps > 0 {
      SizeFits(f, NextChunk(f, pos), FormatAt(f, pos, fmt), steps - 1);
    }
  }

  // ---- the uploader's reader -----------------------------------------------

  datatype Search = Found(offset: nat, size: nat) | NotFound | Unending

  /** Any data chunk within 65536 bytes. */
  function Seek(f: Bytes, pos: int, steps: nat): Search
    decreases steps
  {
    if Stops(f, pos, DATA_LIMIT) then
      (if pos < DATA_LIMIT && Readable(f, pos) then Found(pos + 8, ChunkSize(f, pos)) else NotFound)
    else if steps == 0 then Unending
    else Seek(f, NextChunk(f, pos), steps - 1)
  }

  function DataOf(f: Bytes): Search {
    if HasMagic(f) then Seek(f, 12, DATA_LIMIT) else NotFound
  }

  lemma {:induction false} SeekUnendingIff(f: Bytes, pos: int, steps: nat)
    ensures Seek(f, pos, steps).Unending? <==> !Stops(f, At(f, pos, DATA_LIMIT, steps), DATA_LIMIT)
    decreases steps
  {
    hide NextChunk;
    if Stops(f, pos, DATA_LIMIT) {
      OnwardStays(f, pos, DATA_LIMIT);
      StaysPut(f, pos, DATA_LIMIT, steps);
    } else if steps > 0 {
      SeekUnendingIff(f, NextChunk(f, pos), steps - 1);
    }
  }

  lemma SearchUnendingIff(f: Bytes)
    ensures DataOf(f).Unending? <==> HasMagic(f) && Endless(f, 12, DATA_LIMIT)
  {
    hide Seek, At, Stops;
    if HasMagic(f) {
      SeekUnendingIff(f, 12, DATA_LIMIT);
      EndlessIff(f, 12, DATA_LIMIT);
    }
  }

  /** What `lseek` returns; positions are even, so the failure -1 is none. */
  function Lseek(pos: int): int {
    if pos < 0 then -1 else pos
  }

  method FindData(f: Bytes) returns (d: Search)
    requires !DataOf(f).Unending?
    ensures d == DataOf(f)
  {
    hide Le32, Riff, Wave, Data;
    if |f| < 12 || f[..4] != Riff() || f[8..12] != Wave() {
      return NotFound;
    }
    var pos: int := 12;
    ghost var steps := DATA_LIMIT;
    while pos < DATA_LIMIT
      invariant DataOf(f) == Seek(f, pos, steps) && pos % 2 == 0
      decreases steps
    {
      if Lseek(pos) != pos || pos + 8 > |f| {
        break;
      }
      var csz := Le32(f[pos + 4..pos + 8]);
      if f[pos..pos + 4] == Data() {
        return Found(pos + 8, csz);
      }
      assert NextChunk(f, pos) % 2 == 0;
      pos := Signed32(pos + 8 + csz + csz % 2);
      steps := steps - 1;
    }
    return NotFound;
  }

  lemma {:induction false} WalksAgree(f: Bytes, pos: int, fmt: Option<Format>, n: nat, m: nat)
    requires Walk(f, pos, fmt, n).Header? && n <= m
    ensures Seek(f, pos, m) == Found(Walk(f, pos, fmt, n).offset, Walk(f, pos, fmt, n).size)
    decreases n
  {
    hide Le32, Fmt, Data, NextChunk;
    if !Stops(f, pos, FORMAT_LIMIT) {
      WalksAgree(f, NextChunk(f, pos), FormatAt(f, pos, fmt), n - 1, m - 1);
    }
  }

  /** Whenever the recorder's reader accepts a file, the uploader finds the same data in it. */
  lemma ReadersAgree(f: Bytes)
    requires HeaderOf(f).Header?
    ensures DataOf(f) == Found(HeaderOf(f).offset, HeaderOf(f).size)
  {
    WalksAgree(f, 12, None, FORMAT_LIMIT, DATA_LIMIT);
  }

  // ---- well-made files -----------------------------------------------------

  /** The chunks of a file start at these places: each begins where the one before ends, padded to
      an even size, from byte 12 on; the last is the first data chunk. */
  predicate Chunks(f: Bytes, ps: seq<nat>) {
    && ps != [] && ps[0] == 12
    && (forall i :: 0 <= i < |ps| ==> ps[i] + 8 <= |f| && ps[i] < 0x8000_0000)
    && (forall i :: 0 <= i < |ps| - 1 ==>
          !Tagged(f, ps[i], 0x64, 0x61, 0x74, 0x61) && ps[i + 1] == ps[i] + 8 + SizeAt(f, ps[i]) + SizeAt(f, ps[i]) % 2)
    && Tagged(f, ps[|ps| - 1], 0x64, 0x61, 0x74, 0x61)
  }

  predicate Tagged(f: Bytes, p: nat, a: Byte, b: Byte, c: Byte, d: Byte)
    requires p + 4 <= |f|
  {
    f[p] == a && f[p + 1] == b && f[p + 2] == c && f[p + 3] == d
  }

  /** The size field, low byte first. */
  function SizeAt(f: Bytes, p: nat): nat
    requires p + 8 <= |f|
  {
    Val(f[p + 4]) + 0x100 * Val(f[p + 5]) + 0x1_0000 * Val(f[p + 6]) + 0x100_0000 * Val(f[p + 7])
  }

  /** Chunk `i` holds a format. */
  predicate FormatChunk(f: Bytes, ps: seq<nat>, i: nat)
    requires Chunks(f, ps) && i < |ps|
  {
    Tagged(f, ps[i], 0x66, 0x6D, 0x74, 0x20) && SizeAt(f, ps[i]) >= 16
  }

  lemma SizeIs(f: Bytes, p: nat)
    requires p + 8 <= |f|
    ensures ChunkSize(f, p) == SizeAt(f, p)
  {
    hide Val;
  }

  lemma TagIs(f: Bytes, p: nat)
    requires p + 4 <= |f|
    ensures f[p..p + 4] == Data() <==> Tagged(f, p, 0x64, 0x61, 0x74, 0x61)
    ensures f[p..p + 4] == Fmt() <==> Tagged(f, p, 0x66, 0x6D, 0x74, 0x20)
  {
    var t := f[p..p + 4];
    assert t == [f[p], f[p + 1], f[p + 2], f[p + 3]];
  }

  /** The step from one chunk to the next. */
  lemma ChunkStep(f: Bytes, ps: seq<nat>, i: nat)
    requires Chunks(f, ps) && i < |ps|
    ensures Readable(f, ps[i]) && ChunkSize(f, ps[i]) == SizeAt(f, ps[i])
    ensures f[ps[i]..ps[i] + 4] == Data() <==> i == |ps| - 1
    ensures f[ps[i]..ps[i] + 4] == Fmt() <==> Tagged(f, ps[i], 0x66, 0x6D, 0x74, 0x20)
    ensures i < |ps| - 1 ==>
      ps[i + 1] == ps[i] + 8 + SizeAt(f, ps[i]) + SizeAt(f, ps[i]) % 2 && NextChunk(f, ps[i]) == ps[i + 1]
  {
    hide Le32, Val, Fmt, Data, SizeAt, ChunkSize, Signed32;
    SizeIs(f, ps[i]);
    TagIs(f, ps[i]);
  }

  /** The format that counts from chunk `i` on, behind one read before. */
  function LastFormat(f: Bytes, ps: seq<nat>, i: nat, before: Option<Format>): Option<Format>
    requires Chunks(f, ps) && i < |ps|
    decreases |ps| - i
  {
    if i == |ps| - 1 then before
    else
      LastFormat(f, ps, i + 1, if FormatChunk(f, ps, i) then ReadFormat(f, ps[i] + 8, before) else before)
  }

  lemma {:induction false} WalkFinds(f: Bytes, ps: seq<nat>, i: nat, fmt: Option<Format>, steps: nat)
    requires Chunks(f, ps) && i < |ps| && steps + ps[i] >= 4096
    ensures var n := |ps| - 1; var last := LastFormat(f, ps, i, fmt);
      Walk(f, ps[i], fmt, steps) ==
        if ps[n] < 4096 && last.Some? then Header(last.value, ps[n] + 8, SizeAt(f, ps[n])) else Invalid(-3)
    decreases |ps| - i
  {
    hide Le32, Val, Fmt, Data, SizeAt, ChunkSize, Signed32, NextChunk, ReadFormat, Tagged, Chunks;
    ChunkStep(f, ps, i);
    PlacesGrow(f, ps, i);
    if i < |ps| - 1 && ps[i] < 4096 {
      WalkFinds(f, ps, i + 1, FormatAt(f, ps[i], fmt), steps - 1);
    }
  }

  lemma {:induction false} PlacesGrow(f: Bytes, ps: seq<nat>, i: nat)
    requires Chunks(f, ps) && i < |ps|
    ensures i < |ps| - 1 ==> ps[i] < ps[i + 1]
    ensures ps[i] <= ps[|ps| - 1]
    decreases |ps| - i
  {
    hide SizeAt;
    if i < |ps| - 1 {
      PlacesGrow(f, ps, i + 1);
    }
  }

  lemma {:induction false} SeekFinds(f: Bytes, ps: seq<nat>, i: nat, steps: nat)
    requires Chunks(f, ps) && i < |ps| && steps + ps[i] >= 65536
    ensures var n := |ps| - 1;
      Seek(f, ps[i], steps) == if ps[n] < 65536 then Found(ps[n] + 8, SizeAt(f, ps[n])) else NotFound
    decreases |ps| - i
  {
    hide Le32, Val, Fmt, Data, SizeAt, ChunkSize, Signed32, NextChunk, Tagged, Chunks;
    ChunkStep(f, ps, i);
    PlacesGrow(f, ps, i);
    if i < |ps| - 1 && ps[i] < 65536 {
      SeekFinds(f, ps, i + 1, steps - 1);
    }
  }

  /** A format chunk in front of another chunk is complete; of several the last one counts. */
  lemma {:induction false} LastFormatIs(f: Bytes, ps: seq<nat>, i: nat, before: Option<Format>, k: nat)
    requires Chunks(f, ps) && i <= k < |ps|
    requires forall j :: k <= j < |ps| - 1 ==> !FormatChunk(f, ps, j)
    ensures k == i ==> LastFormat(f, ps, i, before) == before
    ensures k > i && FormatChunk(f, ps, k - 1) ==>
      ps[k - 1] + 24 <= |f| && LastFormat(f, ps, i, before) == Some(f[ps[k - 1] + 8..ps[k - 1] + 24])
    decreases |ps| - i
  {
    hide SizeAt, Tagged;
    if i < |ps| - 1 {
      var now := if FormatChunk(f, ps, i) then ReadFormat(f, ps[i] + 8, before) else before;
      LastFormatIs(f, ps, i + 1, now, if k == i then k + 1 else k);
    }
  }

  predicate WaveFile(f: Bytes, ps: seq<nat>) {
    && |f| >= 12 && Tagged(f, 0, 0x52, 0x49, 0x46, 0x46) && Tagged(f, 8, 0x57, 0x41, 0x56, 0x45)
    && Chunks(f, ps)
  }

  /** In a well-made file the uploader finds the first data chunk within 65536 bytes; and the
      recorder's reader fails with -3 if that chunk is not within 4096 bytes or no format chunk is
      in front of it. */
  lemma WellMade(f: Bytes, ps: seq<nat>)
    requires WaveFile(f, ps)
    ensures var p := ps[|ps| - 1];
      && DataOf(f) == (if p < 65536 then Found(p + 8, SizeAt(f, p)) else NotFound)
      && (p >= 4096 || (forall i :: 0 <= i < |ps| - 1 ==> !FormatChunk(f, ps, i)) ==> HeaderOf(f) == Invalid(-3))
  {
    FirstPlace(f, ps);
    hide SizeAt, Chunks, Walk, Seek, FormatChunk, LastFormat;
    MagicIs(f);
    WalkFinds(f, ps, 0, None, 4096);
    SeekFinds(f, ps, 0, 65536);
    if forall i :: 0 <= i < |ps| - 1 ==> !FormatChunk(f, ps, i) {
      LastFormatIs(f, ps, 0, None, 0);
    }
  }

  /** Otherwise it returns that chunk, with the last format in front of it. */
  lemma WellMadeFormat(f: Bytes, ps: seq<nat>, i: nat)
    requires WaveFile(f, ps) && ps[|ps| - 1] < 4096 && i < |ps| - 1 && FormatChunk(f, ps, i)
    requires forall j :: i < j < |ps| - 1 ==> !FormatChunk(f, ps, j)
    ensures ps[i] + 24 <= |f|
    ensures var p := ps[|ps| - 1];
      HeaderOf(f) == Header(f[ps[i] + 8..ps[i] + 24], p + 8, SizeAt(f, p))
  {
    hide SizeAt, Chunks, Walk, Seek, FormatChunk, LastFormat, Tagged, HasMagic, HeaderOf;
    FirstPlace(f, ps);
    MagicIs(f);
    HeaderWalk(f);
    WalkFinds(f, ps, 0, None, 4096);
    LastFormatIs(f, ps, 0, None, i + 1);
  }

  lemma FirstPlace(f: Bytes, ps: seq<nat>)
    requires Chunks(f, ps)
    ensures ps != [] && ps[0] == 12
  {}

  lemma MagicIs(f: Bytes)
    requires |f| >= 12
    ensures HasMagic(f) <==> Tagged(f, 0, 0x52, 0x49, 0x46, 0x46) && Tagged(f, 8, 0x57, 0x41, 0x56, 0x45)
  {
    assert f[..4] == [f[0], f[1], f[2], f[3]] && f[8..12] == [f[8], f[9], f[10], f[11]];
  }
}
