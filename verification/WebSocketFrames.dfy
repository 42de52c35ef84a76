/** WebSocket framing of the meeting transcription client (sections 5.2 and 5.3 of RFC 6455):
    masked frames out, unmasked frames in, over a TLS stream that reads short. */
module WebSocketFrames {
  import opened Bytes
  import opened TlsStream

  const TEXT: nat := 1
  const BINARY: nat := 2
  const CLOSE: nat := 8
  const CHUNK: nat := 1024

  // ---- the first two header bytes ------------------------------------------

  function WithTopBit(b: Byte): Byte {
    0x80 | b
  }

  function LowSeven(b: Byte): Byte {
    b & 0x7F
  }

  function LowFour(b: Byte): Byte {
    b & 0x0F
  }

  predicate TopBit(b: Byte) {
    b & 0x80 != 0
  }

  lemma SmallByte(b: Byte)
    requires Val(b) < 128
    ensures !TopBit(b) && LowSeven(b) == b
  {}

  lemma TinyByte(b: Byte)
    requires Val(b) < 16
    ensures LowFour(b) == b && LowFour(WithTopBit(b)) == b
  {}

  lemma TopBitLaws(b: Byte)
    ensures TopBit(WithTopBit(b))
    ensures !TopBit(b) ==> LowSeven(WithTopBit(b)) == b
  {}

  // ---- frames as RFC 6455 lays them out ------------------------------------

  function Xor(b: Byte, m: Byte): Byte {
    b ^ m
  }

  lemma XorTwice(b: Byte, m: Byte)
    ensures Xor(Xor(b, m), m) == b
  {}

  /** Section 5.3: byte `i` is combined with byte `i mod 4` of the key. */
  function Masked(p: Bytes, key: Bytes): (r: Bytes)
    requires |key| == 4
    ensures |r| == |p| && forall i :: 0 <= i < |p| ==> r[i] == Xor(p[i], key[i % 4]) == p[i] ^ key[i % 4]
  {
    seq(|p|, i requires 0 <= i < |p| => Xor(p[i], key[i % 4]))
  }

  function SevenBits(n: nat, masked: bool): Byte
    requires n < 128
  {
    if masked then WithTopBit(ToByte(n)) else ToByte(n)
  }

  /** The shortest of the three length forms. */
  function LengthField(n: nat, masked: bool): (f: Bytes)
    requires n < 0x1_0000_0000
    ensures |f| == if n < 126 then 1 else if n < 0x1_0000 then 3 else 9
  {
    if n < 126 then [SevenBits(n, masked)]
    else if n < 0x1_0000 then [SevenBits(126, masked)] + Enc16(n)
    else [SevenBits(127, masked)] + [0, 0, 0, 0] + Enc32(n)
  }

  function FirstByte(opcode: nat): Byte
    requires opcode < 16
  {
    WithTopBit(ToByte(opcode))
  }

  function ClientFrame(opcode: nat, key: Bytes, p: Bytes): Bytes
    requires opcode < 16 && |key| == 4 && |p| < 0x1_0000_0000
  {
    [FirstByte(opcode)] + LengthField(|p|, true) + key + Masked(p, key)
  }

  function ServerFrame(opcode: nat, p: Bytes): Bytes
    requires opcode < 16 && |p| < 0x1_0000_0000
  {
    [FirstByte(opcode)] + LengthField(|p|, false) + p
  }

  // ---- reading a header ----------------------------------------------------

  /** Payload length and header length without the key; the length form may be truncated. */
  datatype Lengths = Lengths(payload: nat, header: nat) | Short

  function ReadLengths(s: Bytes): (r: Lengths)
    ensures r.Lengths? ==> r.header <= |s|
  {
    if |s| < 2 then Short
    else
      var n := Val(LowSeven(s[1]));
      if n == 126 then (if |s| < 4 then Short else Lengths(Be16(s[2], s[3]), 4))
      else if n == 127 then
        (if |s| < 10 then Short else Lengths(Be32(s[2..6]) * 0x1_0000_0000 + Be32(s[6..10]), 10))
      else Lengths(n, 2)
  }

  /** A decoder written from section 5.2, independent of the sender. */
  datatype Decoded =
    | Decoded(fin: bool, opcode: nat, masked: bool, minimal: bool, payload: Bytes, rest: Bytes)
    | Incomplete

  function Decode(s: Bytes): Decoded {
    var l := ReadLengths(s);
    if l.Short? then Incomplete
    else
      var masked := TopBit(s[1]);
      var start := l.header + (if masked then 4 else 0);
      if |s| < start + l.payload then Incomplete
      else
        var body := s[start..start + l.payload];
        Decoded(TopBit(s[0]), Val(LowFour(s[0])), masked,
                (l.header == 4 ==> l.payload >= 126) && (l.header == 10 ==> l.payload >= 0x1_0000),
                if masked then Masked(body, s[l.header..l.header + 4]) else body,
                s[start + l.payload..])
  }

  lemma HeaderReads(opcode: nat, n: nat, masked: bool, tail: Bytes)
    requires opcode < 16 && n < 0x1_0000_0000
    ensures var s := [FirstByte(opcode)] + LengthField(n, masked) + tail;
      && ReadLengths(s) == Lengths(n, 1 + |LengthField(n, masked)|)
      && TopBit(s[0]) && Val(LowFour(s[0])) == opcode && TopBit(s[1]) == masked
      && s[1 + |LengthField(n, masked)|..] == tail
  {
    hide LowSeven, LowFour, WithTopBit, TopBit, ToByte, Val, Be16, Be32, Enc16, Enc32;
    var s := [FirstByte(opcode)] + LengthField(n, masked) + tail;
    var k := if n < 126 then n else if n < 0x1_0000 then 126 else 127;
    TinyByte(ToByte(opcode));
    TopBitLaws(ToByte(opcode));
    SmallByte(ToByte(k));
    TopBitLaws(ToByte(k));
    assert s[1] == SevenBits(k, masked);
    if 126 <= n < 0x1_0000 {
      assert s[2] == Enc16(n)[0] && s[3] == Enc16(n)[1];
    } else if n >= 0x1_0000 {
      assert s[2..6] == [0, 0, 0, 0] && s[6..10] == Enc32(n);
      ZeroField();
    }
  }

  lemma ZeroField()
    ensures Be32([0, 0, 0, 0]) == 0
  {
    assert Val(0) == 0;
  }

  /** Every frame the client sends decodes to its payload, final, masked, with the minimal
      length form, and nothing left over. */
  lemma ClientFrameDecodes(opcode: nat, key: Bytes, p: Bytes, rest: Bytes)
    requires opcode < 16 && |key| == 4 && |p| < 0x1_0000_0000
    ensures Decode(ClientFrame(opcode, key, p) + rest) == Decoded(true, opcode, true, true, p, rest)
  {
    hide LowSeven, LowFour, WithTopBit, TopBit, ToByte, Val, ReadLengths, LengthField, Xor;
    var m := Masked(p, key);
    var tail := key + m + rest;
    var s := ClientFrame(opcode, key, p) + rest;
    var h := 1 + |LengthField(|p|, true)|;
    assert s == [FirstByte(opcode)] + LengthField(|p|, true) + tail;
    HeaderReads(opcode, |p|, true, tail);
    assert s[h..][..4] == key && s[h..][4..4 + |p|] == m && s[h..][4 + |p|..] == rest;
    assert s[h..h + 4] == key && s[h + 4..h + 4 + |p|] == m && s[h + 4 + |p|..] == rest;
    forall i | 0 <= i < |p|
      ensures Masked(m, key)[i] == p[i]
    {
      XorTwice(p[i], key[i % 4]);
    }
    assert Masked(m, key) == p;
  }

  // ---- the sender ----------------------------------------------------------

  lemma HeaderBytes(opcode: nat, n: nat)
    requires opcode < 16 && n < 0x1_0000_0000
    ensures var h := [FirstByte(opcode)] + LengthField(n, true);
      if n < 126 then h == [FirstByte(opcode), SevenBits(n, true)]
      else if n < 0x1_0000 then h == [FirstByte(opcode), SevenBits(126, true), Enc16(n)[0], Enc16(n)[1]]
      else h == [FirstByte(opcode), SevenBits(127, true), 0, 0, 0, 0,
                 Enc32(n)[0], Enc32(n)[1], Enc32(n)[2], Enc32(n)[3]]
  {
    hide FirstByte, SevenBits, Enc16, Enc32;
  }

  lemma TopBitAdds(b: Byte)
    requires Val(b) < 128
    ensures Val(WithTopBit(b)) == 128 + Val(b)
  {}

  /** The header octet by octet (section 5.2): the final bit and the opcode; then the length in
      seven bits, or 126 and two octets, or 127 and eight, the highest first. The top bit of the
      second octet says masked. */
  lemma HeaderOctets(opcode: nat, n: nat, masked: bool)
    requires opcode < 16 && n < 0x1_0000_0000
    ensures var h := [FirstByte(opcode)] + LengthField(n, masked); var m := if masked then 128 else 0;
      && Val(h[0]) == 128 + opcode
      && (n <= 125 ==> |h| == 2 && Val(h[1]) == m + n)
      && (126 <= n <= 65535 ==> |h| == 4 && Val(h[1]) == m + 126 && n == 256 * Val(h[2]) + Val(h[3]))
      && (n >= 65536 ==>
            && |h| == 10 && Val(h[1]) == m + 127
            && Val(h[2]) == Val(h[3]) == Val(h[4]) == Val(h[5]) == 0
            && n == 0x100_0000 * Val(h[6]) + 0x1_0000 * Val(h[7]) + 256 * Val(h[8]) + Val(h[9]))
  {
    hide WithTopBit, Val;
    TopBitAdds(ToByte(opcode));
    TopBitAdds(ToByte(if n < 126 then n else if n < 0x1_0000 then 126 else 127));
    ZeroByte();
  }

  lemma ZeroByte()
    ensures Val(0) == 0
  {}

  /** Fills `hdr` up to the key and says how far. */
  method FillHeader(hdr: array<Byte>, opcode: nat, n: nat) returns (len: nat)
    requires hdr.Length == 14 && opcode < 16 && n < 0x1_0000_0000
    modifies hdr
    ensures 2 <= len <= 10 && hdr[..len] == [FirstByte(opcode)] + LengthField(n, true)
  {
    hide LengthField, Enc16, Enc32, ToByte, WithTopBit;
    HeaderBytes(opcode, n);
    hdr[0] := WithTopBit(ToByte(opcode));
    if n < 126 {
      hdr[1] := WithTopBit(ToByte(n));
      len := 2;
    } else if n <= 0xFFFF {
      var e := Enc16(n);
      hdr[1], hdr[2], hdr[3] := WithTopBit(ToByte(126)), e[0], e[1];
      len := 4;
    } else {
      var e := Enc32(n);
      hdr[1] := WithTopBit(ToByte(127));
      hdr[2], hdr[3], hdr[4], hdr[5] := 0, 0, 0, 0;
      hdr[6], hdr[7], hdr[8], hdr[9] := e[0], e[1], e[2], e[3];
      len := 10;
    }
  }

  method BuildHeader(opcode: nat, key: Bytes, n: nat) returns (out: Bytes)
    requires opcode < 16 && |key| == 4 && n < 0x1_0000_0000
    ensures out == [FirstByte(opcode)] + LengthField(n, true) + key
  {
    hide LengthField, FirstByte;
    var hdr := new Byte[14];
    var len := FillHeader(hdr, opcode, n);
    ghost var front := hdr[..len];
    hdr[len], hdr[len + 1], hdr[len + 2], hdr[len + 3] := key[0], key[1], key[2], key[3];
    assert hdr[..len] == front;
    out := hdr[..len + 4];
    assert out[..len] == front && out[len..] == key;
    assert out == out[..len] + out[len..];
  }

  method MaskChunk(p: Bytes, key: Bytes, sent: nat, clen: nat) returns (out: Bytes)
    requires |key| == 4 && sent + clen <= |p| && clen <= CHUNK
    ensures out == Masked(p, key)[sent..sent + clen]
  {
    hide Xor;
    var chunk := new Byte[CHUNK];
    var i := 0;
    while i < clen
      invariant 0 <= i <= clen
      invariant forall j :: 0 <= j < i ==> chunk[j] == Masked(p, key)[sent + j]
    {
      chunk[i] := Xor(p[sent + i], key[(sent + i) % 4]);
      i := i + 1;
    }
    out := chunk[..clen];
    assert forall j :: 0 <= j < clen ==> out[j] == Masked(p, key)[sent..sent + clen][j];
  }

  lemma Longer(before: Bytes, s: Bytes, a: nat, b: nat)
    requires a <= b <= |s|
    ensures before + s[..a] + s[a..b] == before + s[..b]
    ensures before + s[..a] <= before + s && (a < |s| ==> before + s[..a] < before + s)
  {}

  lemma FrameSplits(before: Bytes, hdr: Bytes, opcode: nat, key: Bytes, p: Bytes)
    requires opcode < 16 && |key| == 4 && |p| < 0x1_0000_0000
    requires hdr == [FirstByte(opcode)] + LengthField(|p|, true) + key
    ensures |Masked(p, key)| == |p| && before + hdr + Masked(p, key) == before + ClientFrame(opcode, key, p)
    ensures before < before + ClientFrame(opcode, key, p)
  {
    hide LengthField, FirstByte, Masked;
    Associate(before, hdr, Masked(p, key));
  }

  /** What goes out is a prefix of one client frame, and the whole of it on success. */
  method SendFrame(tls: Tls, opcode: nat, key: Bytes, p: Bytes) returns (ret: int)
    requires opcode < 16 && |key| == 4 && |p| < 0x1_0000_0000
    modifies tls`written, tls`script
    ensures ret == 0 ==> tls.written == old(tls.written) + ClientFrame(opcode, key, p)
    ensures ret != 0 ==> ret == EIO && old(tls.written) <= tls.written < old(tls.written) + ClientFrame(opcode, key, p)
    ensures NoneFails(old(tls.script)) ==> ret == 0 && NoneFails(tls.script)
  {
    hide LengthField, FirstByte, Masked, ClientFrame, NoneFails, Rest;
    ghost var before := tls.written;
    ghost var masked := Masked(p, key);
    var hdr := BuildHeader(opcode, key, |p|);
    FrameSplits(before, hdr, opcode, key, p);
    ret := tls.WriteAll(hdr);
    if ret != 0 {
      return;
    }
    ghost var base := before + hdr;
    var sent := 0;
    assert base + masked[..0] == base;
    while sent < |p|
      invariant 0 <= sent <= |p| && ret == 0
      invariant tls.written == base + masked[..sent]
      invariant NoneFails(old(tls.script)) ==> NoneFails(tls.script)
    {
      var clen := |p| - sent;
      if clen > CHUNK { clen := CHUNK; }
      var chunk := MaskChunk(p, key, sent, clen);
      Longer(base, masked, sent, sent + clen);
      ret := tls.WriteAll(chunk);
      if ret != 0 {
        return;
      }
      sent := sent + clen;
    }
    assert masked[..sent] == masked;
  }

  /** A text frame: the receiver of RFC 6455 reads the payload back from it. */
  method SendText(tls: Tls, key: Bytes, p: Bytes) returns (ret: int, ghost frame: Bytes)
    requires |key| == 4 && |p| < 0x1_0000_0000
    modifies tls`written, tls`script
    ensures ret == 0 ==> tls.written == old(tls.written) + frame
    ensures NoneFails(old(tls.script)) ==> ret == 0
    ensures Decode(frame) == Decoded(true, 1, true, true, p, [])
  {
    hide Decode, ClientFrame;
    ret := SendFrame(tls, TEXT, key, p);
    frame := ClientFrame(TEXT, key, p);
    ClientFrameDecodes(TEXT, key, p, []);
    assert frame + [] == frame;
  }

  /** A block of audio goes out as a binary frame. */
  method SendBinary(tls: Tls, key: Bytes, p: Bytes) returns (ret: int, ghost frame: Bytes)
    requires |key| == 4 && |p| < 0x1_0000_0000
    modifies tls`written, tls`script
    ensures ret == 0 ==> tls.written == old(tls.written) + frame
    ensures NoneFails(old(tls.script)) ==> ret == 0
    ensures Decode(frame) == Decoded(true, 2, true, true, p, [])
  {
    hide Decode, ClientFrame;
    ret := SendFrame(tls, BINARY, key, p);
    frame := ClientFrame(BINARY, key, p);
    ClientFrameDecodes(BINARY, key, p, []);
    assert frame + [] == frame;
  }
}
