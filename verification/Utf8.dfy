/** The chat page's UTF-8 check and in-place repair. Only the byte shape is looked at: a
    lead byte and as many continuation bytes as it announces. */
module Utf8 {
  import opened Bytes
  import opened CStrings

  // ---- byte classes --------------------------------------------------------

  predicate IsAscii(c: Byte) {
    c < 0x80
  }

  predicate IsContinuation(c: Byte) {
    c & 0xC0 == 0x80
  }

  /** Continuation bytes announced by a lead byte; -1 if it is not one. */
  function Announced(c: Byte): (n: int)
    ensures -1 <= n <= 3
    ensures n == 0 <==> IsAscii(c)
  {
    if c < 0x80 then 0
    else if c & 0xE0 == 0xC0 then 1
    else if c & 0xF0 == 0xE0 then 2
    else if c & 0xF8 == 0xF0 then 3
    else -1
  }

  lemma Classes(c: Byte)
    ensures IsContinuation(c) ==> !IsAscii(c) && c != 0 && Announced(c) == -1
    ensures IsAscii(0)
  {}

  // ---- the shape -----------------------------------------------------------

  /** The string starts with a complete character. */
  predicate StartsWhole(s: Bytes)
    requires s != []
  {
    var n := Announced(s[0]);
    0 <= n < |s| && forall i :: 1 <= i <= n ==> IsContinuation(s[i])
  }

  function CharLength(s: Bytes): (n: nat)
    requires s != [] && StartsWhole(s)
    ensures 1 <= n <= |s|
  {
    1 + Announced(s[0])
  }

  predicate IsValid(s: Bytes)
    decreases |s|
  {
    s == [] || (StartsWhole(s) && IsValid(s[CharLength(s)..]))
  }

  /** Complete characters are kept; a byte that starts none is dropped. */
  function Sanitized(s: Bytes): (r: Bytes)
    ensures |r| <= |s|
    decreases |s|
  {
    if s == [] then []
    else if StartsWhole(s) then s[..CharLength(s)] + Sanitized(s[CharLength(s)..])
    else Sanitized(s[1..])
  }

  lemma WholeThen(c: Bytes, s: Bytes)
    requires c != [] && StartsWhole(c) && |c| == CharLength(c)
    ensures StartsWhole(c + s) && CharLength(c + s) == |c|
    ensures (c + s)[|c|..] == s
  {
    hide Announced, IsContinuation;
  }

  lemma WholePrefix(s: Bytes)
    requires s != [] && StartsWhole(s)
    ensures var c := s[..CharLength(s)]; StartsWhole(c) && CharLength(c) == |c|
  {
    hide Announced, IsContinuation;
  }

  /** Repaired text always passes the check. */
  lemma {:induction false} SanitizedIsValid(s: Bytes)
    ensures IsValid(Sanitized(s))
    decreases |s|
  {
    hide StartsWhole, CharLength;
    if s != [] {
      if StartsWhole(s) {
        SanitizedIsValid(s[CharLength(s)..]);
        WholePrefix(s);
        WholeThen(s[..CharLength(s)], Sanitized(s[CharLength(s)..]));
      } else {
        SanitizedIsValid(s[1..]);
      }
    }
  }

  /** The repair changes exactly the strings that fail the check. */
  lemma {:induction false} SanitizedIsIdentityIff(s: Bytes)
    ensures Sanitized(s) == s <==> IsValid(s)
    decreases |s|
  {
    hide StartsWhole, CharLength;
    SanitizedIsValid(s);
    if s != [] && IsValid(s) {
      SanitizedIsIdentityIff(s[CharLength(s)..]);
      assert s == s[..CharLength(s)] + s[CharLength(s)..];
    }
  }

  lemma SanitizedIsIdempotent(s: Bytes)
    ensures Sanitized(Sanitized(s)) == Sanitized(s)
  {
    SanitizedIsValid(s);
    SanitizedIsIdentityIff(Sanitized(s));
  }

  function AsciiOf(s: Bytes): Bytes
    decreases |s|
  {
    if s == [] then [] else (if IsAscii(s[0]) then [s[0]] else []) + AsciiOf(s[1..])
  }

  /** No ASCII byte is ever lost or moved. */
  lemma {:induction false} SanitizedKeepsAscii(s: Bytes)
    ensures AsciiOf(Sanitized(s)) == AsciiOf(s)
    decreases |s|
  {
    hide IsContinuation, IsAscii;
    if s != [] {
      if StartsWhole(s) {
        var n := CharLength(s);
        var c, rest := s[..n], s[n..];
        SanitizedKeepsAscii(rest);
        AsciiOfChar(s, rest);
        WholePrefix(s);
        WholeThen(c, Sanitized(rest));
        AsciiOfChar(c + Sanitized(rest), Sanitized(rest));
      } else {
        SanitizedKeepsAscii(s[1..]);
      }
    }
  }

  lemma AsciiOfChar(s: Bytes, rest: Bytes)
    requires s != [] && StartsWhole(s) && rest == s[CharLength(s)..]
    ensures AsciiOf(s) == (if IsAscii(s[0]) then [s[0]] else []) + AsciiOf(rest)
  {
    hide IsContinuation, IsAscii;
    var n := CharLength(s);
    AsciiOfContinuations(s[1..], n - 1);
    assert s[1..][n - 1..] == rest;
  }

  lemma {:induction false} AsciiOfContinuations(s: Bytes, n: nat)
    requires n <= |s| && forall i :: 0 <= i < n ==> IsContinuation(s[i])
    ensures AsciiOf(s) == AsciiOf(s[n..])
    decreases n
  {
    hide IsContinuation, IsAscii;
    if n > 0 {
      Classes(s[0]);
      AsciiOfContinuations(s[1..], n - 1);
      assert s[1..][n - 1..] == s[n..];
    } else {
      assert s[n..] == s;
    }
  }

  // ---- the C code, on a NUL-terminated buffer -------------------------------

  /** Reads the announced continuation bytes behind `src`; the terminator is none. */
  method CheckRest(str: array<Byte>, src: nat, expected: int, ghost len: nat, ghost s: Bytes) returns (whole: bool)
    requires src < len == |s| && len < str.Length && str[len] == 0
    requires forall k :: 0 <= k < len ==> s[k] != 0
    requires str[src..len] == s[src..]
    requires expected == Announced(s[src]) >= 0
    ensures whole <==> StartsWhole(s[src..])
  {
    hide IsContinuation, Announced;
    ghost var rest := s[src..];
    assert forall k :: src <= k < len ==> str[k] == str[src..len][k - src] == rest[k - src];
    Classes(0);
    var i := 0;
    while i < expected
      invariant 0 <= i <= expected && i < |rest|
      invariant forall j :: 1 <= j <= i ==> IsContinuation(rest[j])
    {
      if !IsContinuation(str[src + 1 + i]) {
        return false;
      }
      Classes(str[src + 1 + i]);
      i := i + 1;
    }
    return true;
  }

  method IsValidUtf8(str: array<Byte>, ghost len: nat) returns (ok: bool)
    requires Terminated(str, len)
    ensures ok <==> IsValid(str[..len])
  {
    hide IsContinuation, StartsWhole;
    ghost var s := str[..len];
    var p := 0;
    assert s[0..] == s;
    while str[p] != 0
      invariant 0 <= p <= len
      invariant IsValid(s) <==> IsValid(s[p..])
      decreases len - p
    {
      var expected := Announced(str[p]);
      assert s[p..][0] == str[p];
      if expected < 0 {
        NotALead(s[p..]);
        return false;
      }
      assert str[p..len] == s[p..];
      var whole := CheckRest(str, p, expected, len, s);
      if !whole {
        return false;
      }
      assert CharLength(s[p..]) == 1 + expected;
      assert s[p..][1 + expected..] == s[p + 1 + expected..];
      p := p + 1 + expected;
    }
    return true;
  }

  lemma NotALead(s: Bytes)
    requires s != [] && Announced(s[0]) < 0
    ensures !StartsWhole(s)
  {}

  method SanitizeInPlace(str: array<Byte>, ghost len: nat) returns (ghost len': nat)
    requires Terminated(str, len)
    modifies str
    ensures Terminated(str, len') && str[..len'] == Sanitized(old(str[..len]))
    ensures len' <= len && str[len + 1..] == old(str[len + 1..])
  {
    hide IsContinuation, Announced, StartsWhole, Sanitized;
    ghost var s, done := str[..len], [];
    var src, dst := 0, 0;
    assert s[0..] == s && [] + Sanitized(s) == Sanitized(s);
    while str[src] != 0
      invariant 0 <= dst <= src <= len
      invariant forall k :: src <= k < str.Length ==> str[k] == old(str[k])
      invariant done == str[..dst] && Sanitized(s) == done + Sanitized(s[src..])
      decreases len - src
    {
      src, dst, done := Round(str, src, dst, len, s, done);
    }
    SanitizedEmpty();
    assert s[src..] == [] && done + [] == done;
    str[dst] := 0;
    len' := dst;
    assert str[..len'] == done;
    SanitizedHasNoNul(s);
    assert forall k :: 0 <= k < len' ==> str[k] == done[k];
  }

  /** One round of the loop, at `src` with output up to `dst`. */
  method Round(str: array<Byte>, src: nat, dst: nat, ghost len: nat, ghost s: Bytes, ghost done: Bytes)
    returns (src': nat, dst': nat, ghost done': Bytes)
    requires dst <= src < len == |s| && len < str.Length && str[len] == 0
    requires forall k :: 0 <= k < len ==> s[k] != 0
    requires forall k :: src <= k < len ==> str[k] == s[k]
    requires done == str[..dst] && Sanitized(s) == done + Sanitized(s[src..])
    modifies str
    ensures dst' <= src' && src < src' <= len
    ensures forall k :: src' <= k < str.Length ==> str[k] == old(str[k])
    ensures done' == str[..dst'] && Sanitized(s) == done' + Sanitized(s[src'..])
  {
    hide IsContinuation, Announced, StartsWhole, Sanitized;
    var expected := Announced(str[src]);
    assert s[src..][0] == str[src];
    var keep := false;
    if expected >= 0 {
      assert str[src..len] == s[src..];
      keep := CheckRest(str, src, expected, len, s);
    } else {
      NotALead(s[src..]);
    }
    if keep {
      CharLengthIs(s[src..]);
      var n := 1 + expected;
      SanitizedKeeps(s, src, n, done);
      assert str[src..src + n] == s[src..src + n];
      CopyChar(str, src, dst, n);
      src', dst', done' := src + n, dst + n, done + s[src..src + n];
    } else {
      SanitizedDrops(s, src, done);
      src', dst', done' := src + 1, dst, done;
    }
  }

  lemma {:induction false} SanitizedHasNoNul(s: Bytes)
    requires forall k :: 0 <= k < |s| ==> s[k] != 0
    ensures forall k :: 0 <= k < |Sanitized(s)| ==> Sanitized(s)[k] != 0
    decreases |s|
  {
    hide StartsWhole, CharLength;
    if s != [] {
      SanitizedHasNoNul(if StartsWhole(s) then s[CharLength(s)..] else s[1..]);
    }
  }

  lemma SanitizedEmpty()
    ensures Sanitized([]) == []
  {}

  lemma CharLengthIs(s: Bytes)
    requires s != [] && StartsWhole(s)
    ensures CharLength(s) == 1 + Announced(s[0])
  {}

  /** One round of the loop: a whole character moves to the output ... */
  lemma SanitizedKeeps(s: Bytes, src: nat, n: nat, done: Bytes)
    requires src < |s| && Sanitized(s) == done + Sanitized(s[src..])
    requires StartsWhole(s[src..]) && n == CharLength(s[src..])
    ensures src + n <= |s| && Sanitized(s) == (done + s[src..src + n]) + Sanitized(s[src + n..])
  {
    SanitizedWhole(s[src..]);
    CutTwice(s, src, n);
    Associate(done, s[src..src + n], Sanitized(s[src + n..]));
  }

  lemma CutTwice<T>(s: seq<T>, i: nat, n: nat)
    requires i + n <= |s|
    ensures s[i..][..n] == s[i..i + n] && s[i..][n..] == s[i + n..]
  {}

  /** ... and any other byte is lost. */
  lemma SanitizedDrops(s: Bytes, src: nat, done: Bytes)
    requires src < |s| && Sanitized(s) == done + Sanitized(s[src..])
    requires !StartsWhole(s[src..])
    ensures Sanitized(s) == done + Sanitized(s[src + 1..])
  {
    SanitizedBroken(s[src..]);
    assert s[src..][1..] == s[src + 1..];
  }

  lemma SanitizedWhole(s: Bytes)
    requires s != [] && StartsWhole(s)
    ensures Sanitized(s) == s[..CharLength(s)] + Sanitized(s[CharLength(s)..])
  {}

  lemma SanitizedBroken(s: Bytes)
    requires s != [] && !StartsWhole(s)
    ensures Sanitized(s) == Sanitized(s[1..])
  {}

  /** Byte-by-byte copy towards the front; source and destination may overlap. */
  method CopyChar(str: array<Byte>, src: nat, dst: nat, n: nat)
    requires dst <= src && src + n <= str.Length
    modifies str
    ensures str[..dst + n] == old(str[..dst]) + old(str[src..src + n])
    ensures forall k :: src + n <= k < str.Length ==> str[k] == old(str[k])
  {
    var i := 0;
    while i < n
      invariant 0 <= i <= n
      invariant str[..dst + i] == old(str[..dst]) + old(str[src..src + i])
      invariant forall k :: src + i <= k < str.Length ==> str[k] == old(str[k])
    {
      ghost var before := str[..dst + i];
      str[dst + i] := str[src + i];
      assert str[..dst + i + 1] == before + [old(str[src + i])];
      i := i + 1;
    }
  }

  // ---- text as RFC 3629 encodes it ------------------------------------------

  /** The test on a byte, by its value. */
  lemma ByValue(c: Byte)
    ensures IsContinuation(c) <==> 128 <= Val(c) < 192
    ensures Announced(c) == if Val(c) < 128 then 0 else if 192 <= Val(c) < 224 then 1
      else if 224 <= Val(c) < 240 then 2 else if 240 <= Val(c) < 248 then 3 else -1
  {}

  /** A code point. */
  type Point = u: nat | u < 0x11_0000

  /** Section 3 of RFC 3629: the bytes of one character. */
  function Encoded(u: Point): (s: Bytes)
    ensures s != []
  {
    if u < 0x80 then [ToByte(u)]
    else if u < 0x800 then [ToByte(0xC0 + u / 64), ToByte(0x80 + u % 64)]
    else if u < 0x1_0000 then [ToByte(0xE0 + u / 4096), ToByte(0x80 + u / 64 % 64), ToByte(0x80 + u % 64)]
    else [ToByte(0xF0 + u / 0x4_0000), ToByte(0x80 + u / 4096 % 64), ToByte(0x80 + u / 64 % 64), ToByte(0x80 + u % 64)]
  }

  function Text(us: seq<Point>): Bytes {
    if us == [] then [] else Encoded(us[0]) + Text(us[1..])
  }

  lemma EncodedIsWhole(u: Point, rest: Bytes)
    ensures var s := Encoded(u) + rest;
      StartsWhole(s) && CharLength(s) == |Encoded(u)|
  {
    hide Val, IsContinuation, Announced, IsAscii;
    var e := Encoded(u);
    forall i | 0 <= i < |e|
      ensures IsContinuation(e[i]) <==> 128 <= Val(e[i]) < 192
    {
      ByValue(e[i]);
    }
    ByValue(e[0]);
    assert forall i :: 0 <= i < |e| ==> (e + rest)[i] == e[i];
  }

  /** Text in any script passes the test and is not touched by the repair. */
  lemma {:induction false} TextIsKept(us: seq<Point>)
    ensures IsValid(Text(us)) && Sanitized(Text(us)) == Text(us)
    decreases |us|
  {
    if us != [] {
      hide StartsWhole, CharLength, Encoded;
      var e, rest := Encoded(us[0]), Text(us[1..]);
      EncodedIsWhole(us[0], rest);
      TextIsKept(us[1..]);
      assert (e + rest)[|e|..] == rest && (e + rest)[..|e|] == e;
    }
  }

  lemma LeadWhole(t: Bytes, c: Byte, s: Bytes, n: nat)
    requires t == [c] + s && n == Announced(c) && n <= |s| && forall i :: 0 <= i < n ==> IsContinuation(s[i])
    ensures StartsWhole(t) && CharLength(t) == n + 1
  {
    hide IsContinuation, Announced;
    forall i | 1 <= i <= n ensures IsContinuation(t[i]) {
      assert t[i] == s[i - 1];
    }
  }

  lemma LeadKept(c: Byte, s: Bytes, n: nat)
    requires n == Announced(c) && n <= |s| && forall i :: 0 <= i < n ==> IsContinuation(s[i])
    ensures Sanitized([c] + s) == [c] + s[..n] + Sanitized(s[n..])
    ensures IsValid([c] + s) <==> IsValid(s[n..])
  {
    hide IsContinuation, Announced, CharLength, Sanitized, IsValid, StartsWhole;
    var t := [c] + s;
    LeadWhole(t, c, s, n);
    SanitizedWhole(t);
    ValidWhole(t);
    HeadSplits(c, s, n, Sanitized(s[n..]));
  }

  lemma ValidWhole(s: Bytes)
    requires s != [] && StartsWhole(s)
    ensures IsValid(s) <==> IsValid(s[CharLength(s)..])
  {}

  lemma HeadSplits<T>(c: T, s: seq<T>, n: nat, rest: seq<T>)
    requires n <= |s|
    ensures ([c] + s)[..n + 1] + rest == [c] + s[..n] + rest && ([c] + s)[n + 1..] == s[n..]
  {}

  lemma LeadLost(c: Byte, s: Bytes, i: nat)
    requires !(0 <= Announced(c) <= |s|) || (i < Announced(c) && !IsContinuation(s[i]))
    ensures Sanitized([c] + s) == Sanitized(s) && !IsValid([c] + s)
  {
    hide IsContinuation, Announced;
    var t := [c] + s;
    assert t[1..] == s;
    if 0 <= Announced(c) <= |s| {
      assert t[i + 1] == s[i];
    }
    assert !StartsWhole(t);
  }

  /** What becomes of byte `c` with `s` behind it, by value: a character of one to four bytes is
      kept if all of it is there, anything else costs that one byte. */
  lemma LeadDecides(c: Byte, s: Bytes)
    ensures var n := if Val(c) < 128 then 0 else if 192 <= Val(c) < 224 then 1
      else if 224 <= Val(c) < 240 then 2 else if 240 <= Val(c) < 248 then 3 else -1;
      if 0 <= n <= |s| && forall i :: 0 <= i < n ==> 128 <= Val(s[i]) < 192
      then Sanitized([c] + s) == [c] + s[..n] + Sanitized(s[n..]) && (IsValid([c] + s) <==> IsValid(s[n..]))
      else Sanitized([c] + s) == Sanitized(s) && !IsValid([c] + s)
  {
    hide Val, IsContinuation, Announced, Sanitized, IsValid;
    ByValue(c);
    forall i | 0 <= i < |s| ensures IsContinuation(s[i]) <==> 128 <= Val(s[i]) < 192 {
      ByValue(s[i]);
    }
    var n := Announced(c);
    if 0 <= n <= |s| {
      if i :| 0 <= i < n && !IsContinuation(s[i]) {
        LeadLost(c, s, i);
      } else {
        LeadKept(c, s, n);
      }
    } else {
      LeadLost(c, s, 0);
    }
  }
}
