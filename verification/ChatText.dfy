/** The chat page's blank-line removal, run in place on a message after the UTF-8 repair.

    `Collapsed` follows the source's scan. `Reference` says what the scan is for: split the
    text into lines, drop the blank ones, strip trailing blanks from the others, and join
    what remains with single newlines. */
module ChatText {
  import opened Bytes
  import opened CStrings
  import opened Utf8

  const NL: Byte := 0x0A

  predicate IsNewline(c: Byte) { c == 0x0A || c == 0x0D }

  predicate IsBlank(c: Byte) { c == 0x20 || c == 0x09 }

  predicate IsSpace(c: Byte) { IsNewline(c) || IsBlank(c) }

  /** Tab, newline, carriage return and space, and nothing else. */
  lemma SpacesByValue(c: Byte)
    ensures IsNewline(c) <==> Val(c) == 10 || Val(c) == 13
    ensures IsBlank(c) <==> Val(c) == 9 || Val(c) == 32
    ensures IsSpace(c) <==> IsNewline(c) || IsBlank(c)
  {}

  // ---- the scan ------------------------------------------------------------

  function SkipSpace(s: Bytes): (r: Bytes)
    ensures |r| <= |s|
    ensures r != [] ==> !IsSpace(r[0])
    decreases |s|
  {
    if s != [] && IsSpace(s[0]) then SkipSpace(s[1..]) else s
  }

  function SkipBlanks(s: Bytes): (r: Bytes)
    ensures |r| <= |s|
    ensures r != [] ==> !IsBlank(r[0])
    decreases |s|
  {
    if s != [] && IsBlank(s[0]) then SkipBlanks(s[1..]) else s
  }

  /** What the main loop appends from here on. `nl` is whether the last byte written is a
      newline, `some` whether anything has been written. */
  function Squeezed(s: Bytes, nl: bool, some: bool): Bytes
    decreases |s|, 0
  {
    if s == [] then []
    else if IsNewline(s[0]) then AtNewline(s[1..], nl, some)
    else if IsBlank(s[0]) && SkipBlanks(s) != [] && IsNewline(SkipBlanks(s)[0]) then
      AtNewline(SkipBlanks(s)[1..], nl, some)
    else [s[0]] + Squeezed(s[1..], false, true)
  }

  function AtNewline(rest: Bytes, nl: bool, some: bool): Bytes
    decreases |rest|, 1
  {
    if some && !nl then [NL] + Squeezed(rest, true, true) else Squeezed(rest, nl, some)
  }

  /** Trailing newlines and blanks are taken off; a carriage return is never written. */
  function Trimmed(s: Bytes): (r: Bytes)
    ensures |r| <= |s|
    decreases |s|
  {
    if s != [] && (s[|s| - 1] == NL || IsBlank(s[|s| - 1])) then Trimmed(s[..|s| - 1]) else s
  }

  function Collapsed(s: Bytes): Bytes {
    Trimmed(Squeezed(SkipSpace(s), false, false))
  }

  // ---- what it is for ------------------------------------------------------

  function FirstLine(s: Bytes): (l: Bytes)
    ensures |l| <= |s| && l == s[..|l|]
    ensures forall k :: 0 <= k < |l| ==> !IsNewline(l[k])
    ensures |l| < |s| ==> IsNewline(s[|l|])
    decreases |s|
  {
    if s == [] || IsNewline(s[0]) then [] else [s[0]] + FirstLine(s[1..])
  }

  function OtherLines(s: Bytes): (r: Bytes)
    requires s != []
    ensures |r| < |s|
  {
    if |FirstLine(s)| < |s| then s[|FirstLine(s)| + 1..] else []
  }

  predicate AllBlank(l: Bytes) {
    forall k :: 0 <= k < |l| ==> IsBlank(l[k])
  }

  function Stripped(l: Bytes): (r: Bytes)
    ensures |r| <= |l|
    decreases |l|
  {
    if l != [] && IsBlank(l[|l| - 1]) then Stripped(l[..|l| - 1]) else l
  }

  /** The lines that survive. */
  function Kept(s: Bytes): seq<Bytes>
    decreases |s|
  {
    if s == [] then []
    else (if AllBlank(FirstLine(s)) then [] else [Stripped(FirstLine(s))]) + Kept(OtherLines(s))
  }

  function Join(lines: seq<Bytes>): Bytes {
    if lines == [] then []
    else if |lines| == 1 then lines[0]
    else lines[0] + ([NL] + Join(lines[1..]))
  }

  function Reference(s: Bytes): Bytes {
    Join(Kept(SkipSpace(s)))
  }

  // ---- the scan line by line -----------------------------------------------

  lemma {:induction false} SkipBlanksOver(b: Bytes, t: Bytes)
    requires AllBlank(b)
    ensures SkipBlanks(b + t) == SkipBlanks(t)
    decreases |b|
  {
    if b == [] {
      assert b + t == t;
    } else {
      assert (b + t)[1..] == b[1..] + t;
      SkipBlanksOver(b[1..], t);
    }
  }

  /** Blanks before a newline vanish into it. */
  lemma BlanksBeforeNewline(b: Bytes, t: Bytes, nl: bool, some: bool)
    requires AllBlank(b) && t != [] && IsNewline(t[0])
    ensures Squeezed(b + t, nl, some) == AtNewline(t[1..], nl, some)
  {
    SkipBlanksOver(b, t);
    if b == [] {
      assert b + t == t;
    } else {
      assert (b + t)[0] == b[0];
    }
  }

  /** Blanks at the very end are written as they are. */
  lemma {:induction false} BlanksAtEnd(b: Bytes, nl: bool, some: bool)
    requires AllBlank(b)
    ensures Squeezed(b, nl, some) == b
    decreases |b|
  {
    if b != [] {
      SkipBlanksOver(b, []);
      assert b + [] == b;
      BlanksAtEnd(b[1..], false, true);
    }
  }

  lemma {:induction false} SkipBlanksStops(l: Bytes, t: Bytes)
    requires !AllBlank(l) && forall k :: 0 <= k < |l| ==> !IsNewline(l[k])
    ensures SkipBlanks(l + t) != [] && !IsNewline(SkipBlanks(l + t)[0])
    decreases |l|
  {
    assert (l + t)[0] == l[0];
    if IsBlank(l[0]) {
      assert (l + t)[1..] == l[1..] + t;
      assert !AllBlank(l[1..]) by {
        var k :| 0 <= k < |l| && !IsBlank(l[k]);
        assert l[1..][k - 1] == l[k];
      }
      SkipBlanksStops(l[1..], t);
    }
  }

  lemma {:induction false} StrippedFront(l: Bytes)
    requires l != [] && !AllBlank(l[1..])
    ensures Stripped(l) == [l[0]] + Stripped(l[1..])
    decreases |l|
  {
    var n := |l| - 1;
    assert l[1..][n - 1] == l[n];
    if IsBlank(l[n]) {
      assert l[..n][1..] == l[1..][..n - 1];
      assert !AllBlank(l[..n][1..]) by {
        var k :| 0 <= k < n && !IsBlank(l[1..][k]);
        assert l[1..][..n - 1][k] == l[1..][k];
      }
      StrippedFront(l[..n]);
    } else {
      assert [l[0]] + l[1..] == l;
    }
  }

  lemma {:induction false} StrippedBlanks(l: Bytes)
    requires AllBlank(l)
    ensures Stripped(l) == []
    decreases |l|
  {
    if l != [] {
      StrippedBlanks(l[..|l| - 1]);
    }
  }

  lemma StrippedSingle(l: Bytes)
    requires l != [] && !IsBlank(l[0]) && AllBlank(l[1..])
    ensures Stripped(l) == [l[0]]
    decreases |l|
  {
    if |l| > 1 {
      var n := |l| - 1;
      assert l[1..][n - 1] == l[n];
      assert AllBlank(l[..n][1..]) by {
        forall k | 0 <= k < n - 1
          ensures IsBlank(l[..n][1..][k])
        {
          assert l[..n][1..][k] == l[1..][k];
        }
      }
      StrippedSingle(l[..n]);
    }
  }

  /** A line that is not blank is written stripped, and its newline as one newline. */
  lemma {:induction false} LineThenNewline(l: Bytes, t: Bytes, nl: bool, some: bool)
    requires !AllBlank(l) && forall k :: 0 <= k < |l| ==> !IsNewline(l[k])
    requires t != [] && IsNewline(t[0])
    ensures Squeezed(l + t, nl, some) == Stripped(l) + ([NL] + Squeezed(t[1..], true, true))
    decreases |l|
  {
    var s, tail := l + t, [NL] + Squeezed(t[1..], true, true);
    assert s[0] == l[0] && s[1..] == l[1..] + t;
    SkipBlanksStops(l, t);
    if AllBlank(l[1..]) {
      assert l == [l[0]] + l[1..];
      assert !IsBlank(l[0]);
      BlanksBeforeNewline(l[1..], t, false, true);
      StrippedSingle(l);
    } else {
      LineThenNewline(l[1..], t, false, true);
      StrippedFront(l);
      assert [l[0]] + (Stripped(l[1..]) + tail) == ([l[0]] + Stripped(l[1..])) + tail;
    }
  }

  /** A last line without newline is written as it is. */
  lemma {:induction false} LineAtEnd(l: Bytes, nl: bool, some: bool)
    requires forall k :: 0 <= k < |l| ==> !IsNewline(l[k])
    ensures Squeezed(l, nl, some) == l
    decreases |l|
  {
    if AllBlank(l) {
      BlanksAtEnd(l, nl, some);
    } else {
      assert l + [] == l;
      SkipBlanksStops(l, []);
      LineAtEnd(l[1..], false, true);
    }
  }

  // ---- trimming ------------------------------------------------------------

  predicate EndsSolid(p: Bytes) {
    p != [] && !IsSpace(p[|p| - 1])
  }

  lemma {:induction false} TrimmedOver(p: Bytes, q: Bytes)
    requires EndsSolid(p)
    requires forall k :: 0 <= k < |q| ==> q[k] == NL || IsBlank(q[k])
    ensures Trimmed(p + q) == p
    decreases |q|
  {
    if q == [] {
      assert p + q == p;
    } else {
      var n := |q| - 1;
      assert (p + q)[..|p + q| - 1] == p + q[..n];
      assert (p + q)[|p + q| - 1] == q[n];
      TrimmedOver(p, q[..n]);
    }
  }

  lemma {:induction false} StrippedIsSolid(l: Bytes)
    requires !AllBlank(l) && forall k :: 0 <= k < |l| ==> !IsNewline(l[k])
    ensures EndsSolid(Stripped(l)) && Stripped(l) <= l
    ensures forall k :: |Stripped(l)| <= k < |l| ==> IsBlank(l[k])
    decreases |l|
  {
    var n := |l| - 1;
    if IsBlank(l[n]) {
      assert !AllBlank(l[..n]) by {
        var k :| 0 <= k < |l| && !IsBlank(l[k]);
        assert l[..n][k] == l[k];
      }
      StrippedIsSolid(l[..n]);
    }
  }

  lemma TrimmedLine(x: Bytes, l: Bytes)
    requires !AllBlank(l) && forall k :: 0 <= k < |l| ==> !IsNewline(l[k])
    ensures Trimmed(x + l) == x + Stripped(l)
  {
    StrippedIsSolid(l);
    var n := |Stripped(l)|;
    assert l == Stripped(l) + l[n..];
    assert x + l == (x + Stripped(l)) + l[n..];
    TrimmedOver(x + Stripped(l), l[n..]);
  }

  // ---- the scan meets its purpose ------------------------------------------

  /** Behind solid text and a newline, the rest comes out as its surviving lines. */
  lemma {:induction false} RestMeetsReference(p: Bytes, s: Bytes)
    requires EndsSolid(p)
    ensures Trimmed(p + ([NL] + Squeezed(s, true, true)))
         == if Kept(s) == [] then p else p + ([NL] + Join(Kept(s)))
    decreases |s|
  {
    hide Squeezed, Trimmed, IsBlank, IsNewline, Kept, Stripped, AllBlank;
    if s == [] {
      TrimmedEmpty();
      LineAtEnd([], true, true);
      TrimmedOver(p, [NL]);
      assert [NL] + [] == [NL];
    } else {
      var l := FirstLine(s);
      KeptStep(s);
      if |l| == |s| {
        TrimmedEmpty();
        assert l == s && OtherLines(s) == [];
        LastLineMeetsReference(p, l);
      } else {
        var t := s[|l|..];
        assert s == l + t && t[1..] == OtherLines(s);
        RestStep(p, l, t);
      }
    }
  }

  lemma LastLineMeetsReference(p: Bytes, l: Bytes)
    requires EndsSolid(p)
    requires forall k :: 0 <= k < |l| ==> !IsNewline(l[k])
    ensures var kept := (if AllBlank(l) then [] else [Stripped(l)]) + [];
      Trimmed(p + ([NL] + Squeezed(l, true, true))) == if kept == [] then p else p + ([NL] + Join(kept))
  {
    hide Squeezed, Trimmed, IsBlank, IsNewline, Stripped;
    LineAtEnd(l, true, true);
    if AllBlank(l) {
      TrimmedOver(p, [NL] + l);
    } else {
      TrimmedLine(p + [NL], l);
      Associate(p, [NL], l);
      Associate(p, [NL], Stripped(l));
      JoinStep(Stripped(l), []);
    }
  }

  lemma KeptStep(s: Bytes)
    requires s != []
    ensures Kept(s) == (if AllBlank(FirstLine(s)) then [] else [Stripped(FirstLine(s))]) + Kept(OtherLines(s))
  {}

  lemma {:induction false} RestStep(p: Bytes, l: Bytes, t: Bytes)
    requires EndsSolid(p)
    requires t != [] && IsNewline(t[0]) && forall k :: 0 <= k < |l| ==> !IsNewline(l[k])
    ensures var kept := (if AllBlank(l) then [] else [Stripped(l)]) + Kept(t[1..]);
      Trimmed(p + ([NL] + Squeezed(l + t, true, true))) == if kept == [] then p else p + ([NL] + Join(kept))
    decreases |t|, 0
  {
    hide Squeezed, Trimmed, IsBlank, IsNewline, Kept, Stripped, AllBlank, Join;
    if AllBlank(l) {
      BlanksBeforeNewline(l, t, true, true);
      RestMeetsReference(p, t[1..]);
      assert [] + Kept(t[1..]) == Kept(t[1..]);
    } else {
      LineThenNewline(l, t, true, true);
      StrippedIsSolid(l);
      var q := p + ([NL] + Stripped(l));
      StaysSolid(p, Stripped(l));
      RestMeetsReference(q, t[1..]);
      RegroupFour(p, [NL], Stripped(l), [NL] + Squeezed(t[1..], true, true));
      JoinStep(Stripped(l), Kept(t[1..]));
      RegroupFour(p, [NL], Stripped(l), [NL] + Join(Kept(t[1..])));
    }
  }

  lemma StaysSolid(p: Bytes, l: Bytes)
    requires EndsSolid(l)
    ensures EndsSolid(p + ([NL] + l))
  {}

  lemma RegroupFour<T>(a: seq<T>, b: seq<T>, c: seq<T>, d: seq<T>)
    ensures a + (b + (c + d)) == (a + (b + c)) + d
  {}

  lemma JoinStep(l: Bytes, rest: seq<Bytes>)
    ensures Join([l] + rest) == if rest == [] then l else l + ([NL] + Join(rest))
  {
    assert ([l] + rest)[1..] == rest;
  }

  lemma OnlyLine(t: Bytes)
    requires t != [] && !IsSpace(t[0]) && |FirstLine(t)| == |t|
    ensures Trimmed(Squeezed(t, false, false)) == Join(Kept(t))
  {
    hide Squeezed, Trimmed, Kept, Stripped, Join;
    assert FirstLine(t) == t && OtherLines(t) == [];
    FirstLineStarts(t);
    KeptStep(t);
    JoinStep(Stripped(t), []);
    LineAtEnd(t, false, false);
    TrimmedLine([], t);
    assert [] + t == t && [] + Stripped(t) == Stripped(t);
    TrimmedEmpty();
    assert [Stripped(t)] + [] == [Stripped(t)];
  }

  /** The scan computes exactly the reference: the surviving lines, stripped, one newline
      between each two. */
  lemma CollapsedIsReference(s: Bytes)
    ensures Collapsed(s) == Reference(s)
  {
    hide Squeezed, Trimmed, Kept, Stripped, Join;
    var t := SkipSpace(s);
    if t == [] {
      LineAtEnd([], false, false);
      TrimmedEmpty();
      NothingJoined();
    } else {
      var l := FirstLine(t);
      if |l| == |t| {
        OnlyLine(t);
      } else {
        FirstLineStarts(t);
        KeptStep(t);
        JoinStep(Stripped(l), Kept(OtherLines(t)));
        var u := t[|l|..];
        assert t == l + u && u[1..] == OtherLines(t);
        LineThenNewline(l, u, false, false);
        StrippedIsSolid(l);
        RestMeetsReference(Stripped(l), u[1..]);
      }
    }
  }

  lemma NothingJoined()
    ensures Join([]) == []
  {}

  lemma TrimmedEmpty()
    ensures Trimmed([]) == [] && Kept([]) == []
  {}

  lemma FirstLineStarts(t: Bytes)
    requires t != [] && !IsSpace(t[0])
    ensures FirstLine(t) != [] && FirstLine(t)[0] == t[0] && !AllBlank(FirstLine(t))
  {
    assert FirstLine(t)[0] == t[0];
  }

  // ---- the normal form -----------------------------------------------------

  /** No blank line, no space before a newline, no carriage return, no space at either end. */
  predicate Normal(t: Bytes) {
    && (forall i :: 0 <= i < |t| && IsNewline(t[i]) ==> t[i] == 10 && 0 < i && !IsSpace(t[i - 1]))
    && (t != [] ==> !IsSpace(t[0]) && !IsSpace(t[|t| - 1]))
  }

  predicate Smooth(t: Bytes) {
    && (forall i :: 0 <= i < |t| && IsNewline(t[i]) ==> t[i] == NL && 0 < i && !IsSpace(t[i - 1]))
    && EndsSolid(t)
  }

  predicate SolidLine(l: Bytes) {
    EndsSolid(l) && forall k :: 0 <= k < |l| ==> !IsNewline(l[k])
  }

  lemma {:induction false} KeptAreSolid(s: Bytes)
    ensures forall i :: 0 <= i < |Kept(s)| ==> SolidLine(Kept(s)[i])
    decreases |s|
  {
    hide Stripped, IsNewline, IsBlank;
    if s != [] {
      KeptAreSolid(OtherLines(s));
      if !AllBlank(FirstLine(s)) {
        StrippedIsSolid(FirstLine(s));
      }
    }
  }

  lemma {:induction false} JoinIsSmooth(lines: seq<Bytes>)
    requires lines != [] && forall i :: 0 <= i < |lines| ==> SolidLine(lines[i])
    ensures Smooth(Join(lines)) && lines[0] <= Join(lines)
    decreases |lines|
  {
    hide IsNewline, IsBlank;
    assert SolidLine(lines[0]);
    if |lines| > 1 {
      JoinIsSmooth(lines[1..]);
      SmoothAppend(lines[0], Join(lines[1..]));
    }
  }

  lemma SmoothAppend(l: Bytes, j: Bytes)
    requires SolidLine(l) && Smooth(j)
    ensures Smooth(l + ([NL] + j))
  {
    var t := l + ([NL] + j);
    forall i | 0 <= i < |t| && IsNewline(t[i])
      ensures t[i] == NL && 0 < i && !IsSpace(t[i - 1])
    {
      if i == |l| {
        assert t[i - 1] == l[|l| - 1];
      } else if i > |l| {
        assert t[i] == j[i - |l| - 1];
        assert t[i - 1] == j[i - |l| - 2];
      }
    }
    assert t[|t| - 1] == j[|j| - 1];
  }

  lemma CollapsedIsNormal(s: Bytes)
    ensures Normal(Collapsed(s))
  {
    hide Squeezed, Trimmed, Kept, Stripped, Join, IsNewline, IsBlank, Collapsed;
    CollapsedIsReference(s);
    var t := SkipSpace(s);
    KeptAreSolid(t);
    if t == [] {
      TrimmedEmpty();
      JoinEmpty();
    } else {
      FirstLineStarts(t);
      KeptStep(t);
      var l := FirstLine(t);
      StrippedIsSolid(l);
      JoinIsSmooth(Kept(t));
      assert Kept(t)[0] == Stripped(l);
      assert Stripped(l)[0] == l[0] == t[0];
    }
  }

  lemma JoinEmpty()
    ensures Join([]) == []
  {}

  lemma {:induction false} NormalSkip(t: Bytes, i: nat)
    requires Normal(t) && i < |t| && !IsNewline(t[i])
    ensures SkipBlanks(t[i..]) != [] && !IsNewline(SkipBlanks(t[i..])[0])
    decreases |t| - i
  {
    if IsBlank(t[i]) {
      assert i + 1 < |t|;
      assert t[i..][1..] == t[i + 1..];
      assert !IsNewline(t[i + 1]);
      NormalSkip(t, i + 1);
    }
  }

  lemma {:induction false} NormalStays(t: Bytes, i: nat)
    requires Normal(t) && i <= |t|
    ensures Squeezed(t[i..], i > 0 && t[i - 1] == NL, i > 0) == t[i..]
    decreases |t| - i
  {
    if i < |t| {
      assert t[i..][1..] == t[i + 1..];
      NormalStays(t, i + 1);
      if !IsNewline(t[i]) {
        NormalSkip(t, i);
      }
      assert [t[i]] + t[i + 1..] == t[i..];
    }
  }

  /** The pass changes exactly the texts that are not in normal form. */
  lemma CollapsedIsIdentityIff(s: Bytes)
    ensures Collapsed(s) == s <==> Normal(s)
  {
    CollapsedIsNormal(s);
    if Normal(s) {
      NormalStays(s, 0);
      assert s[0..] == s;
    }
  }

  lemma CollapsedIsIdempotent(s: Bytes)
    ensures Collapsed(Collapsed(s)) == Collapsed(s)
  {
    CollapsedIsNormal(s);
    CollapsedIsIdentityIff(Collapsed(s));
  }

  // ---- what is preserved ---------------------------------------------------

  /** The bytes that are not white space, in order. */
  function Ink(s: Bytes): Bytes
    decreases |s|
  {
    if s == [] then [] else (if IsSpace(s[0]) then [] else [s[0]]) + Ink(s[1..])
  }

  lemma {:induction false} InkAppend(a: Bytes, b: Bytes)
    ensures Ink(a + b) == Ink(a) + Ink(b)
    decreases |a|
  {
    hide IsSpace;
    if a == [] {
      assert a + b == b;
    } else {
      assert (a + b)[1..] == a[1..] + b;
      InkAppend(a[1..], b);
      Associate(if IsSpace(a[0]) then [] else [a[0]], Ink(a[1..]), Ink(b));
    }
  }

  lemma {:induction false} InkOfSpaces(s: Bytes)
    requires forall k :: 0 <= k < |s| ==> IsSpace(s[k])
    ensures Ink(s) == []
    decreases |s|
  {
    if s != [] {
      InkOfSpaces(s[1..]);
    }
  }

  lemma {:induction false} InkOfSkip(s: Bytes)
    ensures Ink(SkipSpace(s)) == Ink(s) && Ink(SkipBlanks(s)) == Ink(s)
    decreases |s|
  {
    if s != [] {
      InkOfSkip(s[1..]);
    }
  }

  lemma {:induction false} InkOfSqueezed(s: Bytes, nl: bool, some: bool)
    ensures Ink(Squeezed(s, nl, some)) == Ink(s)
    decreases |s|, 0
  {
    if s != [] {
      InkOfSkip(s);
      var b := SkipBlanks(s);
      if IsNewline(s[0]) {
        InkAtNewline(s[1..], nl, some);
      } else if IsBlank(s[0]) && b != [] && IsNewline(b[0]) {
        InkAtNewline(b[1..], nl, some);
      } else {
        InkOfSqueezed(s[1..], false, true);
        InkAppend([s[0]], Squeezed(s[1..], false, true));
        assert s == [s[0]] + s[1..];
        InkAppend([s[0]], s[1..]);
      }
    }
  }

  lemma {:induction false} InkAtNewline(rest: Bytes, nl: bool, some: bool)
    ensures Ink(AtNewline(rest, nl, some)) == Ink(rest)
    decreases |rest|, 1
  {
    InkOfSqueezed(rest, true, true);
    InkOfSqueezed(rest, nl, some);
    InkAppend([NL], Squeezed(rest, true, true));
    InkOfSpaces([NL]);
  }

  lemma {:induction false} InkOfTrimmed(s: Bytes)
    ensures Ink(Trimmed(s)) == Ink(s)
    decreases |s|
  {
    if s != [] {
      var n := |s| - 1;
      assert s == s[..n] + [s[n]];
      InkAppend(s[..n], [s[n]]);
      if s[n] == NL || IsBlank(s[n]) {
        InkOfSpaces([s[n]]);
        InkOfTrimmed(s[..n]);
      }
    }
  }

  /** No byte that is not white space is lost, added or moved. */
  lemma InkIsKept(s: Bytes)
    ensures Ink(Collapsed(s)) == Ink(s)
  {
    InkOfSkip(s);
    InkOfSqueezed(SkipSpace(s), false, false);
    InkOfTrimmed(Squeezed(SkipSpace(s), false, false));
  }

  // ---- validity ------------------------------------------------------------

  lemma SpacesAreAscii(c: Byte)
    ensures IsSpace(c) ==> IsAscii(c)
    ensures IsAscii(NL)
  {}

  lemma AsciiFront(c: Byte, s: Bytes)
    requires IsAscii(c)
    ensures IsValid([c] + s) <==> IsValid(s)
  {
    hide IsContinuation;
    assert ([c] + s)[1..] == s;
  }

  lemma {:induction false} ValidSkip(s: Bytes)
    requires IsValid(s)
    ensures IsValid(SkipSpace(s)) && IsValid(SkipBlanks(s))
    decreases |s|
  {
    hide IsContinuation, IsAscii, StartsWhole;
    if s != [] && IsSpace(s[0]) {
      SpacesAreAscii(s[0]);
      assert s == [s[0]] + s[1..];
      AsciiFront(s[0], s[1..]);
      ValidSkip(s[1..]);
    }
  }

  /** The announced bytes of a character are no white space, so they are written through. */
  lemma {:induction false} SqueezedThrough(s: Bytes, n: nat, nl: bool, some: bool)
    requires 0 < n <= |s| && forall k :: 0 <= k < n ==> !IsSpace(s[k])
    ensures Squeezed(s, nl, some) == s[..n] + Squeezed(s[n..], false, true)
    decreases n
  {
    hide IsNewline, IsBlank;
    assert !IsSpace(s[0]);
    if n == 1 {
      assert s[..1] == [s[0]];
    } else {
      SqueezedThrough(s[1..], n - 1, false, true);
      assert s[1..][n - 1..] == s[n..];
      assert s[..n] == [s[0]] + s[1..][..n - 1];
    }
  }

  lemma CharIsNoSpace(s: Bytes, k: nat)
    requires s != [] && StartsWhole(s) && !IsAscii(s[0]) && k < CharLength(s)
    ensures !IsSpace(s[k])
  {
    hide IsContinuation, Announced;
    SpacesAreAscii(s[k]);
    Classes(s[k]);
  }

  lemma {:induction false} ValidSqueezed(s: Bytes, nl: bool, some: bool)
    requires IsValid(s)
    ensures IsValid(Squeezed(s, nl, some))
    decreases |s|, 0
  {
    hide IsContinuation, IsAscii, Announced, IsNewline, IsBlank, StartsWhole, CharLength;
    if s != [] {
      if IsAscii(s[0]) {
        assert s == [s[0]] + s[1..];
        AsciiFront(s[0], s[1..]);
        var b := SkipBlanks(s);
        ValidSkip(s);
        if IsNewline(s[0]) {
          ValidAtNewline(s[1..], nl, some);
        } else if IsBlank(s[0]) && b != [] && IsNewline(b[0]) {
          SpacesAreAscii(b[0]);
          assert b == [b[0]] + b[1..];
          AsciiFront(b[0], b[1..]);
          ValidAtNewline(b[1..], nl, some);
        } else {
          ValidSqueezed(s[1..], false, true);
          AsciiFront(s[0], Squeezed(s[1..], false, true));
        }
      } else {
        var n := CharLength(s);
        forall k | 0 <= k < n ensures !IsSpace(s[k]) { CharIsNoSpace(s, k); }
        SqueezedThrough(s, n, nl, some);
        ValidSqueezed(s[n..], false, true);
        WholePrefix(s);
        WholeThen(s[..n], Squeezed(s[n..], false, true));
      }
    }
  }

  lemma {:induction false} ValidAtNewline(rest: Bytes, nl: bool, some: bool)
    requires IsValid(rest)
    ensures IsValid(AtNewline(rest, nl, some))
    decreases |rest|, 1
  {
    hide IsContinuation, IsAscii, StartsWhole;
    ValidSqueezed(rest, true, true);
    ValidSqueezed(rest, nl, some);
    SpacesAreAscii(NL);
    AsciiFront(NL, Squeezed(rest, true, true));
  }

  lemma {:induction false} AsciiBack(s: Bytes, c: Byte)
    requires IsAscii(c) && IsValid(s + [c])
    ensures IsValid(s)
    decreases |s|
  {
    hide IsAscii, Announced, IsContinuation;
    if s != [] {
      var t := s + [c];
      var n := CharLength(t);
      Classes(c);
      assert t[0] == s[0] && t[|s|] == c;
      assert !IsContinuation(t[|s|]);
      assert t[n..] == s[n..] + [c];
      AsciiBack(s[n..], c);
      assert StartsWhole(s) by {
        assert forall i :: 1 <= i < n ==> t[i] == s[i];
      }
    }
  }

  lemma {:induction false} ValidTrimmed(s: Bytes)
    requires IsValid(s)
    ensures IsValid(Trimmed(s))
    decreases |s|
  {
    hide IsContinuation, IsAscii, StartsWhole;
    if s != [] && (s[|s| - 1] == NL || IsBlank(s[|s| - 1])) {
      var n := |s| - 1;
      assert s == s[..n] + [s[n]];
      SpacesAreAscii(s[n]);
      AsciiBack(s[..n], s[n]);
      ValidTrimmed(s[..n]);
    }
  }

  /** Repaired text stays valid UTF-8. */
  lemma ValidityIsKept(s: Bytes)
    requires IsValid(s)
    ensures IsValid(Collapsed(s))
  {
    ValidSkip(s);
    ValidSqueezed(SkipSpace(s), false, false);
    ValidTrimmed(Squeezed(SkipSpace(s), false, false));
  }

  // ---- the C code ----------------------------------------------------------

  /** The bytes from `r` on are still those of the original text `s`, terminator included. */
  ghost predicate Unread(a: array<Byte>, s: Bytes, r: nat)
    reads a
  {
    |s| < a.Length && a[|s|] == 0
    && (forall k :: 0 <= k < |s| ==> s[k] != 0)
    && (forall k :: r <= k < |s| ==> a[k] == s[k])
  }

  method CollapseInPlace(text: array<Byte>, ghost len: nat) returns (w: nat)
    requires Terminated(text, len)
    modifies text
    ensures w <= len && text[..w] == Collapsed(old(text[..len])) && text[w] == 0
  {
    hide IsNewline, IsBlank, Squeezed, Trimmed, SkipSpace;
    ghost var s := text[..len];
    var r := SkipLeading(text, s);
    ghost var done, whole: Bytes := [], Squeezed(s[r..], false, false);
    w := 0;
    var lastWasNl := false;
    assert [] + whole == whole;
    assert SkipSpace(s) == s[r..];
    while text[r] != 0
      invariant 0 <= w <= r <= len && Unread(text, s, r)
      invariant done == text[..w] && whole == done + Squeezed(s[r..], lastWasNl, w > 0)
      decreases len - r
    {
      r, w, lastWasNl, done := Round(text, r, w, lastWasNl, s, whole, done);
    }
    LineAtEnd([], lastWasNl, w > 0);
    assert s[r..] == [] && done + [] == done;
    w := TrimTail(text, w);
    text[w] := 0;
  }

  method TrimTail(text: array<Byte>, w0: nat) returns (w: nat)
    requires w0 <= text.Length
    ensures w <= w0 && text[..w] == Trimmed(text[..w0])
  {
    hide Trimmed;
    w := w0;
    while w > 0 && (text[w - 1] == 0x0A || text[w - 1] == 0x20 || text[w - 1] == 0x09)
      invariant 0 <= w <= w0 && Trimmed(text[..w]) == Trimmed(text[..w0])
    {
      TrimOne(text[..w]);
      assert text[..w][..w - 1] == text[..w - 1];
      w := w - 1;
    }
    TrimNone(text[..w]);
  }

  lemma TrimOne(s: Bytes)
    requires s != [] && (s[|s| - 1] == 0x0A || s[|s| - 1] == 0x20 || s[|s| - 1] == 0x09)
    ensures Trimmed(s) == Trimmed(s[..|s| - 1])
  {}

  lemma TrimNone(s: Bytes)
    requires s != [] ==> !(s[|s| - 1] == 0x0A || s[|s| - 1] == 0x20 || s[|s| - 1] == 0x09)
    ensures Trimmed(s) == s
  {}

  method SkipLeading(text: array<Byte>, ghost s: Bytes) returns (r: nat)
    requires Unread(text, s, 0)
    ensures r <= |s| && s[r..] == SkipSpace(s)
  {
    NulIsNoSpace();
    r := 0;
    assert s[0..] == s;
    while text[r] == 0x20 || text[r] == 0x09 || text[r] == 0x0A || text[r] == 0x0D
      invariant 0 <= r <= |s| && SkipSpace(s[r..]) == SkipSpace(s)
      decreases |s| - r
    {
      assert s[r..][1..] == s[r + 1..];
      r := r + 1;
    }
  }

  lemma NulIsNoSpace()
    ensures !IsSpace(0)
  {}

  /** `peek` in the source: past the blanks that start at `r`. */
  method PeekBlanks(text: array<Byte>, r: nat, ghost s: Bytes) returns (peek: nat)
    requires Unread(text, s, r) && r <= |s|
    ensures r <= peek <= |s| && s[peek..] == SkipBlanks(s[r..])
    ensures peek == r ==> r == |s| || !IsBlank(s[r])
  {
    NulIsNoSpace();
    peek := r;
    while text[peek] == 0x20 || text[peek] == 0x09
      invariant r <= peek <= |s| && SkipBlanks(s[peek..]) == SkipBlanks(s[r..])
      invariant peek == r || IsBlank(s[r])
      decreases |s| - peek
    {
      assert s[peek..][1..] == s[peek + 1..];
      peek := peek + 1;
    }
  }

  /** One round of the main loop at `r`, with output up to `w`. */
  method Round(text: array<Byte>, r: nat, w: nat, nl: bool, ghost s: Bytes, ghost whole: Bytes, ghost done: Bytes)
    returns (r': nat, w': nat, nl': bool, ghost done': Bytes)
    requires w <= r < |s| && Unread(text, s, r)
    requires done == text[..w] && whole == done + Squeezed(s[r..], nl, w > 0)
    modifies text
    ensures w' <= r' && r < r' <= |s| && Unread(text, s, r')
    ensures done' == text[..w'] && whole == done' + Squeezed(s[r'..], nl', w' > 0)
  {
    hide IsNewline, IsBlank, Squeezed;
    var c := text[r];
    ByteTests(c);
    if c == 0x0A || c == 0x0D {
      SqueezedNewline(s[r..], nl, w > 0);
      assert s[r..][1..] == s[r + 1..];
      w', nl', done' := WriteNewline(text, w, nl, done, s, r, whole);
      r' := r + 1;
    } else if c == 0x20 || c == 0x09 {
      var peek := PeekBlanks(text, r, s);
      ByteTests(text[peek]);
      NulIsNoSpace();
      if text[peek] == 0x0A || text[peek] == 0x0D {
        SqueezedBlankNewline(s[r..], nl, w > 0);
        assert s[peek..][1..] == s[peek + 1..];
        w', nl', done' := WriteNewline(text, w, nl, done, s, peek, whole);
        r' := peek + 1;
      } else {
        SqueezedOther(s[r..], nl, w > 0);
        w', done' := WriteByte(text, r, w, s, whole, done, c);
        r', nl' := r + 1, false;
      }
    } else {
      SqueezedOther(s[r..], nl, w > 0);
      w', done' := WriteByte(text, r, w, s, whole, done, c);
      r', nl' := r + 1, false;
    }
  }

  lemma ByteTests(c: Byte)
    ensures IsNewline(c) <==> c == 0x0A || c == 0x0D
    ensures IsBlank(c) <==> c == 0x20 || c == 0x09
    ensures IsBlank(c) ==> !IsNewline(c)
  {}

  lemma SqueezedNewline(s: Bytes, nl: bool, some: bool)
    requires s != [] && IsNewline(s[0])
    ensures Squeezed(s, nl, some) == AtNewline(s[1..], nl, some)
  {}

  lemma SqueezedBlankNewline(s: Bytes, nl: bool, some: bool)
    requires s != [] && !IsNewline(s[0]) && IsBlank(s[0]) && SkipBlanks(s) != [] && IsNewline(SkipBlanks(s)[0])
    ensures Squeezed(s, nl, some) == AtNewline(SkipBlanks(s)[1..], nl, some)
  {}

  lemma SqueezedOther(s: Bytes, nl: bool, some: bool)
    requires s != [] && !IsNewline(s[0])
    requires IsBlank(s[0]) ==> SkipBlanks(s) == [] || !IsNewline(SkipBlanks(s)[0])
    ensures Squeezed(s, nl, some) == [s[0]] + Squeezed(s[1..], false, true)
  {}

  method WriteNewline(text: array<Byte>, w: nat, nl: bool, ghost done: Bytes,
                      ghost s: Bytes, ghost at: nat, ghost whole: Bytes)
    returns (w': nat, nl': bool, ghost done': Bytes)
    requires w <= at < |s| && Unread(text, s, at)
    requires done == text[..w] && whole == done + AtNewline(s[at + 1..], nl, w > 0)
    modifies text
    ensures w' <= at + 1 && Unread(text, s, at + 1)
    ensures done' == text[..w'] && whole == done' + Squeezed(s[at + 1..], nl', w' > 0)
  {
    hide Squeezed;
    w', nl', done' := w, nl, done;
    if w > 0 && !nl {
      text[w] := 0x0A;
      w', nl', done' := w + 1, true, done + [NL];
      assert text[..w + 1] == done + [NL];
      Associate(done, [NL], Squeezed(s[at + 1..], true, true));
    }
  }

  method WriteByte(text: array<Byte>, r: nat, w: nat, ghost s: Bytes, ghost whole: Bytes, ghost done: Bytes, c: Byte)
    returns (w': nat, ghost done': Bytes)
    requires w <= r < |s| && Unread(text, s, r) && c == s[r]
    requires done == text[..w] && whole == done + ([s[r..][0]] + Squeezed(s[r..][1..], false, true))
    modifies text
    ensures w' == w + 1 && Unread(text, s, r + 1)
    ensures done' == text[..w'] && whole == done' + Squeezed(s[r + 1..], false, true)
  {
    hide Squeezed;
    text[w] := c;
    w', done' := w + 1, done + [c];
    assert text[..w + 1] == done + [c];
    assert s[r..][1..] == s[r + 1..];
    Associate(done, [c], Squeezed(s[r + 1..], false, true));
  }
}
