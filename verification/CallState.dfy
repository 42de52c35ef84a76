/** The call-state line: the Bluetooth side prints it into a file, the phone page parses it
    back. Strings are zero-terminated; a null pointer is the empty string. */
module CallState {
  import opened Bytes
  import opened CStrings

  const COLON: Byte := 58
  const FIELD: nat := 64
  const LINE: nat := 256

  datatype State = Idle | Incoming | Dialing | Alerting | Active | Held

  datatype Call = Call(state: State, number: Bytes, name: Bytes)

  function NameOf(s: State): (r: Bytes)
    ensures 0 < |r| <= 8 && 0 !in r && COLON !in r && NEWLINE !in r
  {
    match s
    case Idle => [73, 68, 76, 69]
    case Incoming => [73, 78, 67, 79, 77, 73, 78, 71]
    case Dialing => [68, 73, 65, 76, 73, 78, 71]
    case Alerting => [65, 76, 69, 82, 84, 73, 78, 71]
    case Active => [65, 67, 84, 73, 86, 69]
    case Held => [72, 69, 76, 68]
  }

  /** Anything unknown reads as idle. */
  function StateOf(text: Bytes): State {
    if text == NameOf(Incoming) then Incoming
    else if text == NameOf(Dialing) then Dialing
    else if text == NameOf(Alerting) then Alerting
    else if text == NameOf(Active) then Active
    else if text == NameOf(Held) then Held
    else Idle
  }

  /** The bytes spell a word. */
  predicate Spells(b: Bytes, word: string) {
    |b| == |word| && forall i :: 0 <= i < |b| ==> Val(b[i]) == word[i] as int
  }

  lemma StateNames()
    ensures Spells(NameOf(Idle), "IDLE") && Spells(NameOf(Incoming), "INCOMING")
    ensures Spells(NameOf(Dialing), "DIALING") && Spells(NameOf(Alerting), "ALERTING")
    ensures Spells(NameOf(Active), "ACTIVE") && Spells(NameOf(Held), "HELD")
  {}

  /** Any other word counts as idle. */
  lemma OtherWords(text: Bytes)
    ensures StateOf(text) != Idle ==> text == NameOf(StateOf(text))
  {}

  lemma StateNamesReadBack(s: State)
    ensures StateOf(NameOf(s)) == s
  {
    match s
    case Idle => assert |NameOf(Held)| == |NameOf(Idle)| && NameOf(Held)[0] != NameOf(Idle)[0];
    case Incoming =>
    case Dialing =>
    case Alerting => assert NameOf(Incoming)[0] != NameOf(Alerting)[0];
    case Active =>
    case Held =>
  }

  // ---- phone numbers -------------------------------------------------------

  predicate Dialable(c: Byte) {
    48 <= c <= 57 || c == 43 || c == 42 || c == 35
  }

  predicate AllDialable(s: Bytes) {
    forall c | c in s :: Dialable(c)
  }

  function Digits(s: Bytes): (r: Bytes)
    ensures |r| <= |s| && AllDialable(r)
  {
    if s == [] then []
    else
      var c := s[|s| - 1];
      Digits(s[..|s| - 1]) + (if Dialable(c) then [c] else [])
  }

  /** At most the first 64 bytes are looked at and at most 63 kept. */
  function Sanitized(s: Bytes): (r: Bytes)
    ensures |r| < FIELD && AllDialable(r)
  {
    var d := Digits(Cut(s, FIELD));
    assert forall c :: c in Cut(d, FIELD - 1) ==> c in d;
    Cut(d, FIELD - 1)
  }

  lemma {:induction false} DigitsOfDigits(s: Bytes)
    requires AllDialable(s)
    ensures Digits(s) == s
  {
    if s != [] {
      var n := |s| - 1;
      assert s[n] in s;
      DigitsOfDigits(s[..n]);
      assert s == s[..n] + [s[n]];
    }
  }

  /** Sanitizing is idempotent. */
  lemma SanitizedTwice(s: Bytes)
    ensures Sanitized(Sanitized(s)) == Sanitized(s)
  {
    var r := Sanitized(s);
    assert Cut(r, FIELD) == r && Cut(r, FIELD - 1) == r;
    DigitsOfDigits(r);
  }

  /** What is dialable and short enough is kept as it is, and nothing else is. */
  lemma SanitizedIsIdentityIff(s: Bytes)
    ensures Sanitized(s) == s <==> |s| <= 63 && forall c | c in s :: 48 <= Val(c) <= 57 || Val(c) in {35, 42, 43}
  {
    DialableByValue(s);
    if AllDialable(s) && |s| < FIELD {
      assert Cut(s, FIELD) == s && Cut(s, FIELD - 1) == s;
      DigitsOfDigits(s);
    }
  }

  /** The digits, `#`, `*` and `+`. */
  lemma DialableByValue(s: Bytes)
    ensures AllDialable(s) <==> forall c | c in s :: 48 <= Val(c) <= 57 || Val(c) in {35, 42, 43}
  {
    forall c: Byte
      ensures Dialable(c) <==> 48 <= Val(c) <= 57 || Val(c) in {35, 42, 43}
    {
      OneDialable(c);
    }
  }

  lemma OneDialable(c: Byte)
    ensures Dialable(c) <==> 48 <= Val(c) <= 57 || Val(c) in {35, 42, 43}
  {}

  lemma {:induction false} DigitsAppend(a: Bytes, b: Bytes)
    ensures Digits(a + b) == Digits(a) + Digits(b)
    decreases |b|
  {
    hide Dialable;
    if b == [] {
      assert a + b == a;
    } else {
      assert (a + b)[..|a + b| - 1] == a + b[..|b| - 1];
      DigitsAppend(a, b[..|b| - 1]);
    }
  }

  /** Sanitizing treats each byte by itself, as long as there are no more than 63; the 65th and
      later ones do not count, and of 64 dialable ones the first 63 are kept. */
  lemma SanitizedParts63(a: Bytes, c: Byte, b: Bytes)
    ensures |a + [c] + b| <= 63 ==>
      Sanitized(a + [c] + b) == Sanitized(a) + (if Dialable(c) then [c] else []) + Sanitized(b)
    ensures |a| == 64 ==> Sanitized(a + b) == Sanitized(a)
    ensures |a| == 64 && AllDialable(a) ==> Sanitized(a) == a[..63]
  {
    hide Dialable, Digits;
    if |a + [c] + b| <= 63 {
      assert Cut(a, 64) == a && Cut(b, 64) == b && Cut(a + [c] + b, 64) == a + [c] + b;
      DigitsAppend(a + [c], b);
      DigitsAppend(a, [c]);
      DigitsOfOne(c);
    }
    if |a| == 64 {
      assert Cut(a + b, 64) == Cut(a, 64) == a;
      if AllDialable(a) { DigitsOfDigits(a); }
    }
  }

  lemma DigitsOfOne(c: Byte)
    ensures Digits([c]) == if Dialable(c) then [c] else []
  {
    hide Dialable;
    assert [c][..0] == [];
  }

  lemma {:induction false} DigitsPrefix(s: Bytes, n: nat)
    requires n <= |s|
    ensures Digits(s[..n]) <= Digits(s)
    decreases |s|
  {
    if n == |s| {
      assert s[..n] == s;
    } else {
      var m := |s| - 1;
      assert s[..m][..n] == s[..n];
      DigitsPrefix(s[..m], n);
    }
  }

  // ---- fields inside a line ------------------------------------------------

  function Index(s: Bytes, c: Byte): (i: nat)
    ensures i <= |s| && c !in s[..i] && (i < |s| ==> s[i] == c)
  {
    if s == [] || s[0] == c then 0
    else
      var i := Index(s[1..], c);
      assert s[..i + 1] == [s[0]] + s[1..][..i];
      i + 1
  }

  function UpTo(s: Bytes, c: Byte): Bytes {
    s[..Index(s, c)]
  }

  lemma IndexIs(s: Bytes, c: Byte, i: nat)
    requires i <= |s| && c !in s[..i] && (i < |s| ==> s[i] == c)
    ensures Index(s, c) == i
  {
    var k := Index(s, c);
    assert forall j :: 0 <= j < i ==> s[j] in s[..i];
    assert forall j :: 0 <= j < k ==> s[j] in s[..k];
  }

  /** What follows the first colon. */
  function Rest(s: Bytes): Bytes {
    if Index(s, COLON) < |s| then s[Index(s, COLON) + 1..] else []
  }

  function FirstLineOf(text: Bytes): Bytes {
    UpTo(Cut(text, LINE - 1), NEWLINE)
  }

  /** What `parse_call_state` leaves in the globals. */
  function Parsed(text: Bytes): Call {
    var line := FirstLineOf(text);
    Call(StateOf(UpTo(line, COLON)), Sanitized(UpTo(Rest(line), COLON)), Cut(Rest(Rest(line)), FIELD - 1))
  }

  /** What `write_call_state` prints. */
  function Line(state: State, number: Bytes, name: Bytes): Bytes {
    var clean := Sanitized(number);
    if name != [] then NameOf(state) + [COLON] + clean + [COLON] + name + [NEWLINE]
    else if clean != [] then NameOf(state) + [COLON] + clean + [NEWLINE]
    else NameOf(state) + [NEWLINE]
  }

  // ---- the round trip ------------------------------------------------------

  lemma NoBreaks(clean: Bytes)
    requires AllDialable(clean)
    ensures COLON !in clean && NEWLINE !in clean
  {}

  lemma FirstLine(head: Bytes, rest: Bytes)
    requires NEWLINE !in head
    ensures UpTo(head + rest, NEWLINE) == head + UpTo(rest, NEWLINE)
  {
    var all, i := head + rest, Index(rest, NEWLINE);
    assert all[..|head| + i] == head + rest[..i];
    IndexIs(all, NEWLINE, |head| + i);
  }

  lemma NewlineEnds(name: Bytes)
    ensures UpTo(name + [NEWLINE], NEWLINE) == UpTo(name, NEWLINE)
  {
    var i := Index(name, NEWLINE);
    assert (name + [NEWLINE])[..i] == name[..i];
    IndexIs(name + [NEWLINE], NEWLINE, i);
  }

  /** Cutting a text beyond its first `m` bytes does not change the first `m` bytes of its first
      line. */
  lemma CutBeyond(s: Bytes, k: nat, m: nat)
    requires m <= k
    ensures Cut(UpTo(Cut(s, k), NEWLINE), m) == Cut(UpTo(s, NEWLINE), m)
  {
    var c, i := Cut(s, k), Index(s, NEWLINE);
    if i <= |c| {
      assert c[..i] == s[..i];
      IndexIs(c, NEWLINE, i);
    } else {
      assert s[..i][..|c|] == c;
      assert forall x :: x in c ==> x in s[..i];
      assert c[..|c|] == c;
      IndexIs(c, NEWLINE, |c|);
    }
  }

  lemma FirstField(a: Bytes, b: Bytes)
    requires COLON !in a
    ensures Index(a + [COLON] + b, COLON) == |a|
    ensures (a + [COLON] + b)[..|a|] == a && (a + [COLON] + b)[|a| + 1..] == b
  {
    assert (a + [COLON] + b)[..|a|] == a;
    IndexIs(a + [COLON] + b, COLON, |a|);
  }

  /** The first line of what is printed with a name: everything up to the name survives, and so
      do the first 63 bytes of the name's own first line. */
  lemma PrintedLine(head: Bytes, name: Bytes) returns (kept: Bytes)
    requires NEWLINE !in head && |head| + FIELD <= LINE
    ensures FirstLineOf(head + (name + [NEWLINE])) == head + kept
    ensures Cut(kept, FIELD - 1) == Cut(UpTo(name, NEWLINE), FIELD - 1)
  {
    hide UpTo;
    var tail, k := name + [NEWLINE], LINE - 1 - |head|;
    var rest := Cut(tail, k);
    kept := UpTo(rest, NEWLINE);
    assert Cut(head + tail, LINE - 1) == head + rest;
    FirstLine(head, rest);
    NewlineEnds(name);
    CutBeyond(tail, k, FIELD - 1);
  }

  lemma ParsedFields(text: Bytes, first: Bytes, clean: Bytes, kept: Bytes)
    requires COLON !in first && COLON !in clean
    requires FirstLineOf(text) == first + [COLON] + (clean + [COLON] + kept)
    ensures Parsed(text) == Call(StateOf(first), Sanitized(clean), Cut(kept, FIELD - 1))
  {
    hide Sanitized, StateOf, Index, FirstLineOf, Cut;
    FirstField(first, clean + [COLON] + kept);
    FirstField(clean, kept);
  }

  lemma ParsedWithName(state: State, number: Bytes, name: Bytes)
    requires name != []
    ensures Parsed(Line(state, number, name))
      == Call(state, Sanitized(number), Cut(UpTo(name, NEWLINE), FIELD - 1))
  {
    hide Sanitized, NameOf, StateOf, Index, FirstLineOf, Cut, UpTo, Parsed;
    var clean, first := Sanitized(number), NameOf(state);
    NoBreaks(clean);
    SanitizedTwice(number);
    StateNamesReadBack(state);
    var head := first + [COLON] + clean + [COLON];
    var kept := PrintedLine(head, name);
    assert Line(state, number, name) == head + (name + [NEWLINE]);
    assert head + kept == first + [COLON] + (clean + [COLON] + kept);
    ParsedFields(Line(state, number, name), first, clean, kept);
  }

  lemma ParsedWithoutName(state: State, number: Bytes)
    ensures Parsed(Line(state, number, [])) == Call(state, Sanitized(number), [])
  {
    hide Sanitized, NameOf, StateOf, Index;
    var clean, first := Sanitized(number), NameOf(state);
    NoBreaks(clean);
    SanitizedTwice(number);
    StateNamesReadBack(state);
    NewlineEnds([]);
    EmptyName();
    assert [] + [NEWLINE] == [NEWLINE];
    var head := if clean != [] then first + [COLON] + clean else first;
    assert Line(state, number, []) == head + [NEWLINE];
    assert Cut(head + [NEWLINE], LINE - 1) == head + [NEWLINE];
    FirstLine(head, [NEWLINE]);
    assert head + [] == head;
    NothingAfter();
    EmptySanitized();
    if clean != [] {
      FirstField(first, clean);
      NoField(clean);
    } else {
      NoField(first);
    }
  }

  /** For every state, number and name: the state comes back, the number comes back sanitized,
      and the name up to a newline and 63 bytes; colons in the name do no harm. */
  lemma ParsedLine(state: State, number: Bytes, name: Bytes)
    ensures Parsed(Line(state, number, name))
      == Call(state, Sanitized(number), Cut(UpTo(name, NEWLINE), FIELD - 1))
  {
    hide Sanitized, Line, Parsed, UpTo;
    if name != [] {
      ParsedWithName(state, number, name);
    } else {
      EmptyName();
      ParsedWithoutName(state, number);
    }
  }

  /** Printing into the buffer and parsing the file: the same, since the reader stops at 255
      bytes as the printer does. */
  lemma ParsedPrint(state: State, number: Bytes, name: Bytes)
    ensures Parsed(Cut(Line(state, number, name), LINE - 1))
      == Call(state, Sanitized(number), Cut(UpTo(name, NEWLINE), FIELD - 1))
  {
    hide Sanitized, Line, UpTo;
    var line := Line(state, number, name);
    assert Cut(Cut(line, LINE - 1), LINE - 1) == Cut(line, LINE - 1);
    ParsedLine(state, number, name);
  }

  lemma EmptyName()
    ensures UpTo([], NEWLINE) == []
  {}

  lemma NoField(s: Bytes)
    requires COLON !in s
    ensures Index(s, COLON) == |s| && s[..|s|] == s
  {
    assert s[..|s|] == s;
    IndexIs(s, COLON, |s|);
  }

  /** The name survives exactly when it is at most 63 bytes long and holds no newline. */
  lemma NameSurvivesIff(state: State, number: Bytes, name: Bytes)
    ensures Parsed(Line(state, number, name)).name == name <==> |name| <= 63 && 10 !in name
  {
    hide Index, Parsed, Line, UpTo, Cut;
    ParsedLine(state, number, name);
    NameKeptIff(name);
  }

  lemma NameKeptIff(name: Bytes)
    ensures Cut(UpTo(name, NEWLINE), FIELD - 1) == name <==> |name| < FIELD && NEWLINE !in name
  {
    hide Index;
    if NEWLINE !in name {
      assert name[..|name|] == name;
      IndexIs(name, NEWLINE, |name|);
    } else {
      assert forall c :: c in Cut(UpTo(name, NEWLINE), FIELD - 1) ==> c in UpTo(name, NEWLINE);
    }
  }

  /** The line, field by field: `:` between the fields and a newline at the end. */
  lemma LineLayout(state: State, number: Bytes, name: Bytes)
    ensures var w, clean := NameOf(state), Sanitized(number);
      Line(state, number, name) == (if name != [] then w + [58] + clean + [58] + name
                                    else if clean != [] then w + [58] + clean else w) + [10]
  {
    hide NameOf, Sanitized;
  }

  // ---- the code ------------------------------------------------------------

  /** From `at` on a reader of at most `max` bytes finds `s`: up to its terminating zero, or
      `max` bytes of it and no end. */
  ghost predicate StartsAt(a: array<Byte>, at: nat, s: Bytes, max: nat)
    reads a
  {
    && at + Min(|s|, max) <= a.Length
    && (forall i :: 0 <= i < Min(|s|, max) ==> a[at + i] == s[i] && s[i] != 0)
    && (|s| < max ==> at + |s| < a.Length && a[at + |s|] == 0)
  }

  method Strnlen(a: array<Byte>, at: nat, ghost s: Bytes, max: nat) returns (n: nat)
    requires StartsAt(a, at, s, max)
    ensures n == Min(|s|, max)
  {
    n := 0;
    while n < max && a[at + n] != 0
      invariant 0 <= n <= Min(|s|, max) && (n < Min(|s|, max) ==> a[at + n] == s[n])
    {
      n := n + 1;
    }
  }

  method ContentsAt(a: array<Byte>, at: nat, ghost s: Bytes) returns (r: Bytes)
    requires HoldsAt(a, at, s)
    ensures r == s
  {
    var n := 0;
    while a[at + n] != 0
      invariant 0 <= n <= |s| && (n < |s| ==> a[at + n] == s[n])
      decreases |s| - n
    {
      n := n + 1;
    }
    r := a[at..at + n];
  }

  lemma CutSame(s: Bytes, n: nat, i: nat)
    requires i < Min(|s|, n)
    ensures Cut(s, n)[..i + 1] == s[..i + 1]
    ensures Digits(s[..i + 1]) == Digits(s[..i]) + (if Dialable(s[i]) then [s[i]] else [])
  {
    assert s[..i + 1][..i] == s[..i];
  }

  lemma SanitizedParts(s: Bytes, i: nat)
    requires i <= Min(|s|, FIELD)
    requires i == Min(|s|, FIELD) || |Digits(s[..i])| == FIELD - 1
    requires |Digits(s[..i])| < FIELD
    ensures Sanitized(s) == Digits(s[..i])
  {
    var cut := Cut(s, FIELD);
    assert cut[..i] == s[..i];
    DigitsPrefix(cut, i);
    if i == Min(|s|, FIELD) {
      assert cut[..i] == cut;
    }
  }

  /** The source needs no terminator within its first 64 bytes. */
  method SanitizePhoneNumber(src: array<Byte>, at: nat, ghost s: Bytes, dst: array<Byte>)
    requires StartsAt(src, at, s, FIELD) && dst.Length == FIELD && src != dst
    modifies dst
    ensures Holds(dst, Sanitized(s))
  {
    hide Sanitized, Dialable, Digits;
    var srcLen := Strnlen(src, at, s, FIELD);
    var i, j := 0, 0;
    assert s[..0] == [];
    while i < srcLen && j < FIELD - 1
      invariant 0 <= i <= srcLen
      invariant j == |Digits(s[..i])| && j < FIELD
      invariant forall k :: 0 <= k < j ==> dst[k] == Digits(s[..i])[k]
    {
      CutSame(s, FIELD, i);
      var c := src[at + i];
      if Dialable(c) {
        dst[j] := c;
        j := j + 1;
      }
      i := i + 1;
    }
    dst[j] := 0;
    SanitizedParts(s, i);
    NoZeros(Digits(s[..i]));
  }

  lemma NoZeros(d: Bytes)
    requires AllDialable(d)
    ensures forall k :: 0 <= k < |d| ==> d[k] != 0
  {
    assert forall k :: 0 <= k < |d| ==> d[k] in d;
  }

  /** The line is printed into 256 bytes, the last for the terminator; of a longer line, which no
      caller prints, the first 255 bytes are. */
  method WriteCallState(state: State, number: array<Byte>, ghost num: Bytes, name: Bytes) returns (line: Bytes)
    requires StartsAt(number, 0, num, FIELD)
    ensures line == Cut(Line(state, num, name), 255)
  {
    hide Sanitized, NameOf;
    var cleanNum := new Byte[FIELD];
    SanitizePhoneNumber(number, 0, num, cleanNum);
    var clean := Contents(cleanNum, Sanitized(num));
    assert clean != [] ==> cleanNum[0] == clean[0];
    if name != [] {
      line := NameOf(state) + [COLON] + clean + [COLON] + name + [NEWLINE];
    } else if cleanNum[0] != 0 {
      line := NameOf(state) + [COLON] + clean + [NEWLINE];
    } else {
      line := NameOf(state) + [NEWLINE];
    }
    line := Cut(line, LINE - 1);
  }

  /** `strchr`, and a zero written over what it finds: the string at `at` ends there and the
      rest follows it. */
  method Split(a: array<Byte>, at: nat, ghost s: Bytes, c: Byte) returns (found: bool, next: nat)
    requires HoldsAt(a, at, s) && c != 0
    modifies a
    ensures found <==> Index(s, c) < |s|
    ensures HoldsAt(a, at, UpTo(s, c))
    ensures found ==> next == at + Index(s, c) + 1 && HoldsAt(a, next, s[Index(s, c) + 1..])
    ensures forall k :: 0 <= k < a.Length && k != at + Index(s, c) ==> a[k] == old(a[k])
  {
    hide Index;
    var i := 0;
    while a[at + i] != 0 && a[at + i] != c
      invariant 0 <= i <= |s| && c !in s[..i]
      decreases |s| - i
    {
      assert s[..i + 1] == s[..i] + [s[i]];
      i := i + 1;
    }
    IndexIs(s, c, i);
    found, next := a[at + i] != 0, at + i + 1;
    if found {
      a[at + i] := 0;
    }
  }

  class Phone {
    var state: State
    const number: array<Byte>
    const name: array<Byte>
    ghost var call: Call

    ghost predicate Valid()
      reads this, number, name
    {
      && number != name && number.Length == FIELD && name.Length == FIELD
      && state == call.state && Holds(number, call.number) && Holds(name, call.name)
    }

    constructor ()
      ensures Valid() && call == Call(Idle, [], []) && fresh(number) && fresh(name)
    {
      number := new Byte[FIELD](i => 0);
      name := new Byte[FIELD](i => 0);
      state, call := Idle, Call(Idle, [], []);
    }

    /** Splits a copy of the line in place; an empty line changes nothing. */
    method ParseCallState(buf: Bytes)
      requires Valid() && 0 !in buf
      modifies this, number, name
      ensures Valid() && call == if buf == [] then old(call) else Parsed(buf)
    {
      hide Index, Sanitized, StateOf, Cut, UpTo, Rest, FirstLineOf;
      if buf == [] {
        return;
      }
      var line := new Byte[LINE];
      var hasNumber, numberAt, hasName, nameAt := SplitFields(buf, line);
      ghost var whole := FirstLineOf(buf);
      call := Parsed(buf);
      var word := ContentsAt(line, 0, UpTo(whole, COLON));
      state := StateOf(word);
      Store(line, hasNumber, numberAt, UpTo(Rest(whole), COLON), hasName, nameAt, Rest(Rest(whole)));
    }

    method Store(line: array<Byte>, hasNumber: bool, numberAt: nat, ghost num: Bytes,
                 hasName: bool, nameAt: nat, ghost text: Bytes)
      requires number != name && number.Length == FIELD && name.Length == FIELD && line != number && line != name
      requires if hasNumber then HoldsAt(line, numberAt, num) else num == []
      requires if hasName then HoldsAt(line, nameAt, text) else text == []
      modifies number, name
      ensures Holds(number, Sanitized(num)) && Holds(name, Cut(text, FIELD - 1))
    {
      hide Sanitized, Cut;
      if hasNumber {
        SanitizePhoneNumber(line, numberAt, num, number);
      } else {
        number[0] := 0;
        EmptySanitized();
      }
      if hasName {
        var t := ContentsAt(line, nameAt, text);
        CopyCut(name, t, FIELD - 1);
      } else {
        name[0] := 0;
        assert Cut(text, FIELD - 1) == [];
      }
    }
  }

  lemma EmptySanitized()
    ensures Sanitized([]) == []
  {}

  /** Cuts the line at its newline, then at its first two colons. */
  method SplitFields(buf: Bytes, line: array<Byte>)
    returns (hasNumber: bool, numberAt: nat, hasName: bool, nameAt: nat)
    requires 0 !in buf && line.Length == LINE
    modifies line
    ensures var whole := FirstLineOf(buf);
      && HoldsAt(line, 0, UpTo(whole, COLON))
      && (if hasNumber then HoldsAt(line, numberAt, UpTo(Rest(whole), COLON)) else UpTo(Rest(whole), COLON) == [])
      && (if hasName then HoldsAt(line, nameAt, Rest(Rest(whole))) else Rest(Rest(whole)) == [])
  {
    hide Index, Cut;
    CopyCut(line, buf, LINE - 1);
    ghost var whole := FirstLineOf(buf);
    var _, _ := Split(line, 0, Cut(buf, LINE - 1), NEWLINE);
    hasNumber, numberAt := Split(line, 0, whole, COLON);
    hasName, nameAt := false, 0;
    NothingAfter();
    if hasNumber {
      hasName, nameAt := Split(line, numberAt, Rest(whole), COLON);
    }
  }

  lemma NothingAfter()
    ensures Index([], COLON) == 0
  {}
}
