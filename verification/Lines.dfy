/** Lines of octets and dot transparency, shared by SMTP DATA (section 4.5.2 of RFC 5321) and the multi-line
    responses of POP3 (section 3 of RFC 1939). A line runs through its LF. */
module Lines {
  import opened Prelude

  const END: Bytes := [DOT, CR, LF]

  predicate NotLF(b: Bytes, i: nat)
    requires i < |b|
  {
    b[i] != LF
  }

  predicate PlainBefore(b: Bytes, k: nat)
    requires k <= |b|
  {
    forall i :: 0 <= i < k ==> NotLF(b, i)
  }

  /** Position of the first LF from i on, |b| when there is none. */
  function FindFrom(b: Bytes, i: nat): (k: nat)
    requires i <= |b|
    ensures i <= k <= |b| && (k < |b| ==> b[k] == LF) && forall j :: i <= j < k ==> NotLF(b, j)
    decreases |b| - i
  {
    if i == |b| || b[i] == LF then i else FindFrom(b, i + 1)
  }

  function FindLF(b: Bytes): (k: nat)
    ensures k <= |b| && (k < |b| ==> b[k] == LF) && PlainBefore(b, k)
  {
    FindFrom(b, 0)
  }

  /** The first line; the last one may lack its LF. */
  function FirstLine(b: Bytes): (line: Bytes)
    requires b != []
    ensures line != [] && |line| <= |b|
  {
    var k := FindLF(b);
    if k < |b| then b[..k + 1] else b
  }

  function AfterFirst(b: Bytes): (rest: Bytes)
    requires b != []
    ensures FirstLine(b) + rest == b && |rest| < |b|
  {
    b[|FirstLine(b)|..]
  }

  predicate EndsLF(b: Bytes) { b != [] && b[|b| - 1] == LF }

  /** One line: an LF at its end and nowhere else. */
  predicate IsLine(b: Bytes) { EndsLF(b) && PlainBefore(b, |b| - 1) }

  lemma {:induction false} FindUnique(b: Bytes, k: nat)
    requires k < |b| && b[k] == LF && PlainBefore(b, k)
    ensures FindLF(b) == k
  {
    var n := FindLF(b);
    assert n < k ==> NotLF(b, n);
    assert k < n ==> NotLF(b, k);
  }

  lemma {:induction false} LineThenRest(line: Bytes, rest: Bytes)
    requires IsLine(line)
    ensures FindLF(line + rest) == |line| - 1
    ensures FirstLine(line + rest) == line && AfterFirst(line + rest) == rest
  {
    var n := |line| - 1;
    forall i | 0 <= i < n ensures NotLF(line + rest, i) { assert NotLF(line, i); }
    FindUnique(line + rest, n);
    assert (line + rest)[..|line|] == line && (line + rest)[|line|..] == rest;
  }

  lemma {:induction false} FirstIsLine(b: Bytes)
    requires b != []
    ensures IsLine(FirstLine(b)) <==> FindLF(b) < |b|
    ensures FindLF(b) == |b| ==> FirstLine(b) == b && AfterFirst(b) == [] && !EndsLF(b)
  {
    var k, line := FindLF(b), FirstLine(b);
    if k < |b| {
      forall i | 0 <= i < k ensures NotLF(line, i) { assert NotLF(b, i); }
    } else {
      assert NotLF(b, k - 1);
    }
  }

  lemma {:induction false} RestEndsLF(b: Bytes)
    requires EndsLF(b)
    ensures IsLine(FirstLine(b)) && (AfterFirst(b) == [] || EndsLF(AfterFirst(b)))
  {
    FirstIsLine(b);
  }

  // ---------------------------------------------------------------- CRLF

  predicate IsCrlfLine(line: Bytes) { IsLine(line) && |line| >= 2 && line[|line| - 2] == CR }

  /** No bare LF here. */
  predicate CleanAt(b: Bytes, i: nat)
    requires i < |b|
  {
    b[i] == LF ==> i > 0 && b[i - 1] == CR
  }

  /** Every line ends in CRLF. */
  predicate CrlfLined(b: Bytes) {
    (b == [] || EndsLF(b)) && forall i :: 0 <= i < |b| ==> CleanAt(b, i)
  }

  lemma {:induction false} CrlfLinedCons(line: Bytes, rest: Bytes)
    requires IsCrlfLine(line) && CrlfLined(rest)
    ensures CrlfLined(line + rest)
  {
    forall i | 0 <= i < |line + rest| ensures CleanAt(line + rest, i) {
      if i >= |line| {
        assert CleanAt(rest, i - |line|);
      } else if i < |line| - 1 {
        assert NotLF(line, i);
      }
    }
  }

  lemma {:induction false} CrlfLinedParts(b: Bytes)
    requires CrlfLined(b) && b != []
    ensures IsCrlfLine(FirstLine(b)) && CrlfLined(AfterFirst(b))
  {
    var line, rest := FirstLine(b), AfterFirst(b);
    var n := |line|;
    RestEndsLF(b);
    assert CleanAt(b, n - 1);
    assert line[n - 1] == b[n - 1] == LF;
    forall i | 0 <= i < |rest| ensures CleanAt(rest, i) {
      assert rest[i] == b[n + i] && CleanAt(b, n + i);
      assert i > 0 ==> rest[i - 1] == b[n + i - 1];
    }
  }

  // ---------------------------------------------------------------- dot transparency

  function StuffLine(line: Bytes): Bytes { if line != [] && line[0] == DOT then [DOT] + line else line }

  /** Double the dot that starts a line, on every line. */
  function Stuff(b: Bytes): Bytes {
    if b == [] then [] else StuffLine(FirstLine(b)) + Stuff(AfterFirst(b))
  }

  function Undot(line: Bytes): Bytes
    requires line != []
  {
    if line[0] == DOT then line[1..] else line
  }

  /** Reading a dot-transparent block: strip one dot from lines that start with one, up to the terminator line. */
  function Unstuff(stream: Bytes): Option<(Bytes, Bytes)> {
    if stream == [] then None
    else
      var line, rest := FirstLine(stream), AfterFirst(stream);
      if !EndsLF(line) then None
      else if line == END then Some(([], rest))
      else
        var tail := Unstuff(rest);
        if tail.None? then None else Some((Undot(line) + tail.value.0, tail.value.1))
  }

  lemma {:induction false} StuffLineIsLine(line: Bytes)
    requires IsLine(line)
    ensures IsLine(StuffLine(line)) && StuffLine(line) != END && Undot(StuffLine(line)) == line
  {
    var stuffed := StuffLine(line);
    forall i | 0 <= i < |stuffed| - 1 ensures NotLF(stuffed, i) {
      assert |stuffed| == |line| ==> NotLF(line, i);
      assert |stuffed| > |line| && i > 0 ==> NotLF(line, i - 1);
    }
    if line[0] == DOT {
      assert stuffed[1] == DOT != END[1];
    } else {
      assert stuffed[0] != END[0];
    }
  }

  lemma {:induction false} UnstuffCons(line: Bytes, rest: Bytes)
    requires IsLine(line) && Unstuff(rest).Some?
    ensures Unstuff(StuffLine(line) + rest) == Some((line + Unstuff(rest).value.0, Unstuff(rest).value.1))
  {
    StuffLineIsLine(line);
    LineThenRest(StuffLine(line), rest);
  }

  lemma {:induction false} UnstuffEnd(rest: Bytes)
    ensures Unstuff(END + rest) == Some(([], rest))
  {
    assert NotLF(END, 0) && NotLF(END, 1);
    LineThenRest(END, rest);
  }

  /** Unstuffing inverts stuffing, and the reader stops exactly after the terminator, for any LF-terminated octets. */
  lemma {:induction false} UnstuffStuff(b: Bytes, rest: Bytes)
    requires b == [] || EndsLF(b)
    ensures Unstuff(Stuff(b) + END + rest) == Some((b, rest))
  {
    if b == [] {
      UnstuffEnd(rest);
      assert Stuff(b) + END + rest == END + rest;
    } else {
      var line, more := FirstLine(b), AfterFirst(b);
      assert b == line + more;
      RestEndsLF(b);
      UnstuffStuff(more, rest);
      UnstuffCons(line, Stuff(more) + END + rest);
      Regroup(StuffLine(line), Stuff(more), END, rest);
    }
  }

  lemma {:induction false} Regroup(a: Bytes, b: Bytes, c: Bytes, d: Bytes)
    ensures a + b + c + d == a + (b + c + d)
  {
  }

  /** An LF, a dot and CRLF in a row: what ends a block wherever lines are thought to end. */
  predicate TerminatorAt(b: Bytes, i: nat) {
    i + 4 <= |b| && b[i] == LF && b[i + 1] == DOT && b[i + 2] == CR && b[i + 3] == LF
  }

  /** If a dot starts a line here, another follows. */
  predicate DottedAt(b: Bytes, i: nat)
    requires i < |b|
  {
    b[i] == DOT && (i == 0 || b[i - 1] == LF) ==> i + 1 < |b| && b[i + 1] == DOT
  }

  predicate Dotted(b: Bytes) { forall i :: 0 <= i < |b| ==> DottedAt(b, i) }

  lemma {:induction false} DottedAppend(a: Bytes, b: Bytes)
    requires Dotted(a) && Dotted(b)
    ensures Dotted(a + b)
  {
    forall i | 0 <= i < |a + b| ensures DottedAt(a + b, i) {
      if i < |a| { assert DottedAt(a, i); } else { assert DottedAt(b, i - |a|); }
    }
  }

  lemma {:induction false} StuffedLineIsDotted(b: Bytes)
    requires b != []
    ensures Dotted(StuffLine(FirstLine(b)))
  {
    var line := FirstLine(b);
    var stuffed := StuffLine(line);
    forall i | 0 <= i < |stuffed| ensures DottedAt(stuffed, i) {
      var j := if line[0] == DOT then i - 2 else i - 1;
      assert j >= 0 ==> NotLF(b, j);
    }
  }

  /** In stuffed octets every dot at the start of a line is followed by another. */
  lemma {:induction false} StuffedIsDotted(b: Bytes)
    ensures Dotted(Stuff(b))
  {
    if b != [] {
      StuffedLineIsDotted(b);
      StuffedIsDotted(AfterFirst(b));
      DottedAppend(StuffLine(FirstLine(b)), Stuff(AfterFirst(b)));
    }
  }

  lemma {:induction false} EndsAppend(a: Bytes, b: Bytes)
    ensures EndsLF(a + b) <==> if b == [] then EndsLF(a) else EndsLF(b)
  {
    if b == [] { assert a + b == a; }
  }

  lemma {:induction false} StuffedEnds(b: Bytes)
    ensures Stuff(b) == [] <==> b == []
    ensures EndsLF(Stuff(b)) <==> EndsLF(b)
  {
    if b != [] {
      var line, more := FirstLine(b), AfterFirst(b);
      StuffedEnds(more);
      EndsAppend(line, more);
      EndsAppend(StuffLine(line), Stuff(more));
    }
  }

  /** What closes a block: a CRLF of its own after an unterminated last line, then the terminator line. */
  function Closing(b: Bytes): Bytes { if b == [] || EndsLF(b) then END else CRLF + END }

  lemma {:induction false} TerminatorInside(stuffed: Bytes, closing: Bytes, i: nat)
    requires Dotted(stuffed) && i < |stuffed|
    ensures !TerminatorAt([LF] + stuffed + closing, i)
  {
    var block := [LF] + stuffed + closing;
    assert DottedAt(stuffed, i);
    assert block[i + 1] == stuffed[i];
    assert i > 0 ==> block[i] == stuffed[i - 1];
    assert i + 1 < |stuffed| ==> block[i + 2] == stuffed[i + 1];
  }

  /** However a client splits lines, by LF or by CRLF, it meets a terminator only at the end of the block. */
  lemma {:induction false} TerminatorOnlyAtEnd(b: Bytes, i: nat)
    requires TerminatorAt([LF] + Stuff(b) + Closing(b), i)
    ensures i + 4 == |[LF] + Stuff(b) + Closing(b)|
  {
    var stuffed, closing := Stuff(b), Closing(b);
    StuffedEnds(b);
    StuffedIsDotted(b);
    if i < |stuffed| { TerminatorInside(stuffed, closing, i); } else { TerminatorAfter(stuffed, closing, i); }
  }

  lemma {:induction false} TerminatorAfter(stuffed: Bytes, closing: Bytes, i: nat)
    requires |stuffed| <= i && TerminatorAt([LF] + stuffed + closing, i)
    requires closing == END || (closing == CRLF + END && stuffed != [] && stuffed[|stuffed| - 1] != LF)
    ensures i + 4 == |[LF] + stuffed + closing|
  {
    var block, n := [LF] + stuffed + closing, |stuffed|;
    if closing != END {
      assert block[n] == stuffed[n - 1];
      assert block[n + 1] == CR && block[n + 2] == LF;
    }
  }
}
