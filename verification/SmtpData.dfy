/** internal/smtp/server.go: the reader that turns the octets of SMTP DATA into the stored message, and the one-shot
    decoder it must agree with whatever buffers its caller brings. */
module SmtpData {
  import opened Prelude
  import opened Lines

  const MAX_LINE: nat := 1000

  datatype DataError = LineTooLong | MessageTooLarge | UnexpectedEOF
  datatype Ending = Complete(rest: Bytes) | Broken(error: DataError)

  /** What a DATA stream yields, and how it ends. */
  datatype Decoded = Decoded(output: Bytes, end: Ending)

  /** readLimitedLineRaw over a buffered reader of MAX_LINE + 2 octets: the next line through its LF, and what is
      left of the input. */
  function NextLine(input: Bytes): (r: (Result<Bytes, DataError>, Bytes))
    ensures r.0.Ok? ==> IsLine(r.0.value) && |r.0.value| <= MAX_LINE && input == r.0.value + r.1
    ensures r.0.Ok? <==> FindLF(input) < |input| && FindLF(input) < MAX_LINE
  {
    var k := FindLF(input);
    if k < |input| && k < MAX_LINE + 2 then
      LineOf(input, k);
      (if k < MAX_LINE then Ok(input[..k + 1]) else Err(LineTooLong), input[k + 1..])
    else if |input| >= MAX_LINE + 2 then (Err(LineTooLong), input[MAX_LINE + 2..])
    else (if |input| > MAX_LINE then Err(LineTooLong) else Err(UnexpectedEOF), [])
  }

  lemma {:induction false} LineOf(input: Bytes, k: nat)
    requires FindLF(input) == k < |input|
    ensures IsLine(input[..k + 1])
  {
    FirstIsLine(input);
  }

  predicate IsTerminator(line: Bytes) { line == [DOT, CR, LF] || line == [DOT, LF] }

  function TrimSuffix(b: Bytes, suffix: byte): Bytes { if b != [] && b[|b| - 1] == suffix then b[..|b| - 1] else b }

  lemma {:induction false} CanonicalIsLine(line: Bytes, text: Bytes)
    requires IsLine(line) && text <= line[..|line| - 1]
    ensures IsCrlfLine(text + CRLF)
  {
    forall i | 0 <= i <= |text| ensures NotLF(text + CRLF, i) { assert i < |text| ==> NotLF(line, i); }
  }

  lemma {:induction false} UndoubledIsLine(line: Bytes)
    requires IsLine(line) && |line| >= 2
    ensures IsLine(line[1..])
  {
    forall i | 0 <= i < |line| - 2 ensures NotLF(line[1..], i) { assert NotLF(line, i + 1); }
  }

  /** canonicalDataLine. */
  function Canonical(line: Bytes): (canonical: Bytes)
    requires IsLine(line)
    ensures IsCrlfLine(canonical)
    ensures IsCrlfLine(line) ==> canonical == line
    ensures |canonical| <= |line| + 1
  {
    var text := TrimSuffix(TrimSuffix(line, LF), CR);
    CanonicalIsLine(line, text);
    text + CRLF
  }

  /** Only a doubled leading dot is stripped. */
  function Undouble(line: Bytes): (text: Bytes)
    requires IsLine(line)
    ensures IsLine(text) && |text| <= |line|
  {
    if |line| >= 2 && line[0] == DOT && line[1] == DOT then
      UndoubledIsLine(line);
      line[1..]
    else line
  }

  /** What one line of input means: the terminator, the next line as it will be stored, or an error. */
  datatype Step = Stop(rest: Bytes) | Text(text: Bytes, rest: Bytes) | Fail(error: DataError)

  function NextText(input: Bytes): (s: Step)
    ensures s.Text? ==> IsCrlfLine(s.text) && |s.text| <= MAX_LINE && |s.rest| < |input|
  {
    var (line, rest) := NextLine(input);
    if line.Err? then Fail(line.error)
    else if IsTerminator(line.value) then Stop(rest)
    else
      var text := Canonical(Undouble(line.value));
      if |text| > MAX_LINE then Fail(LineTooLong) else Text(text, rest)
  }

  /** The stored lines up to the end of the message, before the size limit. */
  datatype Lined = Last(end: Ending) | More(text: Bytes, next: Lined)

  function Parse(input: Bytes): Lined
    decreases |input|
  {
    match NextText(input)
    case Fail(error) => Last(Broken(error))
    case Stop(rest) => Last(Complete(rest))
    case Text(text, rest) => More(text, Parse(rest))
  }

  /** Stop where the size limit is passed. */
  function Limit(lined: Lined, used: nat, max: nat): Decoded {
    match lined
    case Last(end) => Decoded([], end)
    case More(text, next) =>
      if used + |text| > max then Decoded([], Broken(MessageTooLarge))
      else
        var tail := Limit(next, used + |text|, max);
        Decoded(text + tail.output, tail.end)
  }

  /** The one-shot decoder: all lines up to the terminator, un-stuffed and ended by CRLF. */
  function Decode(input: Bytes, used: nat, max: nat): Decoded { Limit(Parse(input), used, max) }

  predicate StoredLines(lined: Lined) {
    lined.More? ==> IsCrlfLine(lined.text) && |lined.text| <= MAX_LINE && StoredLines(lined.next)
  }

  lemma {:induction false} ParsedLines(input: Bytes)
    ensures StoredLines(Parse(input))
    decreases |input|
  {
    var s := NextText(input);
    if s.Text? { ParsedLines(s.rest); }
  }

  lemma {:induction false} LimitIsCanonical(lined: Lined, used: nat, max: nat)
    requires StoredLines(lined) && used <= max
    ensures CrlfLined(Limit(lined, used, max).output)
    ensures used + |Limit(lined, used, max).output| <= max
  {
    if lined.More? && used + |lined.text| <= max {
      LimitIsCanonical(lined.next, used + |lined.text|, max);
      CrlfLinedCons(lined.text, Limit(lined.next, used + |lined.text|, max).output);
    }
  }

  /** What is decoded is CRLF-lined, and the limit covers what was used before and what comes out. */
  lemma {:induction false} DecodeIsCanonical(input: Bytes, used: nat, max: nat)
    requires used <= max
    ensures CrlfLined(Decode(input, used, max).output)
    ensures used + |Decode(input, used, max).output| <= max
  {
    ParsedLines(input);
    LimitIsCanonical(Parse(input), used, max);
  }

  /** The lines of `body` are all lines, and none is a terminator. */
  ghost predicate NoTerminator(body: seq<Bytes>) {
    forall i :: 0 <= i < |body| ==> IsLine(body[i]) && !IsTerminator(body[i])
  }

  function Concat(body: seq<Bytes>): Bytes { if body == [] then [] else body[0] + Concat(body[1..]) }

  lemma {:induction false} StepLine(input: Bytes) returns (line: Bytes)
    requires !NextText(input).Fail?
    ensures IsLine(line) && (IsTerminator(line) <==> NextText(input).Stop?) && input == line + NextText(input).rest
  {
    line := NextLine(input).0.value;
  }

  function EndOf(lined: Lined): Ending { if lined.Last? then lined.end else EndOf(lined.next) }

  lemma {:induction false} LimitKeepsEnd(lined: Lined, used: nat, max: nat)
    requires Limit(lined, used, max).end.Complete?
    ensures EndOf(lined) == Limit(lined, used, max).end
  {
    if lined.More? { LimitKeepsEnd(lined.next, used + |lined.text|, max); }
  }

  lemma {:induction false} ParseStops(input: Bytes) returns (body: seq<Bytes>, terminator: Bytes)
    requires EndOf(Parse(input)).Complete?
    ensures IsTerminator(terminator) && NoTerminator(body)
    ensures input == Concat(body) + terminator + EndOf(Parse(input)).rest
    decreases |input|
  {
    var s := NextText(input);
    var line := StepLine(input);
    if s.Stop? {
      body, terminator := [], line;
    } else {
      var more: seq<Bytes>;
      more, terminator := ParseStops(s.rest);
      body := [line] + more;
      BodyCons(input, line, s.rest, more, terminator, EndOf(Parse(s.rest)).rest);
    }
  }

  lemma {:induction false} BodyCons(input: Bytes, line: Bytes, tail: Bytes, more: seq<Bytes>,
                                    terminator: Bytes, rest: Bytes)
    requires input == line + tail && tail == Concat(more) + terminator + rest
    requires IsLine(line) && !IsTerminator(line) && NoTerminator(more)
    ensures NoTerminator([line] + more) && input == Concat([line] + more) + terminator + rest
  {
    assert ([line] + more)[1..] == more;
    assert line + (Concat(more) + terminator + rest) == line + Concat(more) + terminator + rest;
  }

  /** A complete message ends at the first terminator line, and the input is left exactly after it. */
  lemma {:induction false} StopsAfterTerminator(input: Bytes, used: nat, max: nat)
    returns (body: seq<Bytes>, terminator: Bytes)
    requires Decode(input, used, max).end.Complete?
    ensures IsTerminator(terminator) && NoTerminator(body)
    ensures input == Concat(body) + terminator + Decode(input, used, max).end.rest
  {
    LimitKeepsEnd(Parse(input), used, max);
    body, terminator := ParseStops(input);
  }

  // ---------------------------------------------------------------- what a line says

  /** The text of a line: without its LF, without a CR before that, and without the first of two leading dots. */
  function LineText(line: Bytes): Bytes
    requires IsLine(line)
  {
    var end := if |line| >= 2 && line[|line| - 2] == CR then |line| - 2 else |line| - 1;
    if |line| >= 2 && line[0] == DOT && line[1] == DOT then assert line[|line| - 1] == LF; line[1..end] else line[..end]
  }

  /** Any text of any line ends in CRLF once it is stored. */
  function Texts(body: seq<Bytes>): Bytes
    requires AllLines(body)
  {
    if body == [] then [] else LineText(body[0]) + CRLF + Texts(body[1..])
  }

  predicate AllLines(body: seq<Bytes>) { forall i :: 0 <= i < |body| ==> IsLine(body[i]) }

  /** Lines of a message: none of them is a lone dot. */
  ghost predicate Body(body: seq<Bytes>) {
    AllLines(body) && forall i :: 0 <= i < |body| ==> body[i] != [DOT, LF] && body[i] != [DOT, CR, LF]
  }

  /** As sent and as stored, the line has at most 1000 octets. */
  predicate Short(line: Bytes)
    requires IsLine(line)
  {
    |line| <= 1000 && |LineText(line)| + 2 <= 1000
  }

  ghost predicate AllShort(body: seq<Bytes>)
    requires AllLines(body)
  {
    forall i :: 0 <= i < |body| ==> Short(body[i])
  }

  lemma {:induction false} CanonicalText(line: Bytes)
    requires IsLine(line)
    ensures Canonical(Undouble(line)) == LineText(line) + CRLF
  {
  }

  lemma {:induction false} LineParses(line: Bytes, after: Bytes)
    requires IsLine(line) && line != [DOT, LF] && line != [DOT, CR, LF]
    ensures NextText(line + after) == if Short(line) then Text(LineText(line) + CRLF, after) else Fail(LineTooLong)
  {
    LineThenRest(line, after);
    assert (line + after)[..|line|] == line && (line + after)[|line|..] == after;
    CanonicalText(line);
  }

  lemma {:induction false} LoneDotParses(terminator: Bytes, rest: Bytes)
    requires terminator == [DOT, LF] || terminator == [DOT, CR, LF]
    ensures NextText(terminator + rest) == Stop(rest)
  {
    assert NotLF(terminator, 0) && (|terminator| == 3 ==> NotLF(terminator, 1));
    LineThenRest(terminator, rest);
    assert (terminator + rest)[..|terminator|] == terminator && (terminator + rest)[|terminator|..] == rest;
  }

  lemma {:induction false} OpenTailParses(tail: Bytes)
    requires PlainBefore(tail, |tail|)
    ensures NextText(tail) == Fail(if |tail| > 1000 then LineTooLong else UnexpectedEOF)
  {
    var k := FindLF(tail);
    assert k < |tail| ==> NotLF(tail, k);
  }

  lemma {:induction false} TextsCons(line: Bytes, more: seq<Bytes>)
    requires IsLine(line) && AllLines(more)
    ensures AllLines([line] + more) && Texts([line] + more) == LineText(line) + CRLF + Texts(more)
    ensures Concat([line] + more) == line + Concat(more)
  {
    assert ([line] + more)[1..] == more;
  }

  lemma {:induction false} Associates(a: Bytes, b: Bytes, c: Bytes)
    ensures a + b + c == a + (b + c)
  {
  }

  /** Short lines within the limit are stored as their texts, whatever follows them. */
  lemma {:induction false} LinesDecode(body: seq<Bytes>, after: Bytes, used: nat, max: nat, d: Decoded)
    requires Body(body) && AllShort(body) && used + |Texts(body)| <= max
    requires d == Decode(after, used + |Texts(body)|, max)
    ensures Decode(Concat(body) + after, used, max) == Decoded(Texts(body) + d.output, d.end)
  {
    if body == [] {
      assert Concat(body) + after == after;
      NothingPending(d.output);
    } else {
      var line, more := body[0], body[1..];
      BodyTail(body);
      assert used + |LineText(line)| + 2 + |Texts(more)| == used + |Texts(body)|;
      LinesDecode(more, after, used + |LineText(line)| + 2, max, d);
      LineDecodes(line, Concat(more), after, Texts(more), d, used, max);
    }
  }

  lemma {:induction false} BodyTail(body: seq<Bytes>)
    requires Body(body) && AllShort(body) && body != []
    ensures Body(body[1..]) && AllShort(body[1..]) && Short(body[0])
    ensures |Texts(body)| == |LineText(body[0])| + 2 + |Texts(body[1..])|
  {
  }

  lemma {:induction false} LineDecodes(line: Bytes, more: Bytes, after: Bytes, texts: Bytes, d: Decoded, used: nat,
                                       max: nat)
    requires IsLine(line) && line != [DOT, LF] && line != [DOT, CR, LF]
    requires Short(line) && used + |LineText(line)| + 2 <= max
    requires Decode(more + after, used + |LineText(line)| + 2, max) == Decoded(texts + d.output, d.end)
    ensures Decode(line + more + after, used, max) == Decoded(LineText(line) + CRLF + texts + d.output, d.end)
  {
    var text := LineText(line) + CRLF;
    Associates(line, more, after);
    LineParses(line, more + after);
    DecodeStep(line + (more + after), text, more + after, used, max);
    Associates(text, texts, d.output);
  }

  lemma {:induction false} DecodeStep(input: Bytes, text: Bytes, rest: Bytes, used: nat, max: nat)
    requires NextText(input) == Text(text, rest) && used + |text| <= max
    ensures var d := Decode(rest, used + |text|, max); Decode(input, used, max) == Decoded(text + d.output, d.end)
  {
    ParseStep(input, NextText(input));
  }

  /** Every message is decoded into the texts of its lines, and it is complete if and only if every line is short and
      the texts are within the limit. */
  lemma {:induction false} MessageDecodes(body: seq<Bytes>, terminator: Bytes, rest: Bytes, used: nat, max: nat)
    requires Body(body) && (terminator == [DOT, LF] || terminator == [DOT, CR, LF]) && used <= max
    ensures var d := Decode(Concat(body) + (terminator + rest), used, max);
      && (d.end.Complete? <==> AllShort(body) && used + |Texts(body)| <= max)
      && (d.end.Complete? ==> d == Decoded(Texts(body), Complete(rest)))
  {
    if AllShort(body) && used + |Texts(body)| <= max {
      LinesDecode(body, terminator + rest, used, max, Decode(terminator + rest, used + |Texts(body)|, max));
      LoneDotParses(terminator, rest);
      ParseStep(terminator + rest, Stop(rest));
      assert Texts(body) + [] == Texts(body);
    } else {
      var i := FirstRefused(body, used, max);
      LineRefused(body, i, terminator + rest, used, max);
    }
  }

  /** Up to line i everything is short and within the limit; line i is not. */
  ghost predicate RefusedAt(body: seq<Bytes>, i: nat, used: nat, max: nat)
    requires Body(body) && i < |body|
  {
    && AllShort(body[..i]) && used + |Texts(body[..i])| <= max
    && !(Short(body[i]) && used + |Texts(body[..i])| + |LineText(body[i])| + 2 <= max)
  }

  /** The first line that is too long, or passes the limit, ends the decoding with that error, whatever follows. */
  lemma {:induction false} LineRefused(body: seq<Bytes>, i: nat, after: Bytes, used: nat, max: nat)
    requires Body(body) && i < |body| && RefusedAt(body, i, used, max)
    ensures Decode(Concat(body) + after, used, max)
            == Decoded(Texts(body[..i]), Broken(if Short(body[i]) then MessageTooLarge else LineTooLong))
  {
    var front, line, more := body[..i], body[i], body[i + 1..];
    var tail := line + (Concat(more) + after);
    ConcatSplit(body, i);
    Associates(Concat(front) + line, Concat(more), after);
    Associates(Concat(front), line, Concat(more) + after);
    LinesDecode(front, tail, used, max, Decode(tail, used + |Texts(front)|, max));
    LineParses(line, Concat(more) + after);
    ParseStep(tail, NextText(tail));
    assert Texts(front) + [] == Texts(front);
  }

  lemma {:induction false} ConcatSplit(body: seq<Bytes>, i: nat)
    requires i < |body|
    ensures Concat(body) == Concat(body[..i]) + body[i] + Concat(body[i + 1..])
  {
    if i > 0 {
      ConcatSplit(body[1..], i - 1);
      assert body[..i][1..] == body[1..][..i - 1] && body[1..][i..] == body[i + 1..];
      assert body[..i][0] == body[0];
    }
  }

  lemma {:induction false} FirstRefused(body: seq<Bytes>, used: nat, max: nat) returns (i: nat)
    requires Body(body) && used <= max && !(AllShort(body) && used + |Texts(body)| <= max)
    ensures i < |body| && RefusedAt(body, i, used, max)
  {
    var line, more := body[0], body[1..];
    var size := |LineText(line)| + 2;
    if !Short(line) || used + size > max { return 0; }
    var j := FirstRefused(more, used + size, max);
    i := j + 1;
    assert body[..i] == [line] + more[..j];
    TextsCons(line, more[..j]);
  }

  /** A message without its end is refused. */
  lemma {:induction false} UnterminatedIsRefused(body: seq<Bytes>, tail: Bytes, used: nat, max: nat)
    requires Body(body) && PlainBefore(tail, |tail|) && AllShort(body) && used + |Texts(body)| <= max
    ensures Decode(Concat(body) + tail, used, max)
            == Decoded(Texts(body), Broken(if |tail| > 1000 then LineTooLong else UnexpectedEOF))
  {
    LinesDecode(body, tail, used, max, Decode(tail, used + |Texts(body)|, max));
    OpenTailParses(tail);
    ParseStep(tail, NextText(tail));
    assert Texts(body) + [] == Texts(body);
  }

  /** Every input is one of these: lines up to a lone dot, or lines and a last one without LF. */
  lemma {:induction false} EveryInput(input: Bytes) returns (body: seq<Bytes>, terminator: Bytes, rest: Bytes)
    ensures Body(body) && input == Concat(body) + (terminator + rest)
    ensures terminator == [DOT, LF] || terminator == [DOT, CR, LF] || (terminator == [] && PlainBefore(rest, |rest|))
    decreases |input|
  {
    if input == [] || FindLF(input) == |input| {
      return [], [], input;
    }
    FirstIsLine(input);
    var line, more := FirstLine(input), AfterFirst(input);
    if line == [DOT, LF] || line == [DOT, CR, LF] { return [], line, more; }
    var lines;
    lines, terminator, rest := EveryInput(more);
    body := [line] + lines;
    TextsCons(line, lines);
    Associates(line, Concat(lines), terminator + rest);
  }

  // ---------------------------------------------------------------- what is accepted

  /** Every line, its stuffed dot included, is within the line limit. */
  predicate LinesFit(b: Bytes) {
    b == [] || (|StuffLine(FirstLine(b))| <= MAX_LINE && LinesFit(AfterFirst(b)))
  }

  lemma {:induction false} StuffedLineParses(line: Bytes, tail: Bytes)
    requires IsCrlfLine(line)
    ensures NextText(StuffLine(line) + tail)
            == if |StuffLine(line)| <= MAX_LINE then Text(line, tail) else Fail(LineTooLong)
  {
    var stuffed := StuffLine(line);
    StuffLineIsLine(line);
    LineThenRest(stuffed, tail);
    assert stuffed[|stuffed| - 2] == CR;
    var n := |stuffed|;
    assert (stuffed + tail)[..n] == stuffed && (stuffed + tail)[n..] == tail;
    UndoubleStuffed(line);
  }

  lemma {:induction false} UndoubleStuffed(line: Bytes)
    requires IsCrlfLine(line)
    ensures IsLine(StuffLine(line)) && Undouble(StuffLine(line)) == line && Canonical(line) == line
    ensures !IsTerminator(StuffLine(line))
  {
    StuffLineIsLine(line);
    var stuffed := StuffLine(line);
    assert stuffed[|stuffed| - 2] == CR;
    assert [DOT, LF][0] == DOT;
  }

  lemma {:induction false} TerminatorParses(rest: Bytes)
    ensures NextText(END + rest) == Stop(rest)
  {
    assert NotLF(END, 0) && NotLF(END, 1);
    LineThenRest(END, rest);
    assert (END + rest)[..3] == END && (END + rest)[3..] == rest;
  }

  /** The lines of a CRLF-lined message, as the reader sees them in its stuffed form. */
  function StoredAs(b: Bytes, rest: Bytes): Lined {
    if b == [] then Last(Complete(rest))
    else if |StuffLine(FirstLine(b))| > MAX_LINE then Last(Broken(LineTooLong))
    else More(FirstLine(b), StoredAs(AfterFirst(b), rest))
  }

  lemma {:induction false} ParseStep(input: Bytes, s: Step)
    requires NextText(input) == s
    ensures Parse(input) == match s case Fail(error) => Last(Broken(error))
                                    case Stop(rest) => Last(Complete(rest))
                                    case Text(text, rest) => More(text, Parse(rest))
  {
  }

  lemma {:induction false} ParseStuffed(b: Bytes, rest: Bytes)
    requires CrlfLined(b)
    ensures Parse(Stuff(b) + END + rest) == StoredAs(b, rest)
  {
    if b == [] {
      TerminatorParses(rest);
      ParseStep(END + rest, Stop(rest));
      assert Stuff(b) + END + rest == END + rest;
    } else {
      var line, more := FirstLine(b), AfterFirst(b);
      CrlfLinedParts(b);
      ParseStuffed(more, rest);
      ParseStuffedLine(line, Stuff(more) + END + rest);
      Regroup(StuffLine(line), Stuff(more), END, rest);
    }
  }

  lemma {:induction false} ParseStuffedLine(line: Bytes, tail: Bytes)
    requires IsCrlfLine(line)
    ensures Parse(StuffLine(line) + tail)
            == if |StuffLine(line)| <= MAX_LINE then More(line, Parse(tail)) else Last(Broken(LineTooLong))
  {
    StuffedLineParses(line, tail);
    ParseStep(StuffLine(line) + tail, NextText(StuffLine(line) + tail));
  }

  function Output(lined: Lined): Bytes { if lined.Last? then [] else lined.text + Output(lined.next) }

  /** The limit is passed exactly when all of the output together passes it, and otherwise changes nothing. */
  lemma {:induction false} LimitIsTotal(lined: Lined, used: nat, max: nat)
    requires used <= max
    ensures if used + |Output(lined)| <= max then Limit(lined, used, max) == Decoded(Output(lined), EndOf(lined))
            else !Limit(lined, used, max).end.Complete?
  {
    if lined.More? && used + |lined.text| <= max { LimitIsTotal(lined.next, used + |lined.text|, max); }
  }

  lemma {:induction false} FittingIsStored(b: Bytes, rest: Bytes)
    ensures EndOf(StoredAs(b, rest)) == if LinesFit(b) then Complete(rest) else Broken(LineTooLong)
    ensures LinesFit(b) ==> Output(StoredAs(b, rest)) == b
  {
    if b != [] {
      var line, more := FirstLine(b), AfterFirst(b);
      assert b == line + more;
      FittingIsStored(more, rest);
    }
  }

  /** A CRLF-lined message sent with dot transparency comes back unchanged, with the input exactly after its
      terminator, if and only if every stuffed line and the whole message are within the limits; otherwise it is
      refused. */
  lemma {:induction false} AcceptsExactly(b: Bytes, rest: Bytes, used: nat, max: nat)
    requires CrlfLined(b) && used <= max
    ensures Decode(Stuff(b) + END + rest, used, max).end.Complete? <==> LinesFit(b) && used + |b| <= max
    ensures Decode(Stuff(b) + END + rest, used, max) == Decoded(b, Complete(rest)) <==> LinesFit(b) && used + |b| <= max
  {
    ParseStuffed(b, rest);
    FittingIsStored(b, rest);
    LimitIsTotal(StoredAs(b, rest), used, max);
  }

  /** Section 4.5.3.1.6 of RFC 5321 allows lines of 1000 octets without counting the doubled dot; the reader counts
      it. A line of exactly that length is accepted if and only if it does not start with a dot. */
  lemma {:induction false} StuffedDotCounts(line: Bytes, rest: Bytes, max: nat)
    requires IsCrlfLine(line) && |line| == MAX_LINE <= max
    ensures Decode(Stuff(line) + END + rest, 0, max) == Decoded(line, Complete(rest)) <==> line[0] != DOT
  {
    CrlfLinedCons(line, []);
    assert line + [] == line;
    LineThenRest(line, []);
    AcceptsExactly(line, rest, 0, max);
  }

  // ---------------------------------------------------------------- the reader

  datatype ReadEnd = EOF | Failed(error: DataError)

  class DataReader {
    var input: Bytes // what the connection still holds
    var pending: Bytes
    var done: bool
    const maxBytes: nat
    var bytesRead: nat

    ghost predicate Valid()
      reads this
    {
      |pending| <= bytesRead <= maxBytes && (done ==> pending == []) && (pending != [] ==> IsLine(pending))
    }

    /** Everything the reader has yet to hand out. */
    ghost function Future(): Decoded
      reads this
    {
      if done then Decoded([], Complete(input))
      else
        var d := Decode(input, bytesRead, maxBytes);
        Decoded(pending + d.output, d.end)
    }

    constructor (input: Bytes, maxBytes: nat)
      ensures Valid() && Future() == Decode(input, 0, maxBytes) && bytesRead == 0 && pending == []
      ensures this.maxBytes == maxBytes && this.input == input
    {
      this.input, this.maxBytes := input, maxBytes;
      pending, done, bytesRead := [], false, 0;
      new;
      NothingPending(Decode(input, 0, maxBytes).output);
    }

    /** Read into a buffer of `size` octets: as many as fit of the line that comes next. */
    method Read(size: nat) returns (chunk: Bytes, end: Option<ReadEnd>)
      requires Valid()
      modifies this
      ensures Valid() && |chunk| <= size
      ensures end.None? ==> old(Future()).output != [] && |chunk| == Piece(old(Future()).output, size)
      ensures bytesRead - |pending| == old(bytesRead - |pending|) + |chunk|
      ensures end.None? ==> old(Future()) == Decoded(chunk + Future().output, Future().end)
      ensures end == Some(EOF) ==> chunk == [] && done && old(Future()) == Decoded([], Complete(input))
      ensures end.Some? && end.value.Failed? ==> chunk == [] && old(Future()) == Decoded([], Broken(end.value.error))
      ensures end.None? && size > 0 ==> chunk != [] && |input| <= old(|input|)
                                        && (|input| < old(|input|) || |pending| < old(|pending|))
    {
      if pending != [] {
        chunk := Copy(size);
        return chunk, None;
      }
      if done { return [], Some(EOF); }
      end := Fill();
      if end.Some? { return [], end; }
      chunk := Copy(size);
    }

    /** Bring in the next line, or find out that there is none to come. */
    method Fill() returns (end: Option<ReadEnd>)
      requires Valid() && pending == [] && !done
      modifies this
      ensures Valid() && bytesRead - |pending| == old(bytesRead)
      ensures end.None? ==> pending != [] && |input| < old(|input|) && old(Future()) == Future()
      ensures end == Some(EOF) ==> done && old(Future()) == Decoded([], Complete(input))
      ensures end.Some? && end.value.Failed? ==> old(Future()) == Decoded([], Broken(end.value.error))
    {
      NothingPending(Limit(Parse(input), bytesRead, maxBytes).output);
      ghost var s := NextText(input);
      var (line, rest) := NextLine(input);
      input := rest;
      if line.Err? { return Some(Failed(line.error)); }
      if IsTerminator(line.value) {
        done := true;
        return Some(EOF);
      }
      var text := Canonical(Undouble(line.value));
      if |text| > MAX_LINE { return Some(Failed(LineTooLong)); }
      if bytesRead + |text| > maxBytes { return Some(Failed(MessageTooLarge)); }
      bytesRead := bytesRead + |text|;
      pending := text;
      end := None;
    }

    /** Hand out pending octets. */
    method Copy(size: nat) returns (chunk: Bytes)
      requires Valid() && pending != []
      modifies `pending
      ensures Valid() && |chunk| <= size && old(pending) == chunk + pending
      ensures old(Future()).output != [] && |chunk| == Piece(old(Future()).output, size)
      ensures old(Future()) == Decoded(chunk + Future().output, Future().end)
      ensures size > 0 ==> chunk != []
    {
      var n := Min(size, |pending|);
      chunk := pending[..n];
      HandOut(pending, size, Decode(input, bytesRead, maxBytes).output);
      pending := pending[n..];
    }
  }

  /** How much of these octets one read hands out. */
  ghost function Piece(octets: Bytes, size: nat): (n: nat)
    requires octets != []
    ensures n <= |octets| && (size > 0 ==> n > 0)
  {
    Min(size, |FirstLine(octets)|)
  }

  lemma {:induction false} HandOut(line: Bytes, size: nat, tail: Bytes)
    requires IsLine(line)
    ensures var n := Min(size, |line|);
            && line + tail == line[..n] + (line[n..] + tail) != [] && Piece(line + tail, size) == n
            && (line[n..] != [] ==> IsLine(line[n..]))
  {
    LineThenRest(line, tail);
    RestOfLine(line, Min(size, |line|));
  }

  lemma {:induction false} RestOfLine(line: Bytes, n: nat)
    requires IsLine(line) && n <= |line|
    ensures line[n..] != [] ==> IsLine(line[n..])
  {
    forall i | 0 <= i < |line| - n - 1 ensures NotLF(line[n..], i) { assert NotLF(line, n + i); }
  }

  lemma {:induction false} NothingPending(b: Bytes)
    ensures [] + b == b
  {
  }

  lemma {:induction false} HandedOut(output: Bytes, chunk: Bytes, rest: Bytes)
    ensures output + (chunk + rest) == (output + chunk) + rest
    ensures (output + []) + [] == output + [] == output
  {
  }

  /** Any schedule of buffers: what was handed out and what is still to come are together what the one-shot decoder
      yields, and the ending is its ending. */
  method ReadAll(reader: DataReader, sizes: seq<nat>) returns (output: Bytes, end: Option<ReadEnd>)
    requires reader.Valid()
    modifies reader
    ensures reader.Valid()
    ensures end.None? ==> old(reader.Future()) == Decoded(output + reader.Future().output, reader.Future().end)
    ensures end == Some(EOF) ==> old(reader.Future()) == Decoded(output, Complete(reader.input))
    ensures end.Some? && end.value.Failed? ==> old(reader.Future()) == Decoded(output, Broken(end.value.error))
    ensures reader.bytesRead - |reader.pending| == old(reader.bytesRead - |reader.pending|) + |output|
  {
    output, end := [], None;
    var i := 0;
    NothingPending(reader.Future().output);
    while i < |sizes|
      invariant reader.Valid() && end.None?
      invariant old(reader.Future()) == Decoded(output + reader.Future().output, reader.Future().end)
      invariant reader.bytesRead - |reader.pending| == old(reader.bytesRead - |reader.pending|) + |output|
    {
      var chunk;
      chunk, end := reader.Read(sizes[i]);
      HandedOut(output, chunk, reader.Future().output);
      output := output + chunk;
      if end.Some? { return; }
      i := i + 1;
    }
  }

  /** io.Copy with a buffer: it runs to the end of the message or to the error the one-shot decoder finds. */
  method Drain(reader: DataReader, size: nat) returns (output: Bytes, end: ReadEnd)
    requires reader.Valid() && size > 0
    modifies reader
    ensures reader.Valid()
    ensures old(reader.Future()) == Decoded(output, if end == EOF then Complete(reader.input) else Broken(end.error))
  {
    output := [];
    NothingPending(reader.Future().output);
    while true
      invariant reader.Valid()
      invariant old(reader.Future()) == Decoded(output + reader.Future().output, reader.Future().end)
      decreases |reader.input|, |reader.pending|
    {
      var chunk, stop := reader.Read(size);
      HandedOut(output, chunk, reader.Future().output);
      output := output + chunk;
      if stop.Some? { return output, stop.value; }
    }
  }
}
