/** internal/pop3/server.go: the multi-line response that carries a stored message, for RETR and TOP, and the way of
    a message from an SMTP client to a POP3 client. */
module Pop3Stream {
  import opened Prelude
  import opened Lines
  import opened SmtpData

  /** What successive ReadBytes calls of a buffered reader yield. */
  datatype LineList = Nil | Cons(line: Bytes, next: LineList)

  function Split(b: Bytes): LineList { if b == [] then Nil else Cons(FirstLine(b), Split(AfterFirst(b))) }

  function Join(l: LineList): Bytes { if l.Nil? then [] else l.line + Join(l.next) }

  function FirstOf(l: LineList, n: nat): LineList { if l.Nil? || n == 0 then Nil else Cons(l.line,
                   FirstOf(l.next, n - 1)) }

  /** The first n lines, or all when there are fewer. */
  function FirstLines(b: Bytes, n: nat): Bytes { Join(FirstOf(Split(b), n)) }

  /** The header block: every line through the first empty one. */
  function HeaderBlock(message: Bytes): (header: Bytes)
    ensures |header| <= |message|
  {
    if message == [] then []
    else if FirstLine(message) == CRLF then CRLF
    else FirstLine(message) + HeaderBlock(AfterFirst(message))
  }

  /** What TOP shows: the header block and the first n lines of the body; RETR shows everything. */
  function Shown(message: Bytes, limit: Option<nat>): Bytes {
    if limit.None? then message
    else HeaderBlock(message) + FirstLines(message[|HeaderBlock(message)|..], limit.value)
  }

  /** A dot-transparent block with its terminator. */
  function Transparent(b: Bytes): Bytes { Stuff(b) + Closing(b) }

  // ---------------------------------------------------------------- a message line by line

  function StuffAll(l: LineList): Bytes { if l.Nil? then [] else StuffLine(l.line) + StuffAll(l.next) }

  /** Lines, of which only the last may lack its LF. */
  predicate Proper(l: LineList) {
    l.Cons? ==> ((IsLine(l.line) || (l.line != [] && PlainBefore(l.line, |l.line|) && l.next.Nil?)) && Proper(l.next))
  }

  /** The last line has no LF; with no line at all, what came before decides. */
  predicate EndsOpen(l: LineList, closed: bool) { if l.Nil? then !closed else EndsOpen(l.next, EndsLF(l.line)) }

  /** The lines streamMessage shows. */
  function Take(l: LineList, inBody: bool, left: Option<nat>): LineList {
    if l.Nil? || (inBody && left == Some(0)) then Nil
    else Cons(l.line,
              Take(l.next, inBody || l.line == CRLF, if inBody && left.Some? then Some(left.value - 1) else left))
  }

  lemma {:induction false} SplitIsProper(b: Bytes)
    ensures Proper(Split(b)) && Join(Split(b)) == b
  {
    if b != [] {
      FirstIsLine(b);
      SplitIsProper(AfterFirst(b));
    }
  }

  lemma {:induction false} TakeIsProper(l: LineList, inBody: bool, left: Option<nat>)
    requires Proper(l)
    ensures Proper(Take(l, inBody, left))
  {
    if l.Cons? && !(inBody && left == Some(0)) {
      TakeIsProper(l.next, inBody || l.line == CRLF, if inBody && left.Some? then Some(left.value - 1) else left);
    }
  }

  lemma {:induction false} ProperJoin(l: LineList)
    requires Proper(l) && l.Cons?
    ensures Join(l) != [] && FirstLine(Join(l)) == l.line && AfterFirst(Join(l)) == Join(l.next)
  {
    if IsLine(l.line) {
      LineThenRest(l.line, Join(l.next));
    } else {
      assert l.line + [] == l.line;
      OpenFirst(l.line);
    }
  }

  lemma {:induction false} OpenFirst(b: Bytes)
    requires b != [] && PlainBefore(b, |b|)
    ensures FindLF(b) == |b| && FirstLine(b) == b && AfterFirst(b) == [] && !EndsLF(b)
  {
    assert FindLF(b) < |b| ==> NotLF(b, FindLF(b));
    assert NotLF(b, |b| - 1);
  }

  lemma {:induction false} StuffAllIsStuff(l: LineList)
    requires Proper(l)
    ensures StuffAll(l) == Stuff(Join(l))
  {
    if l.Cons? {
      ProperJoin(l);
      StuffAllIsStuff(l.next);
    }
  }

  lemma {:induction false} OpenIsOpen(l: LineList, closed: bool)
    requires Proper(l)
    ensures EndsOpen(l, closed) == if l.Nil? then !closed else !EndsLF(Join(l))
  {
    if l.Cons? {
      OpenIsOpen(l.next, EndsLF(l.line));
      EndsAppend(l.line, Join(l.next));
      JoinIsEmpty(l.next);
    }
  }

  lemma {:induction false} JoinIsEmpty(l: LineList)
    requires Proper(l)
    ensures Join(l) == [] <==> l.Nil?
  {
    if l.Cons? { ProperJoin(l); }
  }

  // ---------------------------------------------------------------- what is shown

  lemma {:induction false} TakeAll(l: LineList, inBody: bool)
    ensures Take(l, inBody, None) == l
  {
    if l.Cons? { TakeAll(l.next, inBody || l.line == CRLF); }
  }

  lemma {:induction false} TakeBody(l: LineList, n: nat)
    ensures Take(l, true, Some(n)) == FirstOf(l, n)
  {
    if l.Cons? && n > 0 { TakeBody(l.next, n - 1); }
  }

  lemma {:induction false} TakeTop(b: Bytes, n: nat)
    ensures Join(Take(Split(b), false, Some(n))) == HeaderBlock(b) + FirstLines(b[|HeaderBlock(b)|..], n)
  {
    if b != [] {
      var line, rest := FirstLine(b), AfterFirst(b);
      if line == CRLF {
        TakeBody(Split(rest), n);
      } else {
        TakeTop(rest, n);
        assert b == line + rest;
        DropBoth(line, rest, HeaderBlock(rest));
        Regrouped(line, HeaderBlock(rest), FirstLines(rest[|HeaderBlock(rest)|..], n));
      }
    }
  }

  lemma {:induction false} DropBoth(line: Bytes, rest: Bytes, header: Bytes)
    requires |header| <= |rest|
    ensures (line + rest)[|line + header|..] == rest[|header|..]
  {
  }

  lemma {:induction false} Regrouped(a: Bytes, b: Bytes, c: Bytes)
    ensures a + (b + c) == a + b + c
  {
  }

  /** The lines that are shown make up the shown part of the message, and closing them is closing it. */
  lemma {:induction false} TakeIsShown(message: Bytes, limit: Option<nat>) returns (shown: LineList)
    ensures shown == Take(Split(message), false, limit)
    ensures StuffAll(shown) == Stuff(Shown(message, limit))
    ensures Closing(Shown(message, limit)) == if EndsOpen(shown, true) then CRLF + END else END
  {
    shown := Take(Split(message), false, limit);
    SplitIsProper(message);
    TakeIsProper(Split(message), false, limit);
    if limit.None? { TakeAll(Split(message), false); } else { TakeTop(message, limit.value); }
    StuffAllIsStuff(shown);
    OpenIsOpen(shown, true);
    JoinIsEmpty(shown);
  }

  // ---------------------------------------------------------------- the loop

  /** streamMessage, with the greeting and the octets of the stored message. */
  method StreamMessage(message: Bytes, greeting: Bytes, bodyLimit: Option<nat>) returns (out: Bytes)
    ensures out == greeting + CRLF + Transparent(Shown(message, bodyLimit))
  {
    ghost var shown := TakeIsShown(message, bodyLimit);
    var ended;
    out, ended := StreamLines(greeting + CRLF, Split(message), bodyLimit, shown);
    GlueClosing(greeting + CRLF, StuffAll(shown), out);
    if !ended { out := out + CRLF; }
    out := out + END;
  }

  lemma {:induction false} GlueClosing(head: Bytes, stuffed: Bytes, whole: Bytes)
    requires whole == head + stuffed
    ensures head + (stuffed + END) == whole + END
    ensures head + (stuffed + (CRLF + END)) == whole + CRLF + END
  {
  }

  /** The loop of streamMessage over the lines its reader yields. */
  method StreamLines(written: Bytes, message: LineList, bodyLimit: Option<nat>, ghost shown: LineList)
    returns (out: Bytes, lastEndedWithLF: bool)
    requires shown == Take(message, false, bodyLimit)
    ensures out == written + StuffAll(shown) && lastEndedWithLF == !EndsOpen(shown, true)
  {
    out, lastEndedWithLF := written, true;
    ghost var todo, left := shown, bodyLimit;
    var rest := message;
    var inBody, bodyLines := false, 0;
    while rest.Cons?
      invariant !inBody ==> bodyLines == 0
      invariant bodyLimit.Some? ==> bodyLines <= bodyLimit.value
      invariant left == if bodyLimit.None? then None else Some(bodyLimit.value - bodyLines)
      invariant todo == Take(rest, inBody, left)
      invariant out + StuffAll(todo) == written + StuffAll(shown)
      invariant EndsOpen(todo, lastEndedWithLF) == EndsOpen(shown, true)
      decreases rest
    {
      var line := rest.line;
      if bodyLimit.Some? && inBody && bodyLines >= bodyLimit.value { break; }
      Regrouped(out, StuffLine(line), StuffAll(todo.next));
      out := WriteLine(out, line);
      lastEndedWithLF := EndsLF(line);
      rest, todo := rest.next, todo.next;
      if inBody {
        bodyLines := bodyLines + 1;
        left := if left.Some? then Some(left.value - 1) else left;
      } else if line == CRLF {
        inBody := true;
      }
    }
    assert out + [] == out;
  }

  /** A line with its first dot doubled. */
  method WriteLine(out: Bytes, line: Bytes) returns (more: Bytes)
    ensures more == out + StuffLine(line)
  {
    more := out;
    if line != [] && line[0] == DOT { more := more + [DOT]; }
    more := more + line;
  }

  // ---------------------------------------------------------------- what the top of a message is

  /** A line with its LF, or a last one without. */
  predicate LineAt(lines: seq<Bytes>, i: nat)
    requires i < |lines|
  {
    IsLine(lines[i]) || (i == |lines| - 1 && lines[i] != [] && PlainBefore(lines[i], |lines[i]|))
  }

  ghost predicate AreLines(lines: seq<Bytes>) { forall i :: 0 <= i < |lines| ==> LineAt(lines, i) }

  lemma {:induction false} ConsLines(b: Bytes, more: seq<Bytes>)
    requires b != [] && AreLines(more) && (AfterFirst(b) == [] ==> more == [])
    ensures AreLines([FirstLine(b)] + more) && Concat([FirstLine(b)] + more) == FirstLine(b) + Concat(more)
  {
    var lines := [FirstLine(b)] + more;
    assert lines[1..] == more;
    FirstIsLine(b);
    forall i | 0 <= i < |lines| ensures LineAt(lines, i) { if i > 0 { assert LineAt(more, i - 1); } }
  }

  /** FirstLines keeps as many whole lines as it is told, or all there are. */
  lemma {:induction false} FirstLinesMeaning(b: Bytes, n: nat) returns (lines: seq<Bytes>)
    ensures AreLines(lines) && b == Concat(lines) && (b == [] ==> lines == [])
    ensures FirstLines(b, n) == Concat(lines[..Min(n, |lines|)])
  {
    if b == [] { return []; }
    var more := FirstLinesMeaning(AfterFirst(b), if n > 0 then n - 1 else 0);
    ConsLines(b, more);
    lines := [FirstLine(b)] + more;
    if n > 0 { TakeCons(FirstLine(b), more, n - 1); }
  }

  lemma {:induction false} TakeCons(line: Bytes, more: seq<Bytes>, n: nat)
    ensures var lines := [line] + more;
            Concat(lines[..Min(n + 1, |lines|)]) == line + Concat(more[..Min(n, |more|)])
  {
    var lines := [line] + more;
    assert lines[..Min(n + 1, |lines|)][1..] == more[..Min(n, |more|)];
  }

  /** The header block is every line up to the first empty one, which it includes, or the whole message when there is
      none. */
  lemma {:induction false} HeaderBlockMeaning(message: Bytes) returns (lines: seq<Bytes>, empty: Bytes, body: Bytes)
    ensures AreLines(lines) && (forall i :: 0 <= i < |lines| ==> lines[i] != CRLF) && (message == [] ==> lines == [])
    ensures empty == CRLF || (empty == [] && body == [])
    ensures message == Concat(lines) + (empty + body) && HeaderBlock(message) == Concat(lines) + empty
    ensures empty == CRLF ==> forall i :: 0 <= i < |lines| ==> IsLine(lines[i])
  {
    if message == [] { return [], [], []; }
    var line, rest := FirstLine(message), AfterFirst(message);
    if line == CRLF { return [], CRLF, rest; }
    var more;
    more, empty, body := HeaderBlockMeaning(rest);
    ConsLines(message, more);
    lines := [line] + more;
    Regrouped(line, Concat(more), empty + body);
    Regrouped(line, Concat(more), empty);
    FirstIsLine(message);
  }

  // ---------------------------------------------------------------- from sender to reader

  /** A POP3 client reads back exactly what the server shows, given a last CRLF if it had none, and stops exactly
      at the end of the response. */
  lemma {:induction false} ClientReads(b: Bytes, after: Bytes)
    ensures Unstuff(Transparent(b) + after) == Some((if b == [] || EndsLF(b) then b else b + CRLF, after))
  {
    if b == [] || EndsLF(b) {
      UnstuffStuff(b, after);
    } else {
      StuffCrlf(b);
      UnstuffStuff(b + CRLF, after);
      GlueAfter(Stuff(b), after);
    }
  }

  lemma {:induction false} GlueAfter(stuffed: Bytes, after: Bytes)
    ensures stuffed + (CRLF + END) + after == (stuffed + CRLF) + END + after
  {
  }

  lemma {:induction false} StuffCons(line: Bytes, tail: Bytes)
    requires IsLine(line)
    ensures Stuff(line + tail) == StuffLine(line) + Stuff(tail)
  {
    LineThenRest(line, tail);
  }

  /** An unterminated last line is stuffed the same with or without its CRLF. */
  lemma {:induction false} StuffCrlf(b: Bytes)
    requires b != [] && !EndsLF(b)
    ensures Stuff(b + CRLF) == Stuff(b) + CRLF
  {
    var line, more := FirstLine(b), AfterFirst(b);
    FirstIsLine(b);
    if FindLF(b) < |b| {
      assert b == line + more;
      StuffCrlf(more);
      Regrouped(line, more, CRLF);
      StuffCons(line, more + CRLF);
      Regrouped(StuffLine(line), Stuff(more), CRLF);
    } else {
      OpenLineCrlf(b);
      assert b + CRLF + [] == b + CRLF;
    }
  }

  lemma {:induction false} OpenLineCrlf(b: Bytes)
    requires b != [] && FindLF(b) == |b|
    ensures FirstLine(b + CRLF) == b + CRLF && AfterFirst(b + CRLF) == []
    ensures StuffLine(b + CRLF) == StuffLine(b) + CRLF
  {
    forall i | 0 <= i <= |b| ensures NotLF(b + CRLF, i) { assert i < |b| ==> NotLF(b, i); }
    FindUnique(b + CRLF, |b| + 1);
  }

  /** The mail path is the identity: what a sender dot-stuffs into DATA, within the limits, a client un-stuffs out of
      RETR behind the delivery headers, octet for octet. */
  lemma {:induction false} EndToEnd(message: Bytes, headers: Bytes, max: nat, afterData: Bytes, afterRetr: Bytes)
    returns (stored: Bytes)
    requires CrlfLined(message) && LinesFit(message) && |message| <= max && (headers == [] || EndsLF(headers))
    ensures Decode(Stuff(message) + END + afterData, 0, max) == Decoded(message, Complete(afterData))
    ensures stored == headers + Decode(Stuff(message) + END + afterData, 0, max).output
    ensures Unstuff(Transparent(Shown(stored, None)) + afterRetr) == Some((headers + message, afterRetr))
  {
    AcceptsExactly(message, afterData, 0, max);
    stored := headers + message;
    ClientReads(stored, afterRetr);
    EndsLikeMessage(headers, message);
  }

  lemma {:induction false} EndsLikeMessage(headers: Bytes, message: Bytes)
    requires (headers == [] || EndsLF(headers)) && CrlfLined(message)
    ensures headers + message == [] || EndsLF(headers + message)
  {
  }
}
