/** internal/pop3/server.go: the replies of a POP3 session, on the wire, and what a client reads out of them. */
module Pop3Replies {
  import opened Prelude
  import opened Text
  import opened IdPath
  import opened Lines
  import opened Mailbox
  import opened Overlay
  import opened Pop3Commands

  datatype Reply = Line(text: string) | Listing(status: string, lines: seq<string>) | Block(octets: Bytes)

  const OK := "+OK"
  const NOT_NOW := "-ERR command not valid now"
  const LOG_IN := "-ERR authenticate first"
  const NO_SUCH := "-ERR no such message"
  const NO_INSPECT := "-ERR unable to inspect message"
  const NO_OPEN := "-ERR unable to open message"
  const BAD_ARGUMENTS := "-ERR invalid arguments"
  const WRONG_PASSWORD := "-ERR authentication failed"
  const NOT_COMMITTED := "-ERR unable to commit deletions"
  const UNKNOWN := "-ERR command not implemented"
  const SEND_PASS := "+OK send PASS"
  const BYE := "+OK bye"
  const MARKED := "+OK message marked for deletion"
  const UNMARKED := "+OK no messages deleted"
  const ROWS_FOLLOW := OK + " listing" + " follows"
  const CAPABILITIES_FOLLOW := "+OK Capability list follows"
  const CAPABILITIES := ["USER", "UIDL", "TOP", "IMPLEMENTATION picomx"]

  function Pair(a: nat, b: string): string { FormatUint(a, 10) + " " + b }

  /** A row of LIST, or of UIDL. */
  function RowLine(row: Row, sizes: bool): string {
    Pair(row.number, if sizes then FormatUint(row.size, 10) else UniqueId(row.id))
  }

  function RowLines(rows: seq<Row>, sizes: bool): seq<string> {
    seq(|rows|, i requires 0 <= i < |rows| => RowLine(rows[i], sizes))
  }

  ghost function Totals(view: seq<Row>): string { OK + " " + Pair(|view|, FormatUint(RowOctets(view), 10)) }

  /** The status line of RETR, and of TOP. */
  function Greeting(message: Message, limit: Option<nat>): string {
    if limit.None? then OK + " " + Pair(message.size, "octets") else OK + " top of message follows"
  }

  function Welcome(count: nat): string { "+OK maildrop ready with " + FormatUint(count, 10) + " messages" }

  // ---------------------------------------------------------------- what a client reads

  const REFUSALS := [NOT_NOW, LOG_IN, NO_SUCH, NO_INSPECT, NO_OPEN, BAD_ARGUMENTS, WRONG_PASSWORD, NOT_COMMITTED,
                     UNKNOWN]
  const CONSENTS := [SEND_PASS, BYE, MARKED, UNMARKED, ROWS_FOLLOW, CAPABILITIES_FOLLOW]

  /** Success and failure can be told by the first word. */
  lemma {:induction false} Indicators()
    ensures forall k :: 0 <= k < |REFUSALS| ==> "-ERR " <= REFUSALS[k]
    ensures forall k :: 0 <= k < |CONSENTS| ==> "+OK " <= CONSENTS[k]
  {
  }

  /** The word is a decimal numeral of n. */
  predicate Reads(word: string, n: nat) { ParseUint(word, 10, MAX64) == Some(n) }

  /** "+OK", the number of messages and their octets. */
  ghost predicate ReadsTotals(text: string, count: nat, octets: nat) {
    var words := Fields(text);
    |words| == 3 && words[0] == "+OK" && Reads(words[1], count) && Reads(words[2], octets)
  }

  /** The number of a message, then its size, or its unique ID, in which its archive ID can be read. */
  ghost predicate ReadsRow(words: seq<string>, row: Row, sizes: bool) {
    && |words| == 2 && Reads(words[0], row.number)
    && (if sizes then Reads(words[1], row.size)
        else "picomx-" <= words[1] && ParseUint(words[1][7..], 36, MAX64) == Some(row.id))
  }

  /** Row by row. */
  ghost predicate ReadsRows(lines: seq<string>, rows: seq<Row>, sizes: bool) {
    |lines| == |rows| && forall i :: 0 <= i < |rows| ==> ReadsRow(Fields(lines[i]), rows[i], sizes)
  }

  /** The same behind "+OK". */
  ghost predicate ReadsOne(text: string, row: Row, sizes: bool) {
    var words := Fields(text);
    |words| == 3 && words[0] == "+OK" && ReadsRow(words[1..], row, sizes)
  }

  lemma {:induction false} UniqueIdIsWord(id: uint64)
    ensures Word(UniqueId(id))
  {
    NumeralIsWord(id, 36);
    assert forall c :: c in "picomx-" ==> !IsSpace(c);
  }

  lemma {:induction false} TotalsRead(view: seq<Row>)
    requires |view| <= MAX64 && RowOctets(view) <= MAX64
    ensures ReadsTotals(Totals(view), |view|, RowOctets(view))
  {
    var count, octets := FormatUint(|view|, 10), FormatUint(RowOctets(view), 10);
    NumeralIsWord(|view|, 10);
    NumeralIsWord(RowOctets(view), 10);
    assert Totals(view) == "+OK" + " " + count + " " + octets;
    ThreeFields("+OK", count, octets);
    ParseFormat(|view|, 10, MAX64);
    ParseFormat(RowOctets(view), 10, MAX64);
  }

  lemma {:induction false} RowReads(row: Row, sizes: bool)
    requires row.number <= MAX64
    ensures ReadsRow(Fields(RowLine(row, sizes)), row, sizes) && ReadsOne(OK + " " + RowLine(row, sizes), row, sizes)
  {
    var number, second := FormatUint(row.number, 10), if sizes then FormatUint(row.size, 10) else UniqueId(row.id);
    NumeralIsWord(row.number, 10);
    NumeralIsWord(row.size, 10);
    UniqueIdIsWord(row.id);
    TwoFields(number, second);
    assert OK + " " + (number + " " + second) == "+OK" + " " + number + " " + second;
    ThreeFields("+OK", number, second);
    assert ["+OK", number, second][1..] == [number, second];
    ParseFormat(row.number, 10, MAX64);
    ParseFormat(row.size, 10, MAX64);
    UniqueIdsAreUnique(row.id, row.id);
  }

  lemma {:induction false} RowsRead(rows: seq<Row>, sizes: bool)
    requires forall i :: 0 <= i < |rows| ==> rows[i].number <= MAX64
    ensures ReadsRows(RowLines(rows, sizes), rows, sizes)
  {
    var lines := RowLines(rows, sizes);
    forall i | 0 <= i < |rows| ensures ReadsRow(Fields(lines[i]), rows[i], sizes) { RowReads(rows[i], sizes); }
  }

  /** RETR says the size of the message; TOP consents. */
  lemma {:induction false} GreetingReads(message: Message, limit: Option<nat>)
    ensures "+OK " <= Greeting(message, limit)
    ensures limit.None? ==> exists size :: Fields(Greeting(message, None)) == ["+OK", size, "octets"]
                                           && Reads(size, message.size)
  {
    var size := FormatUint(message.size, 10);
    NumeralIsWord(message.size, 10);
    assert OK + " " + Pair(message.size, "octets") == "+OK" + " " + size + " " + "octets";
    ThreeFields("+OK", size, "octets");
    ParseFormat(message.size, 10, MAX64);
  }

  /** A login says how many messages there are. */
  lemma {:induction false} WelcomeReads(count: uint64)
    ensures exists word :: Welcome(count) == "+OK maildrop ready with " + word + " messages" && Reads(word, count)
  {
    ParseFormat(count, 10, MAX64);
    assert Welcome(count) == "+OK maildrop ready with " + FormatUint(count, 10) + " messages";
  }

  // ---------------------------------------------------------------- on the wire

  /** No line feed in the text. */
  predicate Unbroken(text: string) { forall c :: c in text ==> c as int % 256 != 10 }

  /** ... and it cannot be taken for the terminator. */
  predicate Safe(line: string) { Unbroken(line) && line != [] && line[0] as int % 256 != 46 }

  /** Lines of text, each ended by CRLF. */
  function Wired(lines: seq<string>): Bytes {
    if lines == [] then [] else Wired(lines[..|lines| - 1]) + (Octets8(lines[|lines| - 1]) + CRLF)
  }

  /** reply, and writeListing with replyMulti. */
  method WriteReply(reply: Reply) returns (out: Bytes)
    ensures match reply
            case Line(text) => out == Octets8(text) + CRLF
            case Listing(status, lines) => out == Octets8(status) + CRLF + Wired(lines) + END
            case Block(octets) => out == octets
  {
    match reply
    case Line(text) => out := Octets8(text) + CRLF;
    case Block(octets) => out := octets;
    case Listing(status, lines) =>
      out := Octets8(status) + CRLF;
      ghost var head := out;
      assert head + [] == head;
      for i := 0 to |lines|
        invariant out == head + Wired(lines[..i])
      {
        assert lines[..i + 1][..i] == lines[..i];
        out := out + (Octets8(lines[i]) + CRLF);
      }
      assert lines[..|lines|] == lines;
      out := out + END;
  }

  lemma {:induction false} PlainOctets(text: string)
    requires Unbroken(text)
    ensures |Octets8(text)| == |text| && PlainBefore(Octets8(text), |text|)
  {
    if text != [] { OctetAt(text, 0); }
    forall i | 0 <= i < |text| ensures NotLF(Octets8(text), i) {
      OctetAt(text, i);
      assert text[i] in text;
    }
  }

  /** A status line without a line feed of its own is the first line of the response. */
  lemma {:induction false} StatusIsFirst(status: Bytes, rest: Bytes)
    requires PlainBefore(status, |status|)
    ensures AfterFirst(status + CRLF + rest) == rest
  {
    CrlfIsLine(status);
    LineThenRest(status + CRLF, rest);
  }

  lemma {:induction false} CrlfIsLine(text: Bytes)
    requires PlainBefore(text, |text|)
    ensures IsLine(text + CRLF)
  {
    var line := text + CRLF;
    forall i | 0 <= i < |line| - 1 ensures NotLF(line, i) { assert i < |text| ==> NotLF(text, i); }
  }

  /** What a client makes of a response of many lines: what is behind the status line, and what follows. */
  function ClientBlock(response: Bytes): Option<(Bytes, Bytes)> {
    if response == [] then None else Unstuff(AfterFirst(response))
  }

  lemma {:induction false} SafeLineReads(line: string, tail: Bytes, value: Bytes, rest: Bytes)
    requires Safe(line) && Unstuff(tail) == Some((value, rest))
    ensures Unstuff(Octets8(line) + CRLF + tail) == Some((Octets8(line) + CRLF + value, rest))
  {
    PlainOctets(line);
    OctetAt(line, 0);
    CrlfIsLine(Octets8(line));
    var wired := Octets8(line) + CRLF;
    assert StuffLine(wired) == wired;
    UnstuffCons(wired, tail);
  }

  lemma {:induction false} Regrouped(a: Bytes, b: Bytes, c: Bytes)
    ensures a + b + c == a + (b + c)
  {
  }

  lemma {:induction false} WiredReads(lines: seq<string>, tail: Bytes, value: Bytes, rest: Bytes)
    requires (forall i :: 0 <= i < |lines| ==> Safe(lines[i])) && Unstuff(tail) == Some((value, rest))
    ensures Unstuff(Wired(lines) + tail) == Some((Wired(lines) + value, rest))
  {
    if lines == [] {
      assert [] + tail == tail && [] + value == value;
    } else {
      var front, last := lines[..|lines| - 1], Octets8(lines[|lines| - 1]) + CRLF;
      SafeLineReads(lines[|lines| - 1], tail, value, rest);
      WiredReads(front, last + tail, last + value, rest);
      Regrouped(Wired(front), last, tail);
      Regrouped(Wired(front), last, value);
    }
  }

  /** A client reads back exactly the lines of a listing and stops at the end of the response. */
  lemma {:induction false} ListingReads(status: string, lines: seq<string>, after: Bytes)
    requires Unbroken(status) && forall i :: 0 <= i < |lines| ==> Safe(lines[i])
    ensures ClientBlock(Octets8(status) + CRLF + Wired(lines) + (END + after)) == Some((Wired(lines), after))
  {
    UnstuffEnd(after);
    WiredReads(lines, END + after, [], after);
    StatusAside(status, Wired(lines), END + after);
    assert Wired(lines) + [] == Wired(lines);
  }

  lemma {:induction false} StatusAside(status: string, block: Bytes, tail: Bytes)
    requires Unbroken(status)
    ensures AfterFirst(Octets8(status) + CRLF + block + tail) == block + tail
    ensures ClientBlock(Octets8(status) + CRLF + block + tail) == Unstuff(block + tail)
  {
    PlainOctets(status);
    Regrouped(Octets8(status) + CRLF, block, tail);
    StatusIsFirst(Octets8(status), block + tail);
  }

  /** The rows of LIST and UIDL are such lines. */
  lemma {:induction false} RowIsSafe(row: Row, sizes: bool)
    ensures Safe(RowLine(row, sizes))
  {
    FormatAlphabet(row.number, 10);
    FormatAlphabet(row.size, 10);
    FormatAlphabet(row.id, 36);
    var number := FormatUint(row.number, 10);
    assert number[0] in number;
    assert RowLine(row, sizes)[0] == number[0];
    assert Unbroken(" ") && Unbroken("picomx-");
  }

  lemma {:induction false} UnbrokenAppend(a: string, b: string)
    requires Unbroken(a) && Unbroken(b)
    ensures Unbroken(a + b)
  {
  }

  lemma {:induction false} RowsFollowIsUnbroken()
    ensures Unbroken(ROWS_FOLLOW)
  {
    UnbrokenAppend(OK, " listing");
    UnbrokenAppend(OK + " listing", " follows");
  }

  /** Whatever rows are listed, a client reads back their lines. */
  lemma {:induction false} ListedRowsRead(status: string, rows: seq<Row>, sizes: bool, after: Bytes)
    requires status == ROWS_FOLLOW
    ensures var lines := RowLines(rows, sizes);
            ClientBlock(Octets8(status) + CRLF + Wired(lines) + (END + after)) == Some((Wired(lines), after))
  {
    var lines := RowLines(rows, sizes);
    forall i | 0 <= i < |lines| ensures Safe(lines[i]) { RowIsSafe(rows[i], sizes); }
    RowsFollowIsUnbroken();
    ListingReads(status, lines, after);
  }
}
