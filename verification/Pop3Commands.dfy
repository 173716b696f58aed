/** internal/pop3/server.go: POP3 command lines and the numbers in them. */
module Pop3Commands {
  import opened Prelude
  import opened Text

  /** ASCII white space; command lines are taken to be ASCII. */
  predicate IsSpace(c: char): (space: bool)
    ensures space <==> c as int in {9, 10, 11, 12, 13, 32}
  {
    c == ' ' || '\t' <= c <= '\r'
  }

  function UpperChar(c: char): char { if 'a' <= c <= 'z' then 'A' + (c - 'a') else c }

  function ToUpper(s: string): string { if s == [] then [] else ToUpper(s[..|s| - 1]) + [UpperChar(s[|s| - 1])] }

  function FindSpace(s: string): (k: nat)
    ensures k <= |s|
  {
    if s == [] || s[0] == ' ' then 0 else 1 + FindSpace(s[1..])
  }

  datatype Command = Command(verb: string, argument: string)

  /** splitCommand: the verb up to the first space, in capitals, and everything after that space. */
  function SplitCommand(line: string): Command {
    var k := FindSpace(line);
    if k == |line| then Command(ToUpper(line), "") else Command(ToUpper(line[..k]), line[k + 1..])
  }

  function TrimLeft(s: string): (r: string)
    ensures |r| <= |s| && (r == [] || !IsSpace(r[0]))
  {
    if s == [] || !IsSpace(s[0]) then s else TrimLeft(s[1..])
  }

  function TrimRight(s: string): (r: string)
    ensures r <= s && (r == [] || !IsSpace(r[|r| - 1]))
  {
    if s == [] || !IsSpace(s[|s| - 1]) then s else TrimRight(s[..|s| - 1])
  }

  /** strings.TrimSpace. */
  function TrimSpace(s: string): string { TrimRight(TrimLeft(s)) }

  function WordLength(s: string): (n: nat)
    ensures n <= |s| && (s != [] && !IsSpace(s[0]) ==> n > 0)
  {
    if s == [] || IsSpace(s[0]) then 0 else 1 + WordLength(s[1..])
  }

  /** strings.Fields. */
  function Fields(s: string): seq<string>
    decreases |s|
  {
    var t := TrimLeft(s);
    if t == [] then []
    else
      var n := WordLength(t);
      [t[..n]] + Fields(t[n..])
  }

  /** messageID: a message number of a maildrop with `count` messages. */
  function MessageNumber(argument: string, count: nat): (n: Option<uint64>)
    ensures n.Some? ==> 1 <= n.value <= count
  {
    var n := ParseUint(TrimSpace(argument), 10, MAX64);
    if n.None? || n.value == 0 || n.value > count then None else n
  }

  /** topArguments: a message number and a number of lines. */
  function TopArguments(argument: string, count: nat): (r: Option<(uint64, uint64)>)
    ensures r.Some? ==> 1 <= r.value.0 <= count
  {
    var fields := Fields(argument);
    if |fields| != 2 then None
    else
      var n, lines := MessageNumber(fields[0], count), ParseUint(fields[1], 10, MAX64);
      if n.None? || lines.None? then None else Some((n.value, lines.value))
  }

  function UniqueId(id: uint64): string { "picomx-" + FormatUint(id, 36) }

  // ---------------------------------------------------------------- what a command line means

  predicate Spaces(s: string) { forall c :: c in s ==> IsSpace(c) }
  predicate Word(s: string) { s != [] && forall c :: c in s ==> !IsSpace(c) }

  /** Capitals, letter by letter. */
  lemma {:induction false} ToUpperAt(s: string, i: nat)
    requires i < |s|
    ensures |ToUpper(s)| == |s|
    ensures ToUpper(s)[i] == if 'a' <= s[i] <= 'z' then (s[i] as int - 32) as char else s[i]
  {
    var n := |s| - 1;
    if n > 0 { ToUpperAt(s[..n], if i < n then i else 0); }
  }

  lemma {:induction false} FindSpaceAt(a: string, b: string)
    requires ' ' !in a && (b == [] || b[0] == ' ')
    ensures FindSpace(a + b) == |a|
  {
    if a != [] {
      assert (a + b)[0] == a[0] && (a + b)[1..] == a[1..] + b;
      FindSpaceAt(a[1..], b);
    } else {
      assert a + b == b;
    }
  }

  /** A command line is a verb, in whatever case, and the argument behind the first space, if there is one. */
  lemma {:induction false} SplitCommandMeaning(verb: string, argument: string)
    requires ' ' !in verb
    ensures SplitCommand(verb + " " + argument) == Command(ToUpper(verb), argument)
    ensures SplitCommand(verb) == Command(ToUpper(verb), "")
  {
    var line := verb + " " + argument;
    assert line == verb + (" " + argument) && verb + [] == verb;
    FindSpaceAt(verb, " " + argument);
    FindSpaceAt(verb, []);
    assert line[..|verb|] == verb && line[|verb| + 1..] == argument;
  }

  lemma {:induction false} TrimLeftOf(left: string, s: string)
    requires Spaces(left) && (s == [] || !IsSpace(s[0]))
    ensures TrimLeft(left + s) == s
  {
    if left != [] {
      assert left[0] in left && (left + s)[1..] == left[1..] + s;
      assert forall c :: c in left[1..] ==> c in left;
      TrimLeftOf(left[1..], s);
    } else {
      assert left + s == s;
    }
  }

  lemma {:induction false} TrimRightOf(s: string, right: string)
    requires Spaces(right) && (s == [] || !IsSpace(s[|s| - 1]))
    ensures TrimRight(s + right) == s
  {
    if right != [] {
      var n := |right| - 1;
      assert right[n] in right && (s + right)[..|s| + n] == s + right[..n];
      assert forall c :: c in right[..n] ==> c in right;
      TrimRightOf(s, right[..n]);
    } else {
      assert s + right == s;
    }
  }

  /** Trimming takes away the white space at both ends and nothing else. */
  lemma {:induction false} TrimSpaceMeaning(left: string, s: string, right: string)
    requires Spaces(left) && Spaces(right) && (s == [] || (!IsSpace(s[0]) && !IsSpace(s[|s| - 1])))
    ensures TrimSpace(left + s + right) == s
  {
    if s == [] {
      assert left + s + right == left + right + [];
      assert Spaces(left + right);
      TrimLeftOf(left + right, []);
    } else {
      assert left + s + right == left + (s + right);
      TrimLeftOf(left, s + right);
      TrimRightOf(s, right);
    }
  }

  /** A message number is any decimal numeral of it, between white space, and is within the maildrop. */
  lemma {:induction false} MessageNumberMeaning(left: string, numeral: string, right: string, count: nat, n: uint64)
    requires Spaces(left) && Spaces(right)
    requires numeral == [] || (!IsSpace(numeral[0]) && !IsSpace(numeral[|numeral| - 1]))
    ensures MessageNumber(left + numeral + right, count) == Some(n) <==>
              1 <= n <= count && exists z :: numeral == Zeros(z) + FormatUint(n, 10)
  {
    TrimSpaceMeaning(left, numeral, right);
    ParseMeaning(numeral, MAX64, n);
  }

  lemma {:induction false} WordLengthOf(word: string, rest: string)
    requires (forall c :: c in word ==> !IsSpace(c)) && (rest == [] || IsSpace(rest[0]))
    ensures WordLength(word + rest) == |word|
  {
    if word != [] {
      assert word[0] in word;
      assert (word + rest)[1..] == word[1..] + rest;
      assert forall c :: c in word[1..] ==> c in word;
      WordLengthOf(word[1..], rest);
    } else {
      assert word + rest == rest;
    }
  }

  /** Fields takes the first word, whatever the white space around it, and goes on behind it; ... */
  lemma {:induction false} FieldsCons(gap: string, word: string, rest: string)
    requires Spaces(gap) && Word(word) && (rest == [] || IsSpace(rest[0]))
    ensures Fields(gap + word + rest) == [word] + Fields(rest)
  {
    assert word[0] in word && (word + rest)[0] == word[0];
    assert gap + word + rest == gap + (word + rest);
    TrimLeftOf(gap, word + rest);
    WordLengthOf(word, rest);
    assert (word + rest)[..|word|] == word && (word + rest)[|word|..] == rest;
  }

  /** ... white space alone has no fields. */
  lemma {:induction false} FieldsNone(gap: string)
    requires Spaces(gap)
    ensures Fields(gap) == []
  {
    assert gap + [] == gap;
    TrimLeftOf(gap, []);
  }

  lemma {:induction false} ThreeFields(a: string, b: string, c: string)
    requires Word(a) && Word(b) && Word(c)
    ensures Fields(a + " " + b + " " + c) == [a, b, c]
  {
    assert a + " " + b + " " + c == [] + a + (" " + (b + " " + c));
    FieldsCons([], a, " " + (b + " " + c));
    assert " " + (b + " " + c) == " " + b + (" " + c);
    FieldsCons(" ", b, " " + c);
    assert " " + c == " " + c + [];
    FieldsCons(" ", c, []);
    FieldsNone([]);
  }

  lemma {:induction false} TwoFields(a: string, b: string)
    requires Word(a) && Word(b)
    ensures Fields(a + " " + b) == [a, b]
  {
    assert a + " " + b == [] + a + (" " + b);
    FieldsCons([], a, " " + b);
    assert " " + b == " " + b + [];
    FieldsCons(" ", b, []);
    FieldsNone([]);
  }

  /** TOP takes exactly two fields: a message number and a number of lines. */
  lemma {:induction false} TopArgumentsMeaning(argument: string, count: nat, n: uint64, lines: uint64)
    ensures TopArguments(argument, count) == Some((n, lines)) <==>
              && |Fields(argument)| == 2 && MessageNumber(Fields(argument)[0], count) == Some(n)
              && exists z :: Fields(argument)[1] == Zeros(z) + FormatUint(lines, 10)
  {
    if |Fields(argument)| == 2 { ParseMeaning(Fields(argument)[1], MAX64, lines); }
  }

  lemma {:induction false} NumeralIsWord(n: nat, base: nat)
    requires 2 <= base <= 36
    ensures Word(FormatUint(n, base))
  {
    FormatAlphabet(n, base);
  }

  lemma {:induction false} TrimWord(s: string)
    requires Alphanumeric(s)
    ensures TrimLeft(s) == s && TrimRight(s) == s && TrimSpace(s) == s
  {
    assert s != [] ==> s[0] in s && s[|s| - 1] in s;
  }

  /** Every number a client reads in a listing is accepted back, exactly within the maildrop. */
  lemma {:induction false} NumbersRoundTrip(n: uint64, count: nat)
    ensures MessageNumber(FormatUint(n, 10), count) == if 1 <= n <= count then Some(n) else None
  {
    FormatAlphabet(n, 10);
    TrimWord(FormatUint(n, 10));
    ParseFormat(n, 10, MAX64);
  }

  /** TOP with the number and the lines a client prints is what it asks for. */
  lemma {:induction false} TopRoundTrip(n: uint64, lines: uint64, count: nat)
    ensures TopArguments(FormatUint(n, 10) + " " + FormatUint(lines, 10), count)
            == if 1 <= n <= count then Some((n, lines)) else None
  {
    NumeralIsWord(n, 10);
    NumeralIsWord(lines, 10);
    TwoFields(FormatUint(n, 10), FormatUint(lines, 10));
    NumbersRoundTrip(n, count);
    ParseFormat(lines, 10, MAX64);
  }

  function Power36(e: nat): nat { if e == 0 then 1 else 36 * Power36(e - 1) }

  lemma {:induction false} Base36Length(n: nat, width: nat)
    requires width > 0 && n < Power36(width)
    ensures |FormatUint(n, 36)| <= width
  {
    if n >= 36 { Base36Length(n / 36, width - 1); }
  }

  lemma {:induction false} Power36Of13()
    ensures MAX64 < Power36(13)
  {
    assert Power36(3) == 46656;
    assert Power36(6) == 46656 * 46656;
    assert Power36(9) == 46656 * 46656 * 46656;
    assert Power36(12) == 46656 * 46656 * 46656 * 46656;
  }

  /** Unique IDs are unique: different archive IDs never share one. They are also within what section 7 of RFC 1939
      allows: at most 70 characters, all of them visible ASCII. */
  lemma {:induction false} UniqueIdsAreUnique(a: uint64, b: uint64)
    ensures UniqueId(a) == UniqueId(b) <==> a == b
    ensures |UniqueId(a)| <= 20 && forall c :: c in UniqueId(a) ==> '!' <= c <= '~'
    ensures UniqueId(a)[..7] == "picomx-" && ParseUint(UniqueId(a)[7..], 36, MAX64) == Some(a)
  {
    ParseFormat(a, 36, MAX64);
    ParseFormat(b, 36, MAX64);
    if UniqueId(a) == UniqueId(b) {
      assert FormatUint(a, 36) == UniqueId(a)[7..] == UniqueId(b)[7..] == FormatUint(b, 36);
    }
    Power36Of13();
    Base36Length(a, 13);
    FormatAlphabet(a, 36);
  }
}
