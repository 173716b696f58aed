/** internal/archive/idpath.go: the base-1024 fanout path of a message ID, and its parser. */
module IdPath {
  import opened Prelude
  import opened Text

  const MAX_PREFIX: nat := MAX64 / 1024

  datatype Message = Message(id: uint64, size: uint64, path: string)

  // ---------------------------------------------------------------- path shapes

  /** One component: the digit as three lower-case hexadecimal characters. */
  function FmtDigit(digit: nat): (s: string)
    requires digit < 1024
    ensures |s| == 3
  {
    [DigitChar(digit / 256), DigitChar(digit / 16 % 16), DigitChar(digit % 16)]
  }

  function NumDigits(n: nat): nat { if n == 0 then 0 else 1 + NumDigits(n / 1024) }

  /** The directory of the given depth whose base-1024 digits so far spell `prefix`. */
  function DirPath(depth: nat, prefix: nat): string {
    if prefix == 0 then FormatUint(depth, 10)
    else DirPath(depth, prefix / 1024) + "/" + FmtDigit(prefix % 1024)
  }

  /** The leaf directory holding the IDs of `prefix * 1024 ..`. */
  function LeafPath(prefix: nat): string { DirPath(1 + NumDigits(prefix), prefix) }

  function LeafOf(id: nat): string { LeafPath(id / 1024) }

  function RelativeStem(id: nat): string { LeafOf(id) + "/" + FmtDigit(id % 1024) }

  function RelativePath(id: nat): string { RelativeStem(id) + ".eml" }

  function MessagePath(id: nat, size: nat): string {
    RelativeStem(id) + "-s" + FormatUint(size, 10) + ".eml"
  }

  /** A message in the only form the archive stores: a non-zero ID under its own path. */
  predicate IsMessage(m: Message) { m.id > 0 && m.path == MessagePath(m.id, m.size) }

  // ---------------------------------------------------------------- facts about the shapes

  /** fmtDigit: the shortest numeral padded with zeros to three characters. */
  lemma {:induction false} FmtDigitIsPaddedNumeral(d: nat)
    requires d < 1024
    ensures var text := FormatUint(d, 16);
            |text| <= 3 && FmtDigit(d) == seq(3 - |text|, _ => '0') + text
  {
    var h, m, l := d / 256, d / 16 % 16, d % 16;
    assert d / 16 / 16 == h;
    if d >= 256 {
      assert FormatUint(d, 16) == FormatUint(d / 16, 16) + [DigitChar(l)];
      assert FormatUint(d / 16, 16) == FormatUint(h, 16) + [DigitChar(m)];
    } else if d >= 16 {
      assert FormatUint(d, 16) == FormatUint(d / 16, 16) + [DigitChar(l)];
    }
  }

  lemma {:induction false} ThreeDigitValue(h: nat, m: nat, l: nat)
    requires h < 4 && m < 16 && l < 16
    ensures Digits([DigitChar(h), DigitChar(m), DigitChar(l)], 16) == Some((h * 16 + m) * 16 + l)
  {
    AppendDigit([], 0, h, 16, h);
    AppendDigit([DigitChar(h)], h, m, 16, h * 16 + m);
    AppendDigit([DigitChar(h), DigitChar(m)], h * 16 + m, l, 16, (h * 16 + m) * 16 + l);
    assert [] + [DigitChar(h)] == [DigitChar(h)];
    assert [DigitChar(h)] + [DigitChar(m)] == [DigitChar(h), DigitChar(m)];
    assert [DigitChar(h), DigitChar(m)] + [DigitChar(l)] == [DigitChar(h), DigitChar(m), DigitChar(l)];
  }

  lemma {:induction false} ThreeDigitSum(d: nat)
    requires d < 1024
    ensures (d / 256 * 16 + d / 16 % 16) * 16 + d % 16 == d && d / 256 < 4
  {
  }

  lemma {:induction false} FmtDigitParses(d: nat)
    requires d < 1024
    ensures ParseUint(FmtDigit(d), 16, 1023) == Some(d)
    ensures '/' !in FmtDigit(d) && '/' !in FmtDigit(d) + ".eml"
  {
    var h, m, l := d / 256, d / 16 % 16, d % 16;
    ThreeDigitSum(d);
    ThreeDigitValue(h, m, l);
    DigitRoundTrip(h);
    DigitRoundTrip(m);
    DigitRoundTrip(l);
  }

  lemma {:induction false} LessThree(x: string, y: string)
    requires |x| == 3 && |y| == 3
    requires x[0] < y[0] || (x[0] == y[0] && (x[1] < y[1] || (x[1] == y[1] && x[2] < y[2])))
    ensures Less(x, y)
  {
    assert Less(x[2..], y[2..]) || x[0] < y[0] || x[1] < y[1];
    assert x[1..][1..] == x[2..] && y[1..][1..] == y[2..];
  }

  lemma {:induction false} FmtDigitOrder(d: nat, e: nat)
    requires d < e < 1024
    ensures Less(FmtDigit(d), FmtDigit(e))
  {
    ThreeDigits(d, e);
    DigitOrder(d / 256, e / 256);
    DigitOrder(d / 16 % 16, e / 16 % 16);
    DigitOrder(d % 16, e % 16);
    LessThree(FmtDigit(d), FmtDigit(e));
  }

  lemma {:induction false} DigitOrder(a: nat, b: nat)
    requires a < 16 && b < 16
    ensures a < b ==> DigitChar(a) < DigitChar(b)
  {
  }

  lemma {:induction false} ThreeDigits(d: nat, e: nat)
    requires d < e < 1024
    ensures d / 256 < e / 256 || (d / 256 == e / 256 &&
              (d / 16 % 16 < e / 16 % 16 || (d / 16 % 16 == e / 16 % 16 && d % 16 < e % 16)))
  {
  }

  lemma {:induction false} NumDigitsMonotone(a: nat, b: nat)
    requires a <= b
    ensures NumDigits(a) <= NumDigits(b)
  {
    if a > 0 { NumDigitsMonotone(a / 1024, b / 1024); }
  }

  /** Every 64-bit ID has at most seven digits, and only leaf prefixes up to 2^54 - 1. */
  lemma {:induction false} DigitBounds(id: nat)
    requires id <= MAX64
    ensures NumDigits(id) <= 7 && NumDigits(id / 1024) <= 6
    ensures id > 0 ==> NumDigits(id) == 1 + NumDigits(id / 1024)
    ensures id / 1024 <= MAX_PREFIX
  {
    NumDigitsMonotone(id, MAX64);
    NumDigitsMonotone(id / 1024, MAX_PREFIX);
    SixDigits(MAX_PREFIX);
  }

  lemma {:induction false} SixDigits(p: nat)
    requires p <= MAX_PREFIX
    ensures NumDigits(p) <= 6
  {
    var p1 := p / 1024; var p2 := p1 / 1024; var p3 := p2 / 1024;
    var p4 := p3 / 1024; var p5 := p4 / 1024;
    assert p5 < 1024;
    assert NumDigits(p5) <= 1;
    assert NumDigits(p4) <= 2;
    assert NumDigits(p3) <= 3;
    assert NumDigits(p2) <= 4;
    assert NumDigits(p1) <= 5;
  }

  lemma {:induction false} DepthChar(depth: nat)
    requires depth < 10
    ensures FormatUint(depth, 10) == [DigitChar(depth)]
    ensures '/' !in FormatUint(depth, 10)
  {
    DigitRoundTrip(depth);
  }

  lemma {:induction false} DirPathShape(depth: nat, prefix: nat)
    requires depth < 10
    ensures |DirPath(depth, prefix)| == 1 + 4 * NumDigits(prefix)
    ensures |DirPath(depth, prefix)| % 4 == 1
    ensures DirPath(depth, prefix)[0] == DigitChar(depth)
  {
    DepthChar(depth);
    if prefix > 0 {
      DirPathShape(depth, prefix / 1024);
      FmtDigitParses(prefix % 1024);
    }
  }

  /** The parent of a directory drops its last digit; the top level has no parent. */
  lemma {:induction false} DirOfDirPath(depth: nat, prefix: nat)
    requires depth < 10
    ensures prefix > 0 ==> Dir(DirPath(depth, prefix)) == DirPath(depth, prefix / 1024)
    ensures prefix == 0 ==> Dir(DirPath(depth, prefix)) == "."
  {
    if prefix == 0 {
      DepthChar(depth);
      NoSlash(FormatUint(depth, 10));
    } else {
      FmtDigitParses(prefix % 1024);
      LastSlashAt(DirPath(depth, prefix / 1024), FmtDigit(prefix % 1024));
    }
  }

  // ---------------------------------------------------------------- numeric order is path order

  lemma {:induction false} OrderStep(u: string, v: string, x: string, y: string)
    requires |u| == |v| && (Less(u, v) || (u == v && Less(x, y)))
    ensures Less(u + "/" + x, v + "/" + y)
  {
    assert u + "/" + x == u + ("/" + x) && v + "/" + y == v + ("/" + y);
    if Less(u, v) {
      LessFront(u, v, "/" + x, "/" + y);
    } else {
      LessCommonFront("/", x, y);
      LessCommonFront(u, "/" + x, "/" + y);
    }
  }

  lemma {:induction false} SameDepthOrder(depth: nat, a: nat, b: nat)
    requires depth < 10 && a < b && NumDigits(a) == NumDigits(b)
    ensures Less(DirPath(depth, a), DirPath(depth, b))
  {
    var qa, qb := a / 1024, b / 1024;
    DirPathShape(depth, qa);
    DirPathShape(depth, qb);
    if qa < qb {
      SameDepthOrder(depth, qa, qb);
    } else {
      FmtDigitOrder(a % 1024, b % 1024);
    }
    OrderStep(DirPath(depth, qa), DirPath(depth, qb), FmtDigit(a % 1024), FmtDigit(b % 1024));
  }

  lemma {:induction false} FirstCharDecides(x: string, y: string)
    requires x != [] && y != [] && x[0] < y[0]
    ensures Less(x, y)
  {
  }

  /** Lexicographic order of leaf directories is numeric order of their prefixes, across depths. */
  lemma {:induction false} LeafPathOrder(p: nat, q: nat)
    requires p < q <= MAX_PREFIX
    ensures Less(LeafPath(p), LeafPath(q))
  {
    NumDigitsMonotone(p, q);
    SixDigits(q);
    var m, n := 1 + NumDigits(p), 1 + NumDigits(q);
    if m < n {
      DirPathShape(m, p);
      DirPathShape(n, q);
      DigitOrder(m, n);
      FirstCharDecides(LeafPath(p), LeafPath(q));
    } else {
      SameDepthOrder(m, p, q);
    }
  }

  /** Leaf directories sort byte-wise exactly as the IDs they hold sort numerically, and
      two IDs share a leaf exactly when they agree above the last digit. */
  lemma {:induction false} LeafOrderIsIdOrder(a: uint64, b: uint64)
    ensures Less(LeafOf(a), LeafOf(b)) <==> a / 1024 < b / 1024
    ensures LeafOf(a) == LeafOf(b) <==> a / 1024 == b / 1024
  {
    var p, q := a / 1024, b / 1024;
    LessTrichotomy(LeafPath(p), LeafPath(q));
    if p < q { LeafPathOrder(p, q); }
    if q < p { LeafPathOrder(q, p); }
  }

  // ---------------------------------------------------------------- round trips

  /** One component of a path: three bits of hexadecimal, the file's suffix dropped. */
  function Component(part: string): (digit: Option<nat>)
    ensures digit.Some? ==> digit.value < 1024
  {
    ParseUint(TrimSuffix(part, ".eml"), 16, 1023)
  }

  /** Append one base-1024 digit unless the ID would leave 64 bits. */
  function Shift(value: nat, digit: Option<nat>): Option<nat> {
    if digit.None? || value > (MAX64 - digit.value) / 1024 then None else Some(value * 1024 + digit.value)
  }

  /** The value spelled by path components, as the decoding loop accumulates it. */
  function Accumulate(parts: seq<string>): Option<nat> {
    if parts == [] then Some(0)
    else
      var front := Accumulate(parts[..|parts| - 1]);
      if front.None? then None else Shift(front.value, Component(parts[|parts| - 1]))
  }

  lemma {:induction false} AccumulateFront(parts: seq<string>, k: nat)
    requires k <= |parts| && Accumulate(parts[..k]).None?
    ensures Accumulate(parts).None?
    decreases |parts| - k
  {
    if k < |parts| {
      assert parts[..k + 1][..k] == parts[..k];
      AccumulateFront(parts, k + 1);
    } else {
      assert parts[..k] == parts;
    }
  }

  lemma {:induction false} ComponentParses(d: nat, name: string)
    requires d < 1024 && (name == FmtDigit(d) || name == FmtDigit(d) + ".eml")
    ensures Component(name) == Some(d) && '/' !in name
  {
    FmtDigitParses(d);
    TrimAppended(FmtDigit(d), ".eml");
  }

  lemma {:induction false} SplitSnoc(front: string, name: string)
    requires '/' !in name
    ensures Split(front + "/" + name) == Split(front) + [name]
    ensures Split(front + "/" + name)[1..] == Split(front)[1..] + [name]
  {
    LastSlashAt(front, name);
  }

  lemma {:induction false} AccumulateSnoc(parts: seq<string>, name: string, n: nat)
    requires n <= MAX64 && Accumulate(parts) == Some(n / 1024) && Component(name) == Some(n % 1024)
    ensures Accumulate(parts + [name]) == Some(n)
  {
    var more := parts + [name];
    assert more[..|more| - 1] == parts;
    var q, d := n / 1024, n % 1024;
    assert q * 1024 + d == n;
  }

  /** The path splits into its depth and `count` components that spell `value`. */
  ghost predicate Spells(path: string, depth: string, count: nat, value: nat) {
    var parts := Split(path);
    |parts| == 1 + count && parts[0] == depth && Accumulate(parts[1..]) == Some(value)
  }

  lemma {:induction false} SpellsMore(front: string, depth: string, count: nat, n: nat, name: string, path: string)
    requires n <= MAX64 && Spells(front, depth, count, n / 1024)
    requires Component(name) == Some(n % 1024) && '/' !in name
    requires path == front + "/" + name
    ensures Spells(path, depth, count + 1, n)
  {
    SplitSnoc(front, name);
    AccumulateSnoc(Split(front)[1..], name, n);
  }

  lemma {:induction false} TopSpells(depth: nat)
    requires 0 < depth < 10
    ensures Spells(FormatUint(depth, 10), FormatUint(depth, 10), 0, 0)
  {
    DepthChar(depth);
    NoSlash(FormatUint(depth, 10));
  }

  lemma {:induction false} DirPathSpells(depth: nat, n: nat)
    requires 0 < depth < 10 && n <= MAX64
    ensures Spells(DirPath(depth, n), FormatUint(depth, 10), NumDigits(n), n)
    decreases n
  {
    if n == 0 {
      TopSpells(depth);
    } else {
      DirPathSpells(depth, n / 1024);
      var name := FmtDigit(n % 1024);
      ComponentParses(n % 1024, name);
      SpellsMore(DirPath(depth, n / 1024), FormatUint(depth, 10), NumDigits(n / 1024), n, name, DirPath(depth, n));
    }
  }

  lemma {:induction false} RelativePathSpells(id: nat)
    requires 0 < id <= MAX64
    ensures Spells(RelativePath(id), FormatUint(NumDigits(id), 10), NumDigits(id), id)
  {
    var q := id / 1024;
    DigitBounds(id);
    DirPathSpells(1 + NumDigits(q), q);
    var name := FmtDigit(id % 1024) + ".eml";
    ComponentParses(id % 1024, name);
    SlashAssociates(LeafPath(q), FmtDigit(id % 1024), ".eml");
    SpellsMore(LeafPath(q), FormatUint(NumDigits(id), 10), NumDigits(q), id, name, RelativePath(id));
  }

  lemma {:induction false} SplitRelativePath(id: nat)
    requires 0 < id <= MAX64
    ensures |Split(RelativePath(id))| >= 2
    ensures Accumulate(Split(RelativePath(id))[1..]) == Some(id)
  {
    RelativePathSpells(id);
    DigitBounds(id);
  }

  /** Base-1024 digits, least significant first. */
  function DigitsOf(n: nat): (digits: seq<nat>)
    ensures forall i :: 0 <= i < |digits| ==> digits[i] < 1024
    ensures |digits| == NumDigits(n)
  {
    if n == 0 then [] else [n % 1024] + DigitsOf(n / 1024)
  }

  /** The depth and the components of digits held least significant first. */
  function Spell(depth: nat, digits: seq<nat>): string
    requires forall i :: 0 <= i < |digits| ==> digits[i] < 1024
  {
    if digits == [] then FormatUint(depth, 10) else Spell(depth, digits[1..]) + "/" + FmtDigit(digits[0])
  }

  lemma {:induction false} SpellDigits(depth: nat, n: nat)
    ensures Spell(depth, DigitsOf(n)) == DirPath(depth, n)
  {
    if n > 0 {
      SpellDigits(depth, n / 1024);
      assert DigitsOf(n)[1..] == DigitsOf(n / 1024);
    }
  }

  lemma {:induction false} DigitLoopStep(done: seq<nat>, rest: nat)
    requires rest > 0
    ensures done + DigitsOf(rest) == done + [rest % 1024] + DigitsOf(rest / 1024)
  {
  }

  lemma {:induction false} SpellStep(depth: nat, digits: seq<nat>, index: nat)
    requires index < |digits| && forall i :: 0 <= i < |digits| ==> digits[i] < 1024
    ensures Spell(depth, digits[index..]) == Spell(depth, digits[index + 1..]) + "/" + FmtDigit(digits[index])
  {
    assert digits[index..][1..] == digits[index + 1..];
  }

  /** messageRelativePath: the digit loop and the component loop. */
  method MessageRelativePath(id: uint64) returns (path: Option<string>)
    ensures id == 0 ==> path == None
    ensures id > 0 ==> path == Some(RelativePath(id))
  {
    if id == 0 { return None; }
    var digits: seq<nat> := [];
    var rest: nat := id;
    while rest > 0
      invariant DigitsOf(id) == digits + DigitsOf(rest)
    {
      DigitLoopStep(digits, rest);
      digits := digits + [rest % 1024];
      rest := rest / 1024;
    }
    assert digits == DigitsOf(id);
    var text := RenderDigits(digits);
    SpellDigits(NumDigits(id), id);
    path := Some(text);
  }

  /** The component loop of messageRelativePath. */
  method RenderDigits(digits: seq<nat>) returns (text: string)
    requires digits != [] && forall i :: 0 <= i < |digits| ==> digits[i] < 1024
    ensures text == Spell(|digits|, digits) + ".eml"
  {
    text := FormatUint(|digits|, 10);
    var index := |digits| - 1;
    assert digits[|digits|..] == [];
    while index >= 0
      invariant -1 <= index < |digits|
      invariant index >= 0 ==> text == Spell(|digits|, digits[index + 1..])
      invariant index < 0 ==> text == Spell(|digits|, digits) + ".eml"
    {
      var component := FmtDigit(digits[index]);
      SpellStep(|digits|, digits, index);
      if index == 0 {
        component := component + ".eml";
        SlashAssociates(text, FmtDigit(digits[index]), ".eml");
        assert digits[0..] == digits;
      }
      text := text + "/" + component;
      index := index - 1;
    }
  }

  lemma {:induction false} AccumulateNext(components: seq<string>, k: nat, value: nat)
    requires k < |components| && Accumulate(components[..k]) == Some(value)
    ensures Accumulate(components[..k + 1]) == Shift(value, Component(components[k]))
    ensures Shift(value, Component(components[k])).None? ==> Accumulate(components).None?
  {
    assert components[..k + 1][..k] == components[..k];
    if Accumulate(components[..k + 1]).None? { AccumulateFront(components, k + 1); }
  }

  /** messageIDFromPath accepts a path exactly when some non-zero 64-bit ID has it, and returns that ID. */
  method MessageIDFromPath(path: string) returns (id: Option<uint64>)
    ensures id.Some? ==> id.value > 0 && path == RelativePath(id.value)
    ensures id.None? ==> forall i: uint64 :: i > 0 ==> path != RelativePath(i)
  {
    var parts := Split(path);
    CanonicalParts(path, parts);
    if |parts| < 2 { return None; }
    var value := DecodeComponents(parts[1..]);
    if value.None? { return None; }
    var expected := MessageRelativePath(value.value);
    if expected.None? || expected.value != path { return None; }
    id := value;
  }

  /** The component loop of messageIDFromPath. */
  method DecodeComponents(components: seq<string>) returns (id: Option<uint64>)
    ensures id == Accumulate(components)
  {
    var value: uint64 := 0;
    var k := 0;
    while k < |components|
      invariant 0 <= k <= |components|
      invariant Accumulate(components[..k]) == Some(value)
    {
      var digit := Component(components[k]);
      AccumulateNext(components, k, value);
      if digit.None? || value > (MAX64 - digit.value) / 1024 { return None; }
      value := value * 1024 + digit.value;
      k := k + 1;
    }
    assert components[..k] == components;
    id := Some(value);
  }

  lemma {:induction false} CanonicalParts(path: string, parts: seq<string>)
    requires parts == Split(path)
    ensures forall i: uint64 :: i > 0 && path == RelativePath(i) ==>
              |parts| >= 2 && Accumulate(parts[1..]) == Some(i)
  {
    forall i: uint64 | i > 0 && path == RelativePath(i)
      ensures |parts| >= 2 && Accumulate(parts[1..]) == Some(i)
    {
      SplitRelativePath(i);
    }
  }

  /** Everything between an ID and a size and their path survives the stored name. */
  lemma {:induction false} MessagePathParts(id: nat, size: nat)
    requires 0 < id <= MAX64 && size <= MAX64
    ensures var path := MessagePath(id, size); var stem := TrimSuffix(path, ".eml");
            var k := LastIndex(stem, "-s");
            && k >= 0 && stem[..k] + ".eml" == RelativePath(id)
            && ParseUint(stem[k + 2..], 10, MAX64) == Some(size)
  {
    var stem := RelativeStem(id) + "-s" + FormatUint(size, 10);
    TrimAppended(stem, ".eml");
    FormatAlphabet(size, 10);
    LastIndexDashS(RelativeStem(id), FormatUint(size, 10));
    var k := |RelativeStem(id)|;
    assert stem[..k] == RelativeStem(id) && stem[k + 2..] == FormatUint(size, 10);
    ParseFormat(size, 10, MAX64);
  }

  /** The stored path determines both the ID and the size. */
  lemma {:induction false} MessagePathInjective(a: uint64, s: uint64, b: uint64, t: uint64)
    requires a > 0 && b > 0 && MessagePath(a, s) == MessagePath(b, t)
    ensures a == b && s == t
  {
    MessagePathParts(a, s);
    MessagePathParts(b, t);
    SplitRelativePath(a);
    SplitRelativePath(b);
  }

  /** messageFromPath accepts exactly the paths of well-formed messages and returns that message. */
  method MessageFromPath(path: string) returns (m: Option<Message>)
    ensures m.Some? ==> IsMessage(m.value) && m.value.path == path
    ensures m.None? ==> forall x: Message :: IsMessage(x) ==> x.path != path
  {
    forall x: Message | IsMessage(x) && x.path == path
      ensures var stem := TrimSuffix(path, ".eml"); var k := LastIndex(stem, "-s");
              && k >= 0 && stem[..k] + ".eml" == RelativePath(x.id)
              && ParseUint(stem[k + 2..], 10, MAX64) == Some(x.size)
    {
      MessagePathParts(x.id, x.size);
    }
    var stem := TrimSuffix(path, ".eml");
    var position := LastIndex(stem, "-s");
    if position < 0 { return None; }
    var id := MessageIDFromPath(stem[..position] + ".eml");
    if id.None? { return None; }
    var size := ParseUint(stem[position + 2..], 10, MAX64);
    forall x: Message | IsMessage(x) && x.path == path ensures x.id == id.value {
      SplitRelativePath(x.id);
      SplitRelativePath(id.value);
    }
    if size.None? || MessagePath(id.value, size.value) != path { return None; }
    m := Some(Message(id.value, size.value, path));
  }

  /** The last element of a stored path. */
  function FileName(id: nat, size: nat): string { FmtDigit(id % 1024) + "-s" + FormatUint(size, 10) + ".eml" }

  lemma {:induction false} PathIsLeafAndName(id: nat, size: nat)
    ensures MessagePath(id, size) == LeafOf(id) + "/" + FileName(id, size)
  {
    Regrouped(LeafOf(id) + "/", FmtDigit(id % 1024), "-s", FormatUint(size, 10), ".eml");
  }

  lemma {:induction false} Regrouped(a: string, b: string, c: string, d: string, e: string)
    ensures a + b + c + d + e == a + (b + c + d + e)
  {
  }

  lemma {:induction false} NoSlashInName(id: nat, size: nat)
    ensures '/' !in FileName(id, size)
  {
    FmtDigitParses(id % 1024);
    FormatAlphabet(size, 10);
  }

  /** The directory part of a stored path is the leaf directory of its ID. */
  lemma {:induction false} DirOfMessagePath(id: uint64, size: uint64)
    requires id > 0
    ensures Dir(MessagePath(id, size)) == LeafOf(id)
  {
    NoSlashInName(id, size);
    PathIsLeafAndName(id, size);
    LastSlashAt(LeafOf(id), FileName(id, size));
  }
}
