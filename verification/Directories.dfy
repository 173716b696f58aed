/** internal/archive/directories.go, first half: which strings name a directory of the fanout tree. */
module Directories {
  import opened Prelude
  import opened Text
  import opened IdPath

  // ---------------------------------------------------------------- directory names

  /** A name that validDirectory takes for a directory: a depth, and fewer digits than the depth; only a full set of
      digits, which makes a leaf, is held against the largest ID. */
  ghost predicate IsDirPath(path: string, depth: nat, prefix: nat) {
    && 1 <= depth <= 7 && NumDigits(prefix) < depth
    && (NumDigits(prefix) == depth - 1 ==> prefix <= MAX_PREFIX)
    && path == DirPath(depth, prefix)
  }

  ghost predicate IsDirectory(path: string) { exists depth, prefix :: IsDirPath(path, depth, prefix) }

  ghost predicate IsLeafPath(path: string) { exists p: nat :: p <= MAX_PREFIX && path == LeafPath(p) }

  function Components(prefix: nat): (parts: seq<string>)
    ensures |parts| == NumDigits(prefix)
  {
    if prefix == 0 then [] else Components(prefix / 1024) + [FmtDigit(prefix % 1024)]
  }

  /** One component: exactly three lower-case hexadecimal characters below 1024, not zero in front. */
  function CheckComponent(part: string, first: bool): (digit: Option<nat>)
    ensures digit.Some? ==> digit.value < 1024 && part == FmtDigit(digit.value) && (first ==> digit.value > 0)
  {
    var digit := ParseUint(part, 16, 1023);
    if digit.None? || part != FmtDigit(digit.value) || (first && digit.value == 0) then None else digit
  }

  /** Every part after the depth passes the component test. */
  ghost predicate Canonical(parts: seq<string>) {
    |parts| <= 1 || (Canonical(parts[..|parts| - 1]) && CheckComponent(parts[|parts| - 1], |parts| == 2).Some?)
  }

  lemma {:induction false} CanonicalFront(parts: seq<string>, k: nat)
    requires k <= |parts| && Canonical(parts)
    ensures Canonical(parts[..k])
  {
    if k == |parts| {
      assert parts[..k] == parts;
    } else if |parts| > 1 {
      assert parts[..|parts| - 1][..k] == parts[..k];
      CanonicalFront(parts[..|parts| - 1], k);
    }
  }

  lemma {:induction false} CheckAccepts(d: nat, first: bool)
    requires d < 1024 && (first ==> d > 0)
    ensures CheckComponent(FmtDigit(d), first) == Some(d)
  {
    FmtDigitParses(d);
  }

  lemma {:induction false} ComponentsCanonical(depth: string, prefix: nat)
    ensures Canonical([depth] + Components(prefix))
  {
    var parts := [depth] + Components(prefix);
    if prefix > 0 {
      ComponentsCanonical(depth, prefix / 1024);
      assert parts[..|parts| - 1] == [depth] + Components(prefix / 1024);
      CheckAccepts(prefix % 1024, |parts| == 2);
    }
  }

  lemma {:induction false} SplitDirPath(depth: nat, prefix: nat)
    requires depth < 10
    ensures Split(DirPath(depth, prefix)) == [FormatUint(depth, 10)] + Components(prefix)
  {
    if prefix == 0 {
      DepthChar(depth);
      NoSlash(FormatUint(depth, 10));
    } else {
      SplitDirPath(depth, prefix / 1024);
      ComponentParses(prefix % 1024, FmtDigit(prefix % 1024));
      SplitSnoc(DirPath(depth, prefix / 1024), FmtDigit(prefix % 1024));
    }
  }

  lemma {:induction false} ComponentsInjective(a: nat, b: nat)
    requires Components(a) == Components(b)
    ensures a == b
  {
    assert NumDigits(a) == NumDigits(b);
    if a > 0 && b > 0 {
      var x, y := Components(a), Components(b);
      assert x[..|x| - 1] == Components(a / 1024) && y[..|y| - 1] == Components(b / 1024);
      ComponentsInjective(a / 1024, b / 1024);
      FmtDigitParses(a % 1024);
      FmtDigitParses(b % 1024);
      assert x[|x| - 1] == FmtDigit(a % 1024) && y[|y| - 1] == FmtDigit(b % 1024);
    }
  }

  lemma {:induction false} DirPathInjective(m: nat, p: nat, n: nat, q: nat)
    requires m < 10 && n < 10 && DirPath(m, p) == DirPath(n, q)
    ensures m == n && p == q
  {
    SplitDirPath(m, p);
    SplitDirPath(n, q);
    var x, y := Split(DirPath(m, p)), Split(DirPath(n, q));
    assert x[0] == FormatUint(m, 10) && y[0] == FormatUint(n, 10);
    FormatDigits(m, 10);
    FormatDigits(n, 10);
    assert x[1..] == Components(p) && y[1..] == Components(q);
    ComponentsInjective(p, q);
  }

  lemma {:induction false} FiveDigits(n: nat)
    requires NumDigits(n) <= 5
    ensures n < 0x4_0000_0000_0000
  {
    var a := n / 1024; var b := a / 1024; var c := b / 1024; var d := c / 1024;
    assert n > 0 ==> NumDigits(a) <= 4;
    assert a > 0 ==> NumDigits(b) <= 3;
    assert b > 0 ==> NumDigits(c) <= 2;
    assert c > 0 ==> NumDigits(d) <= 1;
    assert d > 0 ==> NumDigits(d / 1024) == 0;
  }

  lemma {:induction false} DepthParses(depth: nat)
    requires 1 <= depth <= 7
    ensures Atoi(FormatUint(depth, 10)) == Some(depth)
  {
    DepthChar(depth);
    DigitRoundTrip(depth);
    ParseFormat(depth, 10, 0x7FFF_FFFF_FFFF_FFFF);
  }

  /** What the parts of a canonical directory look like, so that a rejected part refutes the whole path. */
  lemma {:induction false} CanonicalParts(path: string)
    requires IsDirectory(path)
    ensures Atoi(Split(path)[0]).Some?
    ensures var depth := Atoi(Split(path)[0]).value;
            1 <= depth <= 7 && Split(path)[0] == FormatUint(depth, 10) && |Split(path)| <= depth
    ensures Canonical(Split(path))
  {
    var depth, prefix :| IsDirPath(path, depth, prefix);
    SplitDirPath(depth, prefix);
    DepthParses(depth);
    ComponentsCanonical(FormatUint(depth, 10), prefix);
  }

  /** validDirectory: accepts exactly the names of IsDirPath, and calls a leaf exactly the parent directory of some
      64-bit ID. Which inner directories have such a leaf below them is DirectoryCounts.InnerHasLeaf. */
  method ValidDirectory(path: string) returns (leaf: Option<bool>)
    ensures leaf.Some? <==> IsDirectory(path)
    ensures leaf.Some? ==> (leaf.value <==> IsLeafPath(path))
  {
    var parts := Split(path);
    if IsDirectory(path) { CanonicalParts(path); }
    var depth := Atoi(parts[0]);
    if depth.None? || depth.value < 1 || depth.value > 7 || parts[0] != FormatUint(depth.value, 10)
       || |parts| > depth.value {
      return None;
    }
    var prefix := DecodePrefix(parts);
    DecodedPath(path, depth.value);
    if prefix.None? { return None; }
    Uniqueness(path, depth.value, prefix.value);
    if |parts| == depth.value && prefix.value > MAX64 / 1024 { return None; }
    leaf := Some(|parts| == depth.value);
  }

  lemma {:induction false} DecodedPath(path: string, depth: nat)
    requires 1 <= depth <= 7 && Split(path)[0] == FormatUint(depth, 10) && |Split(path)| <= depth
    ensures var r := DecodeFrom(Split(path), 1, 0);
      if r.None? then !Canonical(Split(path))
      else path == DirPath(depth, r.value) && NumDigits(r.value) == |Split(path)| - 1
  {
    var parts := Split(path);
    assert parts[..1] == [parts[0]];
    DecodeMeaning(parts, depth, 1, 0);
    JoinSplit(path);
  }

  /** What the component loop of validDirectory computes from its i-th round on. */
  function DecodeFrom(parts: seq<string>, i: nat, prefix: uint64): Option<uint64>
    requires 1 <= i <= |parts|
    decreases |parts| - i
  {
    if i == |parts| then Some(prefix)
    else
      var digit := CheckComponent(parts[i], i == 1);
      if digit.None? || prefix > (MAX64 - digit.value) / 1024 then None
      else DecodeFrom(parts, i + 1, prefix * 1024 + digit.value)
  }

  /** The component loop of validDirectory. */
  method DecodePrefix(parts: seq<string>) returns (prefix: Option<uint64>)
    requires |parts| >= 1
    ensures prefix == DecodeFrom(parts, 1, 0)
  {
    var value: uint64 := 0;
    var i := 1;
    while i < |parts|
      invariant 1 <= i <= |parts|
      invariant DecodeFrom(parts, 1, 0) == DecodeFrom(parts, i, value)
    {
      var next := DecodeComponent(parts, i, value);
      if next.None? { return None; }
      value, i := next.value, i + 1;
    }
    prefix := Some(value);
  }

  /** One round of that loop. */
  method DecodeComponent(parts: seq<string>, i: nat, value: uint64) returns (next: Option<uint64>)
    requires 1 <= i < |parts|
    ensures DecodeFrom(parts, i, value) == if next.None? then None else DecodeFrom(parts, i + 1, next.value)
  {
    var digit := CheckComponent(parts[i], i == 1);
    if digit.None? || value > (MAX64 - digit.value) / 1024 { return None; }
    var more := value * 1024 + digit.value;
    DecodeFromNext(parts, i, value, digit.value, more);
    next := Some(more);
  }

  lemma {:induction false} DecodeFromNext(parts: seq<string>, i: nat, prefix: uint64, digit: nat, next: nat)
    requires 1 <= i < |parts| && CheckComponent(parts[i], i == 1) == Some(digit)
    requires next == prefix * 1024 + digit && prefix <= (MAX64 - digit) / 1024
    ensures next <= MAX64 && DecodeFrom(parts, i, prefix) == DecodeFrom(parts, i + 1, next)
  {
  }

  ghost predicate DecodeCorrect(parts: seq<string>, depth: nat, r: Option<uint64>)
    requires |parts| >= 1
  {
    && (r.Some? <==> Canonical(parts))
    && (r.Some? ==> Join(parts) == DirPath(depth, r.value) && NumDigits(r.value) == |parts| - 1)
  }

  /** The loop accepts exactly the canonical components, rebuilds the path, and its overflow test
      never fires below depth eight. */
  lemma {:induction false} DecodeMeaning(parts: seq<string>, depth: nat, i: nat, prefix: uint64)
    requires 1 <= i <= |parts| <= 7 && Decoded(parts[..i], depth, prefix)
    ensures DecodeCorrect(parts, depth, DecodeFrom(parts, i, prefix))
    decreases |parts| - i
  {
    if i == |parts| {
      assert parts[..i] == parts;
    } else {
      var check := CheckComponent(parts[i], i == 1);
      if check.None? {
        CanonicalNext(parts, i);
      } else {
        var digit := check.value;
        var next := prefix * 1024 + digit;
        DecodeStep(parts, i, depth, prefix, digit, next);
        DecodeFromNext(parts, i, prefix, digit, next);
        DecodeMeaning(parts, depth, i + 1, next);
      }
    }
  }

  ghost predicate Decoded(parts: seq<string>, depth: nat, prefix: nat) {
    |parts| >= 1 && Canonical(parts) && Join(parts) == DirPath(depth, prefix) && NumDigits(prefix) == |parts| - 1
  }

  lemma {:induction false} NoOverflow(prefix: nat, digit: nat)
    requires NumDigits(prefix) <= 5 && digit < 1024
    ensures prefix <= (MAX64 - digit) / 1024
  {
    FiveDigits(prefix);
  }

  lemma {:induction false} DirPathNext(depth: nat, prefix: nat, digit: nat, next: nat)
    requires digit < 1024 && next == prefix * 1024 + digit > 0
    ensures DirPath(depth, next) == DirPath(depth, prefix) + "/" + FmtDigit(digit)
    ensures NumDigits(next) == NumDigits(prefix) + 1
  {
    assert next / 1024 == prefix && next % 1024 == digit;
  }

  lemma {:induction false} JoinNext(parts: seq<string>, i: nat)
    requires 1 <= i < |parts|
    ensures Join(parts[..i + 1]) == Join(parts[..i]) + "/" + parts[i]
  {
    assert parts[..i + 1][..i] == parts[..i];
  }

  lemma {:induction false} CanonicalNext(parts: seq<string>, i: nat)
    requires 1 <= i < |parts| && Canonical(parts[..i])
    ensures CheckComponent(parts[i], i == 1).Some? ==> Canonical(parts[..i + 1])
    ensures CheckComponent(parts[i], i == 1).None? ==> !Canonical(parts)
  {
    assert parts[..i + 1][..i] == parts[..i];
    if Canonical(parts) { CanonicalFront(parts, i + 1); }
  }

  lemma {:induction false} DecodeStep(parts: seq<string>, i: nat, depth: nat, prefix: nat, digit: nat, next: nat)
    requires 1 <= i < |parts| <= 7 && Decoded(parts[..i], depth, prefix)
    requires CheckComponent(parts[i], i == 1) == Some(digit) && next == prefix * 1024 + digit
    ensures prefix <= (MAX64 - digit) / 1024 && Decoded(parts[..i + 1], depth, next)
  {
    NoOverflow(prefix, digit);
    CanonicalNext(parts, i);
    JoinNext(parts, i);
    assert i == 1 || prefix > 0;
    DirPathNext(depth, prefix, digit, next);
  }

  lemma {:induction false} Uniqueness(path: string, depth: nat, prefix: nat)
    requires 1 <= depth <= 7 && NumDigits(prefix) < depth && path == DirPath(depth, prefix)
    ensures IsDirectory(path) <==> (NumDigits(prefix) == depth - 1 ==> prefix <= MAX_PREFIX)
    ensures IsLeafPath(path) <==> NumDigits(prefix) == depth - 1 && prefix <= MAX_PREFIX
  {
    if IsDirectory(path) {
      var m, p :| IsDirPath(path, m, p);
      DirPathInjective(depth, prefix, m, p);
    }
    if NumDigits(prefix) == depth - 1 ==> prefix <= MAX_PREFIX { assert IsDirPath(path, depth, prefix); }
    if IsLeafPath(path) {
      var p: nat :| p <= MAX_PREFIX && path == LeafPath(p);
      SixDigits(p);
      DirPathInjective(depth, prefix, 1 + NumDigits(p), p);
    }
    if NumDigits(prefix) == depth - 1 && prefix <= MAX_PREFIX {
      assert path == LeafPath(prefix);
    }
  }
}
