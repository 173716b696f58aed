/** The string operations of Go's strconv, strings and path/filepath that the archive's paths use. */
module Text {
  import opened Prelude

  // ---------------------------------------------------------------- byte-wise order

  /** Go's `<` on strings. */
  predicate Less(a: string, b: string) {
    b != [] && (a == [] || a[0] < b[0] || (a[0] == b[0] && Less(a[1..], b[1..])))
  }

  lemma {:induction false} LessTrichotomy(a: string, b: string)
    ensures Less(a, b) ==> !Less(b, a)
    ensures a == b || Less(a, b) || Less(b, a)
    ensures a == b ==> !Less(a, b)
  {
    if a != [] && b != [] {
      LessTrichotomy(a[1..], b[1..]);
      if a[0] == b[0] && a[1..] == b[1..] { assert a == [a[0]] + a[1..] == b; }
    }
  }

  lemma {:induction false} LessTransitive(a: string, b: string, c: string)
    requires Less(a, b) && Less(b, c)
    ensures Less(a, c)
  {
    if a != [] && a[0] == b[0] && b[0] == c[0] {
      LessTransitive(a[1..], b[1..], c[1..]);
    }
  }

  lemma {:induction false} LessIsOrder()
    ensures PartialOrder(Less)
    ensures forall x, y :: x == y || Less(x, y) || Less(y, x)
  {
    forall x, y ensures (Less(x, y) ==> !Less(y, x)) && (x == y || Less(x, y) || Less(y, x)) {
      LessTrichotomy(x, y);
    }
    forall x, y, z | Less(x, y) && Less(y, z) ensures Less(x, z) { LessTransitive(x, y, z); }
  }

  /** A strict difference in an equally long front decides the order. */
  lemma {:induction false} LessFront(a: string, b: string, x: string, y: string)
    requires |a| == |b| && Less(a, b)
    ensures Less(a + x, b + y)
  {
    assert (a + x)[1..] == a[1..] + x;
    assert (b + y)[1..] == b[1..] + y;
    if a[0] == b[0] { LessFront(a[1..], b[1..], x, y); }
  }

  /** A common front does not matter. */
  lemma {:induction false} LessCommonFront(c: string, x: string, y: string)
    ensures Less(c + x, c + y) == Less(x, y)
  {
    if c == [] {
      assert c + x == x && c + y == y;
    } else {
      assert (c + x)[1..] == c[1..] + x;
      assert (c + y)[1..] == c[1..] + y;
      LessCommonFront(c[1..], x, y);
    }
  }

  // ---------------------------------------------------------------- numerals

  function DigitChar(d: nat): (c: char)
    requires d < 36
  {
    if d < 10 then '0' + d as char else 'a' + (d - 10) as char
  }

  function DigitValue(c: char): (d: Option<nat>)
    ensures d.Some? ==> d.value < 36
  {
    if '0' <= c <= '9' then Some((c - '0') as nat)
    else if 'a' <= c <= 'z' then Some((c - 'a') as nat + 10)
    else if 'A' <= c <= 'Z' then Some((c - 'A') as nat + 10)
    else None
  }

  /** strconv.FormatUint. */
  function FormatUint(n: nat, base: nat): (s: string)
    requires 2 <= base <= 36
    ensures |s| > 0
    decreases n
  {
    DivMod(n, base);
    if n < base then [DigitChar(n)] else FormatUint(n / base, base) + [DigitChar(n % base)]
  }

  /** The value of a numeral, or None when a character is not a digit of the base. */
  function Digits(s: string, base: nat): Option<nat>
  {
    if s == [] then Some(0)
    else
      var front := Digits(s[..|s| - 1], base);
      var last := DigitValue(s[|s| - 1]);
      if front.None? || last.None? || last.value >= base then None
      else Some(front.value * base + last.value)
  }

  /** strconv.ParseUint: an empty or malformed numeral and a value over the limit are both errors. */
  function ParseUint(s: string, base: nat, limit: nat): (r: Option<nat>)
    ensures r.Some? ==> r.value <= limit
  {
    var v := Digits(s, base);
    if s == [] || v.None? || v.value > limit then None else v
  }

  /** strconv.Atoi: an optional sign and a decimal numeral of at most 63 bits. */
  function Atoi(s: string): Option<int> {
    var signed := s != [] && (s[0] == '+' || s[0] == '-');
    var negative := signed && s[0] == '-';
    var v := ParseUint(if signed then s[1..] else s, 10,
                       if negative then 0x8000_0000_0000_0000 else 0x7FFF_FFFF_FFFF_FFFF);
    if v.None? then None else if negative then Some(0 - v.value) else Some(v.value)
  }

  lemma {:induction false} DigitRoundTrip(d: nat)
    requires d < 36
    ensures DigitValue(DigitChar(d)) == Some(d)
    ensures '0' <= DigitChar(d) <= '9' || 'a' <= DigitChar(d) <= 'z'
  {
  }

  lemma {:induction false} AppendDigit(front: string, q: nat, d: nat, base: nat, n: nat)
    requires d < base <= 36 && Digits(front, base) == Some(q) && n == q * base + d
    ensures Digits(front + [DigitChar(d)], base) == Some(n)
  {
    DigitRoundTrip(d);
    var s := front + [DigitChar(d)];
    assert s[..|s| - 1] == front;
  }

  lemma {:induction false} MulMonotone(a: int, b: int, c: nat)
    requires a <= b
    ensures a * c <= b * c
  {
  }

  lemma {:induction false} DivMod(n: nat, base: nat)
    requires base >= 2
    ensures n == n / base * base + n % base && 0 <= n % base < base
    ensures n < base ==> n % base == n && n / base == 0
    ensures n >= base ==> 0 < n / base < n
  {
    var q := n / base;
    assert n == q * base + n % base;
    if q >= 1 { MulMonotone(1, q, base); }
    if q <= -1 { MulMonotone(q, -1, base); }
    MulMonotone(2, base, if q >= 0 then q else 0);
  }

  lemma {:induction false} FormatDigits(n: nat, base: nat)
    requires 2 <= base <= 36
    ensures Digits(FormatUint(n, base), base) == Some(n)
    decreases n
  {
    DivMod(n, base);
    var q, d := n / base, n % base;
    if n < base {
      AppendDigit([], 0, d, base, n);
      assert [] + [DigitChar(d)] == [DigitChar(d)];
    } else {
      FormatDigits(q, base);
      AppendDigit(FormatUint(q, base), q, d, base, n);
    }
  }

  /** Printing then parsing a number returns it, within the limit. */
  lemma {:induction false} ParseFormat(n: nat, base: nat, limit: nat)
    requires 2 <= base <= 36
    ensures ParseUint(FormatUint(n, base), base, limit) == if n <= limit then Some(n) else None
  {
    FormatDigits(n, base);
  }

  function Zeros(z: nat): string { seq(z, _ => '0') }

  lemma {:induction false} LeadingZero(s: string, base: nat)
    requires 2 <= base <= 36
    ensures Digits(['0'] + s, base) == Digits(s, base)
  {
    var t := ['0'] + s;
    if s == [] {
      assert t[..0] == [];
    } else {
      assert t[..|t| - 1] == ['0'] + s[..|s| - 1];
      LeadingZero(s[..|s| - 1], base);
    }
  }

  lemma {:induction false} LeadingZeros(z: nat, s: string, base: nat)
    requires 2 <= base <= 36
    ensures Digits(Zeros(z) + s, base) == Digits(s, base)
  {
    if z == 0 {
      assert Zeros(0) + s == s;
    } else {
      assert Zeros(z) + s == ['0'] + (Zeros(z - 1) + s);
      LeadingZero(Zeros(z - 1) + s, base);
      LeadingZeros(z - 1, s, base);
    }
  }

  /** A decimal numeral is some zeros and the number as it is printed. */
  lemma {:induction false} DecimalShape(s: string) returns (z: nat)
    requires s != [] && Digits(s, 10).Some?
    ensures s == Zeros(z) + FormatUint(Digits(s, 10).value, 10)
  {
    var front, c := s[..|s| - 1], s[|s| - 1];
    var d := DigitValue(c).value;
    assert s == front + [c] && c == DigitChar(d);
    if front == [] {
      z := 0;
      assert Digits(front, 10) == Some(0);
    } else {
      var y := DecimalShape(front);
      var q := Digits(front, 10).value;
      z := if q > 0 then y else y + 1;
      NextDigit(front, y, q, d);
    }
  }

  lemma {:induction false} NextDigit(front: string, y: nat, q: nat, d: nat)
    requires front == Zeros(y) + FormatUint(q, 10) && d < 10
    ensures front + [DigitChar(d)] == Zeros(if q > 0 then y else y + 1) + FormatUint(q * 10 + d, 10)
  {
    TimesTen(q, d);
    if q > 0 {
      assert FormatUint(q * 10 + d, 10) == FormatUint(q, 10) + [DigitChar(d)];
    } else {
      assert FormatUint(q, 10) == ['0'] && FormatUint(d, 10) == [DigitChar(d)];
      assert Zeros(y + 1) == Zeros(y) + ['0'];
    }
  }

  lemma {:induction false} TimesTen(q: nat, d: nat)
    requires d < 10
    ensures (q * 10 + d) / 10 == q && (q * 10 + d) % 10 == d
  {
  }

  /** A decimal numeral is read as n exactly when it is n, as it is printed, behind any number of zeros. */
  lemma {:induction false} ParseMeaning(s: string, limit: nat, n: nat)
    ensures ParseUint(s, 10, limit) == Some(n) <==> n <= limit && exists z :: s == Zeros(z) + FormatUint(n, 10)
  {
    if n <= limit && exists z :: s == Zeros(z) + FormatUint(n, 10) {
      var z :| s == Zeros(z) + FormatUint(n, 10);
      LeadingZeros(z, FormatUint(n, 10), 10);
      FormatDigits(n, 10);
    }
    if ParseUint(s, 10, limit) == Some(n) { var z := DecimalShape(s); }
  }

  predicate Alphanumeric(s: string) {
    forall c :: c in s ==> '0' <= c <= '9' || 'a' <= c <= 'z'
  }

  lemma {:induction false} FormatAlphabet(n: nat, base: nat)
    requires 2 <= base <= 36
    ensures Alphanumeric(FormatUint(n, base))
    decreases n
  {
    DivMod(n, base);
    var q, d := n / base, n % base;
    DigitRoundTrip(d);
    if n >= base { FormatAlphabet(q, base); }
  }

  /** A decimal numeral below a power of ten is no longer than that power. */
  lemma {:induction false} DecimalLength(n: nat, width: nat)
    requires width > 0 && n < Power10(width)
    ensures |FormatUint(n, 10)| <= width
  {
    if n >= 10 { DecimalLength(n / 10, width - 1); }
  }

  function Power10(e: nat): nat { if e == 0 then 1 else 10 * Power10(e - 1) }

  // ---------------------------------------------------------------- slashes and suffixes

  /** Index of the last '/', or -1. */
  function LastSlash(s: string): (k: int)
    ensures -1 <= k < |s|
  {
    if s == [] then -1
    else if s[|s| - 1] == '/' then |s| - 1
    else LastSlash(s[..|s| - 1])
  }

  lemma {:induction false} LastSlashIsSlash(s: string)
    ensures LastSlash(s) >= 0 ==> s[LastSlash(s)] == '/'
  {
    if s != [] && s[|s| - 1] != '/' { LastSlashIsSlash(s[..|s| - 1]); }
  }

  /** filepath.Dir on a clean relative path. */
  function Dir(path: string): string {
    if LastSlash(path) < 0 then "." else path[..LastSlash(path)]
  }

  /** strings.Split(s, "/"). */
  function Split(s: string): (parts: seq<string>)
    ensures |parts| >= 1
    decreases |s|
  {
    var k := LastSlash(s);
    if k < 0 then [s] else Split(s[..k]) + [s[k + 1..]]
  }

  lemma {:induction false} LastSlashFound(a: string, b: string)
    requires '/' !in b
    ensures LastSlash(a + "/" + b) == |a|
    decreases |b|
  {
    var s := a + "/" + b;
    if b == [] {
      assert s[|s| - 1] == '/';
    } else {
      assert s[|s| - 1] == b[|b| - 1];
      assert s[..|s| - 1] == a + "/" + b[..|b| - 1];
      LastSlashFound(a, b[..|b| - 1]);
    }
  }

  /** Where a path with a plain last component is cut. */
  lemma {:induction false} LastSlashAt(a: string, b: string)
    requires '/' !in b
    ensures Dir(a + "/" + b) == a
    ensures Split(a + "/" + b) == Split(a) + [b]
  {
    LastSlashFound(a, b);
    var s := a + "/" + b;
    assert s[..|a|] == a && s[|a| + 1..] == b;
  }

  lemma {:induction false} NoSlashFound(s: string)
    requires '/' !in s
    ensures LastSlash(s) == -1
  {
    if s != [] { NoSlashFound(s[..|s| - 1]); }
  }

  lemma {:induction false} NoSlash(s: string)
    requires '/' !in s
    ensures Dir(s) == "." && Split(s) == [s]
  {
    NoSlashFound(s);
  }

  lemma {:induction false} SlashAssociates(a: string, b: string, c: string)
    ensures a + "/" + b + c == a + "/" + (b + c)
  {
  }

  /** filepath.Join of clean components. */
  function Join(parts: seq<string>): string
    requires |parts| >= 1
  {
    if |parts| == 1 then parts[0] else Join(parts[..|parts| - 1]) + "/" + parts[|parts| - 1]
  }

  /** Splitting loses nothing. */
  lemma {:induction false} JoinSplit(s: string)
    ensures Join(Split(s)) == s
    decreases |s|
  {
    var k := LastSlash(s);
    LastSlashIsSlash(s);
    if k >= 0 {
      JoinSplit(s[..k]);
      assert s == s[..k] + "/" + s[k + 1..];
      var parts := Split(s[..k]) + [s[k + 1..]];
      assert parts[..|parts| - 1] == Split(s[..k]);
    }
  }

  predicate HasSuffix(s: string, suffix: string) {
    |suffix| <= |s| && s[|s| - |suffix|..] == suffix
  }

  function TrimSuffix(s: string, suffix: string): string {
    if HasSuffix(s, suffix) then s[..|s| - |suffix|] else s
  }

  lemma {:induction false} TrimAppended(s: string, suffix: string)
    ensures TrimSuffix(s + suffix, suffix) == s
  {
    assert (s + suffix)[|s|..] == suffix;
    assert (s + suffix)[..|s|] == s;
  }

  /** strings.LastIndex, -1 when absent. */
  function LastIndex(s: string, sub: string): (k: int)
    requires sub != []
    ensures -1 <= k <= |s| - |sub| || k == -1
    ensures k >= 0 ==> s[k..k + |sub|] == sub
  {
    if |s| < |sub| then -1
    else if HasSuffix(s, sub) then |s| - |sub|
    else LastIndex(s[..|s| - 1], sub)
  }

  /** The last occurrence of "-s" is found even when a tail without '-' follows it. */
  lemma {:induction false} LastIndexDashS(a: string, b: string)
    requires '-' !in b
    ensures LastIndex(a + "-s" + b, "-s") == |a|
    decreases |b|
  {
    var s := a + "-s" + b;
    if b == [] {
      assert s == a + "-s";
    } else {
      var c := b[..|b| - 1];
      assert s[..|s| - 1] == a + "-s" + c;
      LastIndexDashS(a, c);
      assert s[|s| - 2] == if |b| == 1 then 's' else b[|b| - 2];
      assert s[|s| - 2..][0] == s[|s| - 2] != '-';
    }
  }

  // ---------------------------------------------------------------- octets

  /** []byte(text), for text without characters above 255. */
  function Octets8(text: string): Bytes {
    if text == [] then [] else Octets8(text[..|text| - 1]) + [(text[|text| - 1] as int % 256) as byte]
  }

  lemma {:induction false} OctetAt(text: string, i: nat)
    requires i < |text|
    ensures |Octets8(text)| == |text| && Octets8(text)[i] as int == text[i] as int % 256
  {
    var n := |text| - 1;
    if n > 0 { OctetAt(text[..n], if i < n then i else 0); }
  }
}
