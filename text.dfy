/** The string primitives of the JVM and of Kotlin that the services lean on:
    the two notions of "blank", `String.trim`, case-insensitive comparison,
    `split(" ", limit = 3)`, decimal printing of a `Long` and `Long.parseLong`. */
module Text {
  import opened Wrappers
  import opened JavaNumbers

  /** `Character.isWhitespace`: the separators of Unicode except the three
      no-break spaces, plus the ASCII controls TAB..CR and FS..US. */
  predicate IsJavaWhitespace(c: char) {
    || c == ' ' || ('\t' <= c <= '\r') || ('\U{1C}' <= c <= '\U{1F}')
    || c == '\U{1680}' || ('\U{2000}' <= c <= '\U{2006}') || ('\U{2008}' <= c <= '\U{200A}')
    || c == '\U{2028}' || c == '\U{2029}' || c == '\U{205F}' || c == '\U{3000}'
  }

  /** Kotlin's `Char.isWhitespace`: Java's whitespace or any space separator,
      so the no-break spaces count too. */
  predicate IsKotlinWhitespace(c: char) {
    IsJavaWhitespace(c) || c == '\U{A0}' || c == '\U{2007}' || c == '\U{202F}'
  }

  /** Kotlin `CharSequence.isBlank()` (also `isNullOrBlank` on a non-null value). */
  predicate IsBlank(s: string) {
    forall i :: 0 <= i < |s| ==> IsKotlinWhitespace(s[i])
  }

  /** Java `String.isBlank()`; micrometer's `StringUtils.isBlank` on a non-null value. */
  predicate IsJavaBlank(s: string) {
    forall i :: 0 <= i < |s| ==> IsJavaWhitespace(s[i])
  }

  lemma JavaBlankIsBlank(s: string)
    ensures IsJavaBlank(s) ==> IsBlank(s)
  {
  }

  /** `String.length()`: UTF-16 code units, so a character above U+FFFF counts twice. */
  function JavaLength(s: string): (n: nat)
    ensures |s| <= n <= 2 * |s|
    ensures (forall i :: 0 <= i < |s| ==> s[i] as int <= 0xFFFF) ==> n == |s|
  {
    if s == [] then 0
    else (if s[0] as int > 0xFFFF then 2 else 1) + JavaLength(s[1..])
  }

  /** `String.trim()`: the characters at or below U+0020 are cut from both ends. */
  predicate IsTrimmable(c: char) {
    c <= ' '
  }

  function TrimStart(s: string): (r: string)
    ensures |r| <= |s| && r == s[|s| - |r|..]
    ensures forall i :: 0 <= i < |s| - |r| ==> IsTrimmable(s[i])
    ensures r == [] || !IsTrimmable(r[0])
  {
    if s != [] && IsTrimmable(s[0]) then
      var r := TrimStart(s[1..]);
      assert s[1..][|s| - 1 - |r|..] == s[|s| - |r|..];
      assert forall i :: 1 <= i < |s| ==> s[1..][i - 1] == s[i];
      r
    else s
  }

  function TrimEnd(s: string): (r: string)
    ensures |r| <= |s| && r == s[..|r|]
    ensures forall i :: |r| <= i < |s| ==> IsTrimmable(s[i])
    ensures r == [] || !IsTrimmable(r[|r| - 1])
  {
    if s != [] && IsTrimmable(s[|s| - 1]) then
      var r := TrimEnd(s[..|s| - 1]);
      assert s[..|s| - 1][..|r|] == s[..|r|];
      assert forall i :: 0 <= i < |s| - 1 ==> s[..|s| - 1][i] == s[i];
      r
    else s
  }

  function Trim(s: string): string {
    TrimEnd(TrimStart(s))
  }

  /** `s[i..j]` is what trimming keeps: everything before `i` and from `j` on
      is at or below U+0020, and the kept part neither starts nor ends so. */
  ghost predicate TrimmedSlice(s: string, i: nat, j: nat) {
    && i <= j <= |s|
    && (forall k :: 0 <= k < i ==> IsTrimmable(s[k]))
    && (forall k :: j <= k < |s| ==> IsTrimmable(s[k]))
    && (i < j ==> !IsTrimmable(s[i]) && !IsTrimmable(s[j - 1]))
  }

  lemma TrimIsMiddleSlice(s: string)
    ensures exists i: nat, j: nat :: TrimmedSlice(s, i, j) && Trim(s) == s[i..j]
  {
    var a := TrimStart(s);
    var i := |s| - |a|;
    TrimEndOfSuffix(s, i, a);
    assert TrimmedSlice(s, i, i + |TrimEnd(a)|);
  }

  /** Trimming the end of the suffix `s[i..]` keeps a slice of `s`. */
  lemma TrimEndOfSuffix(s: string, i: nat, a: string)
    requires i <= |s| && a == s[i..] && (a == [] || !IsTrimmable(a[0]))
    ensures var j := i + |TrimEnd(a)|;
      && TrimEnd(a) == s[i..j]
      && (forall k :: j <= k < |s| ==> IsTrimmable(s[k]))
      && (i < j ==> !IsTrimmable(s[i]) && !IsTrimmable(s[j - 1]))
  {
    var b := TrimEnd(a);
    var j := i + |b|;
    forall k | j <= k < |s|
      ensures IsTrimmable(s[k])
    {
      assert s[k] == a[k - i];
    }
    if i < j {
      assert s[i] == b[0] && s[j - 1] == b[|b| - 1];
    }
  }

  /** Trimming twice is trimming once. */
  lemma TrimIdempotent(s: string)
    ensures Trim(Trim(s)) == Trim(s)
  {
    var t := Trim(s);
    TrimIsMiddleSlice(s);
    var i: nat, j: nat :| TrimmedSlice(s, i, j) && t == s[i..j];
    if t != [] {
      assert TrimStart(t) == t;
      assert TrimEnd(t) == t;
    }
  }

  /** `a.equals(b, ignoreCase = true)` when `b` is written in upper-case ASCII
      letters, as "OPTIONS" and "GET" are: besides the two ASCII cases, the JVM
      folds dotless and dotted I onto I and the long s onto S. */
  predicate CharEqualsIgnoreCase(c: char, target: char) {
    || c == target
    || ('A' <= target <= 'Z' && c as int == target as int + 32)
    || (target == 'I' && (c == '\U{131}' || c == '\U{130}'))
    || (target == 'S' && c == '\U{17F}')
    || (target == 'K' && c == '\U{212A}')
  }

  predicate EqualsIgnoreCase(s: string, target: string) {
    |s| == |target| && forall i :: 0 <= i < |s| ==> CharEqualsIgnoreCase(s[i], target[i])
  }

  lemma EqualsIgnoreCaseExample()
    ensures EqualsIgnoreCase("options", "OPTIONS") && EqualsIgnoreCase("Get", "GET")
    ensures !EqualsIgnoreCase("POST", "GET")
  {
    assert !CharEqualsIgnoreCase('P', 'G');
  }

  /** ASCII letters folded to lower case; every other character is kept. */
  function AsciiLower(c: char): (r: char)
    ensures 'A' <= c <= 'Z' ==> r as int == c as int + 32
    ensures !('A' <= c <= 'Z') ==> r == c
  {
    if 'A' <= c <= 'Z' then (c as int + 32) as char else c
  }

  /** Equality up to the case of ASCII letters, as HTTP header names compare. */
  predicate AsciiEqualsIgnoreCase(a: string, b: string) {
    |a| == |b| && forall i :: 0 <= i < |a| ==> AsciiLower(a[i]) == AsciiLower(b[i])
  }

  predicate StartsWith(s: string, prefix: string) {
    |prefix| <= |s| && s[..|prefix|] == prefix
  }

  /** Index of the first occurrence of `c` in `s`, if any. */
  function IndexOf(s: string, c: char): (r: Option<nat>)
    ensures r.Some? ==> r.value < |s| && s[r.value] == c && c !in s[..r.value]
    ensures r.None? ==> c !in s
  {
    if s == [] then None
    else if s[0] == c then Some(0)
    else match IndexOf(s[1..], c)
      case None => None
      case Some(k) => (assert s[..k + 1] == [s[0]] + s[1..][..k]; Some(k + 1))
  }

  /** Kotlin `s.split(" ", limit = 3)`: cut at the first two spaces; the third
      part keeps every later space. */
  function SplitSpaceLimit3(s: string): (parts: seq<string>)
    ensures 1 <= |parts| <= 3
  {
    match IndexOf(s, ' ')
    case None => [s]
    case Some(i) =>
      var rest := s[i + 1..];
      match IndexOf(rest, ' ')
      case None => [s[..i], rest]
      case Some(j) => [s[..i], rest[..j], rest[j + 1..]]
  }

  function JoinWithSpace(parts: seq<string>): string {
    if |parts| == 0 then ""
    else if |parts| == 1 then parts[0]
    else parts[0] + " " + JoinWithSpace(parts[1..])
  }

  /** Splitting loses nothing: joining the parts with one space gives the
      input back, and only the last part may contain a space. */
  lemma SplitSpaceLimit3Inverse(s: string)
    ensures JoinWithSpace(SplitSpaceLimit3(s)) == s
    ensures var parts := SplitSpaceLimit3(s);
      forall k :: 0 <= k < |parts| - 1 ==> ' ' !in parts[k]
  {
    match IndexOf(s, ' ')
    case None =>
    case Some(i) =>
      var rest := s[i + 1..];
      assert s == s[..i] + " " + rest;
      match IndexOf(rest, ' ')
      case None =>
      case Some(j) =>
        assert rest == rest[..j] + " " + rest[j + 1..];
        assert JoinWithSpace([rest[..j], rest[j + 1..]]) == rest[..j] + " " + rest[j + 1..];
  }

  /** The first occurrence of `c` is where `IndexOf` stops. */
  lemma IndexOfFirst(s: string, c: char, i: nat)
    requires i < |s| && s[i] == c && c !in s[..i]
    ensures IndexOf(s, c) == Some(i)
  {
    assert c in s;
  }

  /** A header of the form "a b c" with no space in `a` or `b` splits into
      its three words; "a b" with no space in either splits into two. */
  lemma SplitThreeWords(a: string, b: string, c: string)
    requires ' ' !in a && ' ' !in b
    ensures SplitSpaceLimit3(a + " " + b + " " + c) == [a, b, c]
  {
    var s := a + " " + b + " " + c;
    var rest := b + " " + c;
    assert s[..|a|] == a && s[|a| + 1..] == rest;
    IndexOfFirst(s, ' ', |a|);
    assert rest[..|b|] == b && rest[|b| + 1..] == c;
    IndexOfFirst(rest, ' ', |b|);
  }

  lemma SplitTwoWords(a: string, b: string)
    requires ' ' !in a && ' ' !in b
    ensures SplitSpaceLimit3(a + " " + b) == [a, b]
  {
    var s := a + " " + b;
    assert s[..|a|] == a && s[|a| + 1..] == b;
    IndexOfFirst(s, ' ', |a|);
  }

  // ---- decimal numbers ----

  predicate IsDigit(c: char) {
    '0' as int <= c as int <= '9' as int
  }

  predicate AllDigits(s: string) {
    forall i :: 0 <= i < |s| ==> IsDigit(s[i])
  }

  function DigitChar(d: nat): (c: char)
    requires d < 10
    ensures IsDigit(c) && c as int - '0' as int == d
  {
    ('0' as int + d) as char
  }

  /** Decimal digits of `n`, most significant first, without leading zeros. */
  function NatToDecimal(n: nat): (s: string)
    ensures |s| > 0 && forall i :: 0 <= i < |s| ==> IsDigit(s[i])
    ensures |s| > 1 ==> s[0] != '0'
  {
    if n < 10 then [DigitChar(n)] else NatToDecimal(n / 10) + [DigitChar(n % 10)]
  }

  /** `Long.toString` / string templates of an integer. */
  function LongToDecimal(n: int): string {
    if n < 0 then "-" + NatToDecimal(-n) else NatToDecimal(n)
  }

  function DigitsValue(s: string): nat
    requires forall i :: 0 <= i < |s| ==> IsDigit(s[i])
  {
    if s == [] then 0
    else
      assert IsDigit(s[|s| - 1]);
      DigitsValue(s[..|s| - 1]) * 10 + (s[|s| - 1] as int - '0' as int)
  }

  lemma {:induction false} DigitsValueOfDecimal(n: nat)
    ensures DigitsValue(NatToDecimal(n)) == n
  {
    if n >= 10 {
      var s := NatToDecimal(n);
      assert s[..|s| - 1] == NatToDecimal(n / 10);
      DigitsValueOfDecimal(n / 10);
    }
  }

  /** `java.lang.Long.parseLong` for ASCII input: an optional sign, at least
      one digit, and a value that fits in 64 bits. */
  function ParseLong(s: string): (r: Option<int>)
    ensures r.Some? ==> InLongRange(r.value)
  {
    var neg := |s| > 0 && s[0] == '-';
    var digits := if |s| > 0 && (s[0] == '-' || s[0] == '+') then s[1..] else s;
    if digits == [] || !AllDigits(digits) then None
    else
      var d: int := DigitsValue(digits);
      var v := if neg then -d else d;
      if InLongRange(v) then Some(v) else None
  }

  /** Printing a `Long` and parsing it back gives the same number. */
  lemma LongDecimalRoundTrip(n: int)
    requires InLongRange(n)
    ensures ParseLong(LongToDecimal(n)) == Some(n)
  {
    var m: nat := if n < 0 then -n else n;
    var d := NatToDecimal(m);
    DigitsValueOfDecimal(m);
    assert IsDigit(d[0]) && AllDigits(d);
    var s := LongToDecimal(n);
    if n < 0 {
      assert s[0] == '-' && s[1..] == d;
    } else {
      assert s == d && s[0] != '-' && s[0] != '+';
    }
  }

  /** A subject that is not a plain signed decimal number is refused. */
  lemma ParseLongRejects(s: string, k: nat)
    requires 0 < k < |s| && !IsDigit(s[k])
    ensures ParseLong(s) == None
  {
    if s[0] == '-' || s[0] == '+' {
      assert s[1..][k - 1] == s[k];
      assert !AllDigits(s[1..]);
    } else {
      assert !AllDigits(s);
    }
  }

}
