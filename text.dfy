/** The string primitives the dispatcher and the formatter rely on: the sds
    library's `sdstrim` and `sdsrange`, libc's `strcasecmp` and `atoi`, and
    the `%d` / `%-3d` conversions of `sdscatprintf`. */
module Text {

  // ---------------------------------------------------------------------
  // sdstrim(s, " ")

  /** The characters `sdstrim(s, " ")` strips from both ends: the space, and
      also NUL, because `strchr(" ", '\0')` finds the set's terminator. */
  predicate IsTrimChar(c: char) {
    c == ' ' || c == '\0'
  }

  /** A string with no strippable character at either end. */
  predicate Trimmed(s: string) {
    |s| == 0 || (!IsTrimChar(s[0]) && !IsTrimChar(s[|s| - 1]))
  }

  /** A run of strippable characters only. */
  predicate Padding(p: string) {
    forall k :: 0 <= k < |p| ==> IsTrimChar(p[k])
  }

  lemma PaddingConcat(p: string, q: string)
    requires Padding(p) && Padding(q)
    ensures Padding(p + q)
  {
    var s := p + q;
    forall k | 0 <= k < |s| ensures IsTrimChar(s[k]) {
      if k < |p| { assert s[k] == p[k]; } else { assert s[k] == q[k - |p|]; }
    }
  }

  /** Length of the longest prefix of strippable characters. */
  function LeadingTrim(s: string): (n: nat)
    ensures n <= |s|
    ensures forall k :: 0 <= k < n ==> IsTrimChar(s[k])
    ensures n < |s| ==> !IsTrimChar(s[n])
  {
    if |s| == 0 || !IsTrimChar(s[0]) then 0 else 1 + LeadingTrim(s[1..])
  }

  /** Length of the longest suffix of strippable characters. */
  function TrailingTrim(s: string): (n: nat)
    ensures n <= |s|
    ensures forall k :: |s| - n <= k < |s| ==> IsTrimChar(s[k])
    ensures n < |s| ==> !IsTrimChar(s[|s| - 1 - n])
  {
    if |s| == 0 || !IsTrimChar(s[|s| - 1]) then 0 else 1 + TrailingTrim(s[..|s| - 1])
  }

  /** `sdstrim(s, " ")`: the middle of `s` once the strippable characters at
      both ends are gone. */
  function Trim(s: string): (r: string)
    ensures Trimmed(r)
    ensures LeadingTrim(s) + |r| <= |s|
    ensures r == s[LeadingTrim(s)..LeadingTrim(s) + |r|]
    ensures forall k :: LeadingTrim(s) + |r| <= k < |s| ==> IsTrimChar(s[k])
  {
    var t := s[LeadingTrim(s)..];
    t[..|t| - TrailingTrim(t)]
  }

  /** Strippable padding in front of a character that is not strippable is
      exactly what `LeadingTrim` counts. */
  lemma LeadingTrimOfPadded(p: string, x: string)
    requires Padding(p)
    requires |x| > 0 && !IsTrimChar(x[0])
    ensures LeadingTrim(p + x) == |p|
  {
    var s := p + x;
    assert forall k :: 0 <= k < |p| ==> s[k] == p[k];
    assert s[|p|] == x[0];
  }

  /** Strippable padding behind a character that is not strippable is
      exactly what `TrailingTrim` counts. */
  lemma TrailingTrimOfPadded(x: string, q: string)
    requires Padding(q)
    requires |x| > 0 && !IsTrimChar(x[|x| - 1])
    ensures TrailingTrim(x + q) == |q|
  {
    var s := x + q;
    assert forall k :: |x| <= k < |s| ==> s[k] == q[k - |x|];
    assert s[|x| - 1] == x[|x| - 1];
  }

  /** Trimming is determined by the decomposition it undoes: whatever
      strippable padding surrounds a trimmed middle, `Trim` returns exactly
      that middle. */
  lemma TrimOfPadded(p: string, m: string, q: string)
    requires Padding(p) && Padding(q)
    requires Trimmed(m)
    ensures Trim(p + m + q) == m
  {
    var s := p + m + q;
    if |m| == 0 {
      assert s == p + q;
      PaddingConcat(p, q);
      assert LeadingTrim(s) == |s|;
    } else {
      assert s == p + (m + q);
      LeadingTrimOfPadded(p, m + q);
      var t := s[|p|..];
      assert t == m + q;
      TrailingTrimOfPadded(m, q);
      assert t[..|t| - |q|] == m;
    }
  }

  /** Trimming a string that is already trimmed changes nothing. */
  lemma TrimTrimmed(s: string)
    requires Trimmed(s)
    ensures Trim(s) == s
  {
    TrimOfPadded([], s, []);
    assert [] + s + [] == s;
  }

  // ---------------------------------------------------------------------
  // sdsrange(s, n, -1)

  /** `sdsrange(s, n, -1)`: keep the characters from offset `n` to the end;
      an offset at or beyond the end leaves the empty string. */
  function DropFirst(s: string, n: nat): (r: string)
    ensures n <= |s| ==> s == s[..n] + r
    ensures n >= |s| ==> r == []
  {
    if n < |s| then s[n..] else []
  }

  // ---------------------------------------------------------------------
  // strcasecmp(a, b) == 0

  /** `tolower` in the C locale. */
  function Lower(c: char): (d: char)
    ensures 'A' <= c <= 'Z' ==> 'a' <= d <= 'z'
    ensures !('A' <= c <= 'Z') ==> d == c
  {
    if 'A' <= c <= 'Z' then (c as int - 'A' as int + 'a' as int) as char else c
  }

  /** `strcasecmp(a, b) == 0`: equal once both are folded to lower case. */
  predicate CaseEq(a: string, b: string)
    ensures a == b ==> CaseEq(a, b)
    ensures CaseEq(a, b) ==> |a| == |b|
  {
    |a| == |b| && forall k :: 0 <= k < |a| ==> Lower(a[k]) == Lower(b[k])
  }

  // ---------------------------------------------------------------------
  // atoi

  /** `isspace` in the C locale: space, \t, \n, \v, \f, \r. */
  predicate IsSpace(c: char) {
    c == ' ' || ('\t' <= c <= '\r')
  }

  predicate IsDigit(c: char) {
    '0' <= c <= '9'
  }

  predicate AllDigits(s: string) {
    forall k :: 0 <= k < |s| ==> IsDigit(s[k])
  }

  function DigitValue(c: char): (d: nat)
    requires IsDigit(c)
    ensures d < 10
  {
    c as int - '0' as int
  }

  function DigitChar(d: nat): (c: char)
    requires d < 10
    ensures IsDigit(c) && DigitValue(c) == d
  {
    ('0' as int + d) as char
  }

  /** Length of the longest prefix of white space. */
  function LeadingSpace(s: string): (n: nat)
    ensures n <= |s|
    ensures forall k :: 0 <= k < n ==> IsSpace(s[k])
    ensures n < |s| ==> !IsSpace(s[n])
  {
    if |s| == 0 || !IsSpace(s[0]) then 0 else 1 + LeadingSpace(s[1..])
  }

  /** Length of the longest prefix of decimal digits. */
  function DigitRun(s: string): (n: nat)
    ensures n <= |s|
    ensures AllDigits(s[..n])
    ensures n < |s| ==> !IsDigit(s[n])
  {
    if |s| == 0 || !IsDigit(s[0]) then 0 else 1 + DigitRun(s[1..])
  }

  /** The number a string of decimal digits denotes, most significant first. */
  function DigitsValue(s: string): nat
    requires AllDigits(s)
  {
    if |s| == 0 then 0 else 10 * DigitsValue(s[..|s| - 1]) + DigitValue(s[|s| - 1])
  }

  /** The unsigned part of `atoi`: the leading digits of `s`, 0 if none. */
  function LeadingNumber(s: string): nat {
    DigitsValue(s[..DigitRun(s)])
  }

  /** `atoi(s)`: skip leading white space, read an optional sign and then as
      many decimal digits as follow; a string without such digits reads as 0. */
  function Atoi(s: string): (n: int)
    ensures (forall k :: 0 <= k < |s| ==> !IsDigit(s[k])) ==> n == 0
  {
    var t := s[LeadingSpace(s)..];
    if |t| > 0 && t[0] == '-' then -(LeadingNumber(t[1..]) as int)
    else if |t| > 0 && t[0] == '+' then LeadingNumber(t[1..])
    else LeadingNumber(t)
  }

  // ---------------------------------------------------------------------
  // %d and %-3d

  /** The decimal representation `%d` prints for a non-negative number:
      the digits of `n / 10`, then the digit of `n % 10`. */
  function Decimal(n: nat): (s: string)
    ensures |s| >= 1
  {
    if n < 10 then [DigitChar(n)] else Decimal(n / 10) + [DigitChar(n % 10)]
  }

  /** `%d` prints decimal digits, without a leading zero, that denote `n`. */
  lemma {:induction false} DecimalDigits(n: nat)
    ensures AllDigits(Decimal(n))
    ensures DigitsValue(Decimal(n)) == n
    ensures n > 0 ==> Decimal(n)[0] != '0'
  {
    if n >= 10 {
      DecimalDigits(n / 10);
      var s := Decimal(n);
      assert s[..|s| - 1] == Decimal(n / 10);
      assert s[0] == Decimal(n / 10)[0];
    }
  }

  /** `n` spaces. */
  function Spaces(n: nat): (s: string)
    ensures |s| == n && forall k :: 0 <= k < n ==> s[k] == ' '
  {
    seq(n, _ => ' ')
  }

  /** `%-3d` for a non-negative number: its decimal digits, left-justified
      and padded with spaces to a width of at least 3. */
  function LeftJustified3(n: nat): (s: string)
    ensures |s| >= 3
  {
    var d := Decimal(n);
    if |d| < 3 then d + Spaces(3 - |d|) else d
  }

  /** What `%-3d` prints: at least three characters, the digits first and
      spaces after them. */
  lemma LeftJustified3Shape(n: nat)
    ensures |LeftJustified3(n)| >= 3 && |LeftJustified3(n)| >= |Decimal(n)|
    ensures LeftJustified3(n)[..|Decimal(n)|] == Decimal(n)
    ensures forall k :: |Decimal(n)| <= k < |LeftJustified3(n)| ==> LeftJustified3(n)[k] == ' '
  {
  }

  /** Reading back what `%d` printed: digits followed by anything that does
      not start with a digit read as the number they denote. */
  lemma LeadingNumberOfDigits(d: string, rest: string)
    requires AllDigits(d)
    requires |rest| > 0 ==> !IsDigit(rest[0])
    ensures LeadingNumber(d + rest) == DigitsValue(d)
  {
    var s := d + rest;
    var n := DigitRun(s);
    assert forall k :: 0 <= k < |d| ==> s[k] == d[k];
    assert |rest| > 0 ==> s[|d|] == rest[0];
    assert n == |d|;
    assert s[..n] == d;
  }

  /** `atoi` inverts `%d` and `%-3d`: the number shown for a position in a
      listing is the number `atoi` reads from it. */
  lemma {:induction false} AtoiDecimal(n: nat)
    ensures Atoi(Decimal(n)) == n
    ensures Atoi(LeftJustified3(n)) == n
  {
    var d := Decimal(n);
    DecimalDigits(n);
    assert d + [] == d;
    LeadingNumberOfDigits(d, []);
    assert LeadingSpace(d) == 0;
    var p := LeftJustified3(n);
    LeftJustified3Shape(n);
    var rest := p[|d|..];
    assert p == d + rest;
    LeadingNumberOfDigits(d, rest);
    assert LeadingSpace(p) == 0 by {
      assert p[0] == d[0];
    }
  }
}
