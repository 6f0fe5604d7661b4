/** Bytes and text as the C library reads and prints them: decimal numbers, `%d` scanning, words, `strcmp` order. */
module CText {

  type byte = bv8

  datatype Option<+T> = None | Some(value: T) {
    function GetOr(default: T): T {
      if Some? then value else default
    }
  }

  predicate IsDigit(c: char) { '0' <= c <= '9' }

  predicate AllDigits(s: string) { forall c :: c in s ==> IsDigit(c) }

  function DigitValue(c: char): nat
    requires IsDigit(c)
  {
    c as int - '0' as int
  }

  /** The number a digit string denotes, most significant digit first. */
  function Value(s: string): nat
    requires AllDigits(s)
  {
    if s == "" then 0 else 10 * Value(s[..|s| - 1]) + DigitValue(s[|s| - 1])
  }

  /** What `printf("%u")` writes. */
  function Print(n: nat): (s: string)
    ensures s != "" && AllDigits(s) && Value(s) == n
    ensures s[0] == '0' <==> s == "0"
  {
    var last := ('0' as int + n % 10) as char;
    if n < 10 then
      [last]
    else
      var front := Print(n / 10);
      assert (front + [last])[..|front|] == front;
      front + [last]
  }

  /** What `printf("%d")` writes. */
  function PrintInt(n: int): string {
    if n < 0 then "-" + Print(-n) else Print(n)
  }

  /** Length of the longest digit prefix. */
  function DigitSpan(s: string): (n: nat)
    ensures n <= |s| && AllDigits(s[..n])
    ensures n == |s| || !IsDigit(s[n])
  {
    if s == "" || !IsDigit(s[0]) then 0 else
      var n := 1 + DigitSpan(s[1..]);
      assert s[..n] == [s[0]] + s[1..][..n - 1];
      n
  }

  lemma {:induction false} DigitSpanAppend(d: string, rest: string)
    requires AllDigits(d)
    requires rest == "" || !IsDigit(rest[0])
    ensures DigitSpan(d + rest) == |d|
  {
    if d == "" {
      assert d + rest == rest;
    } else {
      assert (d + rest)[1..] == d[1..] + rest;
      DigitSpanAppend(d[1..], rest);
    }
  }

  /** An integer stored in 32 bits, two's complement. */
  function ToInt32(n: int): int {
    var r := n % 0x1_0000_0000;
    if r >= 0x8000_0000 then r - 0x1_0000_0000 else r
  }

  /** A terminated text, read at any position up to its terminator. */
  function At(text: string, k: nat): char
    requires k <= |text|
  {
    if k < |text| then text[k] else '\0'
  }

  // ----- `%d`, `atoi` and `strtol`

  predicate IsSpace(c: char) { c == ' ' || '\t' <= c <= '\r' }

  function SkipSpace(s: string): string {
    if s != "" && IsSpace(s[0]) then SkipSpace(s[1..]) else s
  }

  datatype Scan = NoNumber | Number(value: int, rest: string)

  /** Blanks, an optional sign, then at least one digit. */
  function ScanInt(text: string): Scan {
    var s := SkipSpace(text);
    if s != "" && s[0] == '-' then ScanDigits(s[1..], -1)
    else if s != "" && s[0] == '+' then ScanDigits(s[1..], 1)
    else ScanDigits(s, 1)
  }

  function ScanDigits(s: string, sign: int): Scan {
    var n := DigitSpan(s);
    if n == 0 then NoNumber else Number(sign * Value(s[..n]), s[n..])
  }

  /** Digits scan to their value, whatever follows them. */
  lemma ScanDigitsAppend(digits: string, rest: string, sign: int)
    requires digits != "" && AllDigits(digits) && (rest == "" || !IsDigit(rest[0]))
    ensures ScanDigits(digits + rest, sign) == Number(sign * Value(digits), rest)
  {
    DigitSpanAppend(digits, rest);
    assert (digits + rest)[..|digits|] == digits && (digits + rest)[|digits|..] == rest;
  }

  lemma ScanPrinted(n: int, rest: string)
    requires rest == "" || !IsDigit(rest[0])
    ensures ScanInt(PrintInt(n) + rest) == Number(n, rest)
  {
    hide ScanDigits, Print, Value;
    var digits := Print(if n < 0 then -n else n);
    var body := digits + rest;
    assert IsDigit(digits[0]) && body[0] == digits[0];
    if n < 0 {
      var s := PrintInt(n) + rest;
      assert s[0] == '-' && s[1..] == body;
      assert SkipSpace(s) == s;
      ScanDigitsAppend(digits, rest, -1);
    } else {
      assert SkipSpace(body) == body;
      ScanDigitsAppend(digits, rest, 1);
    }
  }

  /** Blanks before a number do not matter, nor does a plus sign. */
  lemma {:induction false} ScanAfterBlanks(blanks: string, n: nat, rest: string)
    requires forall i :: 0 <= i < |blanks| ==> blanks[i] in " \t\n\r"
    requires rest == "" || !IsDigit(rest[0])
    ensures ScanInt(blanks + (Print(n) + rest)) == Number(n, rest)
    ensures ScanInt(blanks + ("-" + (Print(n) + rest))) == Number(0 - n, rest)
    ensures ScanInt(blanks + ("+" + (Print(n) + rest))) == Number(n, rest)
  {
    hide Print, ScanDigits;
    var body := Print(n) + rest;
    if blanks == "" {
      ScanDigitsAppend(Print(n), rest, 1);
      ScanDigitsAppend(Print(n), rest, -1);
      assert "" + body == body && "" + ("-" + body) == "-" + body && "" + ("+" + body) == "+" + body;
      assert IsDigit(Print(n)[0]) && body[0] == Print(n)[0];
      assert ("-" + body)[1..] == body && ("+" + body)[1..] == body;
    } else {
      ScanAfterBlanks(blanks[1..], n, rest);
      SkipBlank(blanks, body);
      SkipBlank(blanks, "-" + body);
      SkipBlank(blanks, "+" + body);
    }
  }

  lemma SkipBlank(blanks: string, s: string)
    requires blanks != "" && blanks[0] in " \t\n\r"
    ensures ScanInt(blanks + s) == ScanInt(blanks[1..] + s)
  {
    hide ScanDigits;
    assert (blanks + s)[1..] == blanks[1..] + s;
  }

  /** The 32-bit value is the one in range that differs by a multiple of 2^32. */
  lemma ToInt32Wraps(n: int)
    ensures -0x8000_0000 <= ToInt32(n) < 0x8000_0000 && (ToInt32(n) - n) % 0x1_0000_0000 == 0
  {
  }

  // ----- strstr and strtok

  /** strstr(s, word) != NULL */
  predicate Contains(s: string, word: string) {
    word <= s || (s != "" && Contains(s[1..], word))
  }

  /** The word begins somewhere in the text. */
  lemma {:induction false} ContainsIff(s: string, word: string)
    ensures Contains(s, word) <==> exists i :: 0 <= i <= |s| && word <= s[i..]
  {
    if s != "" {
      ContainsIff(s[1..], word);
      if i :| 0 <= i <= |s| && word <= s[i..] {
        if i == 0 { assert s[0..] == s; } else { assert s[i..] == s[1..][i - 1..]; }
      }
      if word <= s { assert s[0..] == s; }
      if i :| 0 <= i <= |s[1..]| && word <= s[1..][i..] { assert s[1..][i..] == s[i + 1..]; }
    } else {
      assert s[0..] == s;
    }
  }

  /** Skips separators, then takes text up to the next one. None when nothing is left. */
  function NextToken(s: string, sep: char): (r: Option<(string, string)>)
    ensures r.Some? ==> |r.value.0| > 0 && |r.value.1| < |s| && sep !in r.value.0
  {
    if s == "" then None
    else if s[0] == sep then NextToken(s[1..], sep)
    else
      var n := Span(s, sep);
      Some((s[..n], if n < |s| then s[n + 1..] else ""))
  }

  /** Length of the part of `s` before the first `sep`. */
  function Span(s: string, sep: char): (n: nat)
    ensures n <= |s| && sep !in s[..n]
    ensures n < |s| ==> s[n] == sep
    ensures s != "" && s[0] != sep ==> n > 0
  {
    if s == "" || s[0] == sep then 0 else
      var n := 1 + Span(s[1..], sep);
      assert s[..n] == [s[0]] + s[1..][..n - 1];
      n
  }

  lemma {:induction false} SpanAppend(a: string, sep: char, rest: string)
    requires sep !in a
    ensures Span(a + [sep] + rest, sep) == |a| && Span(a, sep) == |a|
  {
    if a == "" {
    } else {
      assert (a + [sep] + rest)[1..] == a[1..] + [sep] + rest;
      SpanAppend(a[1..], sep, rest);
    }
  }

  lemma NextTokenAppend(a: string, sep: char, rest: string)
    requires a != "" && sep !in a
    ensures NextToken(a + [sep] + rest, sep) == Some((a, rest)) && NextToken(a, sep) == Some((a, ""))
  {
    SpanAppend(a, sep, rest);
    var s := a + [sep] + rest;
    assert s[0] == a[0] && s[..|a|] == a && s[|a| + 1..] == rest && a[..|a|] == a;
  }

  // ----- `strcmp`

  /** strcmp(a, b) < 0 */
  predicate Less(a: string, b: string) {
    b != "" && (a == "" || a[0] < b[0] || (a[0] == b[0] && Less(a[1..], b[1..])))
  }

  lemma {:induction false} LessIrreflexive(a: string)
    ensures !Less(a, a)
  {
    if a != "" {
      LessIrreflexive(a[1..]);
    }
  }

  lemma {:induction false} LessTransitive(a: string, b: string, c: string)
    requires Less(a, b) && Less(b, c)
    ensures Less(a, c)
  {
    if a != "" && a[0] == b[0] == c[0] {
      LessTransitive(a[1..], b[1..], c[1..]);
    }
  }

  lemma {:induction false} LessTotal(a: string, b: string)
    ensures Less(a, b) || a == b || Less(b, a)
  {
    if a != "" && b != "" && a[0] == b[0] {
      LessTotal(a[1..], b[1..]);
      assert a == [a[0]] + a[1..] && b == [b[0]] + b[1..];
    }
  }

  /** The first character that differs decides, or the length when one text begins with the other. */
  lemma {:induction false} LessAtFirstDifference(a: string, b: string, k: nat)
    requires k <= |a| && k <= |b| && a[..k] == b[..k]
    ensures k < |a| && k < |b| && a[k] != b[k] ==> (Less(a, b) <==> a[k] < b[k])
    ensures k == |a| ==> (Less(a, b) <==> k < |b|)
    ensures k == |b| ==> !Less(a, b)
  {
    if k > 0 {
      assert a[0] == a[..k][0] == b[0];
      assert a[1..][..k - 1] == a[..k][1..] == b[1..][..k - 1];
      LessAtFirstDifference(a[1..], b[1..], k - 1);
    }
  }
}
