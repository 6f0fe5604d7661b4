/** Version constraints: an operator, a version with wildcards, and a comparison on one scaled number. */
module VersionCompare {
  import opened CText
  import opened VersionParser

  const CONSTRAINT_MAXLEN := 18  // sizeof(">=v9999.9999.9999")
  const OPERATOR_MAXLEN := 3     // sizeof("==")
  const MAJOR_SCALE := 1000000
  const MINOR_SCALE := 1000

  predicate IsOperator(c: char) { c == '<' || c == '>' || c == '=' || c == '!' }

  // ----- Sanitizing

  /** The operator buffer, the cleaned text and the wildcard flags. */
  datatype Clean = Clean(operator: string, text: string, wildcard: seq<bool>, dots: nat)

  const START := Clean("==\0", "", [false, false, false], 0)

  predicate Shaped(c: Clean) { |c.operator| == OPERATOR_MAXLEN && |c.wildcard| == NUM_PARTS && c.dots < NUM_PARTS }

  /** An operator character is stored at its own index and, unless it is '=', clears what follows it. */
  function StoreOperator(operator: string, at: nat, c: char): (r: string)
    requires at < |operator| == OPERATOR_MAXLEN
    ensures |r| == OPERATOR_MAXLEN
  {
    if c == '=' then operator[at := c]
    else operator[..at] + [c] + seq(OPERATOR_MAXLEN - at - 1, _ => '\0')
  }

  /** One character of the constraint; None when it is rejected. */
  function CleanChar(c: Clean, at: nat, ch: char): (r: Option<Clean>)
    requires Shaped(c)
    ensures r.Some? ==> Shaped(r.value)
  {
    if at < OPERATOR_MAXLEN && IsOperator(ch) then Some(c.(operator := StoreOperator(c.operator, at, ch)))
    else if ch == 'v' || ch == 'V' then Some(c)
    else if IsSeparator(ch) then
      if c.dots + 1 >= NUM_PARTS then None else Some(c.(text := c.text + ".", dots := c.dots + 1))
    else if ch == '*' then Some(c.(text := c.text + "0", wildcard := c.wildcard[c.dots := true]))
    else if IsDigit(ch) then Some(c.(text := c.text + [ch]))
    else None
  }

  /** Stops early when the cleaned text has filled its buffer. */
  function CleanFrom(s: string, at: nat, c: Clean): (r: Option<Clean>)
    requires Shaped(c) && at <= |s|
    ensures r.Some? ==> Shaped(r.value)
    decreases |s| - at
  {
    if at == |s| || |c.text| >= CONSTRAINT_MAXLEN then Some(c)
    else match CleanChar(c, at, s[at])
      case None => None
      case Some(next) => CleanFrom(s, at + 1, next)
  }

  /** Both buffers still hold a terminator, so that the C library can read them. */
  predicate Terminated(c: Clean) { '\0' in c.operator && |c.text| < CONSTRAINT_MAXLEN }

  // ----- Reading the cleaned text

  /** One more "%d" of sscanf(), which follows a '.' that must match. */
  function ScanPart(rest: string): Scan {
    if rest != "" && rest[0] == '.' then ScanInt(rest[1..]) else NoNumber
  }

  /** sscanf("%d.%d.%d") into zeroed fields. */
  function ScanVersion(text: string): Version {
    match ScanInt(text)
    case NoNumber => Version(0, 0, 0)
    case Number(major, rest) =>
      match ScanPart(rest)
      case NoNumber => Version(ToInt32(major), 0, 0)
      case Number(minor, rest') =>
        match ScanPart(rest')
        case NoNumber => Version(ToInt32(major), ToInt32(minor), 0)
        case Number(patch, _) => Version(ToInt32(major), ToInt32(minor), ToInt32(patch))
  }

  // ----- Comparing

  function Scaled(v: Version, wildcard: seq<bool>): int
    requires |wildcard| == NUM_PARTS
  {
    if wildcard[0] then 0
    else if wildcard[1] then v.major * MAJOR_SCALE
    else if wildcard[2] then v.major * MAJOR_SCALE + v.minor * MINOR_SCALE
    else v.major * MAJOR_SCALE + v.minor * MINOR_SCALE + v.patch
  }

  /** The text up to the terminator. */
  function CString(s: string): string {
    if s == "" || s[0] == '\0' then "" else [s[0]] + CString(s[1..])
  }

  function Evaluate(operator: string, a: int, b: int): bool {
    if operator == "==" then a == b
    else if operator == "!=" then a != b
    else if operator == ">=" then a >= b
    else if operator == "<=" then a <= b
    else if operator == ">" then a > b
    else if operator == "<" then a < b
    else false
  }

  function Compare(v: Version, constraint: string): bool {
    match CleanFrom(constraint, 0, START)
    case None => false
    case Some(c) =>
      Evaluate(CString(c.operator), Scaled(v, c.wildcard), Scaled(ScanVersion(c.text), c.wildcard))
  }

  // ----- The code, with its buffers

  method StoreOperatorInPlace(operator: array<char>, at: nat, c: char)
    requires at < operator.Length == OPERATOR_MAXLEN
    modifies operator
    ensures operator[..] == StoreOperator(old(operator[..]), at, c)
  {
    operator[at] := c;
    if c != '=' {
      var i := at + 1;
      while i < OPERATOR_MAXLEN
        invariant at < i <= OPERATOR_MAXLEN
        invariant operator[..at] == old(operator[..at]) && operator[at] == c
        invariant forall k :: at < k < i ==> operator[k] == '\0'
      {
        operator[i] := '\0';
        i := i + 1;
      }
    }
  }

  /** What the three local arrays hold. */
  ghost predicate Holds(operator: array<char>, text: array<char>, wildcard: array<bool>, used: nat, dots: nat, c: Clean)
    reads operator, text, wildcard
  {
    && operator.Length == OPERATOR_MAXLEN && text.Length == CONSTRAINT_MAXLEN && wildcard.Length == NUM_PARTS
    && used <= CONSTRAINT_MAXLEN && dots < NUM_PARTS
    && c == Clean(operator[..], text[..used], wildcard[..], dots)
  }

  method CleanInPlace(operator: array<char>, text: array<char>, wildcard: array<bool>, used: nat, dots: nat,
                      at: nat, ch: char, ghost c: Clean)
    returns (ok: bool, newUsed: nat, newDots: nat)
    requires Holds(operator, text, wildcard, used, dots, c) && used < CONSTRAINT_MAXLEN
    requires operator != text
    modifies operator, text, wildcard
    ensures ok <==> CleanChar(c, at, ch).Some?
    ensures ok ==> Holds(operator, text, wildcard, newUsed, newDots, CleanChar(c, at, ch).value)
  {
    ok, newUsed, newDots := true, used, dots;
    if at < OPERATOR_MAXLEN && IsOperator(ch) {
      StoreOperatorInPlace(operator, at, ch);
    } else if ch == 'v' || ch == 'V' {
    } else if IsSeparator(ch) {
      text[used] := '.';
      newUsed, newDots := used + 1, dots + 1;
      if newDots >= NUM_PARTS {
        ok := false;
      }
    } else if ch == '*' {
      wildcard[dots] := true;
      text[used] := '0';
      newUsed := used + 1;
    } else if !IsDigit(ch) {
      ok := false;
    } else {
      text[used] := ch;
      newUsed := used + 1;
    }
  }

  /** The sanitizing loop. */
  method Sanitize(constraint: string, operator: array<char>, text: array<char>, wildcard: array<bool>)
    returns (ok: bool, cleanIdx: nat)
    requires operator != text && Holds(operator, text, wildcard, 0, 0, START)
    modifies operator, text, wildcard
    ensures ok <==> CleanFrom(constraint, 0, START).Some?
    ensures ok ==> && cleanIdx <= text.Length
                   && operator[..] == CleanFrom(constraint, 0, START).value.operator
                   && text[..cleanIdx] == CleanFrom(constraint, 0, START).value.text
                   && wildcard[..] == CleanFrom(constraint, 0, START).value.wildcard
  {
    hide CleanChar;
    ok, cleanIdx := true, 0;
    var dirtyIdx: nat, dotCount: nat := 0, 0;
    ghost var c := START;
    while cleanIdx < CONSTRAINT_MAXLEN && dirtyIdx < |constraint|
      invariant dirtyIdx <= |constraint| && Holds(operator, text, wildcard, cleanIdx, dotCount, c)
      invariant CleanFrom(constraint, 0, START) == CleanFrom(constraint, dirtyIdx, c)
      decreases |constraint| - dirtyIdx
    {
      ghost var before := c;
      ok, cleanIdx, dotCount := CleanInPlace(operator, text, wildcard, cleanIdx, dotCount, dirtyIdx, constraint[dirtyIdx], c);
      if !ok {
        return;
      }
      c := CleanChar(before, dirtyIdx, constraint[dirtyIdx]).value;
      dirtyIdx := dirtyIdx + 1;
    }
  }

  /** The scaling loop, which stops at the first wildcard. */
  method Scale(v: Version, wildcard: array<bool>) returns (scaled: int)
    requires wildcard.Length == NUM_PARTS
    ensures scaled == Scaled(v, wildcard[..])
  {
    var parts, factors := [v.major, v.minor, v.patch], [MAJOR_SCALE, MINOR_SCALE, 1];
    scaled := 0;
    var i: nat := 0;
    while i < NUM_PARTS && !wildcard[i]
      invariant i <= NUM_PARTS && forall k :: 0 <= k < i ==> !wildcard[k]
      invariant scaled == Scaled(v, [i < 1, i < 2, i < 3])
    {
      scaled := scaled + parts[i] * factors[i];
      i := i + 1;
    }
  }

  method CompareVersion(version: Version, constraint: string) returns (r: bool)
    requires CleanFrom(constraint, 0, START).Some? ==> Terminated(CleanFrom(constraint, 0, START).value)
    ensures r == Compare(version, constraint)
  {
    var operator := new char[OPERATOR_MAXLEN] ['=', '=', '\0'];
    var text := new char[CONSTRAINT_MAXLEN](_ => '\0');
    var wildcard := new bool[NUM_PARTS](_ => false);
    assert operator[..] == "==\0" && wildcard[..] == [false, false, false] && text[..0] == "";
    var ok, length := Sanitize(constraint, operator, text, wildcard);
    if !ok {
      return false;
    }
    var parsed := ScanVersion(text[..length]);
    var versionScaled := Scale(version, wildcard);
    var constraintScaled := Scale(parsed, wildcard);
    return Evaluate(CString(operator[..]), versionScaled, constraintScaled);
  }

  // ----- Operator and body

  predicate Body(b: string) { forall i :: 0 <= i < |b| ==> !IsOperator(b[i]) }

  /** The operators a constraint can be written with, and what each stands for. */
  function Meaning(prefix: string): Option<string> {
    if prefix == "" || prefix == "=" || prefix == "==" then Some("==")
    else if prefix == "!=" || prefix == ">=" || prefix == "<=" || prefix == ">" || prefix == "<" then Some(prefix)
    else None
  }

  /** Cleaning a text without operator characters does not touch the operator, nor depend on where the text starts. */
  lemma {:induction false} BodyCleans(s: string, at: nat, b: string, operator: string, c: Clean)
    requires at <= |s| && s[at..] == b && Body(b) && Shaped(c) && |operator| == OPERATOR_MAXLEN
    ensures CleanFrom(s, at, c.(operator := operator))
         == match CleanFrom(b, 0, c)
            case None => None
            case Some(r) => Some(r.(operator := operator))
    decreases |b|
  {
    if b != "" && |c.text| < CONSTRAINT_MAXLEN {
      assert s[at] == b[0] && s[at + 1..] == b[1..];
      match CleanChar(c, at, s[at])
      case None =>
      case Some(next) =>
        BodyCleans(s, at + 1, b[1..], operator, next);
        BodyCleans(b, 1, b[1..], next.operator, next);
    }
  }

  /** The operator buffer after an operator of at most two characters. */
  function Stored(prefix: string): string
    requires |prefix| <= 2
  {
    var first := if |prefix| > 0 then StoreOperator("==\0", 0, prefix[0]) else "==\0";
    if |prefix| > 1 then StoreOperator(first, 1, prefix[1]) else first
  }

  lemma PrefixCleans(prefix: string, b: string)
    requires Meaning(prefix).Some?
    ensures |prefix| <= 2
    ensures CleanFrom(prefix + b, 0, START) == CleanFrom(prefix + b, |prefix|, START.(operator := Stored(prefix)))
    ensures CString(Stored(prefix)) == Meaning(prefix).value && '\0' in Stored(prefix)
  {
    var s := prefix + b;
    if |prefix| > 0 { assert s[0] == prefix[0] && IsOperator(prefix[0]); }
    if |prefix| > 1 { assert s[1] == prefix[1] && IsOperator(prefix[1]); }
    StoredReads(prefix);
  }

  lemma StoredReads(prefix: string)
    requires Meaning(prefix).Some?
    ensures |prefix| <= 2 && Stored(prefix)[2] == '\0' && CString(Stored(prefix)) == Meaning(prefix).value
  {
    var stored := Stored(prefix);
    var rest := stored[1..];
    assert stored[2] == '\0' && rest[1..] == [stored[2]];
    assert CString([stored[2]]) == "";
  }

  /** The body means the same behind every operator. */
  lemma CompareOnBody(v: Version, prefix: string, b: string)
    requires Meaning(prefix).Some? && Body(b)
    ensures match CleanFrom(b, 0, START)
            case None => !Compare(v, prefix + b) && CleanFrom(prefix + b, 0, START).None?
            case Some(c) =>
              && Compare(v, prefix + b)
                 == Evaluate(Meaning(prefix).value, Scaled(v, c.wildcard), Scaled(ScanVersion(c.text), c.wildcard))
              && CleanFrom(prefix + b, 0, START).Some?
              && (|c.text| < CONSTRAINT_MAXLEN ==> Terminated(CleanFrom(prefix + b, 0, START).value))
  {
    PrefixCleans(prefix, b);
    assert (prefix + b)[|prefix|..] == b;
    BodyCleans(prefix + b, |prefix|, b, Stored(prefix), START);
    hide CleanFrom, Stored, Evaluate, Scaled, ScanVersion, Meaning, CString;
  }

  /** For any body that sanitizes: exactly one of <, == and > holds, the other three are their complements,
      and no operator or a single '=' means ==. */
  lemma Trichotomy(v: Version, b: string)
    requires Body(b) && CleanFrom(b, 0, START).Some?
    ensures var lt, eq, gt := Compare(v, "<" + b), Compare(v, "==" + b), Compare(v, ">" + b);
            && (lt || eq || gt) && !(lt && eq) && !(eq && gt) && !(lt && gt)
            && Compare(v, ">=" + b) == !lt && Compare(v, "<=" + b) == !gt && Compare(v, "!=" + b) == !eq
            && Compare(v, "" + b) == eq && Compare(v, "=" + b) == eq
  {
    hide Compare, CleanFrom, Scaled, ScanVersion;
    CompareOnBody(v, "<", b);
    CompareOnBody(v, "==", b);
    CompareOnBody(v, ">", b);
    CompareOnBody(v, ">=", b);
    CompareOnBody(v, "<=", b);
    CompareOnBody(v, "!=", b);
    CompareOnBody(v, "", b);
    CompareOnBody(v, "=", b);
  }

  // ----- One scaled number against part by part

  function Sign(n: int): int { if n < 0 then -1 else if n > 0 then 1 else 0 }

  /** Lexicographic order on the parts above the first wildcard. */
  function Lexicographic(a: Version, b: Version, wildcard: seq<bool>): int
    requires |wildcard| == NUM_PARTS
  {
    if wildcard[0] then 0
    else if a.major != b.major || wildcard[1] then Sign(a.major - b.major)
    else if a.minor != b.minor || wildcard[2] then Sign(a.minor - b.minor)
    else Sign(a.patch - b.patch)
  }

  predicate Bounded(v: Version, bound: nat) { 0 <= v.minor < bound && 0 <= v.patch < bound }

  /** Minor and patch are below the bound as far as they lie above the first wildcard. */
  predicate BoundedAbove(v: Version, wildcard: seq<bool>, bound: nat)
    requires |wildcard| == NUM_PARTS
  {
    && (!wildcard[0] && !wildcard[1] ==> 0 <= v.minor < bound)
    && (!wildcard[0] && !wildcard[1] && !wildcard[2] ==> 0 <= v.patch < bound)
  }

  lemma ScaledAgrees(a: Version, b: Version, wildcard: seq<bool>)
    requires |wildcard| == NUM_PARTS && BoundedAbove(a, wildcard, 1000) && BoundedAbove(b, wildcard, 1000)
    ensures Sign(Scaled(a, wildcard) - Scaled(b, wildcard)) == Lexicographic(a, b, wildcard)
  {
  }

  ghost predicate OrderedBelow(bound: nat) {
    forall a: Version, b: Version :: Bounded(a, bound) && Bounded(b, bound) ==>
      Sign(Scaled(a, [false, false, false]) - Scaled(b, [false, false, false])) == Lexicographic(a, b, [false, false, false])
  }

  /** 1000 is the largest bound on minor and patch for which the scaled comparison is the version order. */
  lemma ThousandIsTheLimit(bound: nat)
    ensures OrderedBelow(bound) <==> bound <= 1000
  {
    if bound <= 1000 {
      forall a: Version, b: Version | Bounded(a, bound) && Bounded(b, bound)
        ensures Sign(Scaled(a, [false, false, false]) - Scaled(b, [false, false, false])) == Lexicographic(a, b, [false, false, false])
      {
        ScaledAgrees(a, b, [false, false, false]);
      }
    } else {
      var a, b := Version(0, 0, 1000), Version(0, 1, 0);
      assert Bounded(a, bound) && Bounded(b, bound);
      assert Scaled(a, [false, false, false]) == Scaled(b, [false, false, false]);
      assert Lexicographic(a, b, [false, false, false]) == -1;
    }
  }

  /** Any constraint that sanitizes decides the order of the parts above its first wildcard. */
  lemma ConstraintIsPartOrder(v: Version, prefix: string, b: string)
    requires Meaning(prefix).Some? && Body(b) && CleanFrom(b, 0, START).Some?
    requires var c := CleanFrom(b, 0, START).value;
             BoundedAbove(v, c.wildcard, 1000) && BoundedAbove(ScanVersion(c.text), c.wildcard, 1000)
    ensures var c := CleanFrom(b, 0, START).value;
            Compare(v, prefix + b)
            == Evaluate(Meaning(prefix).value, Lexicographic(v, ScanVersion(c.text), c.wildcard), 0)
  {
    hide Compare, CleanFrom, Scaled, ScanVersion, Lexicographic, BoundedAbove;
    var c := CleanFrom(b, 0, START).value;
    CompareOnBody(v, prefix, b);
    ScaledAgrees(v, ScanVersion(c.text), c.wildcard);
  }

  // ----- Constraints as they are written: an optional v, one to three parts, wildcards

  datatype Part = Num(n: nat) | Wild

  /** `separators` stand between the parts. */
  datatype Written = Written(mark: string, parts: seq<Part>, separators: string)

  predicate WellWritten(w: Written) {
    && w.mark in ["", "v", "V"] && 0 < |w.parts| <= NUM_PARTS && |w.separators| == |w.parts| - 1
    && (forall i :: 0 <= i < |w.separators| ==> w.separators[i] == '.' || w.separators[i] == '-')
    && (forall i :: 0 <= i < |w.parts| ==> PartValue(w.parts[i]) <= INT32_MAX)
  }

  function PartValue(p: Part): nat {
    if p.Num? then p.n else 0
  }

  function WritePart(p: Part): string {
    if p.Num? then Print(p.n) else "*"
  }

  function WriteParts(parts: seq<Part>, separators: string): string
    requires 0 < |parts| == |separators| + 1
  {
    if |parts| == 1 then WritePart(parts[0])
    else WritePart(parts[0]) + ([separators[0]] + WriteParts(parts[1..], separators[1..]))
  }

  function Write(w: Written): string
    requires WellWritten(w)
  {
    w.mark + WriteParts(w.parts, w.separators)
  }

  /** What a written constraint stands for: missing parts and wildcards are zero. */
  function Denoted(parts: seq<Part>): Version
    requires 0 < |parts| <= NUM_PARTS
  {
    Version(PartValue(parts[0]), if |parts| > 1 then PartValue(parts[1]) else 0, if |parts| > 2 then PartValue(parts[2]) else 0)
  }

  function Wildcards(parts: seq<Part>): seq<bool> {
    [|parts| > 0 && parts[0].Wild?, |parts| > 1 && parts[1].Wild?, |parts| > 2 && parts[2].Wild?]
  }

  /** The text the sanitizer makes of the parts. */
  function CleanText(parts: seq<Part>): string
    requires parts != []
  {
    if |parts| == 1 then Print(PartValue(parts[0])) else Print(PartValue(parts[0])) + ("." + CleanText(parts[1..]))
  }

  /** Where a text without operator characters starts does not matter. */
  lemma CleansFrom(s: string, at: nat, c: Clean)
    requires at <= |s| && Body(s[at..]) && Shaped(c)
    ensures CleanFrom(s, at, c) == CleanFrom(s[at..], 0, c)
  {
    hide CleanFrom;
    assert s[at..][0..] == s[at..];
    BodyCleans(s[at..], 0, s[at..], c.operator, c);
    BodyCleans(s, at, s[at..], c.operator, c);
  }

  /** Cleaning one text after another. */
  lemma {:induction false} CleanAppend(a: string, b: string, c: Clean)
    requires Body(a) && Body(b) && Shaped(c)
    ensures Body(a + b)
    ensures CleanFrom(a + b, 0, c) == match CleanFrom(a, 0, c) case None => None case Some(c') => CleanFrom(b, 0, c')
    decreases |a|
  {
    hide CleanChar;
    if a == "" {
      assert a + b == b;
    } else if |c.text| < CONSTRAINT_MAXLEN {
      var s := a + b;
      assert s[0] == a[0] && s[1..] == a[1..] + b && Body(a[1..]);
      match CleanChar(c, 0, a[0])
      case None =>
      case Some(next) =>
        CleanAppend(a[1..], b, next);
        CleansFrom(s, 1, next);
        CleansFrom(a, 1, next);
    }
  }

  lemma {:induction false} DigitsClean(d: string, c: Clean)
    requires AllDigits(d) && Shaped(c) && |c.text| + |d| < CONSTRAINT_MAXLEN
    ensures Body(d) && CleanFrom(d, 0, c) == Some(c.(text := c.text + d))
    decreases |d|
  {
    if d == "" {
      assert c.text + d == c.text;
    } else {
      var next := c.(text := c.text + [d[0]]);
      assert d[0] in d && CleanChar(c, 0, d[0]) == Some(next);
      DigitsClean(d[1..], next);
      assert d == [d[0]] + d[1..];
      CleansFrom(d, 1, next);
      assert next.text + d[1..] == c.text + d;
    }
  }

  /** The character at the head is cleaned on its own. */
  lemma CharCleans(ch: char, c: Clean)
    requires Shaped(c) && |c.text| < CONSTRAINT_MAXLEN
    ensures CleanFrom([ch], 0, c) == CleanChar(c, 0, ch)
  {
  }

  lemma PartCleans(p: Part, c: Clean)
    requires Shaped(c) && |c.text| + |Print(PartValue(p))| < CONSTRAINT_MAXLEN
    ensures Body(WritePart(p))
    ensures var wildcard := if p.Wild? then c.wildcard[c.dots := true] else c.wildcard;
            CleanFrom(WritePart(p), 0, c) == Some(c.(text := c.text + Print(PartValue(p)), wildcard := wildcard))
  {
    match p
    case Num(n) => DigitsClean(Print(n), c);
    case Wild =>
      CharCleans('*', c);
      assert Print(0) == "0";
  }

  function Mark(wildcard: seq<bool>, from: nat, parts: seq<Part>): seq<bool>
    requires |wildcard| == NUM_PARTS && from + |parts| <= NUM_PARTS
    decreases |parts|
  {
    if parts == [] then wildcard
    else Mark(if parts[0].Wild? then wildcard[from := true] else wildcard, from + 1, parts[1..])
  }

  lemma {:induction false} PartsClean(parts: seq<Part>, separators: string, c: Clean)
    requires 0 < |parts| == |separators| + 1 && Shaped(c) && c.dots + |parts| <= NUM_PARTS
    requires forall i :: 0 <= i < |separators| ==> IsSeparator(separators[i])
    requires |c.text| + |CleanText(parts)| < CONSTRAINT_MAXLEN
    ensures Body(WriteParts(parts, separators))
    ensures CleanFrom(WriteParts(parts, separators), 0, c)
         == Some(Clean(c.operator, c.text + CleanText(parts), Mark(c.wildcard, c.dots, parts), c.dots + |parts| - 1))
    decreases |parts|
  {
    hide CleanFrom, CleanChar, Print;
    var head, text := WritePart(parts[0]), Print(PartValue(parts[0]));
    var wildcard := if parts[0].Wild? then c.wildcard[c.dots := true] else c.wildcard;
    var one := c.(text := c.text + text, wildcard := wildcard);
    PartCleans(parts[0], c);
    assert Mark(wildcard, c.dots + 1, parts[1..]) == Mark(c.wildcard, c.dots, parts);
    if |parts| > 1 {
      var rest, more := WriteParts(parts[1..], separators[1..]), CleanText(parts[1..]);
      var two := one.(text := one.text + ".", dots := c.dots + 1);
      SeparatorCleans(separators[0], one);
      PartsClean(parts[1..], separators[1..], two);
      CleanAppend([separators[0]], rest, one);
      CleanAppend(head, [separators[0]] + rest, c);
      assert c.text + text + "." + more == c.text + (text + ("." + more));
    }
  }

  lemma SeparatorCleans(ch: char, c: Clean)
    requires IsSeparator(ch) && Shaped(c) && |c.text| < CONSTRAINT_MAXLEN && c.dots + 1 < NUM_PARTS
    ensures Body([ch]) && CleanFrom([ch], 0, c) == Some(c.(text := c.text + ".", dots := c.dots + 1))
  {
    CharCleans(ch, c);
  }

  lemma MarkCleans(w: Written)
    requires WellWritten(w)
    ensures Body(w.mark) && CleanFrom(w.mark, 0, START) == Some(START)
  {
    if w.mark != "" {
      CharCleans(w.mark[0], START);
      assert w.mark == [w.mark[0]];
    }
  }

  lemma MarkIsWildcards(parts: seq<Part>)
    requires 0 < |parts| <= NUM_PARTS
    ensures Mark([false, false, false], 0, parts) == Wildcards(parts)
  {
    var one := [parts[0].Wild?, false, false];
    assert (if parts[0].Wild? then [false, false, false][0 := true] else [false, false, false]) == one;
    assert Mark([false, false, false], 0, parts) == Mark(one, 1, parts[1..]);
    if |parts| > 1 {
      var two := one[1 := parts[1].Wild?];
      assert (if parts[1].Wild? then one[1 := true] else one) == two;
      assert parts[1..][0] == parts[1] && parts[1..][1..] == parts[2..];
      assert Mark(one, 1, parts[1..]) == Mark(two, 2, parts[2..]);
      if |parts| > 2 {
        assert (if parts[2].Wild? then two[2 := true] else two) == two[2 := parts[2].Wild?];
        assert Mark(two, 2, parts[2..]) == Mark(two[2 := parts[2].Wild?], 3, parts[3..]);
      }
    }
  }

  /** One number of the cleaned text, and what is left. */
  lemma NumberScans(n: nat, rest: string)
    requires rest == "" || rest[0] == '.'
    ensures ScanInt(Print(n) + rest) == Number(n, rest)
  {
    assert PrintInt(n) == Print(n);
    ScanPrinted(n, rest);
  }

  lemma LastNumberScans(n: nat)
    ensures ScanInt(Print(n)) == Number(n, "")
  {
    NumberScans(n, "");
    assert Print(n) + "" == Print(n);
  }

  lemma ScanPartAfterDot(s: string)
    ensures ScanPart("." + s) == ScanInt(s)
  {
    assert ("." + s)[1..] == s;
  }

  lemma CleanTextScans(parts: seq<Part>)
    requires 0 < |parts| <= NUM_PARTS && forall i :: 0 <= i < |parts| ==> PartValue(parts[i]) <= INT32_MAX
    ensures ScanVersion(CleanText(parts)) == Denoted(parts)
  {
    hide ScanInt, Print, ScanPart;
    var first := PartValue(parts[0]);
    if |parts| == 1 {
      LastNumberScans(first);
      assert ScanPart("") == NoNumber by { EmptyScans(); }
    } else {
      var second, afterFirst := PartValue(parts[1]), CleanText(parts[1..]);
      assert parts[1..][0] == parts[1];
      NumberScans(first, "." + afterFirst);
      ScanPartAfterDot(afterFirst);
      if |parts| == 2 {
        LastNumberScans(second);
        EmptyScans();
      } else {
        var third := PartValue(parts[2]);
        assert parts[1..][1..][0] == parts[2];
        NumberScans(second, "." + Print(third));
        ScanPartAfterDot(Print(third));
        LastNumberScans(third);
      }
    }
  }

  lemma EmptyScans()
    ensures ScanPart("") == NoNumber
  {
  }

  /** A constraint as it is written compares part by part, down to its first wildcard. */
  lemma WrittenConstraintIsPartOrder(v: Version, prefix: string, w: Written)
    requires Meaning(prefix).Some? && WellWritten(w) && |CleanText(w.parts)| < CONSTRAINT_MAXLEN
    requires var wildcards := Wildcards(w.parts);
             BoundedAbove(v, wildcards, 1000) && BoundedAbove(Denoted(w.parts), wildcards, 1000)
    ensures Compare(v, prefix + Write(w))
         == Evaluate(Meaning(prefix).value, Lexicographic(v, Denoted(w.parts), Wildcards(w.parts)), 0)
    ensures Terminated(CleanFrom(prefix + Write(w), 0, START).GetOr(START))
  {
    hide Compare, CleanFrom, ScanVersion, Lexicographic, BoundedAbove, CleanText, WriteParts, Mark, Evaluate, Terminated;
    var b := Write(w);
    MarkCleans(w);
    PartsClean(w.parts, w.separators, START);
    CleanAppend(w.mark, WriteParts(w.parts, w.separators), START);
    assert "" + CleanText(w.parts) == CleanText(w.parts);
    MarkIsWildcards(w.parts);
    CleanTextScans(w.parts);
    CompareOnBody(v, prefix, b);
    ConstraintIsPartOrder(v, prefix, b);
  }

  /** In particular a printed version, in the order of versions. */
  lemma PrintedConstraintIsVersionOrder(v: Version, w: Version, prefix: string)
    requires Meaning(prefix).Some? && Bounded(v, 1000) && Bounded(w, 1000)
    requires 0 <= w.major <= INT32_MAX && |PrintVersion(w)| < CONSTRAINT_MAXLEN
    ensures Compare(v, prefix + PrintVersion(w))
         == Evaluate(Meaning(prefix).value, Lexicographic(v, w, [false, false, false]), 0)
  {
    hide Compare, Evaluate, Lexicographic, Print;
    var parts := [Num(w.major), Num(w.minor), Num(w.patch)];
    var written := Written("", parts, "..");
    Regroup(Print(w.major), ".", Print(w.minor), ".", Print(w.patch));
    assert parts[1..] == [Num(w.minor), Num(w.patch)] && parts[1..][1..] == [Num(w.patch)];
    assert ".."[1..] == "." && "."[1..] == "" && parts[1..][1..] == parts[2..];
    assert CleanText(parts[2..]) == WriteParts(parts[2..], "") == Print(w.patch);
    assert CleanText(parts[1..]) == WriteParts(parts[1..], ".") == Print(w.minor) + ("." + Print(w.patch));
    assert CleanText(parts) == PrintVersion(w) && WriteParts(parts, "..") == PrintVersion(w);
    assert "" + PrintVersion(w) == PrintVersion(w);
    WrittenConstraintIsPartOrder(v, prefix, written);
  }

  lemma Regroup(a: string, b: string, c: string, d: string, e: string)
    ensures a + b + c + d + e == a + (b + (c + (d + e)))
  {
  }

  // ----- What each operator decides

  /** The parts of a written constraint, missing ones zero. */
  function Filled(parts: seq<Part>): seq<Part>
    requires |parts| <= NUM_PARTS
  {
    parts + seq(NUM_PARTS - |parts|, _ => Num(0))
  }

  /** Smaller at the first part that differs, before any wildcard. */
  predicate Before(v: seq<int>, parts: seq<Part>)
    requires |v| == |parts|
  {
    parts != [] && parts[0].Num? && (v[0] < parts[0].n || (v[0] == parts[0].n && Before(v[1..], parts[1..])))
  }

  predicate Behind(v: seq<int>, parts: seq<Part>)
    requires |v| == |parts|
  {
    parts != [] && parts[0].Num? && (v[0] > parts[0].n || (v[0] == parts[0].n && Behind(v[1..], parts[1..])))
  }

  predicate Same(v: seq<int>, parts: seq<Part>)
    requires |v| == |parts|
  {
    parts == [] || parts[0].Wild? || (v[0] == parts[0].n && Same(v[1..], parts[1..]))
  }

  lemma OrderOfThree(a: int, b: int, c: int, p: Part, q: Part, r: Part)
    ensures var v, parts := [a, b, c], [p, q, r];
            && (Before(v, parts) <==> p.Num? && (a < p.n || (a == p.n && q.Num? && (b < q.n || (b == q.n && r.Num? && c < r.n)))))
            && (Behind(v, parts) <==> p.Num? && (a > p.n || (a == p.n && q.Num? && (b > q.n || (b == q.n && r.Num? && c > r.n)))))
            && (Same(v, parts) <==> p.Wild? || (a == p.n && (q.Wild? || (b == q.n && (r.Wild? || c == r.n)))))
  {
    var v, parts := [a, b, c], [p, q, r];
    assert v[1..] == [b, c] && parts[1..] == [q, r] && [b, c][1..] == [c] && [q, r][1..] == [r];
    assert [c][1..] == [] && [r][1..] == [];
    assert Before([c], [r]) <==> r.Num? && c < r.n;
    assert Behind([c], [r]) <==> r.Num? && c > r.n;
    assert Same([c], [r]) <==> r.Wild? || c == r.n;
    assert Before([b, c], [q, r]) <==> q.Num? && (b < q.n || (b == q.n && Before([c], [r])));
    assert Behind([b, c], [q, r]) <==> q.Num? && (b > q.n || (b == q.n && Behind([c], [r])));
    assert Same([b, c], [q, r]) <==> q.Wild? || (b == q.n && Same([c], [r]));
  }

  lemma OrderOfParts(v: Version, parts: seq<Part>)
    requires 0 < |parts| <= NUM_PARTS
    ensures var order := Lexicographic(v, Denoted(parts), Wildcards(parts));
            var numbers := [v.major, v.minor, v.patch];
            && (order < 0 <==> Before(numbers, Filled(parts)))
            && (order > 0 <==> Behind(numbers, Filled(parts)))
            && (order == 0 <==> Same(numbers, Filled(parts)))
  {
    var all := Filled(parts);
    assert all == [all[0], all[1], all[2]];
    OrderOfThree(v.major, v.minor, v.patch, all[0], all[1], all[2]);
    hide Before, Behind, Same;
    assert all[0] == parts[0];
    assert |parts| > 1 ==> all[1] == parts[1];
    assert |parts| > 2 ==> all[2] == parts[2];
  }

  /** Each operator on a constraint as it is written: the version is smaller than, greater than, or the same as the numbers
      in it, down to the first wildcard. */
  lemma OperatorsDecideOrder(v: Version, w: Written)
    requires WellWritten(w) && |CleanText(w.parts)| < CONSTRAINT_MAXLEN
    requires var wildcards := Wildcards(w.parts);
             BoundedAbove(v, wildcards, 1000) && BoundedAbove(Denoted(w.parts), wildcards, 1000)
    ensures var numbers, parts := [v.major, v.minor, v.patch], Filled(w.parts);
            && (Compare(v, "<" + Write(w)) <==> Before(numbers, parts))
            && (Compare(v, ">" + Write(w)) <==> Behind(numbers, parts))
            && (Compare(v, "<=" + Write(w)) <==> Before(numbers, parts) || Same(numbers, parts))
            && (Compare(v, ">=" + Write(w)) <==> Behind(numbers, parts) || Same(numbers, parts))
            && (Compare(v, "==" + Write(w)) <==> Same(numbers, parts))
            && (Compare(v, "!=" + Write(w)) <==> !Same(numbers, parts))
            && (Compare(v, "=" + Write(w)) <==> Same(numbers, parts))
            && (Compare(v, "" + Write(w)) <==> Same(numbers, parts))
  {
    hide Compare, Lexicographic, Before, Behind, Same, CleanText, BoundedAbove, Write, Terminated, CleanFrom;
    WrittenConstraintIsPartOrder(v, "<", w);
    WrittenConstraintIsPartOrder(v, ">", w);
    WrittenConstraintIsPartOrder(v, "<=", w);
    WrittenConstraintIsPartOrder(v, ">=", w);
    WrittenConstraintIsPartOrder(v, "==", w);
    WrittenConstraintIsPartOrder(v, "!=", w);
    WrittenConstraintIsPartOrder(v, "=", w);
    WrittenConstraintIsPartOrder(v, "", w);
    OrderOfParts(v, w.parts);
  }

  /** And on a printed version. */
  lemma OperatorsOnPrintedVersion(v: Version, w: Version)
    requires Bounded(v, 1000) && Bounded(w, 1000)
    requires 0 <= w.major <= INT32_MAX && |PrintVersion(w)| < CONSTRAINT_MAXLEN
    ensures var less := v.major < w.major || (v.major == w.major && (v.minor < w.minor || (v.minor == w.minor && v.patch < w.patch)));
            && (Compare(v, "<" + PrintVersion(w)) <==> less)
            && (Compare(v, ">=" + PrintVersion(w)) <==> !less)
            && (Compare(v, "<=" + PrintVersion(w)) <==> less || v == w)
            && (Compare(v, ">" + PrintVersion(w)) <==> !less && v != w)
            && (Compare(v, "==" + PrintVersion(w)) <==> v == w)
            && (Compare(v, "!=" + PrintVersion(w)) <==> v != w)
            && (Compare(v, "=" + PrintVersion(w)) <==> v == w)
            && (Compare(v, "" + PrintVersion(w)) <==> v == w)
  {
    hide Compare, PrintVersion;
    PrintedConstraintIsVersionOrder(v, w, "<");
    PrintedConstraintIsVersionOrder(v, w, ">=");
    PrintedConstraintIsVersionOrder(v, w, "<=");
    PrintedConstraintIsVersionOrder(v, w, ">");
    PrintedConstraintIsVersionOrder(v, w, "==");
    PrintedConstraintIsVersionOrder(v, w, "!=");
    PrintedConstraintIsVersionOrder(v, w, "=");
    PrintedConstraintIsVersionOrder(v, w, "");
  }

  // ----- What is refused

  /** An operator that is none of the six decides nothing. */
  lemma UnknownOperatorIsFalse(v: Version, operator: string, b: string)
    requires 1 <= |operator| <= 2 && (forall i :: 0 <= i < |operator| ==> operator[i] in "<>=!") && Body(b)
    requires operator !in ["=", "==", "!=", ">=", "<=", ">", "<"]
    ensures !Compare(v, operator + b)
  {
    var s, stored := operator + b, Stored(operator);
    assert s[0] == operator[0] && IsOperator(operator[0]);
    if |operator| > 1 { assert s[1] == operator[1] && IsOperator(operator[1]); }
    assert CleanFrom(s, 0, START) == CleanFrom(s, |operator|, START.(operator := stored));
    assert s[|operator|..] == b;
    BodyCleans(s, |operator|, b, stored, START);
    StoredIsOperator(operator);
    hide CleanFrom, Scaled, ScanVersion;
  }

  lemma StoredIsOperator(operator: string)
    requires 1 <= |operator| <= 2 && (forall i :: 0 <= i < |operator| ==> operator[i] in "<>=!") && operator != "="
    ensures CString(Stored(operator)) == operator
  {
    var stored := Stored(operator);
    var rest := stored[1..];
    assert stored[2] == '\0' && stored[0] == operator[0] && rest[1..] == [stored[2]];
    assert CString([stored[2]]) == "";
    if |operator| == 1 {
      assert operator == [operator[0]];
    } else {
      assert operator == [operator[0]] + [operator[1]];
    }
  }

  /** A character that is no digit, separator, wildcard, mark or operator refuses the constraint, as long as the text before it
      is shorter than its buffer. */
  lemma BadCharacterIsRefused(v: Version, prefix: string, good: string, c: char, rest: string)
    requires Meaning(prefix).Some? && Body(good) && Body(rest) && CleanFrom(good, 0, START).Some?
    requires |CleanFrom(good, 0, START).value.text| < CONSTRAINT_MAXLEN
    requires !('0' <= c <= '9') && c !in "<>=!.-*vV"
    ensures !Compare(v, prefix + (good + ([c] + rest)))
  {
    var b := good + ([c] + rest);
    CleanAppend(good, [c] + rest, START);
    CompareOnBody(v, prefix, b);
  }

  /** So does a third separator. */
  lemma ThirdSeparatorIsRefused(v: Version, prefix: string, good: string, c: char, rest: string)
    requires Meaning(prefix).Some? && Body(good) && Body(rest) && CleanFrom(good, 0, START).Some?
    requires var clean := CleanFrom(good, 0, START).value; |clean.text| < CONSTRAINT_MAXLEN && clean.dots == 2
    requires c == '.' || c == '-'
    ensures !Compare(v, prefix + (good + ([c] + rest)))
  {
    var b := good + ([c] + rest);
    CleanAppend(good, [c] + rest, START);
    CompareOnBody(v, prefix, b);
  }
}
