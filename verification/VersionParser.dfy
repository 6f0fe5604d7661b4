/** Version strings: a character scanner and the grammar it accepts. */
module VersionParser {
  import opened CText

  const INT32_MAX: int := 0x7fff_ffff
  const NUM_PARTS := 3

  datatype Version = Version(major: int, minor: int, patch: int)

  predicate IsSeparator(c: char) { c == '.' || c == '-' }

  // ----- The language, group by group

  function Cons(n: int, r: Option<seq<int>>): Option<seq<int>> {
    if r.Some? then Some([n] + r.value) else None
  }

  /** Reads digit groups from part number `part` on. */
  function ParseGroups(s: string, part: nat, allowSuffix: bool): (r: Option<seq<int>>)
    requires part < NUM_PARTS
    ensures r.Some? ==> 0 < |r.value| <= NUM_PARTS - part
    decreases |s|
  {
    var n := DigitSpan(s);
    if n == 0 || Value(s[..n]) > INT32_MAX then None
    else
      var number, rest := Value(s[..n]), s[n..];
      if rest == "" || rest == "+" then Some([number])
      else if !IsSeparator(rest[0]) then None
      else if part + 1 == NUM_PARTS then (if allowSuffix then Some([number]) else None)
      else Cons(number, ParseGroups(rest[1..], part + 1, allowSuffix))
  }

  /** Missing parts are zero. */
  function ToVersion(parts: seq<int>): Version
    requires |parts| <= NUM_PARTS
  {
    Version(if |parts| > 0 then parts[0] else 0,
            if |parts| > 1 then parts[1] else 0,
            if |parts| > 2 then parts[2] else 0)
  }

  predicate Prefixed(s: string) { s != "" && (s[0] == 'v' || s[0] == 'V') }

  function Parse(s: string, allowSuffix: bool): Option<Version> {
    match ParseGroups(if Prefixed(s) then s[1..] else s, 0, allowSuffix)
    case Some(parts) => Some(ToVersion(parts))
    case None => None
  }

  // ----- The scanner

  /** The parts already stored, completed by what the rest of the text yields. */
  function Complete(stored: seq<int>, more: Option<seq<int>>): Option<Version>
    requires |stored| <= NUM_PARTS && (more.Some? ==> |stored| + |more.value| <= NUM_PARTS)
  {
    if more.Some? then Some(ToVersion(stored + more.value)) else None
  }

  /** The number strtol() reads at this position. */
  function NumberAt(s: string, at: nat): nat
    requires at <= |s|
  {
    Value(s[at..][..DigitSpan(s[at..])])
  }

  /** The parts before `dots` are stored, later ones are still zero, and the rest of the parse starts at `from`. */
  ghost predicate Pending(s: string, allowSuffix: bool, from: nat, dots: nat, parts: seq<int>) {
    && from <= |s| && dots < NUM_PARTS == |parts|
    && (forall k :: dots < k < NUM_PARTS ==> parts[k] == 0)
    && Parse(s, allowSuffix) == Complete(parts[..dots], ParseGroups(s[from..], dots, allowSuffix))
  }

  /** The state of the loop before position i. A number that started at `start` has only digits so far,
      or digits and the final '+'. */
  ghost predicate Scanned(s: string, allowSuffix: bool, i: nat, start: Option<nat>, dots: nat, parts: seq<int>) {
    && i <= |s|
    && match start
       case None =>
         if i < |s| then Pending(s, allowSuffix, i, dots, parts) && parts[dots] == 0
         else dots < |parts| == NUM_PARTS && Parse(s, allowSuffix) == None
       case Some(from) =>
         && from < i && Pending(s, allowSuffix, from, dots, parts)
         && parts[dots] == NumberAt(s, from) <= INT32_MAX
         && (AllDigits(s[from..i]) || (i == |s| && from < i - 1 && AllDigits(s[from..i - 1]) && s[i - 1] == '+'))
  }

  method ParseVersion(s: string, allowSuffix: bool) returns (ok: bool, version: Version)
    ensures match Parse(s, allowSuffix)
            case Some(v) => ok && version == v
            case None => !ok
  {
    hide Parse, ParseGroups, Scanned, DigitSpan, Value;
    version := Version(0, 0, 0);
    var parts := [0, 0, 0];
    var numberStart: Option<nat> := None;
    var dotCount, i := 0, 0;
    ScanStart(s, allowSuffix);
    while i < |s|
      invariant i <= |s| && dotCount < NUM_PARTS == |parts|
      invariant numberStart.Some? ==> numberStart.value <= |s|
      invariant if i == 0 && Prefixed(s) then numberStart.None? && dotCount == 0 && parts == [0, 0, 0]
                else Scanned(s, allowSuffix, i, numberStart, dotCount, parts)
    {
      var c := s[i];
      if c == 'v' || c == 'V' {
        if i > 0 {
          BadChar(s, allowSuffix, i, numberStart, dotCount, parts);
          return false, version;
        }
        numberStart := None;
      } else if IsSeparator(c) {
        if numberStart.None? {
          BadChar(s, allowSuffix, i, numberStart, dotCount, parts);
          return false, version;
        }
        SeparatorStep(s, allowSuffix, i, numberStart.value, dotCount, parts);
        dotCount := dotCount + 1;
        if dotCount >= NUM_PARTS {
          version := ToVersion(parts);
          return allowSuffix, version;
        }
        numberStart := None;
      } else if !IsDigit(c) {
        if !(c == '+' && i + 1 == |s|) {
          BadChar(s, allowSuffix, i, numberStart, dotCount, parts);
          return false, version;
        }
        FinalPlus(s, allowSuffix, i, numberStart, dotCount, parts);
      } else if numberStart.None? {
        NumberStep(s, allowSuffix, i, dotCount, parts);
        numberStart := Some(i);
        var number := NumberAt(s, i);
        if number > INT32_MAX {
          return false, version;
        }
        parts := parts[dotCount := number];
      } else {
        DigitStep(s, allowSuffix, i, numberStart.value, dotCount, parts);
      }
      i := i + 1;
    }
    ScanEnd(s, allowSuffix, numberStart, dotCount, parts);
    if numberStart.None? {
      return false, version;
    }
    version := ToVersion(parts[dotCount := NumberAt(s, numberStart.value)]);
    return true, version;
  }

  // ----- The steps of the scanner

  lemma DigitRun(s: string, from: nat, i: nat)
    requires from <= i <= |s| && AllDigits(s[from..i]) && (i == |s| || !IsDigit(s[i]))
    ensures DigitSpan(s[from..]) == i - from
    ensures s[from..][..i - from] == s[from..i] && s[from..][i - from..] == s[i..]
  {
    assert s[from..] == s[from..i] + s[i..];
    DigitSpanAppend(s[from..i], s[i..]);
  }

  lemma ScanStart(s: string, allowSuffix: bool)
    ensures Prefixed(s) && |s| > 1 ==> Scanned(s, allowSuffix, 1, None, 0, [0, 0, 0])
    ensures Prefixed(s) && |s| == 1 ==> Scanned(s, allowSuffix, 1, None, 0, [0, 0, 0])
    ensures !Prefixed(s) ==> Scanned(s, allowSuffix, 0, None, 0, [0, 0, 0])
  {
    assert s[0..] == s;
    assert forall r: seq<int> :: [] + r == r;
    assert [0, 0, 0][..0] == [];
  }

  lemma BadChar(s: string, allowSuffix: bool, i: nat, start: Option<nat>, dots: nat, parts: seq<int>)
    requires Scanned(s, allowSuffix, i, start, dots, parts) && i < |s| && !IsDigit(s[i])
    requires start.None? || (!IsSeparator(s[i]) && !(s[i] == '+' && i + 1 == |s|))
    ensures Parse(s, allowSuffix) == None
  {
    if start.None? {
      assert !IsDigit(s[i..][0]);
    } else {
      DigitRun(s, start.value, i);
      assert s[i..][0] == s[i] && (s[i..] == "+" ==> i + 1 == |s|);
      assert ParseGroups(s[start.value..], dots, allowSuffix) == None;
    }
  }

  lemma NumberStep(s: string, allowSuffix: bool, i: nat, dots: nat, parts: seq<int>)
    requires Scanned(s, allowSuffix, i, None, dots, parts) && i < |s| && IsDigit(s[i])
    ensures dots < |parts|
    ensures NumberAt(s, i) > INT32_MAX ==> Parse(s, allowSuffix) == None
    ensures NumberAt(s, i) <= INT32_MAX ==>
              Scanned(s, allowSuffix, i + 1, Some(i), dots, parts[dots := NumberAt(s, i)])
  {
    assert s[i..i + 1] == [s[i]];
    var stored := parts[dots := NumberAt(s, i)];
    assert stored[..dots] == parts[..dots];
    assert s[i..][0] == s[i];
  }

  lemma DigitStep(s: string, allowSuffix: bool, i: nat, from: nat, dots: nat, parts: seq<int>)
    requires Scanned(s, allowSuffix, i, Some(from), dots, parts) && i < |s| && IsDigit(s[i])
    ensures Scanned(s, allowSuffix, i + 1, Some(from), dots, parts)
  {
    assert s[from..i + 1] == s[from..i] + [s[i]];
  }

  lemma FinalPlus(s: string, allowSuffix: bool, i: nat, start: Option<nat>, dots: nat, parts: seq<int>)
    requires Scanned(s, allowSuffix, i, start, dots, parts) && i + 1 == |s| && s[i] == '+'
    ensures Scanned(s, allowSuffix, i + 1, start, dots, parts)
  {
    if start.None? {
      BadChar(s, allowSuffix, i, start, dots, parts);
    }
  }

  /** The groups from a number on, once it is known where its digits end. */
  lemma GroupsAt(s: string, from: nat, i: nat, part: nat, allowSuffix: bool)
    requires from < i <= |s| && AllDigits(s[from..i]) && (i == |s| || !IsDigit(s[i]))
    requires part < NUM_PARTS && NumberAt(s, from) <= INT32_MAX
    ensures i == |s| || (i + 1 == |s| && s[i] == '+') ==>
              ParseGroups(s[from..], part, allowSuffix) == Some([NumberAt(s, from)])
    ensures i < |s| && IsSeparator(s[i]) ==>
              ParseGroups(s[from..], part, allowSuffix) ==
              if part + 1 == NUM_PARTS then (if allowSuffix then Some([NumberAt(s, from)]) else None)
              else Cons(NumberAt(s, from), ParseGroups(s[i + 1..], part + 1, allowSuffix))
  {
    DigitRun(s, from, i);
    if i < |s| {
      assert s[i..][0] == s[i] && s[i..][1..] == s[i + 1..];
    }
  }

  lemma CompleteCons(stored: seq<int>, number: int, more: Option<seq<int>>)
    requires |stored| < NUM_PARTS && (more.Some? ==> |stored| + 1 + |more.value| <= NUM_PARTS)
    ensures Complete(stored, Cons(number, more)) == Complete(stored + [number], more)
  {
    if more.Some? {
      assert stored + ([number] + more.value) == (stored + [number]) + more.value;
    }
  }

  lemma SeparatorStep(s: string, allowSuffix: bool, i: nat, from: nat, dots: nat, parts: seq<int>)
    requires Scanned(s, allowSuffix, i, Some(from), dots, parts) && i < |s| && IsSeparator(s[i])
    ensures dots + 1 < NUM_PARTS ==> Scanned(s, allowSuffix, i + 1, None, dots + 1, parts)
    ensures dots + 1 == NUM_PARTS ==> Parse(s, allowSuffix) == if allowSuffix then Some(ToVersion(parts)) else None
  {
    GroupsAt(s, from, i, dots, allowSuffix);
    assert parts[..dots] + [parts[dots]] == parts[..dots + 1];
    if dots + 1 < NUM_PARTS {
      var more := ParseGroups(s[i + 1..], dots + 1, allowSuffix);
      CompleteCons(parts[..dots], parts[dots], more);
      if i + 1 == |s| { assert s[i + 1..] == "" && more == None; }
      hide Parse, ParseGroups, NumberAt, DigitSpan, ToVersion;
    } else {
      assert parts[..dots + 1] == parts;
      hide Parse, ParseGroups, NumberAt, DigitSpan, ToVersion;
    }
  }

  lemma ScanEnd(s: string, allowSuffix: bool, start: Option<nat>, dots: nat, parts: seq<int>)
    requires Scanned(s, allowSuffix, |s|, start, dots, parts)
    ensures start.None? ==> Parse(s, allowSuffix) == None
    ensures start.Some? ==> start.value <= |s| && dots < |parts| == NUM_PARTS
                            && Parse(s, allowSuffix) == Some(ToVersion(parts[dots := NumberAt(s, start.value)]))
  {
    if start.Some? {
      var from := start.value;
      var end := if AllDigits(s[from..|s|]) then |s| else |s| - 1;
      GroupsAt(s, from, end, dots, allowSuffix);
      hide Parse, ParseGroups, NumberAt, DigitSpan;
      assert parts[..dots] + [parts[dots]] == parts[..dots + 1];
    }
  }

  // ----- The grammar

  /** An optional v, one to three numbers with separators between them, and what may follow. */
  datatype Text = Text(prefix: string, groups: seq<string>, separators: string, suffix: string)

  predicate Group(g: string) { g != "" && AllDigits(g) && Value(g) <= INT32_MAX }

  predicate Groups(groups: seq<string>, separators: string) {
    && |groups| == |separators| + 1
    && (forall i :: 0 <= i < |groups| ==> Group(groups[i]))
    && (forall i :: 0 <= i < |separators| ==> separators[i] == '.' || separators[i] == '-')
  }

  /** After the last possible number a suffix may start with a separator, if the caller allows it. */
  predicate Suffix(suffix: string, part: nat, allowSuffix: bool) {
    suffix == "" || suffix == "+" || (allowSuffix && part == NUM_PARTS && (suffix[0] == '.' || suffix[0] == '-'))
  }

  predicate WellFormed(t: Text, allowSuffix: bool) {
    && (t.prefix == "" || t.prefix == "v" || t.prefix == "V")
    && Groups(t.groups, t.separators) && |t.groups| <= NUM_PARTS
    && Suffix(t.suffix, |t.groups|, allowSuffix)
  }

  function Joined(groups: seq<string>, separators: string, suffix: string): string
    requires |groups| == |separators| + 1
  {
    if |groups| == 1 then groups[0] + suffix
    else groups[0] + ([separators[0]] + Joined(groups[1..], separators[1..], suffix))
  }

  function Written(t: Text): string
    requires |t.groups| == |t.separators| + 1
  {
    t.prefix + Joined(t.groups, t.separators, t.suffix)
  }

  function Values(groups: seq<string>): (r: seq<int>)
    requires forall i :: 0 <= i < |groups| ==> Group(groups[i])
    ensures |r| == |groups|
  {
    if groups == [] then [] else (assert Group(groups[0]); [Value(groups[0])] + Values(groups[1..]))
  }

  lemma GroupThen(g: string, rest: string, part: nat, allowSuffix: bool)
    requires Group(g) && part < NUM_PARTS
    ensures rest == "" || rest == "+" ==> ParseGroups(g + rest, part, allowSuffix) == Some([Value(g)])
    ensures rest != "" && IsSeparator(rest[0]) ==>
              ParseGroups(g + rest, part, allowSuffix) ==
              if part + 1 == NUM_PARTS then (if allowSuffix then Some([Value(g)]) else None)
              else Cons(Value(g), ParseGroups(rest[1..], part + 1, allowSuffix))
  {
    if rest == "" || !IsDigit(rest[0]) {
      DigitSpanAppend(g, rest);
      assert (g + rest)[..|g|] == g && (g + rest)[|g|..] == rest;
    }
  }

  /** Everything the grammar generates is accepted, with the values of its numbers. */
  lemma {:induction false} JoinedParses(groups: seq<string>, separators: string, suffix: string, part: nat, allowSuffix: bool)
    requires Groups(groups, separators) && part + |groups| <= NUM_PARTS && Suffix(suffix, part + |groups|, allowSuffix)
    ensures ParseGroups(Joined(groups, separators, suffix), part, allowSuffix) == Some(Values(groups))
    decreases |groups|
  {
    hide ParseGroups, Value;
    assert Group(groups[0]);
    if |groups| == 1 {
      GroupThen(groups[0], suffix, part, allowSuffix);
      assert groups[1..] == [] && Values([]) == [];
      assert Values(groups) == [Value(groups[0])];
      assert separators == "" && Joined(groups, separators, suffix) == groups[0] + suffix;
      assert ParseGroups(groups[0] + suffix, part, allowSuffix) == Some([Value(groups[0])]);
    } else {
      var rest := Joined(groups[1..], separators[1..], suffix);
      GroupThen(groups[0], [separators[0]] + rest, part, allowSuffix);
      assert ([separators[0]] + rest)[1..] == rest;
      JoinedParses(groups[1..], separators[1..], suffix, part + 1, allowSuffix);
    }
  }

  lemma JoinedCons(g: string, separator: char, groups: seq<string>, separators: string, suffix: string)
    requires Group(g) && IsSeparator(separator) && Groups(groups, separators)
    ensures Groups([g] + groups, [separator] + separators)
    ensures Joined([g] + groups, [separator] + separators, suffix)
         == g + ([separator] + Joined(groups, separators, suffix))
  {
    assert ([g] + groups)[1..] == groups && ([separator] + separators)[1..] == separators;
  }

  lemma JoinedSingle(g: string, suffix: string)
    requires Group(g)
    ensures Groups([g], "") && Joined([g], "", suffix) == g + suffix
  {
  }

  /** What an accepted text starts with. */
  lemma ParsedHead(s: string, part: nat, allowSuffix: bool)
    requires part < NUM_PARTS && ParseGroups(s, part, allowSuffix).Some?
    ensures var n := DigitSpan(s);
            var rest := s[n..];
            && Group(s[..n]) && s == s[..n] + rest
            && (|| rest == "" || rest == "+"
                || (rest != "" && IsSeparator(rest[0]) && part + 1 == NUM_PARTS && allowSuffix)
                || (rest != "" && IsSeparator(rest[0]) && part + 1 < NUM_PARTS && rest == [rest[0]] + rest[1..]
                    && ParseGroups(rest[1..], part + 1, allowSuffix).Some?))
  {
  }

  /** Everything accepted is generated by the grammar. */
  lemma {:induction false} ParsedIsJoined(s: string, part: nat, allowSuffix: bool)
    returns (groups: seq<string>, separators: string, suffix: string)
    requires part < NUM_PARTS && ParseGroups(s, part, allowSuffix).Some?
    ensures Groups(groups, separators) && part + |groups| <= NUM_PARTS && Suffix(suffix, part + |groups|, allowSuffix)
    ensures s == Joined(groups, separators, suffix)
    decreases |s|
  {
    ParsedHead(s, part, allowSuffix);
    hide ParseGroups, Joined, Group, Groups, DigitSpan;
    var n := DigitSpan(s);
    var rest := s[n..];
    if rest == "" || rest == "+" || part + 1 == NUM_PARTS {
      groups, separators, suffix := [s[..n]], "", rest;
      JoinedSingle(s[..n], suffix);
    } else {
      var tail, seps;
      tail, seps, suffix := ParsedIsJoined(rest[1..], part + 1, allowSuffix);
      groups, separators := [s[..n]] + tail, [rest[0]] + seps;
      JoinedCons(s[..n], rest[0], tail, seps, suffix);
    }
  }

  lemma {:induction false} JoinedStart(groups: seq<string>, separators: string, suffix: string)
    requires Groups(groups, separators)
    ensures Joined(groups, separators, suffix) != "" && IsDigit(Joined(groups, separators, suffix)[0])
  {
    assert IsDigit(groups[0][0]);
  }

  /** parse_version accepts exactly the grammar, and returns the numbers with missing parts zero. */
  lemma ParseIffGrammar(s: string, allowSuffix: bool)
    ensures Parse(s, allowSuffix).Some? <==> exists t: Text :: WellFormed(t, allowSuffix) && s == Written(t)
    ensures forall t: Text :: WellFormed(t, allowSuffix) && s == Written(t) ==>
              Parse(s, allowSuffix) == Some(ToVersion(Values(t.groups)))
  {
    forall t: Text | WellFormed(t, allowSuffix) && s == Written(t)
      ensures Parse(s, allowSuffix) == Some(ToVersion(Values(t.groups)))
    {
      WrittenParses(t, allowSuffix);
    }
    if Parse(s, allowSuffix).Some? {
      var body := if Prefixed(s) then s[1..] else s;
      var groups, separators, suffix := ParsedIsJoined(body, 0, allowSuffix);
      var t := Text(if Prefixed(s) then s[..1] else "", groups, separators, suffix);
      assert s == t.prefix + body;
      assert WellFormed(t, allowSuffix) && s == Written(t);
    }
  }

  lemma WrittenParses(t: Text, allowSuffix: bool)
    requires WellFormed(t, allowSuffix)
    ensures Parse(Written(t), allowSuffix) == Some(ToVersion(Values(t.groups)))
  {
    hide ParseGroups, Value, Joined, ToVersion, Values;
    var body := Joined(t.groups, t.separators, t.suffix);
    JoinedStart(t.groups, t.separators, t.suffix);
    JoinedParses(t.groups, t.separators, t.suffix, 0, allowSuffix);
    if t.prefix == "" {
      assert Written(t) == body;
    } else {
      assert Written(t)[0] == t.prefix[0] && Written(t)[1..] == body;
    }
  }

  function PrintVersion(v: Version): string
    requires v.major >= 0 && v.minor >= 0 && v.patch >= 0
  {
    Print(v.major) + "." + Print(v.minor) + "." + Print(v.patch)
  }

  /** Parsing a printed version gives it back. */
  lemma PrintedVersionParses(v: Version, allowSuffix: bool)
    requires 0 <= v.major <= INT32_MAX && 0 <= v.minor <= INT32_MAX && 0 <= v.patch <= INT32_MAX
    ensures Parse(PrintVersion(v), allowSuffix) == Some(v)
  {
    var major, minor, patch := Print(v.major), Print(v.minor), Print(v.patch);
    hide Print, Parse, Value;
    var t := Text("", [major, minor, patch], "..", "");
    assert t.groups[1..] == [minor, patch] && [minor, patch][1..] == [patch] && [patch][1..] == [];
    assert ".."[1..] == "." && "."[1..] == "";
    assert Joined([patch], "", "") == patch + "";
    assert Joined([minor, patch], ".", "") == minor + ("." + (patch + ""));
    assert Written(t) == "" + (major + ("." + (minor + ("." + (patch + "")))));
    assert Written(t) == PrintVersion(v);
    WrittenParses(t, allowSuffix);
    assert Values([patch]) == [v.patch] && Values([minor, patch]) == [v.minor, v.patch];
  }

  /** So does one with a mark in front, or '+' behind; parts that are missing are zero. */
  lemma ShortVersionsParse(mark: string, major: nat, minor: nat, plus: string, allowSuffix: bool)
    requires mark in ["", "v", "V"] && plus in ["", "+"] && major <= INT32_MAX && minor <= INT32_MAX
    ensures Parse(mark + (Print(major) + plus), allowSuffix) == Some(Version(major, 0, 0))
    ensures Parse(mark + (Print(major) + ("." + (Print(minor) + plus))), allowSuffix) == Some(Version(major, minor, 0))
  {
    hide Print, Parse, Value;
    var one := Text(mark, [Print(major)], "", plus);
    WrittenParses(one, allowSuffix);
    var two := Text(mark, [Print(major), Print(minor)], ".", plus);
    assert two.groups[1..] == [Print(minor)] && "."[1..] == "" && [Print(minor)][1..] == [];
    WrittenParses(two, allowSuffix);
    assert Values([Print(minor)]) == [minor] && Values([Print(major)]) == [major];
    assert Values(two.groups) == [major] + Values([Print(minor)]);
    assert Joined([Print(minor)], "", plus) == Print(minor) + plus;
    assert Written(two) == mark + (Print(major) + ("." + (Print(minor) + plus)));
  }
}
