/** Cleaning terminal output in place before it is logged, and the walk over the lines that come out. */
module Loki {
  import opened CText

  const ESC := 27 as char

  predicate IsAscii(c: char) { c < 128 as char }

  predicate IsControl(c: char) { c < 32 as char }

  /** Terminal output in seven-bit characters, without terminators. */
  predicate IsText(s: string) {
    forall i :: 0 <= i < |s| ==> IsAscii(s[i]) && s[i] != '\0'
  }

  // ----- What the cleaning does to a text

  predicate IsParameter(c: char) { '0' <= c <= '9' || c == ';' }

  /** Length of the prefix of digits and semicolons. */
  function Parameters(s: string): (n: nat)
    ensures n <= |s| && (n < |s| ==> !IsParameter(s[n]))
    ensures forall i :: 0 <= i < n ==> IsParameter(s[i])
  {
    if s != "" && IsParameter(s[0]) then 1 + Parameters(s[1..]) else 0
  }

  /** Length of the prefix of control characters other than ESC. */
  function Controls(s: string): (n: nat)
    ensures n <= |s| && (n < |s| ==> !IsControl(s[n]) || s[n] == ESC)
    ensures forall i :: 0 <= i < n ==> IsControl(s[i]) && s[i] != ESC
  {
    if s != "" && IsControl(s[0]) && s[0] != ESC then 1 + Controls(s[1..]) else 0
  }

  /** Length of an escape sequence: ESC alone, or ESC [ parameters and one final character. */
  function EscapeLength(s: string): (n: nat)
    requires s != "" && s[0] == ESC
    ensures 0 < n <= |s|
  {
    if |s| > 1 && s[1] == '[' then
      var end := 2 + Parameters(s[2..]);
      if end < |s| then end + 1 else end
    else 1
  }

  /** Escape sequences and control characters go; a run of controls that starts with a newline ends the line. */
  function Strip(s: string): string
    decreases |s|
  {
    if s == "" then ""
    else if s[0] == ESC then Strip(s[EscapeLength(s)..])
    else if s[0] == '\n' then ['\0'] + Strip(s[Controls(s)..])
    else if s[0] == '\t' then [' '] + Strip(s[1..])
    else if s[0] == '"' then ['\''] + Strip(s[1..])
    else if IsControl(s[0]) then Strip(s[1..])
    else [s[0]] + Strip(s[1..])
  }

  function SkipNewlines(s: string): string {
    if s != "" && (s[0] == '\n' || s[0] == '\r') then SkipNewlines(s[1..]) else s
  }

  function Cleaned(s: string): string { Strip(SkipNewlines(s)) }

  function Terminators(s: string): nat {
    if s == "" then 0 else (if s[0] == '\0' then 1 else 0) + Terminators(s[1..])
  }

  /** The number of lines reported: with two or more line ends, the text after the last one counts too. */
  function LineCount(cleaned: string): nat {
    var n := Terminators(cleaned);
    if n >= 2 then n + 1 else n
  }

  // ----- strip_str

  /** From position `from` on the buffer still holds the text and its terminator. */
  ghost predicate HoldsFrom(str: array<char>, text: string, from: nat)
    reads str
  {
    IsText(text) && |text| < str.Length && from <= |text| && forall k :: from <= k <= |text| ==> str[k] == At(text, k)
  }

  /** Between iterations: what is written, followed by the stripped rest, is the stripped text. */
  ghost predicate Stripped(written: string, text: string, all: string, read: nat, count: nat) {
    && read <= |text| && all == written + Strip(text[read..])
    && Terminators(all) == count + Terminators(Strip(text[read..]))
  }

  method StripStr(str: array<char>, ghost text: string) returns (count: nat)
    requires HoldsFrom(str, text, 0)
    modifies str
    ensures var out := Cleaned(text);
            && |out| <= |text| && str[..|out|] == out && str[|out|] == '\0'
            && count == LineCount(out)
    ensures forall k :: |text| < k < str.Length ==> str[k] == old(str[k])
  {
    hide Strip, Terminators;
    var read := SkipLeading(str, text);
    var write: nat := 0;
    count := 0;
    ghost var all := Cleaned(text);
    assert str[..0] == "" && "" + Strip(text[read..]) == all;
    while str[read] != '\0'
      invariant HoldsFrom(str, text, read) && write <= read
      invariant Stripped(str[..write], text, all, read, count)
      invariant forall k :: |text| < k < str.Length ==> str[k] == old(str[k])
      decreases |text| - read
    {
      read, write, count := StripChar(str, text, all, read, write, count);
    }
    StripEnd(str[..write], text, all, read, count);
    if count >= 2 {
      count := count + 1;
    }
    str[write] := '\0';
  }

  method SkipLeading(str: array<char>, ghost text: string) returns (read: nat)
    requires HoldsFrom(str, text, 0)
    ensures read <= |text| && text[read..] == SkipNewlines(text)
  {
    read := 0;
    assert text[0..] == text;
    while str[read] == '\n' || str[read] == '\r'
      invariant read <= |text| && SkipNewlines(text[read..]) == SkipNewlines(text)
      decreases |text| - read
    {
      assert text[read..][1..] == text[read + 1..];
      read := read + 1;
    }
  }

  /** One iteration of the main loop. */
  method StripChar(str: array<char>, ghost text: string, ghost all: string, read: nat, write: nat, count: nat)
    returns (newRead: nat, newWrite: nat, newCount: nat)
    requires HoldsFrom(str, text, read) && write <= read < |text|
    requires Stripped(str[..write], text, all, read, count)
    modifies str
    ensures read < newRead && HoldsFrom(str, text, newRead) && newWrite <= newRead
    ensures Stripped(str[..newWrite], text, all, newRead, newCount)
    ensures forall k :: |text| < k < str.Length ==> str[k] == old(str[k])
  {
    hide Strip, Terminators, Stripped, EscapeLength, Controls;
    StripStep(str[..write], text, all, read, count);
    newRead, newWrite, newCount := read, write, count;
    if str[read] == ESC {
      newRead := SkipEscape(str, text, read);
    } else if str[read] == '\n' {
      newRead := SkipControls(str, text, read);
      newWrite := Put(str, write, '\0', text, read, newRead);
      newCount := count + 1;
    } else if str[read] == '\t' {
      newWrite := Put(str, write, ' ', text, read, read + 1);
      newRead := read + 1;
    } else if str[read] == '"' {
      newWrite := Put(str, write, '\'', text, read, read + 1);
      newRead := read + 1;
    } else if IsControl(str[read]) {
      newRead := read + 1;
    } else {
      newWrite := Put(str, write, str[read], text, read, read + 1);
      newRead := read + 1;
    }
  }

  /** Writing behind the read pointer. */
  method Put(str: array<char>, write: nat, c: char, ghost text: string, ghost from: nat, ghost read: nat)
    returns (newWrite: nat)
    requires HoldsFrom(str, text, from) && write <= from < read <= |text|
    modifies str
    ensures newWrite == write + 1 && str[..newWrite] == old(str[..write]) + [c]
    ensures HoldsFrom(str, text, read) && forall k :: write < k < str.Length ==> str[k] == old(str[k])
  {
    str[write] := c;
    newWrite := write + 1;
  }

  method SkipEscape(str: array<char>, ghost text: string, from: nat) returns (read: nat)
    requires HoldsFrom(str, text, from) && from < |text| && str[from] == ESC
    ensures from < read <= |text| && read == from + EscapeLength(text[from..])
  {
    ghost var s := text[from..];
    read := from + 1;
    if str[read] == '[' {
      read := read + 1;
      assert s[1] == '[' && s[2..] == text[read..];
      while IsParameter(str[read])
        invariant from + 2 <= read <= |text|
        invariant Parameters(s[2..]) == read - (from + 2) + Parameters(text[read..])
        decreases |text| - read
      {
        assert text[read..][0] == text[read] && text[read..][1..] == text[read + 1..];
        read := read + 1;
      }
      if str[read] != '\0' {
        assert text[read..][0] == text[read];
        read := read + 1;
      }
    }
  }

  method SkipControls(str: array<char>, ghost text: string, from: nat) returns (read: nat)
    requires HoldsFrom(str, text, from) && from < |text| && str[from] == '\n'
    ensures from < read <= |text| && read == from + Controls(text[from..])
  {
    read := from;
    while str[read] != '\0' && IsControl(str[read]) && str[read] != ESC
      invariant from <= read <= |text| && (read == from ==> str[read] == '\n')
      invariant Controls(text[from..]) == read - from + Controls(text[read..])
      decreases |text| - read
    {
      assert text[read..][0] == text[read] && text[read..][1..] == text[read + 1..];
      read := read + 1;
    }
    if read < |text| { assert text[read..][0] == text[read]; }
  }

  /** What one iteration contributes, by the character it sees. */
  lemma StripStep(written: string, text: string, all: string, read: nat, count: nat)
    requires IsText(text) && read < |text| && Stripped(written, text, all, read, count)
    ensures var c := text[read];
            var s := text[read..];
            && (c == ESC ==> Stripped(written, text, all, read + EscapeLength(s), count))
            && (c == '\n' ==> Stripped(written + ['\0'], text, all, read + Controls(s), count + 1))
            && (c == '\t' ==> Stripped(written + [' '], text, all, read + 1, count))
            && (c == '"' ==> Stripped(written + ['\''], text, all, read + 1, count))
            && (IsControl(c) && c != ESC && c != '\n' && c != '\t' ==> Stripped(written, text, all, read + 1, count))
            && (!IsControl(c) && c != '"' ==> Stripped(written + [c], text, all, read + 1, count))
  {
    hide IsText, Parameters;
    var c, s := text[read], text[read..];
    var used := if c == ESC then EscapeLength(s) else if c == '\n' then Controls(s) else 1;
    assert s[used..] == text[read + used..];
    var rest := Strip(text[read + used..]);
    if c != ESC && (!IsControl(c) || c == '\n' || c == '\t') {
      var out := if c == '\n' then '\0' else if c == '\t' then ' ' else if c == '"' then '\'' else c;
      assert Strip(s) == [out] + rest && ([out] + rest)[1..] == rest;
      assert written + ([out] + rest) == (written + [out]) + rest;
    } else {
      assert Strip(s) == rest;
    }
  }

  lemma StripEnd(written: string, text: string, all: string, read: nat, count: nat)
    requires Stripped(written, text, all, read, count) && read == |text|
    ensures all == written && count == Terminators(all)
  {
  }

  // ----- What comes out

  predicate Printable(c: char) { c == '\0' || (!IsControl(c) && c != '"') }

  /** The output never grows, and holds no ESC, no double quote and no control character but the terminators. */
  lemma {:induction false} StripIsClean(s: string)
    ensures |Strip(s)| <= |s|
    ensures forall i :: 0 <= i < |Strip(s)| ==> Printable(Strip(s)[i])
    decreases |s|
  {
    if s == "" {
    } else if s[0] == ESC {
      StripIsClean(s[EscapeLength(s)..]);
    } else if s[0] == '\n' {
      StripIsClean(s[Controls(s)..]);
    } else {
      StripIsClean(s[1..]);
    }
  }

  /** Text that is already clean is left alone. */
  lemma {:induction false} CleanTextUnchanged(s: string)
    requires forall i :: 0 <= i < |s| ==> Printable(s[i]) && s[i] != '\0'
    ensures Cleaned(s) == s
    decreases |s|
  {
    if s != "" {
      assert Printable(s[0]);
      CleanTextUnchanged(s[1..]);
      StripClean(s[1..]);
    }
  }

  lemma {:induction false} StripClean(s: string)
    requires forall i :: 0 <= i < |s| ==> Printable(s[i]) && s[i] != '\0'
    ensures Strip(s) == s
    decreases |s|
  {
    if s != "" {
      assert Printable(s[0]);
      StripClean(s[1..]);
    }
  }

  // ----- What becomes of each kind of text

  lemma {:induction false} ParametersThen(p: string, rest: string)
    requires forall i :: 0 <= i < |p| ==> '0' <= p[i] <= '9' || p[i] == ';'
    requires rest == "" || !('0' <= rest[0] <= '9' || rest[0] == ';')
    ensures Parameters(p + rest) == |p|
  {
    if p == "" {
      assert p + rest == rest;
    } else {
      assert (p + rest)[0] == p[0] && (p + rest)[1..] == p[1..] + rest;
      ParametersThen(p[1..], rest);
    }
  }

  /** An escape sequence goes as a whole: ESC, '[', digits and semicolons, and one final character. */
  lemma EscapeSequenceRemoved(p: string, final: char, rest: string)
    requires forall i :: 0 <= i < |p| ==> '0' <= p[i] <= '9' || p[i] == ';'
    requires !('0' <= final <= '9' || final == ';')
    ensures Strip([ESC] + "[" + p + [final] + rest) == Strip(rest)
  {
    var s := [ESC] + "[" + p + [final] + rest;
    assert s[2..] == p + ([final] + rest);
    ParametersThen(p, [final] + rest);
    assert s[|p| + 3..] == rest;
  }

  /** When the text ends inside the sequence, nothing of it is left either. */
  lemma CutOffSequenceRemoved(p: string)
    requires forall i :: 0 <= i < |p| ==> '0' <= p[i] <= '9' || p[i] == ';'
    ensures Strip([ESC] + "[" + p) == ""
  {
    var s := [ESC] + "[" + p;
    assert s[2..] == p + "";
    ParametersThen(p, "");
    assert s[|s|..] == "";
  }

  /** Without '[' only the ESC goes. */
  lemma LoneEscapeRemoved(rest: string)
    requires rest == "" || rest[0] != '['
    ensures Strip([ESC] + rest) == Strip(rest)
  {
    assert ([ESC] + rest)[1..] == rest;
  }

  predicate ControlRun(s: string) { forall i :: 0 <= i < |s| ==> s[i] < 32 as char && s[i] != ESC }

  lemma {:induction false} ControlsThen(run: string, rest: string)
    requires ControlRun(run) && (rest == "" || rest[0] >= 32 as char || rest[0] == ESC)
    ensures Controls(run + rest) == |run|
  {
    if run == "" {
      assert run + rest == rest;
    } else {
      assert (run + rest)[0] == run[0] && (run + rest)[1..] == run[1..] + rest;
      ControlsThen(run[1..], rest);
    }
  }

  /** A newline and the control characters right after it become one terminator. */
  lemma LineEndTerminates(run: string, rest: string)
    requires ControlRun(run) && (rest == "" || rest[0] >= 32 as char || rest[0] == ESC)
    ensures Strip("\n" + run + rest) == "\0" + Strip(rest)
  {
    var s := "\n" + run + rest;
    assert s == ("\n" + run) + rest;
    ControlsThen("\n" + run, rest);
    assert s[|run| + 1..] == rest;
  }

  /** A tab becomes a blank, a double quote a single one; other control characters go. */
  lemma SingleCharacters(c: char, rest: string)
    ensures Strip("\t" + rest) == " " + Strip(rest)
    ensures Strip("\"" + rest) == "'" + Strip(rest)
    ensures c < 32 as char && c != ESC && c != '\n' && c != '\t' ==> Strip([c] + rest) == Strip(rest)
  {
    assert ("\t" + rest)[1..] == rest && ("\"" + rest)[1..] == rest && ([c] + rest)[1..] == rest;
  }

  /** Everything else is copied. */
  lemma {:induction false} OrdinaryTextIsKept(a: string, rest: string)
    requires forall i :: 0 <= i < |a| ==> a[i] >= 32 as char && a[i] != '"'
    ensures Strip(a + rest) == a + Strip(rest)
  {
    if a == "" {
      assert a + rest == rest;
    } else {
      assert (a + rest)[0] == a[0] && (a + rest)[1..] == a[1..] + rest;
      OrdinaryTextIsKept(a[1..], rest);
    }
  }

  /** Newlines and carriage returns at the very beginning go without a trace. */
  lemma {:induction false} LeadingNewlinesIgnored(newlines: string, rest: string)
    requires forall i :: 0 <= i < |newlines| ==> newlines[i] == '\n' || newlines[i] == '\r'
    requires rest == "" || !(rest[0] == '\n' || rest[0] == '\r')
    ensures Cleaned(newlines + rest) == Strip(rest)
  {
    if newlines == "" {
      assert newlines + rest == rest;
    } else {
      var s := newlines + rest;
      assert s[0] == newlines[0] && s[1..] == newlines[1..] + rest;
      LeadingNewlinesIgnored(newlines[1..], rest);
    }
  }

  // ----- The walk of loki_add

  /** Length of the first line. */
  function LineLength(s: string): (n: nat)
    ensures n <= |s| && '\0' !in s[..n] && (n < |s| ==> s[n] == '\0')
  {
    if s == "" || s[0] == '\0' then 0 else
      var n := 1 + LineLength(s[1..]);
      assert s[..n] == [s[0]] + s[1..][..n - 1];
      n
  }

  /** Echoes of the prompt are not logged. */
  predicate IsPrompt(line: string) { Contains(line, " @ ") && Contains(line, " d. ") }

  function AddLine(lines: seq<string>, line: string): seq<string> {
    if IsPrompt(line) then lines else lines + [line]
  }

  /** `lines` and those logged from the rest of the cleaned text: at most `limit` are looked at, up to the first empty one. */
  function Logged(lines: seq<string>, rest: string, limit: nat): seq<string>
    decreases limit
  {
    var n := LineLength(rest);
    if limit == 0 || n == 0 then lines
    else if n == |rest| then AddLine(lines, rest)
    else Logged(AddLine(lines, rest[..n]), rest[n + 1..], limit - 1)
  }

  lemma {:induction false} LineTerminators(s: string)
    ensures var n := LineLength(s); Terminators(s) == if n < |s| then 1 + Terminators(s[n + 1..]) else 0
  {
    if s != "" && s[0] != '\0' {
      LineTerminators(s[1..]);
    }
  }

  /** The cleaned text and its terminator, as strip_str leaves them. */
  ghost predicate HoldsCleaned(log: array<char>, cleaned: string)
    reads log
  {
    |cleaned| < log.Length && log[|cleaned|] == '\0' && forall k :: 0 <= k < |cleaned| ==> log[k] == cleaned[k]
  }

  /** After i lines the walk is at position p, with what it logged so far. */
  ghost predicate Walked(cleaned: string, p: nat, i: nat, count: nat, lines: seq<string>) {
    && i < count && p <= |cleaned| && Logged([], cleaned, count) == Logged(lines, cleaned[p..], count - i)
    && i + Terminators(cleaned[p..]) == Terminators(cleaned)
  }

  /** One line further; past the last terminator the count is used up. */
  lemma WalkStep(cleaned: string, p: nat, i: nat, count: nat, lines: seq<string>)
    requires Walked(cleaned, p, i, count, lines) && count == LineCount(cleaned)
    requires LineLength(cleaned[p..]) > 0
    ensures var end := p + LineLength(cleaned[p..]);
            var lines' := AddLine(lines, cleaned[p..end]);
            && (i + 1 < count ==> Walked(cleaned, end + 1, i + 1, count, lines'))
            && (i + 1 == count ==> Logged([], cleaned, count) == lines')
  {
    hide Terminators, AddLine, LineLength, Logged;
    var rest := cleaned[p..];
    var n := LineLength(rest);
    LineTerminators(rest);
    LoggedLine(lines, rest, count - i);
    assert rest[..n] == cleaned[p..p + n];
    if n < |rest| {
      assert rest[n + 1..] == cleaned[p + n + 1..];
    }
  }

  lemma LoggedLine(lines: seq<string>, rest: string, limit: nat)
    requires limit > 0 && LineLength(rest) > 0
    ensures var n := LineLength(rest);
            var lines' := AddLine(lines, rest[..n]);
            && (n == |rest| || limit == 1 ==> Logged(lines, rest, limit) == lines')
            && (n < |rest| ==> Logged(lines, rest, limit) == Logged(lines', rest[n + 1..], limit - 1))
  {
    var n := LineLength(rest);
    if n == |rest| { assert rest[..n] == rest; }
  }

  /** Every read stays at or before the terminator at |cleaned|, although the walk steps over terminators. */
  method WalkLines(log: array<char>, ghost cleaned: string, count: nat) returns (lines: seq<string>)
    requires HoldsCleaned(log, cleaned)
    requires 0 < count == LineCount(cleaned)
    ensures lines == Logged([], cleaned, count)
  {
    hide Terminators, Logged, IsPrompt, LineCount;
    lines := [];
    var p: nat, i: nat := 0, 0;
    assert cleaned[0..] == cleaned;
    while true
      invariant Walked(cleaned, p, i, count, lines)
      decreases count - i
    {
      var end := LineEnd(log, cleaned, p);
      if end == p {
        NoMoreLines(cleaned, p, count - i, lines);
        break;
      }
      WalkStep(cleaned, p, i, count, lines);
      assert log[p..end] == cleaned[p..end];
      if !IsPrompt(log[p..end]) {
        lines := lines + [log[p..end]];
      }
      p := end + 1;
      i := i + 1;
      if i == count {
        break;
      }
    }
  }

  lemma NoMoreLines(cleaned: string, p: nat, limit: nat, lines: seq<string>)
    requires p <= |cleaned| && LineLength(cleaned[p..]) == 0
    ensures Logged(lines, cleaned[p..], limit) == lines
  {
  }

  /** strlen() of the line at p. */
  method LineEnd(log: array<char>, ghost cleaned: string, p: nat) returns (end: nat)
    requires HoldsCleaned(log, cleaned) && p <= |cleaned|
    ensures end == p + LineLength(cleaned[p..]) <= |cleaned|
  {
    end := p;
    while log[end] != '\0'
      invariant p <= end <= |cleaned|
      invariant LineLength(cleaned[p..]) == end - p + LineLength(cleaned[end..])
      decreases |cleaned| - end
    {
      assert cleaned[end..][0] == cleaned[end] && cleaned[end..][1..] == cleaned[end + 1..];
      end := end + 1;
    }
    if end < |cleaned| { assert cleaned[end..][0] == cleaned[end]; }
  }

  /** loki_add, up to where the lines are sent. */
  method Add(log: array<char>, ghost text: string) returns (lines: seq<string>)
    requires HoldsFrom(log, text, 0)
    modifies log
    ensures lines == Reported(Cleaned(text))
  {
    var count := StripStr(log, text);
    if count < 1 {
      return [];
    }
    ghost var out := Cleaned(text);
    assert forall k :: 0 <= k < |out| ==> log[k] == log[..|out|][k];
    lines := WalkLines(log, out, count);
  }

  // ----- Which lines are logged

  /** What loki_add logs of a cleaned text; a text without line end is not looked at. */
  function Reported(cleaned: string): seq<string> {
    if LineCount(cleaned) < 1 then [] else Logged([], cleaned, LineCount(cleaned))
  }

  /** The lines of a cleaned text: the pieces between its terminators, a last one without terminator included. */
  function Lines(cleaned: string): (lines: seq<string>)
    ensures lines != [] && forall l :: l in lines ==> '\0' !in l
  {
    var n := LineLength(cleaned);
    if n == |cleaned| then
      assert cleaned[..n] == cleaned;
      [cleaned]
    else [cleaned[..n]] + Lines(cleaned[n + 1..])
  }

  function JoinLines(lines: seq<string>): string
    requires lines != []
  {
    if |lines| == 1 then lines[0] else lines[0] + ['\0'] + JoinLines(lines[1..])
  }

  lemma {:induction false} JoinOfLines(cleaned: string)
    ensures JoinLines(Lines(cleaned)) == cleaned && |Lines(cleaned)| == Terminators(cleaned) + 1
    decreases |cleaned|
  {
    hide LineLength, Terminators;
    var n := LineLength(cleaned);
    LineTerminators(cleaned);
    if n < |cleaned| {
      JoinOfLines(cleaned[n + 1..]);
      assert Lines(cleaned)[1..] == Lines(cleaned[n + 1..]);
      assert cleaned == cleaned[..n] + ['\0'] + cleaned[n + 1..];
    }
  }

  lemma {:induction false} LineLengthAppend(line: string, rest: string)
    requires '\0' !in line
    ensures LineLength(line) == |line| && LineLength(line + ['\0'] + rest) == |line|
  {
    if line != "" {
      LineLengthAppend(line[1..], rest);
      assert (line + ['\0'] + rest)[1..] == line[1..] + ['\0'] + rest;
    }
  }

  lemma LinesCons(line: string, rest: string)
    requires '\0' !in line
    ensures Lines(line + ['\0'] + rest) == [line] + Lines(rest) && Lines(line) == [line]
  {
    hide LineLength;
    var all := line + ['\0'] + rest;
    LineLengthAppend(line, rest);
    assert all[..|line|] == line && all[|line| + 1..] == rest;
  }

  /** Splitting undoes joining. */
  lemma {:induction false} LinesOfJoin(lines: seq<string>)
    requires lines != [] && forall l :: l in lines ==> '\0' !in l
    ensures Lines(JoinLines(lines)) == lines
    decreases |lines|
  {
    hide LineLength, Lines;
    if |lines| == 1 {
      LinesCons(lines[0], "");
    } else {
      LinesCons(lines[0], JoinLines(lines[1..]));
      LinesOfJoin(lines[1..]);
      assert lines == [lines[0]] + lines[1..];
    }
  }

  predicate Loggable(line: string) { line != "" && !IsPrompt(line) }

  function Loggables(lines: seq<string>): seq<string> {
    if lines == [] then [] else (if Loggable(lines[0]) then [lines[0]] else []) + Loggables(lines[1..])
  }

  function UpToEmpty(lines: seq<string>): (r: seq<string>)
    ensures |r| <= |lines| && r == lines[..|r|] && "" !in r
    ensures |r| < |lines| ==> lines[|r|] == ""
  {
    if lines == [] || lines[0] == "" then [] else [lines[0]] + UpToEmpty(lines[1..])
  }

  lemma LinesHead(rest: string)
    ensures var n := LineLength(rest);
            Lines(rest) == [rest[..n]] + if n < |rest| then Lines(rest[n + 1..]) else []
  {
    hide LineLength;
    assert rest[..|rest|] == rest;
    assert [rest] + [] == [rest];
  }

  lemma LoggedStep(lines: seq<string>, rest: string, limit: nat)
    ensures var n := LineLength(rest);
            && (limit == 0 || n == 0 ==> Logged(lines, rest, limit) == lines)
            && (limit > 0 && n > 0 ==>
                  var lines' := AddLine(lines, rest[..n]);
                  Logged(lines, rest, limit)
                  == if n < |rest| then Logged(lines', rest[n + 1..], limit - 1) else lines')
  {
    hide LineLength, AddLine;
    assert rest[..|rest|] == rest;
  }

  lemma {:induction false} LoggedLines(lines: seq<string>, rest: string, limit: nat)
    requires limit <= |Lines(rest)|
    ensures Logged(lines, rest, limit) == lines + Loggables(UpToEmpty(Lines(rest)[..limit]))
    decreases limit
  {
    hide LineLength, Lines, Logged, IsPrompt, Loggables, UpToEmpty;
    var n, seen := LineLength(rest), Lines(rest)[..limit];
    LinesHead(rest);
    LoggedStep(lines, rest, limit);
    if limit > 0 && n > 0 {
      var lines' := AddLine(lines, rest[..n]);
      UpToEmptyHead(seen);
      assert seen[0] == rest[..n] && rest[..n] != "";
      if n < |rest| {
        LoggedLines(lines', rest[n + 1..], limit - 1);
        assert seen[1..] == Lines(rest[n + 1..])[..limit - 1];
      } else {
        assert seen[1..] == [];
        NothingLoggable();
      }
    } else {
      assert UpToEmpty(seen) == [];
      NothingLoggable();
    }
  }

  lemma NothingLoggable()
    ensures Loggables([]) == [] && UpToEmpty([]) == []
  {
  }

  lemma UpToEmptyHead(lines: seq<string>)
    requires lines != [] && lines[0] != ""
    ensures Loggables(UpToEmpty(lines))
         == (if IsPrompt(lines[0]) then [] else [lines[0]]) + Loggables(UpToEmpty(lines[1..]))
  {
    hide IsPrompt;
    assert UpToEmpty(lines)[1..] == UpToEmpty(lines[1..]);
  }

  /** Logged are the lines that are no prompts, up to the first empty line and up to the count of strip_str. */
  lemma ReportedLines(cleaned: string)
    ensures LineCount(cleaned) <= |Lines(cleaned)|
    ensures Reported(cleaned) == Loggables(UpToEmpty(Lines(cleaned)[..LineCount(cleaned)]))
  {
    JoinOfLines(cleaned);
    LoggedLines([], cleaned, LineCount(cleaned));
    assert Lines(cleaned)[..0] == [];
  }

  lemma {:induction false} LoggablesAppend(a: seq<string>, b: seq<string>)
    ensures Loggables(a + b) == Loggables(a) + Loggables(b)
  {
    hide Loggable;
    if a == [] {
      assert a + b == b;
    } else {
      assert (a + b)[1..] == a[1..] + b;
      LoggablesAppend(a[1..], b);
    }
  }

  lemma {:induction false} NoLoggables(lines: seq<string>)
    ensures Loggables(lines) == [] <==> forall j :: 0 <= j < |lines| ==> !Loggable(lines[j])
  {
    hide Loggable;
    if lines != [] {
      NoLoggables(lines[1..]);
      assert forall j :: 0 < j < |lines| ==> lines[j] == lines[1..][j - 1];
      assert forall j :: 0 <= j < |lines| - 1 ==> lines[1..][j] == lines[j + 1];
    }
  }

  /** The count is the number of line ends, and one more from two line ends on. */
  lemma CountOfLines(cleaned: string)
    ensures LineCount(cleaned) == if |Lines(cleaned)| <= 2 then |Lines(cleaned)| - 1 else |Lines(cleaned)|
  {
    JoinOfLines(cleaned);
  }

  /** An echo of the prompt: both marks occur in the line, and then it is not logged; any other line that is not empty is. */
  lemma LoggableIff(line: string)
    ensures Loggable(line) <==>
            line != "" && !((exists i :: 0 <= i <= |line| && " @ " <= line[i..]) && (exists i :: 0 <= i <= |line| && " d. " <= line[i..]))
  {
    ContainsIff(line, " @ ");
    ContainsIff(line, " d. ");
  }

  /** Each line worth logging is within the count and has no empty line before it. */
  predicate AllReached(lines: seq<string>, count: nat) {
    forall j :: 0 <= j < |lines| && Loggable(lines[j]) ==> j < count && "" !in lines[..j]
  }

  /** No line is lost exactly when every line worth logging is reached. */
  lemma NoneLostIffAllReached(cleaned: string)
    ensures Reported(cleaned) == Loggables(Lines(cleaned)) <==> AllReached(Lines(cleaned), LineCount(cleaned))
  {
    ReportedLines(cleaned);
    hide LineCount, Lines, Reported, Loggables, UpToEmpty, IsPrompt;
    var lines, count := Lines(cleaned), LineCount(cleaned);
    var k := |UpToEmpty(lines[..count])|;
    assert UpToEmpty(lines[..count]) == lines[..k];
    assert lines == lines[..k] + lines[k..];
    LoggablesAppend(lines[..k], lines[k..]);
    NoLoggables(lines[k..]);
    ReachedBefore(lines, count, k);
  }

  lemma ReachedBefore(lines: seq<string>, count: nat, k: nat)
    requires k <= count <= |lines| && "" !in lines[..k] && (k < count ==> lines[k] == "")
    ensures AllReached(lines, count) <==> forall j :: 0 <= j < |lines[k..]| ==> !Loggable(lines[k..][j])
  {
    hide IsPrompt;
    if AllReached(lines, count) {
      forall j | 0 <= j < |lines[k..]| ensures !Loggable(lines[k..][j]) {
        if k < count && j > 0 { assert lines[..k + j][k] == ""; }
      }
    }
    assert forall i :: k <= i < |lines| ==> lines[i] == lines[k..][i - k];
    if forall j :: 0 <= j < |lines[k..]| ==> !Loggable(lines[k..][j]) {
      forall j | 0 <= j < |lines| && Loggable(lines[j]) ensures j < count && "" !in lines[..j] {
        assert j < k;
        assert lines[..j] == lines[..k][..j];
      }
    }
  }

  lemma HiddenLine()
    ensures Cleaned("a\n" + [ESC] + "\nb\n") == "a\0\0b\0"
  {
    hide Strip;
    NothingStripped();
    LineEndTerminates("", "");
    OrdinaryTextIsKept("b", "\n");
    LineEndTerminates("", "b\n");
    LoneEscapeRemoved("\nb\n");
    LineEndTerminates("", [ESC] + "\nb\n");
    OrdinaryTextIsKept("a", "\n" + [ESC] + "\nb\n");
    assert "\n" + "" + "" == "\n" && "b" + "\n" == "b\n" && "\n" + "" + "b\n" == "\nb\n";
    assert "\n" + "" + ([ESC] + "\nb\n") == "\n" + [ESC] + "\nb\n";
    assert "a" + ("\n" + [ESC] + "\nb\n") == "a\n" + [ESC] + "\nb\n";
    LeadingNewlinesIgnored("", "a\n" + [ESC] + "\nb\n");
    assert "" + ("a\n" + [ESC] + "\nb\n") == "a\n" + [ESC] + "\nb\n";
  }

  lemma NothingStripped()
    ensures Strip("") == ""
  {
  }

  /** A line that holds nothing but an escape sequence hides the lines after it. */
  lemma EmptyLineHidesTheRest()
    ensures var cleaned := Cleaned("a\n" + [ESC] + "\nb\n");
            Lines(cleaned) == ["a", "", "b", ""] && Reported(cleaned) == ["a"] && Loggables(Lines(cleaned)) == ["a", "b"]
  {
    HiddenLine();
    hide Cleaned;
    var lines := ["a", "", "b", ""];
    assert JoinLines(["b", ""]) == "b\0" && lines[1..][1..] == ["b", ""];
    assert JoinLines(lines[1..]) == "\0b\0" && JoinLines(lines) == "a\0\0b\0";
    Shown(lines, 4, ["a"]);
    assert lines[1..] == ["", "b", ""] && lines[2..] == ["b", ""];
    assert Loggables(["b", ""]) == ["b"] && Loggables(["", "b", ""]) == ["b"];
  }

  lemma UnendedLine()
    ensures Cleaned("a\nb") == "a\0b"
  {
    var text := "a\nb";
    assert text[1..] == "\nb" && text[1..][1..] == "b" && "b"[1..] == "";
    assert Strip("b") == "b" && Controls("\nb") == 1 && Strip("\nb") == "\0b";
  }

  /** With a single line end, the text after it is lost. */
  lemma TextAfterOneLineEndIsLost()
    ensures var cleaned := Cleaned("a\nb");
            Lines(cleaned) == ["a", "b"] && Reported(cleaned) == ["a"] && Loggables(Lines(cleaned)) == ["a", "b"]
  {
    UnendedLine();
    hide Cleaned;
    var lines := ["a", "b"];
    assert lines[1..] == ["b"] && JoinLines(["b"]) == "b" && JoinLines(lines) == "a\0b";
    Shown(lines, 1, ["a"]);
    assert Loggables(["b"]) == ["b"];
  }

  /** What is logged of a text given by its lines. */
  lemma Shown(lines: seq<string>, count: nat, seen: seq<string>)
    requires |lines| >= 2 && forall l :: l in lines ==> '\0' !in l
    requires count == if |lines| == 2 then 1 else |lines|
    requires seen <= lines[..count] && "" !in seen && (|seen| < count ==> lines[|seen|] == "")
    ensures Lines(JoinLines(lines)) == lines && Reported(JoinLines(lines)) == Loggables(seen)
  {
    hide JoinLines, Lines, Loggables, Reported, UpToEmpty, Terminators;
    LinesOfJoin(lines);
    JoinOfLines(JoinLines(lines));
    ReportedLines(JoinLines(lines));
    UpToEmptyIs(lines[..count], seen);
  }

  lemma {:induction false} UpToEmptyIs(lines: seq<string>, seen: seq<string>)
    requires seen <= lines && "" !in seen && (|seen| < |lines| ==> lines[|seen|] == "")
    ensures UpToEmpty(lines) == seen
  {
    if seen != [] {
      assert lines[0] == seen[0];
      UpToEmptyIs(lines[1..], seen[1..]);
    }
  }
}
