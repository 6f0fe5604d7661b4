/** The offset list of `set name[...]`: indices and slices, separated by commas. */
module OffsetParser {
  import opened CText

  const INT_MIN: int := -0x8000_0000
  const INT_MAX: int := 0x7fff_ffff

  // ----- What an offset list means

  datatype Token = Index(at: int) | Slice(from: Option<int>, to: Option<int>)

  /** A negative position counts from the end. */
  function FromEnd(i: int, size: nat): int {
    if i < 0 then size + i else i
  }

  /** The positions a token denotes. A slice is half open and must lie in the array; an index is not checked. */
  function Denotes(t: Token, size: nat): Option<seq<int>> {
    match t
    case Index(i) => Some([FromEnd(i, size)])
    case Slice(from, to) =>
      var start := FromEnd(from.GetOr(0), size);
      var end := FromEnd(to.GetOr(size), size);
      if 0 <= start < end <= size then Some(seq(end - start, k => start + k)) else None
  }

  /** The concatenation of what the tokens denote, if they all denote something. */
  function DenotesAll(ts: seq<Token>, size: nat): Option<seq<int>> {
    if ts == [] then Some([]) else
      match (Denotes(ts[0], size), DenotesAll(ts[1..], size))
      case (Some(a), Some(b)) => Some(a + b)
      case _ => None
  }

  /** An offset list is accepted when its tokens denote at most as many positions as the array has elements. */
  function Selects(ts: seq<Token>, size: nat): Option<seq<int>> {
    match DenotesAll(ts, size)
    case Some(offsets) => if |offsets| <= size then Some(offsets) else None
    case None => None
  }

  // ----- How it is written

  predicate Canonical(t: Token) {
    match t
    case Index(i) => INT_MIN < i <= INT_MAX
    case Slice(from, to) =>
      (from.Some? ==> INT_MIN < from.value <= INT_MAX) && (to.Some? ==> INT_MIN < to.value <= INT_MAX)
  }

  function Optional(i: Option<int>): string {
    if i.Some? then PrintInt(i.value) else ""
  }

  function Write(t: Token): string {
    match t
    case Index(i) => PrintInt(i)
    case Slice(from, to) => Optional(from) + ":" + Optional(to)
  }

  function WriteAll(ts: seq<Token>): string {
    if ts == [] then "" else if |ts| == 1 then Write(ts[0]) else Write(ts[0]) + "," + WriteAll(ts[1..])
  }

  // ----- param_slash_parse_slice

  /** sscanf(token, "%d%c%d"): how many conversions succeeded, and what they stored. */
  datatype SliceScan = SliceScan(count: int, start: int, delimiter: Option<char>, end: int)

  function FirstScan(token: string): SliceScan {
    match ScanInt(token)
    case NoNumber => SliceScan(if SkipSpace(token) == "" then -1 else 0, INT_MIN, None, INT_MIN)
    case Number(start, rest) =>
      if rest == "" then SliceScan(1, start, None, INT_MIN)
      else match ScanInt(rest[1..])
        case NoNumber => SliceScan(2, start, Some(rest[0]), INT_MIN)
        case Number(end, _) => SliceScan(3, start, Some(rest[0]), end)
  }

  /** sscanf(token, "%c%d") */
  function SecondScan(token: string): SliceScan {
    if token == "" then SliceScan(-1, INT_MIN, None, INT_MIN)
    else match ScanInt(token[1..])
      case NoNumber => SliceScan(1, INT_MIN, Some(token[0]), INT_MIN)
      case Number(end, _) => SliceScan(2, INT_MIN, Some(token[0]), end)
  }

  /** strtoul(arg) == 0 && strcmp(arg, "0") != 0 */
  predicate NotANumber(arg: string) {
    (match ScanInt(arg) case NoNumber => true case Number(v, _) => v == 0) && arg != "0"
  }

  /** With only one bound scanned, the text on the other side of ':' must be empty. */
  predicate HalfSliceOk(token: string) {
    match NextToken(token, ':')
    case None => true
    case Some((first, rest)) => NextToken(rest, ':').None? && !NotANumber(first)
  }

  /** The bounds found, INT_MIN standing for a missing one; None when the code reports an error. */
  function ParseSlice(token: string): Option<(int, int)> {
    var first := FirstScan(token);
    var second := if first.count <= 0 then SecondScan(token) else SliceScan(0, INT_MIN, None, INT_MIN);
    var scan := if first.count <= 0 then second else first;
    if scan.delimiter == Some(':') then
      if (first.count == 2 || second.count == 1) && !HalfSliceOk(token) then None
      else Some((scan.start, scan.end))
    else if second.count > 0 || first.count >= 2 then None
    else Some((scan.start, scan.end))
  }

  // ----- The offsets of one token

  function Atoi(token: string): int {
    match ScanInt(token) case NoNumber => 0 case Number(v, _) => v
  }

  /** What one comma-separated token contributes, bounds checks included. */
  function TokenOffsets(token: string, size: nat): Option<seq<int>> {
    if ':' in token then
      match ParseSlice(token)
      case None => None
      case Some((from, to)) =>
        var start := FromEnd(if from != INT_MIN then from else 0, size);
        var end := FromEnd(if to != INT_MIN then to else size, size);
        if start < 0 || end < 0 || start >= end || end > size then None
        else Some(seq(end - start, k => start + k))
    else
      Some([FromEnd(Atoi(token), size)])
  }

  /** The rest of the list, after `done` offsets; the array never takes more than `size` of them. */
  function ParseList(s: string, size: nat, done: seq<int>): Option<seq<int>>
    decreases |s|
  {
    match NextToken(s, ',')
    case None => Some(done)
    case Some((token, rest)) =>
      if |done| >= size then None
      else match TokenOffsets(token, size)
        case None => None
        case Some(offsets) =>
          if |done| + |offsets| > size then None else ParseList(rest, size, done + offsets)
  }

  /** Appends start..end to the offsets stored so far; fails when the array is full before the end. */
  method StoreRange(offsets: array<int>, count: nat, start: nat, end: nat) returns (ok: bool, newCount: nat)
    requires count <= offsets.Length && start < end
    modifies offsets
    ensures ok <==> count + (end - start) <= offsets.Length
    ensures newCount <= offsets.Length
    ensures ok ==> offsets[..newCount] == old(offsets[..count]) + seq(end - start, k => start + k)
  {
    ok, newCount := true, count;
    var i := start;
    while i < end
      invariant start <= i <= end && newCount == count + (i - start) <= offsets.Length
      invariant offsets[..newCount] == old(offsets[..count]) + seq(i - start, k => start + k)
    {
      if newCount >= offsets.Length {
        return false, newCount;
      }
      offsets[newCount] := i;
      newCount := newCount + 1;
      i := i + 1;
    }
  }

  /** The slice branch of the loop body: bounds defaulted, wrapped and checked. */
  method StoreSlice(offsets: array<int>, count: nat, token: string) returns (ok: bool, newCount: nat)
    requires count <= offsets.Length && ':' in token
    modifies offsets
    ensures newCount <= offsets.Length
    ensures var slice := TokenOffsets(token, offsets.Length);
            && (ok <==> slice.Some? && count + |slice.value| <= offsets.Length)
            && (ok ==> offsets[..newCount] == old(offsets[..count]) + slice.value)
  {
    ok, newCount := false, count;
    var size := offsets.Length;
    var bounds := ParseSlice(token);
    if bounds.None? {
      return;
    }
    var start, end := bounds.value.0, bounds.value.1;
    start := if start != INT_MIN then start else 0;
    end := if end != INT_MIN then end else size;
    if start < 0 {
      start := size + start;
      if start < 0 {
        return;
      }
    }
    if end < 0 {
      end := size + end;
      if end < 0 {
        return;
      }
    }
    if start >= end {
      return;
    }
    if end > size {
      return;
    }
    ok, newCount := StoreRange(offsets, count, start, end);
  }

  /** param_offsets_parse_from_str: fills the array and returns 0, or returns a negative error. */
  method ParseOffsets(arg: Option<string>, offsets: array<int>) returns (ret: int, count: nat)
    modifies offsets
    ensures count <= offsets.Length && ret <= 0
    ensures arg.None? ==> ret == 0 && offsets[..count] == seq(offsets.Length, i => i)
    ensures arg.Some? ==> match ParseList(arg.value, offsets.Length, [])
                          case Some(list) => ret == 0 && offsets[..count] == list
                          case None => ret < 0
  {
    hide TokenOffsets, ParseSlice;
    var size := offsets.Length;
    count := 0;
    if arg.None? {
      for i := 0 to size
        invariant forall k :: 0 <= k < i ==> offsets[k] == k
      {
        offsets[i] := i;
      }
      return 0, size;
    }
    var rest := arg.value;
    var next := NextToken(rest, ',');
    while next.Some?
      invariant count <= size && next == NextToken(rest, ',')
      invariant ParseList(arg.value, size, []) == ParseList(rest, size, offsets[..count])
      decreases |rest|
    {
      var token := next.value.0;
      ghost var done := offsets[..count];
      if count >= size {
        return -1, count;
      }
      if ':' in token {
        var ok;
        ok, count := StoreSlice(offsets, count, token);
        if !ok {
          return -1, count;
        }
      } else {
        var scan := ScanInt(token);
        var val := if scan.Number? then scan.value else 0;
        if val < 0 {
          val := val + size;
        }
        IndexOffsets(token, size, val);
        offsets[count] := val;
        count := count + 1;
      }
      assert offsets[..count] == done + TokenOffsets(token, size).value;
      assert ParseList(rest, size, done) == ParseList(next.value.1, size, offsets[..count]);
      rest := next.value.1;
      next := NextToken(rest, ',');
    }
    return 0, count;
  }

  lemma IndexOffsets(token: string, size: nat, val: int)
    requires ':' !in token
    requires var v := if ScanInt(token).Number? then ScanInt(token).value else 0;
             val == if v < 0 then v + size else v
    ensures TokenOffsets(token, size) == Some([val])
  {
  }

  // ----- Parsing what was written gives what it means

  lemma DigitsOnly(n: int)
    ensures PrintInt(n) != "" && ':' !in PrintInt(n) && ',' !in PrintInt(n)
    ensures ScanInt(PrintInt(n)) == Number(n, "")
    ensures ScanInt(PrintInt(n) + ":") == Number(n, ":")
  {
    ScanPrinted(n, "");
    ScanPrinted(n, ":");
    assert PrintInt(n) + "" == PrintInt(n);
  }

  lemma SliceText(from: Option<int>, to: Option<int>)
    ensures ':' in Write(Slice(from, to)) && ',' !in Write(Slice(from, to))
  {
    var text := Write(Slice(from, to));
    assert text[|Optional(from)|] == ':';
    if from.Some? { DigitsOnly(from.value); }
    if to.Some? { DigitsOnly(to.value); }
  }

  /** A single number before or after ':' is taken for what it is. */
  lemma HalfSliceAccepted(n: int)
    ensures HalfSliceOk(PrintInt(n) + ":")
  {
    DigitsOnly(n);
    NextTokenAppend(PrintInt(n), ':', "");
    assert PrintInt(n) + [':'] + "" == PrintInt(n) + ":";
    if n == 0 { assert PrintInt(0) == "0"; }
  }

  /** A slice with a first bound. */
  lemma ParseFromSlice(n: int, to: Option<int>)
    ensures ParseSlice(PrintInt(n) + ":" + Optional(to)) == Some((n, to.GetOr(INT_MIN)))
  {
    hide ScanInt, HalfSliceOk, PrintInt;
    var rest := ":" + Optional(to);
    var text := PrintInt(n) + ":" + Optional(to);
    ScanPrinted(n, rest);
    assert text == PrintInt(n) + rest && rest[1..] == Optional(to);
    if to.Some? {
      DigitsOnly(to.value);
    } else {
      assert text == PrintInt(n) + ":";
      NothingToScan();
      HalfSliceAccepted(n);
    }
    assert FirstScan(text) == SliceScan(if to.Some? then 3 else 2, n, Some(':'), to.GetOr(INT_MIN));
  }

  lemma NothingToScan()
    ensures ScanInt("").NoNumber?
  {
  }

  /** A slice without a first bound. */
  lemma ParseToSlice(to: Option<int>)
    ensures ParseSlice(":" + Optional(to)) == Some((INT_MIN, to.GetOr(INT_MIN)))
  {
    var text := ":" + Optional(to);
    assert text[0] == ':' && text[1..] == Optional(to);
    assert ScanInt(text).NoNumber? && SkipSpace(text) != "";
    if to.Some? {
      DigitsOnly(to.value);
    } else {
      assert text == ":" && NextToken(":", ':').None?;
      assert ScanInt("").NoNumber?;
    }
    hide ScanInt, NextToken, PrintInt;
    assert SecondScan(text) == SliceScan(if to.Some? then 2 else 1, INT_MIN, Some(':'), to.GetOr(INT_MIN));
  }

  lemma ParseSliceWritten(from: Option<int>, to: Option<int>)
    ensures ParseSlice(Write(Slice(from, to))) == Some((from.GetOr(INT_MIN), to.GetOr(INT_MIN)))
  {
    hide ParseSlice, PrintInt;
    if from.Some? {
      ParseFromSlice(from.value, to);
    } else {
      ParseToSlice(to);
      assert "" + ":" == ":";
    }
  }

  lemma TokenWritten(t: Token, size: nat)
    requires Canonical(t)
    ensures Write(t) != "" && ',' !in Write(t)
    ensures TokenOffsets(Write(t), size) == Denotes(t, size)
  {
    hide ParseSlice, PrintInt, ScanInt, Optional;
    match t
    case Index(i) => DigitsOnly(i);
    case Slice(from, to) =>
      SliceText(from, to);
      ParseSliceWritten(from, to);
      SliceOffsets(Write(t), from, to, size);
  }

  lemma SliceOffsets(text: string, from: Option<int>, to: Option<int>, size: nat)
    requires ':' in text && Canonical(Slice(from, to))
    requires ParseSlice(text) == Some((from.GetOr(INT_MIN), to.GetOr(INT_MIN)))
    ensures TokenOffsets(text, size) == Denotes(Slice(from, to), size)
  {
    hide ParseSlice;
  }

  lemma {:induction false} DenotesSomething(ts: seq<Token>, size: nat)
    ensures DenotesAll(ts, size).Some? ==> |DenotesAll(ts, size).value| >= |ts|
  {
    if ts != [] {
      DenotesSomething(ts[1..], size);
    }
  }

  lemma NextWritten(ts: seq<Token>)
    requires ts != [] && Canonical(ts[0])
    ensures NextToken(WriteAll(ts), ',') == Some((Write(ts[0]), WriteAll(ts[1..])))
  {
    var first, rest := Write(ts[0]), WriteAll(ts[1..]);
    TokenWritten(ts[0], 0);
    NextTokenAppend(first, ',', rest);
    assert first + [','] + rest == first + "," + rest;
  }

  /** The selection, when it still fits behind `done`. */
  function Fits(done: seq<int>, selected: Option<seq<int>>, size: nat): Option<seq<int>> {
    match selected
    case Some(offsets) => if |done| + |offsets| <= size then Some(done + offsets) else None
    case None => None
  }

  lemma FitsCons(ts: seq<Token>, size: nat, done: seq<int>, offsets: seq<int>)
    requires ts != [] && Denotes(ts[0], size) == Some(offsets)
    ensures |done| + |offsets| <= size ==>
              Fits(done + offsets, DenotesAll(ts[1..], size), size) == Fits(done, DenotesAll(ts, size), size)
    ensures |done| + |offsets| > size ==> Fits(done, DenotesAll(ts, size), size) == None
  {
    hide Denotes;
    if DenotesAll(ts[1..], size).Some? {
      var more := DenotesAll(ts[1..], size).value;
      assert (done + offsets) + more == done + (offsets + more);
    }
  }

  /** Reading a written list: accepted exactly when it selects something, and then the selection in token order. */
  lemma {:induction false} ParseWritten(ts: seq<Token>, size: nat, done: seq<int>)
    requires |done| <= size && forall t :: t in ts ==> Canonical(t)
    ensures ParseList(WriteAll(ts), size, done) == Fits(done, DenotesAll(ts, size), size)
    decreases |ts|
  {
    if ts == [] {
      assert done + [] == done;
    } else {
      assert ts[0] in ts;
      NextWritten(ts);
      TokenWritten(ts[0], size);
      DenotesSomething(ts, size);
      hide TokenOffsets, Denotes, NextToken, Write, WriteAll;
      if Denotes(ts[0], size).Some? {
        var offsets := Denotes(ts[0], size).value;
        FitsCons(ts, size, done, offsets);
        if |done| + |offsets| <= size {
          ParseWritten(ts[1..], size, done + offsets);
        }
      }
    }
  }

  /** Whatever canonical list is typed, the parsed offsets are the ones it selects, or the command fails. */
  lemma ParsedOffsetsAreSelected(ts: seq<Token>, size: nat)
    requires forall t :: t in ts ==> Canonical(t)
    ensures ParseList(WriteAll(ts), size, []) == Selects(ts, size)
  {
    hide ParseList, DenotesAll, WriteAll;
    ParseWritten(ts, size, []);
    if DenotesAll(ts, size).Some? { assert [] + DenotesAll(ts, size).value == DenotesAll(ts, size).value; }
  }

  /** Every offset that comes from a slice is in range, whatever the text of the slice. */
  lemma SliceOffsetsInRange(token: string, size: nat)
    requires ':' in token
    ensures TokenOffsets(token, size).Some? ==>
              var offsets := TokenOffsets(token, size).value;
              offsets != [] && forall i :: 0 <= i < |offsets| ==> 0 <= offsets[i] == offsets[0] + i < size
  {
  }

  predicate InRange(offsets: seq<int>, size: nat) {
    forall i :: 0 <= i < |offsets| ==> 0 <= offsets[i] < size
  }

  /** Each single index in the text lies in the array, counted from either end. */
  predicate IndicesInRange(text: string, size: nat)
    decreases |text|
  {
    match NextToken(text, ',')
    case None => true
    case Some((token, rest)) =>
      && (':' in token || 0 <= FromEnd(Atoi(token), size) < size)
      && IndicesInRange(rest, size)
  }

  lemma TokenInRangeIff(token: string, size: nat)
    requires TokenOffsets(token, size).Some?
    ensures InRange(TokenOffsets(token, size).value, size) <==>
            ':' in token || 0 <= FromEnd(Atoi(token), size) < size
  {
    hide ParseSlice, ScanInt;
    if ':' in token {
      SliceOffsetsInRange(token, size);
    } else {
      assert TokenOffsets(token, size).value[0] == FromEnd(Atoi(token), size);
    }
  }

  /** An accepted text selects elements of the array exactly when its single indices do. */
  lemma {:induction false} InRangeIffIndicesAre(text: string, size: nat, done: seq<int>)
    requires InRange(done, size) && ParseList(text, size, done).Some?
    ensures InRange(ParseList(text, size, done).value, size) <==> IndicesInRange(text, size)
    decreases |text|
  {
    hide TokenOffsets, ScanInt;
    match NextToken(text, ',')
    case None =>
    case Some((token, rest)) =>
      var offsets := TokenOffsets(token, size).value;
      TokenInRangeIff(token, size);
      ParsedExtends(rest, size, done + offsets);
      if InRange(offsets, size) {
        InRangeIffIndicesAre(rest, size, done + offsets);
      } else {
        var i :| 0 <= i < |offsets| && !(0 <= offsets[i] < size);
        var all := ParseList(text, size, done).value;
        assert all[|done| + i] == (done + offsets)[|done| + i] == offsets[i];
      }
  }

  /** The offset 7 is accepted for an array of three. */
  lemma IndexBeyondArrayIsAccepted()
    ensures ParseList("7", 3, []) == Some([7]) && !InRange([7], 3)
  {
    assert PrintInt(7) == "7" && "7" + "" == "7";
    ScanPrinted(7, "");
    NextTokenAppend("7", ',', "");
    assert [] + [7] == [7] && NextToken("", ',') == None;
    assert [7][0] == 7;
  }

  lemma {:induction false} ParsedExtends(text: string, size: nat, done: seq<int>)
    requires ParseList(text, size, done).Some?
    ensures done <= ParseList(text, size, done).value
    decreases |text|
  {
    hide TokenOffsets;
    match NextToken(text, ',')
    case None =>
    case Some((token, rest)) =>
      ParsedExtends(rest, size, done + TokenOffsets(token, size).value);
  }

  // ----- Single indices and slices in plain numbers

  lemma ParseOne(t: Token, size: nat)
    requires Canonical(t) && size > 0
    ensures ParseList(Write(t), size, []) == if Denotes(t, size).Some? && |Denotes(t, size).value| <= size then Denotes(t, size) else None
  {
    hide Write, ParseList;
    ParsedOffsetsAreSelected([t], size);
    assert WriteAll([t]) == Write(t);
    hide Denotes;
    assert DenotesAll([t][1..], size) == Some([]);
    if Denotes(t, size).Some? { assert Denotes(t, size).value + [] == Denotes(t, size).value; }
  }

  /** An index counts from 0, a negative one from the end: -1 is the last element. */
  lemma IndexMeaning(i: int, size: nat)
    requires INT_MIN < i <= INT_MAX && size > 0
    ensures ParseList(PrintInt(i), size, []) == Some([if i >= 0 then i else size + i])
  {
    hide PrintInt, ParseList;
    ParseOne(Index(i), size);
  }

  /** from:to is half open; negative bounds count from the end, missing ones stand for the ends of the array. */
  lemma SliceMeaning(from: Option<int>, to: Option<int>, size: nat)
    requires (from.Some? ==> INT_MIN < from.value <= INT_MAX) && (to.Some? ==> INT_MIN < to.value <= INT_MAX) && size > 0
    ensures var text := (if from.Some? then PrintInt(from.value) else "") + ":" + (if to.Some? then PrintInt(to.value) else "");
            var start := if from.None? then 0 else if from.value >= 0 then from.value else size + from.value;
            var end := if to.None? then size else if to.value >= 0 then to.value else size + to.value;
            ParseList(text, size, []) == if 0 <= start < end <= size then Some(seq(end - start, k => start + k)) else None
  {
    hide PrintInt, ParseList;
    ParseOne(Slice(from, to), size);
    var start := FromEnd(from.GetOr(0), size);
    var end := FromEnd(to.GetOr(size), size);
    assert Denotes(Slice(from, to), size)
        == if 0 <= start < end <= size then Some(seq(end - start, k => start + k)) else None;
  }

  function Indices(numbers: seq<int>): seq<Token> {
    seq(|numbers|, i requires 0 <= i < |numbers| => Index(numbers[i]))
  }

  lemma {:induction false} IndicesDenote(numbers: seq<int>, size: nat)
    requires forall i :: 0 <= i < |numbers| ==> 0 <= numbers[i]
    ensures DenotesAll(Indices(numbers), size) == Some(numbers)
  {
    if numbers != [] {
      IndicesDenote(numbers[1..], size);
      assert Indices(numbers)[1..] == Indices(numbers[1..]);
      assert [numbers[0]] + numbers[1..] == numbers;
    }
  }

  /** Several indices are taken in the order they are typed, as many as the array has elements. */
  lemma IndexListMeaning(numbers: seq<int>, size: nat)
    requires forall i :: 0 <= i < |numbers| ==> 0 <= numbers[i] <= INT_MAX
    ensures ParseList(WriteAll(Indices(numbers)), size, []) == if |numbers| <= size then Some(numbers) else None
  {
    hide ParseList, WriteAll;
    IndicesDenote(numbers, size);
    ParsedOffsetsAreSelected(Indices(numbers), size);
  }

  predicate StartsNumber(c: char) { IsSpace(c) || IsDigit(c) || c == '-' || c == '+' }

  lemma NoNumberAt(c: char, rest: string)
    requires !StartsNumber(c)
    ensures ScanInt([c] + rest) == NoNumber && SkipSpace([c] + rest) != ""
  {
    assert SkipSpace([c] + rest) == [c] + rest;
  }

  /** What follows ':' must be a number or nothing. */
  lemma JunkAfterColonRefused(n: int, c: char, rest: string, size: nat)
    requires !StartsNumber(c) && c != ':'
    ensures TokenOffsets(PrintInt(n) + (":" + ([c] + rest)), size) == None
  {
    hide ScanInt, NotANumber, PrintInt;
    var junk := [c] + rest;
    var token := PrintInt(n) + (":" + junk);
    ScanPrinted(n, ":" + junk);
    assert (":" + junk)[1..] == junk;
    NoNumberAt(c, rest);
    DigitsOnly(n);
    NextTokenAppend(PrintInt(n), ':', junk);
    assert PrintInt(n) + [':'] + junk == token;
    assert NextToken(junk, ':').Some?;
    assert token[|PrintInt(n)|] == ':';
    hide NextToken;
  }

  /** Nothing but ':' may stand between two numbers. */
  lemma OtherDelimiterRefused(n: int, c: char, rest: string, size: nat)
    requires !IsDigit(c) && c != ':' && ':' in rest
    ensures TokenOffsets(PrintInt(n) + ([c] + rest), size) == None
  {
    hide ScanInt, HalfSliceOk, PrintInt;
    var token := PrintInt(n) + ([c] + rest);
    ScanPrinted(n, [c] + rest);
    assert ([c] + rest)[1..] == rest;
    var k :| 0 <= k < |rest| && rest[k] == ':';
    assert token[|PrintInt(n)| + 1 + k] == ':';
  }

  /** Nor may text stand before the first one. */
  lemma TextBeforeColonRefused(c: char, rest: string, size: nat)
    requires !StartsNumber(c) && c != ':' && ':' in rest
    ensures TokenOffsets([c] + rest, size) == None
  {
    hide ScanInt, HalfSliceOk;
    NoNumberAt(c, rest);
    assert ([c] + rest)[1..] == rest;
  }

  /** Or after a ':' that begins the slice. */
  lemma JunkAfterFirstColonRefused(c: char, rest: string, size: nat)
    requires !StartsNumber(c) && c != ':'
    ensures TokenOffsets(":" + ([c] + rest), size) == None
  {
    hide ScanInt;
    var junk := [c] + rest;
    var token := ":" + junk;
    assert token[1..] == junk && token[0] == ':';
    NoNumberAt(c, rest);
    NoNumberAt(':', junk);
    assert [':'] + junk == token;
    var n := Span(junk, ':');
    assert junk[..n] == [c] + junk[1..n];
    NoNumberAt(c, junk[1..n]);
    assert NextToken(junk, ':').Some? && NextToken(junk, ':').value.0 == junk[..n];
    assert NextToken(token, ':') == NextToken(junk, ':');
    assert !HalfSliceOk(token);
    hide HalfSliceOk, NextToken;
    assert SecondScan(token) == SliceScan(1, INT_MIN, Some(':'), INT_MIN);
    assert FirstScan(token).count == 0;
  }
}
