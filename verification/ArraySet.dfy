/** `set name[offsets] values`: the values are matched with the offsets in a queue, which is then applied in one go. */
module ArraySet {
  import opened CText
  import opened OffsetParser

  const MAX_COUNTED := 100  // parse_slash_values stops counting here

  datatype Entry<V> = Entry(offset: int, value: V)

  datatype Outcome<V> = Refused | Queued(entries: seq<Entry<V>>)

  predicate Duplicates(a: seq<int>) {
    exists i, j :: 0 <= i < j < |a| && a[i] == a[j]
  }

  method HasDuplicates(arr: array<int>, size: nat) returns (r: bool)
    requires size <= arr.Length
    ensures r <==> Duplicates(arr[..size])
  {
    var i := 0;
    while i < size
      invariant i <= size
      invariant forall k, l :: 0 <= k < i && k < l < size ==> arr[k] != arr[l]
    {
      var j := i + 1;
      while j < size
        invariant i < j <= size
        invariant forall l :: i < l < j ==> arr[i] != arr[l]
      {
        if arr[i] == arr[j] {
          assert arr[..size][i] == arr[..size][j];
          return true;
        }
        j := j + 1;
      }
      i := i + 1;
    }
    return false;
  }

  // ----- Brackets around values

  /** A bracket anywhere in the argument opens a list; its first character is then skipped. */
  predicate Opens(arg: string) { '[' in arg }

  /** The last character is a closing bracket. A lone opening bracket does not close. */
  predicate Closes(arg: string)
    requires arg != ""
  {
    arg[|arg| - 1] == ']' && (Opens(arg) ==> |arg| > 1)
  }

  /** The argument without its brackets. */
  function Bare(arg: string): string
    requires arg != ""
  {
    var from := if Opens(arg) then 1 else 0;
    var to := if Closes(arg) then |arg| - 1 else |arg|;
    arg[from..to]
  }

  predicate Unbracketed(arg: string)
    requires arg != ""
  {
    !Opens(arg) && !Closes(arg)
  }

  predicate NonEmpty(args: seq<string>) { forall i :: 0 <= i < |args| ==> args[i] != "" }

  /** Number of arguments up to and including the first that closes the list. */
  function ListLength(args: seq<string>): Option<nat>
    requires NonEmpty(args)
  {
    if args == [] then None
    else if Closes(args[0]) then Some(1)
    else match ListLength(args[1..])
      case Some(n) => Some(n + 1)
      case None => None
  }

  // ----- Which offset gets which value

  /** Positions offsets[i..] paired with the values of args[i..], until the list closes. */
  function PairUp<V>(args: seq<string>, offsets: seq<int>, parse: string -> Option<V>, room: nat, i: nat): Outcome<V>
    requires NonEmpty(args) && i <= |offsets| && i <= |args|
    decreases |args| - i
  {
    if i == |args| then Refused                                    // missing closing bracket
    else if Opens(args[i]) && |offsets| == 1 then Refused          // a list for a single element
    else match parse(Bare(args[i]))
      case None => Refused
      case Some(v) =>
        if i == |offsets| || i >= room then Refused
        else if Closes(args[i]) then
          if i + 1 == |offsets| then Queued([Entry(offsets[i], v)]) else Refused
        else Prepend([Entry(offsets[i], v)], PairUp(args, offsets, parse, room, i + 1))
  }

  function Prepend<V>(queue: seq<Entry<V>>, more: Outcome<V>): Outcome<V> {
    match more
    case Refused => Refused
    case Queued(rest) => Queued(queue + rest)
  }

  /** As many entries as there is room for; a full queue is not noticed here. */
  function FillAll<V>(offsets: seq<int>, v: V, room: nat): seq<Entry<V>> {
    seq(if |offsets| <= room then |offsets| else room, j requires 0 <= j < |offsets| => Entry(offsets[j], v))
  }

  function Distribute<V>(args: seq<string>, offsets: seq<int>, parse: string -> Option<V>, room: nat): Outcome<V>
    requires NonEmpty(args)
  {
    if args != [] && Unbracketed(args[0]) then
      match parse(Bare(args[0]))
      case None => Refused
      case Some(v) => Queued(FillAll(offsets, v, room))
    else PairUp(args, offsets, parse, room, 0)
  }

  /** parse_slash_values with the two accepted amounts 1 and `expected`. */
  method ParseSlashValues(args: seq<string>, expected: nat) returns (ok: bool)
    ensures ok <==> var n := if |args| < MAX_COUNTED then |args| else MAX_COUNTED; n == 1 || n == expected
  {
    var amount := 0;
    var i := 0;
    while i < |args|
      invariant i <= |args| && amount == i < MAX_COUNTED
    {
      amount := amount + 1;
      if amount > 99 {
        break;
      }
      i := i + 1;
    }
    ok := amount == 1 || amount == expected;
  }

  /** One value for every offset; adding to a full queue fails unnoticed. */
  method FillEvery<V>(offsets: seq<int>, v: V, room: nat) returns (queue: seq<Entry<V>>)
    ensures queue == FillAll(offsets, v, room)
  {
    queue := [];
    var j := 0;
    while j < |offsets|
      invariant j <= |offsets| && queue == FillAll(offsets[..j], v, room)
    {
      if |queue| < room {
        queue := queue + [Entry(offsets[j], v)];
      }
      j := j + 1;
    }
    assert offsets[..j] == offsets;
  }

  /** The value loop of cmd_set. A list that goes on past the last offset is refused here; the code reads one offset
      too far first, and then refuses too, whatever it read. */
  method DistributeValues<V>(args: seq<string>, offsets: seq<int>, parse: string -> Option<V>, room: nat)
    returns (outcome: Outcome<V>)
    requires NonEmpty(args) && offsets != []
    ensures outcome == Distribute(args, offsets, parse, room)
  {
    hide FillAll, Bare;
    var expected := |offsets|;
    var queue: seq<Entry<V>> := [];
    var shouldBreak, iterations, single := false, 0, false;
    var i := 0;
    while !shouldBreak
      invariant i == iterations <= |args| && iterations <= expected && !single
      invariant iterations > 0 ==> !Unbracketed(args[0])
      invariant |queue| == iterations
      invariant iterations > 0 && !shouldBreak ==>
                  Distribute(args, offsets, parse, room) == Prepend(queue, PairUp(args, offsets, parse, room, iterations))
      invariant shouldBreak ==> Distribute(args, offsets, parse, room) == Queued(queue)
      decreases !shouldBreak, |args| - i
    {
      if i == |args| {
        return Refused;
      }
      var arg := args[i];
      if Opens(arg) {
        if expected == 1 {
          return Refused;
        }
        shouldBreak := Closes(arg);
      } else if Closes(arg) {
        shouldBreak := true;
      } else if iterations == 0 {
        single := true;
      }
      var value := parse(Bare(arg));
      if value.None? {
        return Refused;
      }
      if single {
        queue := FillEvery(offsets, value.value, room);
        return Queued(queue);
      }
      if iterations >= expected {
        return Refused;
      }
      if |queue| >= room {
        return Refused;
      }
      queue := queue + [Entry(offsets[iterations], value.value)];
      iterations := iterations + 1;
      if shouldBreak && iterations != expected {
        return Refused;
      }
      i := i + 1;
    }
    return Queued(queue);
  }

  // ----- The whole command

  /** The offsets the command works on; without brackets after the name, all of them. */
  function Chosen(text: Option<string>, size: nat): Option<seq<int>> {
    match text
    case None => Some(seq(size, i => i))
    case Some(t) => ParseList(t, size, [])
  }

  predicate AmountAccepted(args: seq<string>, expected: nat) {
    var n := if |args| < MAX_COUNTED then |args| else MAX_COUNTED;
    n == 1 || n == expected
  }

  /** What the command queues for an array of this size, or that it refuses. */
  function Planned<V>(size: nat, text: Option<string>, args: seq<string>, parse: string -> Option<V>,
                      readonly: bool, force: bool, room: nat): Outcome<V>
    requires NonEmpty(args)
  {
    match Chosen(text, size)
    case None => Refused
    case Some(offsets) =>
      if offsets == [] || Duplicates(offsets) || (readonly && !force) || args == [] || !AmountAccepted(args, |offsets|) then Refused
      else Distribute(args, offsets, parse, room)
  }

  /** Entries take effect in queue order. One that lies outside the array is left to libparam, which is not part of this model. */
  function Applied<V>(elements: seq<V>, entries: seq<Entry<V>>): (r: seq<V>)
    ensures |r| == |elements|
  {
    if entries == [] then elements else
      var before := Applied(elements, entries[..|entries| - 1]);
      var e := entries[|entries| - 1];
      if 0 <= e.offset < |elements| then before[e.offset := e.value] else before
  }

  method Apply<V>(elements: array<V>, entries: seq<Entry<V>>)
    modifies elements
    ensures elements[..] == Applied(old(elements[..]), entries)
  {
    var i := 0;
    while i < |entries|
      invariant i <= |entries| && elements[..] == Applied(old(elements[..]), entries[..i])
    {
      assert entries[..i + 1][..i] == entries[..i];
      if 0 <= entries[i].offset < elements.Length {
        elements[entries[i].offset] := entries[i].value;
      }
      i := i + 1;
    }
    assert entries[..i] == entries;
  }

  /** cmd_set on a local array parameter. */
  method Set<V>(elements: array<V>, text: Option<string>, args: seq<string>, parse: string -> Option<V>,
                readonly: bool, force: bool, room: nat) returns (ok: bool)
    requires NonEmpty(args)
    modifies elements
    ensures match Planned(elements.Length, text, args, parse, readonly, force, room)
            case Refused => !ok && elements[..] == old(elements[..])
            case Queued(entries) => ok && elements[..] == Applied(old(elements[..]), entries)
  {
    ghost var before := elements[..];
    var offsetArray := new int[elements.Length](_ => INT_MIN);
    var ret, expected := ParseOffsets(text, offsetArray);
    if ret < 0 {
      return false;
    }
    if expected == 0 {
      return false;  // realloc() to no bytes gives no array
    }
    var duplicates := HasDuplicates(offsetArray, expected);
    if duplicates {
      return false;
    }
    assert !(elements.Length == 1 && expected > 1);  // the code tests for this; the parser already excludes it
    if readonly && !force {
      return false;
    }
    if args == [] {
      return false;
    }
    var amountOk := ParseSlashValues(args, expected);
    if !amountOk {
      return false;
    }
    var outcome := DistributeValues(args, offsetArray[..expected], parse, room);
    if outcome.Refused? {
      return false;
    }
    assert elements[..] == before;
    Apply(elements, outcome.entries);
    return true;
  }

  // ----- What a list of values does

  /** Every value of the list parses, and the list closes exactly at the last offset. */
  predicate ListMatches<V>(args: seq<string>, offsets: seq<int>, parse: string -> Option<V>)
    requires NonEmpty(args)
  {
    && ListLength(args) == Some(|offsets|) && |offsets| <= |args|
    && (forall j :: 0 <= j < |offsets| ==> parse(Bare(args[j])).Some?)
    && (|offsets| == 1 ==> !Opens(args[0]))
  }

  lemma {:induction false} ListLengthBound(args: seq<string>)
    requires NonEmpty(args)
    ensures ListLength(args).Some? ==>
              var n := ListLength(args).value;
              0 < n <= |args| && Closes(args[n - 1]) && forall j :: 0 <= j < n - 1 ==> !Closes(args[j])
    ensures ListLength(args).None? ==> forall j :: 0 <= j < |args| ==> !Closes(args[j])
  {
    if args != [] && !Closes(args[0]) {
      ListLengthBound(args[1..]);
    }
  }

  lemma ListLengthIs(args: seq<string>, n: nat)
    requires NonEmpty(args) && 0 < n <= |args| && Closes(args[n - 1])
    requires forall j :: 0 <= j < n - 1 ==> !Closes(args[j])
    ensures ListLength(args) == Some(n)
  {
    ListLengthBound(args);
  }

  /** From argument i on: values up to the closing bracket, which falls on the last offset. */
  ghost predicate Rest<V>(args: seq<string>, offsets: seq<int>, parse: string -> Option<V>, i: nat)
    requires NonEmpty(args) && i <= |offsets|
  {
    && i < |offsets| <= |args|
    && Closes(args[|offsets| - 1]) && (forall j :: i <= j < |offsets| - 1 ==> !Closes(args[j]))
    && (forall j :: i <= j < |offsets| ==> parse(Bare(args[j])).Some?)
    && (|offsets| == 1 ==> !Opens(args[i]))
  }

  lemma {:induction false} PairUpIff<V>(args: seq<string>, offsets: seq<int>, parse: string -> Option<V>, room: nat, i: nat)
    requires NonEmpty(args) && i <= |offsets| && i <= |args|
    ensures var r := PairUp(args, offsets, parse, room, i);
            && (r.Queued? <==> Rest(args, offsets, parse, i) && |offsets| <= room)
            && (r.Queued? ==> && |r.entries| == |offsets| - i
                              && forall j :: i <= j < |offsets| ==>
                                   r.entries[j - i] == Entry(offsets[j], parse(Bare(args[j])).value))
    decreases |args| - i
  {
    if i < |args| && i < |offsets| && !Closes(args[i]) {
      PairUpIff(args, offsets, parse, room, i + 1);
    }
  }

  /** A bracketed list is accepted exactly when it has as many values as there are offsets; value j goes to offset j. */
  lemma ListAcceptedIffMatching<V>(args: seq<string>, offsets: seq<int>, parse: string -> Option<V>, room: nat)
    requires NonEmpty(args) && args != [] && !Unbracketed(args[0]) && offsets != []
    ensures var r := Distribute(args, offsets, parse, room);
            && (r.Queued? <==> ListMatches(args, offsets, parse) && |offsets| <= room)
            && (r.Queued? ==> && |r.entries| == |offsets|
                              && forall j :: 0 <= j < |offsets| ==>
                                   r.entries[j] == Entry(offsets[j], parse(Bare(args[j])).value))
  {
    PairUpIff(args, offsets, parse, room, 0);
    ListLengthBound(args);
    if Rest(args, offsets, parse, 0) {
      ListLengthIs(args, |offsets|);
    }
  }

  // ----- What applying the queue does

  predicate EntriesFor<V>(entries: seq<Entry<V>>, offsets: seq<int>) {
    |entries| == |offsets| && forall j :: 0 <= j < |entries| ==> entries[j].offset == offsets[j]
  }

  lemma FewerDistinct(offsets: seq<int>, n: nat)
    requires n <= |offsets| && !Duplicates(offsets)
    ensures !Duplicates(offsets[..n])
  {
    var fewer := offsets[..n];
    assert forall i, j :: 0 <= i < j < |fewer| ==> fewer[i] == offsets[i] && fewer[j] == offsets[j];
  }

  lemma AppliedSnoc<V>(elements: seq<V>, entries: seq<Entry<V>>)
    requires entries != [] && 0 <= entries[|entries| - 1].offset < |elements|
    ensures var e := entries[|entries| - 1];
            Applied(elements, entries) == Applied(elements, entries[..|entries| - 1])[e.offset := e.value]
  {
  }

  lemma {:induction false} AppliedHit<V>(elements: seq<V>, entries: seq<Entry<V>>, offsets: seq<int>, j: nat)
    requires EntriesFor(entries, offsets) && InRange(offsets, |elements|) && !Duplicates(offsets) && j < |offsets|
    ensures Applied(elements, entries)[offsets[j]] == entries[j].value
    decreases |entries|
  {
    hide Applied;
    var n := |entries| - 1;
    AppliedSnoc(elements, entries);
    if j < n {
      assert offsets[j] != offsets[n];
      FewerDistinct(offsets, n);
      AppliedHit(elements, entries[..n], offsets[..n], j);
    }
  }

  lemma {:induction false} AppliedMiss<V>(elements: seq<V>, entries: seq<Entry<V>>, offsets: seq<int>, k: nat)
    requires EntriesFor(entries, offsets) && InRange(offsets, |elements|) && k < |elements| && k !in offsets
    ensures Applied(elements, entries)[k] == elements[k]
    decreases |entries|
  {
    if entries != [] {
      var n := |entries| - 1;
      assert offsets[n] in offsets;
      AppliedMiss(elements, entries[..n], offsets[..n], k);
    }
  }

  /** With distinct offsets in range, each selected element gets its own value and no other element changes. */
  lemma AppliedElements<V>(elements: seq<V>, entries: seq<Entry<V>>, offsets: seq<int>)
    requires EntriesFor(entries, offsets) && InRange(offsets, |elements|) && !Duplicates(offsets)
    ensures var r := Applied(elements, entries);
            && (forall j :: 0 <= j < |offsets| ==> r[offsets[j]] == entries[j].value)
            && (forall k :: 0 <= k < |elements| && k !in offsets ==> r[k] == elements[k])
  {
    hide Applied;
    forall j | 0 <= j < |offsets| ensures Applied(elements, entries)[offsets[j]] == entries[j].value {
      AppliedHit(elements, entries, offsets, j);
    }
    forall k | 0 <= k < |elements| && k !in offsets ensures Applied(elements, entries)[k] == elements[k] {
      AppliedMiss(elements, entries, offsets, k);
    }
  }

  /** A successful `set` with a list: element offsets[j] holds value j, the rest is untouched. */
  lemma SetListMeaning<V>(elements: seq<V>, text: Option<string>, args: seq<string>, parse: string -> Option<V>,
                          readonly: bool, force: bool, room: nat)
    requires NonEmpty(args) && args != [] && !Unbracketed(args[0])
    requires Chosen(text, |elements|).Some?
    requires InRange(Chosen(text, |elements|).value, |elements|)
    requires Planned(|elements|, text, args, parse, readonly, force, room).Queued?
    ensures var offsets := Chosen(text, |elements|).value;
            var r := Applied(elements, Planned(|elements|, text, args, parse, readonly, force, room).entries);
            && ListLength(args) == Some(|offsets|)
            && (forall j :: 0 <= j < |offsets| ==> j < |args| && Some(r[offsets[j]]) == parse(Bare(args[j])))
            && (forall k :: 0 <= k < |elements| && k !in offsets ==> r[k] == elements[k])
  {
    var offsets := Chosen(text, |elements|).value;
    ListAcceptedIffMatching(args, offsets, parse, room);
    AppliedElements(elements, Planned(|elements|, text, args, parse, readonly, force, room).entries, offsets);
  }

  /** A successful `set` with one unbracketed value fills every selected element, in order, for as long as there is room. */
  lemma SetValueMeaning<V>(elements: seq<V>, text: Option<string>, args: seq<string>, parse: string -> Option<V>,
                           readonly: bool, force: bool, room: nat)
    requires NonEmpty(args) && args != [] && Unbracketed(args[0])
    requires Chosen(text, |elements|).Some? && InRange(Chosen(text, |elements|).value, |elements|)
    requires Planned(|elements|, text, args, parse, readonly, force, room).Queued?
    ensures var all := Chosen(text, |elements|).value;
            var offsets := all[..if |all| <= room then |all| else room];
            var r := Applied(elements, Planned(|elements|, text, args, parse, readonly, force, room).entries);
            && (forall j :: 0 <= j < |offsets| ==> Some(r[offsets[j]]) == parse(Bare(args[0])))
            && (forall k :: 0 <= k < |elements| && k !in offsets ==> r[k] == elements[k])
  {
    hide Applied, Bare, Chosen;
    var all := Chosen(text, |elements|).value;
    var n := if |all| <= room then |all| else room;
    FewerDistinct(all, n);
    AppliedElements(elements, Planned(|elements|, text, args, parse, readonly, force, room).entries, all[..n]);
  }

  /** It fills every selected element exactly when there is room for all of them, or those without room hold the value already. */
  lemma ValueFillsAllIffRoom<V>(elements: seq<V>, text: Option<string>, args: seq<string>, parse: string -> Option<V>,
                                readonly: bool, force: bool, room: nat)
    requires NonEmpty(args) && args != [] && Unbracketed(args[0])
    requires Chosen(text, |elements|).Some? && InRange(Chosen(text, |elements|).value, |elements|)
    requires Planned(|elements|, text, args, parse, readonly, force, room).Queued?
    ensures var offsets := Chosen(text, |elements|).value;
            var r := Applied(elements, Planned(|elements|, text, args, parse, readonly, force, room).entries);
            (forall j :: 0 <= j < |offsets| ==> Some(r[offsets[j]]) == parse(Bare(args[0])))
            <==> |offsets| <= room || forall j :: room <= j < |offsets| ==> Some(elements[offsets[j]]) == parse(Bare(args[0]))
  {
    SetValueMeaning(elements, text, args, parse, readonly, force, room);
    hide Applied, Bare, Chosen, Distribute;
    var offsets := Chosen(text, |elements|).value;
    if room < |offsets| {
      var first := offsets[..room];
      assert !Duplicates(offsets);
      forall j | room <= j < |offsets| ensures offsets[j] !in first {
        assert forall i :: 0 <= i < room ==> first[i] == offsets[i] != offsets[j];
      }
      assert forall j :: 0 <= j < room ==> offsets[j] == first[j];
    } else {
      assert offsets[..|offsets|] == offsets;
    }
  }

  /** With room for one entry, one value for two elements is accepted and reaches only the first. */
  lemma FullQueueGoesUnnoticed()
    ensures var parse := (s: string) => Some(1);
            var planned := Planned(2, None, ["1"], parse, false, false, 1);
            planned == Queued([Entry(0, 1)]) && Applied([0, 0], planned.entries) == [1, 0]
  {
    var parse := (s: string) => Some(1);
    assert Chosen(None, 2).value == [0, 1];
    assert Applied([0, 0], [Entry(0, 1)][..0]) == [0, 0];
    assert Unbracketed("1");
    assert FillAll([0, 1], 1, 1) == [Entry(0, 1)];
  }

  /** The same for an offset list as it is typed: the values land where the tokens point, in token order. */
  lemma SetWrittenList<V>(elements: seq<V>, ts: seq<Token>, args: seq<string>, parse: string -> Option<V>,
                          readonly: bool, force: bool, room: nat)
    requires forall t :: t in ts ==> Canonical(t)
    requires NonEmpty(args) && args != [] && !Unbracketed(args[0])
    requires Planned(|elements|, Some(WriteAll(ts)), args, parse, readonly, force, room).Queued?
    ensures Selects(ts, |elements|).Some?
    ensures var offsets := Selects(ts, |elements|).value;
            InRange(offsets, |elements|) ==>
              var r := Applied(elements, Planned(|elements|, Some(WriteAll(ts)), args, parse, readonly, force, room).entries);
              && ListLength(args) == Some(|offsets|)
              && (forall j :: 0 <= j < |offsets| ==> j < |args| && Some(r[offsets[j]]) == parse(Bare(args[j])))
              && (forall k :: 0 <= k < |elements| && k !in offsets ==> r[k] == elements[k])
  {
    ParsedOffsetsAreSelected(ts, |elements|);
    var offsets := Selects(ts, |elements|).value;
    if InRange(offsets, |elements|) {
      SetListMeaning(elements, Some(WriteAll(ts)), args, parse, readonly, force, room);
    }
  }

  // ----- The command as it is typed

  predicate PlainValue(v: string) { v != "" && '[' !in v && ']' !in v }

  /** `[v0 v1 ... vn]`, one argument for each value. */
  function WriteValues(vs: seq<string>): seq<string> {
    seq(|vs|, i requires 0 <= i < |vs| => (if i == 0 then "[" else "") + vs[i] + (if i == |vs| - 1 then "]" else ""))
  }

  lemma BracketsRemoved(vs: seq<string>, i: nat)
    requires i < |vs| && |vs| >= 2 && PlainValue(vs[i])
    ensures var arg := WriteValues(vs)[i];
            arg != "" && Bare(arg) == vs[i] && (Closes(arg) <==> i == |vs| - 1) && (Opens(arg) <==> i == 0)
  {
    var arg, v := WriteValues(vs)[i], vs[i];
    if i == 0 {
      assert arg == "[" + v + "" && arg[0] == '[' && arg[|arg| - 1] == v[|v| - 1] && v[|v| - 1] in v;
      assert arg[1..] == v;
    } else if i == |vs| - 1 {
      assert arg == "" + v + "]" && arg[|arg| - 1] == ']' && arg[..|arg| - 1] == v;
    } else {
      assert arg == "" + v + "" && arg == v && v[|v| - 1] in v;
    }
  }

  lemma WrittenValuesMatch<V>(vs: seq<string>, offsets: seq<int>, parse: string -> Option<V>)
    requires |vs| >= 2 && forall i :: 0 <= i < |vs| ==> PlainValue(vs[i])
    ensures var args := WriteValues(vs);
            && NonEmpty(args) && !Unbracketed(args[0]) && ListLength(args) == Some(|vs|)
            && (forall j :: 0 <= j < |vs| ==> Bare(args[j]) == vs[j])
  {
    var args := WriteValues(vs);
    forall i | 0 <= i < |vs|
      ensures args[i] != "" && Bare(args[i]) == vs[i] && (Closes(args[i]) <==> i == |vs| - 1) && (Opens(args[i]) <==> i == 0)
    {
      BracketsRemoved(vs, i);
    }
    hide Bare, Closes, Opens, WriteValues;
    ListLengthIs(args, |vs|);
  }

  /** `set name[offsets] [v0 ... vn]`: accepted exactly when the offsets are distinct and as many as the values, every value
      parses, there is room, and a read-only parameter is forced; then value j is in element offsets[j], and nothing else changed. */
  lemma TypedListMeaning<V>(elements: seq<V>, ts: seq<Token>, vs: seq<string>, parse: string -> Option<V>,
                            readonly: bool, force: bool, room: nat)
    requires (forall t :: t in ts ==> Canonical(t)) && 2 <= |vs| <= 99 && forall i :: 0 <= i < |vs| ==> PlainValue(vs[i])
    requires Selects(ts, |elements|).Some? && InRange(Selects(ts, |elements|).value, |elements|)
    ensures var offsets := Selects(ts, |elements|).value;
            && NonEmpty(WriteValues(vs))
            && var r := Planned(|elements|, Some(WriteAll(ts)), WriteValues(vs), parse, readonly, force, room);
            && (r.Queued? <==>
                  && |vs| == |offsets| <= room && (readonly ==> force)
                  && (forall i, j :: 0 <= i < j < |offsets| ==> offsets[i] != offsets[j])
                  && (forall j :: 0 <= j < |vs| ==> parse(vs[j]).Some?))
            && (r.Queued? ==>
                  var after := Applied(elements, r.entries);
                  && (forall j :: 0 <= j < |offsets| ==> Some(after[offsets[j]]) == parse(vs[j]))
                  && (forall k :: 0 <= k < |elements| && k !in offsets ==> after[k] == elements[k]))
  {
    var offsets, args := Selects(ts, |elements|).value, WriteValues(vs);
    WrittenValuesMatch(vs, offsets, parse);
    ParsedOffsetsAreSelected(ts, |elements|);
    hide Applied, Bare, Opens, Closes, WriteValues, WriteAll, Selects, ParseList, ListLength, Distribute;
    if offsets != [] {
      ListAcceptedIffMatching(args, offsets, parse, room);
      assert Duplicates(offsets) <==> !(forall i, j :: 0 <= i < j < |offsets| ==> offsets[i] != offsets[j]);
      if Planned(|elements|, Some(WriteAll(ts)), args, parse, readonly, force, room).Queued? {
        SetListMeaning(elements, Some(WriteAll(ts)), args, parse, readonly, force, room);
      }
    }
  }

  lemma PlainIsBare(v: string)
    requires PlainValue(v)
    ensures Unbracketed(v) && Bare(v) == v
  {
    assert v[|v| - 1] in v;
  }

  lemma DistributePlain<V>(v: string, offsets: seq<int>, parse: string -> Option<V>, room: nat)
    requires v != "" && Unbracketed(v)
    ensures Distribute([v], offsets, parse, room)
         == if parse(Bare(v)).Some? then Queued(FillAll(offsets, parse(Bare(v)).value, room)) else Refused
  {
  }

  /** `set name[offsets] v`: accepted exactly when the offsets are distinct, the value parses, and a read-only parameter is forced. */
  lemma TypedValueMeaning<V>(elements: seq<V>, ts: seq<Token>, v: string, parse: string -> Option<V>,
                             readonly: bool, force: bool, room: nat)
    requires (forall t :: t in ts ==> Canonical(t)) && PlainValue(v)
    requires Selects(ts, |elements|).Some? && InRange(Selects(ts, |elements|).value, |elements|)
    requires |Selects(ts, |elements|).value| <= room
    ensures var offsets := Selects(ts, |elements|).value;
            var r := Planned(|elements|, Some(WriteAll(ts)), [v], parse, readonly, force, room);
            && (r.Queued? <==>
                  && offsets != [] && (readonly ==> force) && parse(v).Some?
                  && (forall i, j :: 0 <= i < j < |offsets| ==> offsets[i] != offsets[j]))
            && (r.Queued? ==>
                  var after := Applied(elements, r.entries);
                  && (forall j :: 0 <= j < |offsets| ==> Some(after[offsets[j]]) == parse(v))
                  && (forall k :: 0 <= k < |elements| && k !in offsets ==> after[k] == elements[k]))
  {
    hide Applied, Bare, Opens, Closes, WriteAll, Selects, ParseList, Distribute, FillAll;
    var offsets := Selects(ts, |elements|).value;
    PlainIsBare(v);
    ParsedOffsetsAreSelected(ts, |elements|);
    DistributePlain(v, offsets, parse, room);
    assert Duplicates(offsets) <==> !(forall i, j :: 0 <= i < j < |offsets| ==> offsets[i] != offsets[j]);
    var text, args := Some(WriteAll(ts)), [v];
    var r := Planned(|elements|, text, args, parse, readonly, force, room);
    if r.Queued? {
      ValueFillsAllIffRoom(elements, text, args, parse, readonly, force, room);
      SetValueMeaning(elements, text, args, parse, readonly, force, room);
      assert offsets[..|offsets|] == offsets;
    }
  }

  // ----- As many distinct offsets as elements reach every element

  ghost function Below(n: nat): (r: set<int>)
    ensures |r| == n && forall k :: k in r <==> 0 <= k < n
  {
    if n == 0 then {} else Below(n - 1) + {n - 1}
  }

  ghost function Members(offsets: seq<int>): set<int> { set i | i in offsets }

  lemma {:induction false} MembersSize(offsets: seq<int>)
    requires !Duplicates(offsets)
    ensures |Members(offsets)| == |offsets|
    decreases |offsets|
  {
    if offsets == [] {
      assert Members(offsets) == {};
    } else {
      var n := |offsets| - 1;
      var fewer := offsets[..n];
      FewerDistinct(offsets, n);
      MembersSize(fewer);
      assert offsets == fewer + [offsets[n]];
      assert offsets[n] !in fewer;
      assert Members(offsets) == Members(fewer) + {offsets[n]};
    }
  }

  lemma SubsetOfSameSize(a: set<int>, b: set<int>)
    requires a <= b && |a| == |b|
    ensures a == b
  {
    var rest := b - a;
    assert b == a + rest && |b| == |a| + |rest|;
  }

  predicate WrittenOnce(offsets: seq<int>, k: int) {
    k in offsets && forall i, j :: 0 <= i < |offsets| && 0 <= j < |offsets| && offsets[i] == k == offsets[j] ==> i == j
  }

  lemma EveryElementWrittenOnce(offsets: seq<int>, size: nat)
    requires InRange(offsets, size) && !Duplicates(offsets) && |offsets| == size
    ensures forall k :: 0 <= k < size ==> WrittenOnce(offsets, k)
  {
    MembersSize(offsets);
    SubsetOfSameSize(Members(offsets), Below(size));
    forall k | 0 <= k < size ensures WrittenOnce(offsets, k) {
      assert k in Below(size);
      assert k in Members(offsets);
    }
  }
}
