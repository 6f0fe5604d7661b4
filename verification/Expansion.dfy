/** What `$(NAME)` references in a command line mean, and the laws the expansion obeys. */
module Expansion {
  import opened CText

  type Vars = map<string, string>

  /** Position of the first `c`, if any. */
  function IndexOf(s: string, c: char): (r: Option<nat>)
    ensures r.None? ==> c !in s
    ensures r.Some? ==> r.value < |s| && s[r.value] == c && c !in s[..r.value]
  {
    if s == "" then None
    else if s[0] == c then Some(0)
    else match IndexOf(s[1..], c)
      case None => None
      case Some(k) =>
        assert s[..k + 1] == [s[0]] + s[1..][..k];
        Some(k + 1)
  }

  function Lookup(env: Vars, name: string): string {
    if name in env then env[name] else ""
  }

  /** A reference opens at `$(` only when at least one more character follows. */
  predicate OpensRef(s: string) { |s| >= 3 && s[0] == '$' && s[1] == '(' }

  function Expand(env: Vars, s: string): string
    decreases |s|, 1
  {
    if s == "" then ""
    else if OpensRef(s) then ExpandRef(env, s[2..])
    else [s[0]] + Expand(env, s[1..])
  }

  /** `s` starts just after `$(`; an unclosed reference drops the rest of the text. */
  function ExpandRef(env: Vars, s: string): string
    decreases |s|, 0
  {
    match IndexOf(s, ')')
    case None => ""
    case Some(k) => Lookup(env, s[..k]) + Expand(env, s[k + 1..])
  }

  lemma IndexOfAppend(a: string, b: string, c: char)
    requires c in a
    ensures IndexOf(a + b, c) == IndexOf(a, c)
  {
    if a[0] != c {
      assert (a + b)[1..] == a[1..] + b;
      IndexOfAppend(a[1..], b, c);
    }
  }

  // ----- Compositionality

  /** Scanning `s` ends outside a reference. */
  predicate EndsOutside(s: string) {
    if s == "" then true
    else if OpensRef(s) then
      match IndexOf(s[2..], ')')
      case None => false
      case Some(k) => EndsOutside(s[k + 3..])
    else EndsOutside(s[1..])
  }

  predicate EndsWith(s: string, suffix: string) {
    |suffix| <= |s| && s[|s| - |suffix|..] == suffix
  }

  /** Joining `a` and `b` opens a reference that straddles the seam. */
  predicate SeamOpensRef(a: string, b: string) {
    || (EndsWith(a, "$") && |b| >= 2 && b[0] == '(')
    || (EndsWith(a, "$(") && b != "")
  }

  lemma ExpandClosedRef(env: Vars, a: string, k: nat)
    requires OpensRef(a) && IndexOf(a[2..], ')') == Some(k)
    ensures Expand(env, a) == Lookup(env, a[2..][..k]) + Expand(env, a[k + 3..])
  {
    assert a[2..][k + 1..] == a[k + 3..];
  }

  lemma ClosedRefAppend(a: string, k: nat, b: string)
    requires OpensRef(a) && IndexOf(a[2..], ')') == Some(k)
    ensures OpensRef(a + b) && IndexOf((a + b)[2..], ')') == Some(k)
    ensures (a + b)[2..][..k] == a[2..][..k] && (a + b)[k + 3..] == a[k + 3..] + b
  {
    assert (a + b)[2..] == a[2..] + b;
    IndexOfAppend(a[2..], b, ')');
  }

  lemma Associate(x: string, y: string, z: string)
    ensures x + (y + z) == (x + y) + z
  {
  }

  lemma AppendAfterRef(env: Vars, a: string, k: nat, b: string)
    requires OpensRef(a) && IndexOf(a[2..], ')') == Some(k)
    requires Expand(env, a[k + 3..] + b) == Expand(env, a[k + 3..]) + Expand(env, b)
    ensures Expand(env, a + b) == Expand(env, a) + Expand(env, b)
  {
    ClosedRefAppend(a, k, b);
    ExpandClosedRef(env, a + b, k);
    ExpandClosedRef(env, a, k);
    Associate(Lookup(env, a[2..][..k]), Expand(env, a[k + 3..]), Expand(env, b));
  }

  lemma LiteralHead(env: Vars, s: string)
    requires s != "" && !OpensRef(s)
    ensures Expand(env, s) == [s[0]] + Expand(env, s[1..])
  {
  }

  lemma AppendAfterLiteral(env: Vars, a: string, b: string)
    requires a != "" && !OpensRef(a) && !SeamOpensRef(a, b)
    requires Expand(env, a[1..] + b) == Expand(env, a[1..]) + Expand(env, b)
    ensures Expand(env, a + b) == Expand(env, a) + Expand(env, b)
  {
    hide SeamOpensRef, ExpandRef;
    if OpensRef(a + b) { SeamAtOpening(a, b); }
    assert (a + b)[1..] == a[1..] + b;
    LiteralHead(env, a);
    LiteralHead(env, a + b);
    hide Expand;
    Associate([a[0]], Expand(env, a[1..]), Expand(env, b));
  }

  lemma {:induction false} ExpandAppend(env: Vars, a: string, b: string)
    requires EndsOutside(a) && !SeamOpensRef(a, b)
    ensures Expand(env, a + b) == Expand(env, a) + Expand(env, b)
    decreases |a|
  {
    if a == "" {
      assert a + b == b;
    } else if OpensRef(a) {
      var k := IndexOf(a[2..], ')').value;
      SeamTail(a, k + 3, b);
      ExpandAppend(env, a[k + 3..], b);
      AppendAfterRef(env, a, k, b);
    } else {
      SeamTail(a, 1, b);
      ExpandAppend(env, a[1..], b);
      AppendAfterLiteral(env, a, b);
    }
  }

  lemma EndsWithTail(s: string, i: nat, suffix: string)
    requires i <= |s| && EndsWith(s[i..], suffix)
    ensures EndsWith(s, suffix)
  {
    assert s[|s| - |suffix|..] == s[i..][|s[i..]| - |suffix|..];
  }

  lemma SeamTail(a: string, i: nat, b: string)
    requires i <= |a| && !SeamOpensRef(a, b)
    ensures !SeamOpensRef(a[i..], b)
  {
    if EndsWith(a[i..], "$") { EndsWithTail(a, i, "$"); }
    if EndsWith(a[i..], "$(") { EndsWithTail(a, i, "$("); }
  }

  lemma SeamAtOpening(a: string, b: string)
    requires a != "" && !OpensRef(a) && OpensRef(a + b)
    ensures SeamOpensRef(a, b)
  {
    if |a| == 1 {
      assert a[|a| - 1..] == "$" && b[0] == (a + b)[1];
    } else {
      assert a[0] == (a + b)[0] && a[1] == (a + b)[1];
      assert |a| == 2;
      assert a[|a| - 2..] == "$(";
    }
  }

  /** Text that can be put in front of any text without changing what either part expands to. */
  predicate Detachable(a: string) {
    EndsOutside(a) && !EndsWith(a, "$") && !EndsWith(a, "$(")
  }

  ghost predicate SplitsEverywhere(a: string) {
    forall env: Vars, b: string :: Expand(env, a + b) == Expand(env, a) + Expand(env, b)
  }

  /** Detachable is not only sufficient: every other text is disturbed by some continuation. */
  lemma SplitsIffDetachable(a: string)
    ensures SplitsEverywhere(a) <==> Detachable(a)
  {
    if Detachable(a) {
      forall env: Vars, b: string ensures Expand(env, a + b) == Expand(env, a) + Expand(env, b) {
        ExpandAppend(env, a, b);
      }
    } else {
      var b := Disturbance(a);
    }
  }

  /** A continuation of `a` that does not expand on its own. */
  lemma Disturbance(a: string) returns (b: string)
    requires !Detachable(a)
    ensures |Expand(map[], a + b)| < |Expand(map[], a)| + |Expand(map[], b)|
  {
    if !EndsOutside(a) {
      b := "x";
      UnclosedDropsRest(map[], a, b);
    } else if EndsWith(a, "$") {
      b := "(x";
      var front := a[..|a| - 1];
      assert a == front + "$" && a + b == front + "$(x";
      LiteralTail(map[], front, "$", "$(x");
      assert b[1..] == "x";
    } else {
      b := "x";
      var front := a[..|a| - 2];
      assert a == front + "$(" && a + b == front + "$(x";
      LiteralTail(map[], front, "$(", "$(x");
    }
  }

  lemma {:induction false} UnclosedDropsRest(env: Vars, a: string, b: string)
    requires !EndsOutside(a) && ')' !in b
    ensures Expand(env, a + b) == Expand(env, a)
    decreases |a|
  {
    hide Expand, ExpandRef;
    if OpensRef(a) {
      match IndexOf(a[2..], ')')
      case None =>
        assert (a + b)[2..] == a[2..] + b;
        UnclosedHead(env, a);
        UnclosedHead(env, a + b);
      case Some(k) =>
        ClosedRefAppend(a, k, b);
        ExpandClosedRef(env, a, k);
        ExpandClosedRef(env, a + b, k);
        UnclosedDropsRest(env, a[k + 3..], b);
    } else {
      LongerThanThree(a);
      assert (a + b)[1..] == a[1..] + b;
      LiteralHead(env, a);
      LiteralHead(env, a + b);
      UnclosedDropsRest(env, a[1..], b);
    }
  }

  lemma UnclosedHead(env: Vars, a: string)
    requires OpensRef(a) && ')' !in a[2..]
    ensures Expand(env, a) == ""
  {
  }

  lemma LongerThanThree(a: string)
    requires !OpensRef(a)
    ensures !EndsOutside(a) ==> |a| > 3
  {
    if |a| <= 3 {
      ShortEndsOutside(a);
    }
  }

  /** An unclosed reference needs three characters, and one more if it does not start the text. */
  lemma ShortEndsOutside(a: string)
    requires |a| <= 3 && !OpensRef(a)
    ensures EndsOutside(a)
  {
    if a != "" {
      assert !OpensRef(a[1..]);
      ShortEndsOutside(a[1..]);
    }
  }

  /** A literal `$` or `$(` at the end of the text is swallowed once a name follows it. */
  lemma LiteralTail(env: Vars, front: string, tail: string, ref: string)
    requires tail == "$" || tail == "$("
    requires ref == "$(x"
    requires EndsOutside(front + tail)
    ensures Expand(env, front + tail) == Expand(env, front) + tail
    ensures Expand(env, front + ref) == Expand(env, front)
  {
    FrontEndsOutside(front, tail);
    if EndsWith(front, "$(") { OpeningTail(front, tail); }
    assert Expand(env, tail) == tail by {
      if tail == "$(" { assert tail[1..] == "("; }
    }
    assert Expand(env, ref) == "" by { assert ref[2..] == "x"; }
    ExpandAppend(env, front, tail);
    ExpandAppend(env, front, ref);
    assert Expand(env, front) + "" == Expand(env, front);
  }

  lemma {:induction false} FrontEndsOutside(front: string, tail: string)
    requires ')' !in tail && EndsOutside(front + tail)
    ensures EndsOutside(front)
    decreases |front|
  {
    var s := front + tail;
    if front == "" {
    } else if OpensRef(s) {
      assert s[2..] == s[2..|s|] && ')' in s[2..];
      if |front| >= 3 {
        var ref := front[2..];
        assert s[2..] == ref + tail;
        IndexOfAppend(ref, tail, ')');
        var k := IndexOf(ref, ')').value;
        assert s[k + 3..] == front[k + 3..] + tail;
        FrontEndsOutside(front[k + 3..], tail);
      } else {
        ShortEndsOutside(front);
      }
    } else {
      assert s[1..] == front[1..] + tail;
      FrontEndsOutside(front[1..], tail);
      assert !OpensRef(front);
    }
  }

  lemma {:induction false} OpeningTail(front: string, tail: string)
    requires EndsWith(front, "$(") && tail != "" && ')' !in tail
    ensures !EndsOutside(front + tail)
    decreases |front|
  {
    var s := front + tail;
    assert front[|front| - 2] == front[|front| - 2..][0] && front[|front| - 1] == front[|front| - 2..][1];
    assert s[|front| - 2] == '$' && s[|front| - 1] == '(';
    if OpensRef(s) {
      match IndexOf(s[2..], ')')
      case None =>
      case Some(k) =>
        assert s[k + 2] == ')';
        assert k + 3 <= |front| - 2;
        assert s[k + 3..] == front[k + 3..] + tail;
        assert front[k + 3..][|front| - k - 5..] == front[|front| - 2..];
        OpeningTail(front[k + 3..], tail);
    } else {
      assert s[1..] == front[1..] + tail;
      assert front[1..][|front| - 3..] == front[|front| - 2..];
      OpeningTail(front[1..], tail);
    }
  }

  // ----- What a reference stands for

  lemma {:induction false} IndexAfter(name: string, rest: string)
    requires ')' !in name
    ensures IndexOf(name + ")" + rest, ')') == Some(|name|)
  {
    if name != "" {
      assert (name + ")" + rest)[1..] == name[1..] + ")" + rest;
      IndexAfter(name[1..], rest);
    }
  }

  lemma ReferenceThen(env: Vars, name: string, b: string)
    requires ')' !in name
    ensures name in env ==> Expand(env, "$(" + name + ")" + b) == env[name] + Expand(env, b)
    ensures name !in env ==> Expand(env, "$(" + name + ")" + b) == Expand(env, b)
  {
    var s, k := "$(" + name + ")" + b, |name|;
    assert s[2..] == name + ")" + b;
    IndexAfter(name, b);
    ExpandClosedRef(env, s, k);
    assert s[2..][..k] == name && s[k + 3..] == b;
    hide Expand;
    assert "" + Expand(env, b) == Expand(env, b);
  }

  /** A reference expands to the value of its variable, and to nothing when there is no such variable. */
  lemma ReferenceYieldsValue(env: Vars, name: string)
    requires ')' !in name
    ensures name in env ==> Expand(env, "$(" + name + ")") == env[name]
    ensures name !in env ==> Expand(env, "$(" + name + ")") == ""
  {
    ReferenceThen(env, name, "");
    assert "$(" + name + ")" + "" == "$(" + name + ")" && Expand(env, "") == "";
  }

  /** So it does in the middle of a line. */
  lemma ReferenceInLine(env: Vars, a: string, name: string, b: string)
    requires Detachable(a) && ')' !in name
    ensures name in env ==> Expand(env, a + ("$(" + name + ")" + b)) == Expand(env, a) + env[name] + Expand(env, b)
    ensures name !in env ==> Expand(env, a + ("$(" + name + ")" + b)) == Expand(env, a) + Expand(env, b)
  {
    hide Expand;
    ExpandAppend(env, a, "$(" + name + ")" + b);
    ReferenceThen(env, name, b);
  }

  /** A reference that is not closed takes the rest of the line with it. */
  lemma UnclosedReferenceInLine(env: Vars, a: string, rest: string)
    requires Detachable(a) && rest != "" && ')' !in rest
    ensures Expand(env, a + ("$(" + rest)) == Expand(env, a)
  {
    ExpandAppend(env, a, "$(" + rest);
    assert ("$(" + rest)[2..] == rest;
    assert Expand(env, "$(" + rest) == "";
  }

  // ----- What expansion leaves alone, and how far it can grow

  /** An opening with at least one more character after it, anywhere in the text. */
  predicate HoldsRef(s: string) { exists i :: 0 <= i < |s| - 2 && s[i] == '$' && s[i + 1] == '(' }

  lemma HoldsRefHead(s: string)
    requires s != ""
    ensures HoldsRef(s) <==> OpensRef(s) || HoldsRef(s[1..])
  {
    var rest := s[1..];
    if HoldsRef(rest) {
      var i :| 0 <= i < |rest| - 2 && rest[i] == '$' && rest[i + 1] == '(';
      assert s[i + 1] == '$' && s[i + 2] == '(';
    }
    if HoldsRef(s) && !OpensRef(s) {
      var i :| 0 <= i < |s| - 2 && s[i] == '$' && s[i + 1] == '(';
      assert rest[i - 1] == '$' && rest[i] == '(';
    }
  }

  lemma {:induction false} ExpandWithoutRefs(env: Vars, s: string)
    requires !HoldsRef(s)
    ensures Expand(env, s) == s
  {
    if s != "" {
      HoldsRefHead(s);
      ExpandWithoutRefs(env, s[1..]);
    }
  }

  function Dollars(s: string): nat { multiset(s)['$'] }

  lemma DollarsSplit(s: string, k: nat)
    requires k <= |s|
    ensures Dollars(s) == Dollars(s[..k]) + Dollars(s[k..])
  {
    assert s == s[..k] + s[k..];
  }

  /** With values that hold no '$', every reference costs one. */
  lemma {:induction false} RefLosesDollar(env: Vars, s: string)
    requires forall name :: name in env ==> '$' !in env[name]
    ensures Dollars(Expand(env, s)) <= Dollars(s)
    ensures HoldsRef(s) ==> Dollars(Expand(env, s)) < Dollars(s)
    decreases |s|
  {
    hide HoldsRef;
    if s == "" {
      assert !HoldsRef("") by { EmptyHoldsNoRef(); }
    } else if OpensRef(s) {
      assert s[..1] == "$";
      DollarsSplit(s, 1);
      match IndexOf(s[2..], ')')
      case None =>
      case Some(k) =>
        ExpandClosedRef(env, s, k);
        RefLosesDollar(env, s[k + 3..]);
        DollarsSplit(s[1..], k + 2);
        assert s[1..][k + 2..] == s[k + 3..];
    } else {
      HoldsRefHead(s);
      RefLosesDollar(env, s[1..]);
      assert s == [s[0]] + s[1..];
    }
  }

  lemma EmptyHoldsNoRef()
    ensures !HoldsRef("")
  {
  }

  /** A text expands to itself in every environment exactly when it holds no reference. */
  lemma UnchangedIffNoRef(s: string)
    ensures (forall env: Vars :: Expand(env, s) == s) <==> !HoldsRef(s)
  {
    if HoldsRef(s) {
      RefLosesDollar(map[], s);
      assert Expand(map[], s) != s;
    } else {
      forall env: Vars ensures Expand(env, s) == s {
        ExpandWithoutRefs(env, s);
      }
    }
  }

  lemma {:induction false} ExpandAfterFront(env: Vars, front: string, rest: string)
    requires '$' !in front
    ensures Expand(env, front + rest) == front + Expand(env, rest)
  {
    if front == "" {
      assert front + rest == rest;
    } else {
      assert (front + rest)[0] == front[0] && (front + rest)[1..] == front[1..] + rest;
      LiteralHead(env, front + rest);
      ExpandAfterFront(env, front[1..], rest);
      Associate([front[0]], front[1..], Expand(env, rest));
      assert front == [front[0]] + front[1..];
    }
  }

  lemma {:induction false} ExpandLength(env: Vars, s: string, longest: nat)
    requires forall name :: name in env ==> |env[name]| <= longest
    ensures |Expand(env, s)| <= |s| + (|s| / 3) * longest
    decreases |s|
  {
    MulMonotone(0, |s| / 3, longest);
    if s == "" {
    } else if OpensRef(s) {
      match IndexOf(s[2..], ')')
      case None =>
      case Some(k) =>
        ExpandClosedRef(env, s, k);
        var rest := s[k + 3..];
        ExpandLength(env, rest, longest);
        GrowByValue(|s|, |rest|, longest);
    } else {
      ExpandLength(env, s[1..], longest);
      MulMonotone(|s[1..]| / 3, |s| / 3, longest);
    }
  }

  /** A reference takes three characters and adds one value. */
  lemma GrowByValue(len: nat, rest: nat, longest: nat)
    requires rest + 3 <= len
    ensures longest + rest + (rest / 3) * longest <= len + (len / 3) * longest
  {
    MulMonotone(rest / 3 + 1, len / 3, longest);
    MulSuccessor(rest / 3, longest);
  }

  lemma MulMonotone(a: nat, b: nat, k: nat)
    requires a <= b
    ensures a * k <= b * k
  {
  }

  lemma MulSuccessor(a: nat, k: nat)
    ensures (a + 1) * k == a * k + k
  {
  }

  /** A character that is neither in the text nor in any value does not appear. */
  lemma {:induction false} ExpandAddsNone(env: Vars, s: string, c: char)
    requires c !in s && forall name :: name in env ==> c !in env[name]
    ensures c !in Expand(env, s)
    decreases |s|
  {
    if s == "" {
    } else if OpensRef(s) {
      match IndexOf(s[2..], ')')
      case None =>
      case Some(k) =>
        ExpandClosedRef(env, s, k);
        ExpandAddsNone(env, s[k + 3..], c);
    } else {
      ExpandAddsNone(env, s[1..], c);
    }
  }

  /** A terminator never ends up inside the expanded text. */
  lemma ExpandNulFree(env: Vars, s: string)
    requires '\0' !in s && forall name :: name in env ==> '\0' !in env[name]
    ensures '\0' !in Expand(env, s)
  {
    ExpandAddsNone(env, s, '\0');
  }

  /** The names `s` refers to. */
  function RefNames(s: string): set<string>
    decreases |s|
  {
    if s == "" then {}
    else if OpensRef(s) then
      match IndexOf(s[2..], ')')
      case None => {}
      case Some(k) => {s[2..][..k]} + RefNames(s[k + 3..])
    else RefNames(s[1..])
  }

  /** Values are not rescanned: nothing but the referenced names can influence the result. */
  lemma {:induction false} ExpandDependsOnRefNames(env: Vars, env': Vars, s: string)
    requires forall name :: name in RefNames(s) ==> Lookup(env, name) == Lookup(env', name)
    ensures Expand(env, s) == Expand(env', s)
    decreases |s|
  {
    if s == "" {
    } else if OpensRef(s) {
      match IndexOf(s[2..], ')')
      case None =>
      case Some(k) =>
        ExpandClosedRef(env, s, k);
        ExpandClosedRef(env', s, k);
        ExpandDependsOnRefNames(env, env', s[k + 3..]);
        assert s[2..][..k] in RefNames(s);
        hide *;
    } else {
      ExpandDependsOnRefNames(env, env', s[1..]);
    }
  }
}
