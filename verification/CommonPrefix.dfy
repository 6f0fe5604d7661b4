/** The common prefix two completers offer: one compares neighbours, the other compares with the first match. */
module CommonPrefix {

  const INT_MAX: nat := 0x7fff_ffff

  /** slash_prefix_length: how far two names agree. */
  function PrefixLength(a: string, b: string): (n: nat)
    ensures n <= |a| && n <= |b| && a[..n] == b[..n]
    ensures n == |a| || n == |b| || a[n] != b[n]
  {
    if a != "" && b != "" && a[0] == b[0] then
      var n := 1 + PrefixLength(a[1..], b[1..]);
      assert a[..n] == [a[0]] + a[1..][..n - 1] && b[..n] == [b[0]] + b[1..][..n - 1];
      n
    else 0
  }

  /** All names agree on their first k characters. */
  predicate Shared(names: seq<string>, k: nat) {
    forall i, j :: 0 <= i < |names| && 0 <= j < |names| ==> Agree(names[i], names[j], k)
  }

  predicate Agree(a: string, b: string, k: nat) { k <= |a| && k <= |b| && a[..k] == b[..k] }

  ghost predicate Longest(names: seq<string>, k: nat) {
    Shared(names, k) && forall m: nat :: Shared(names, m) ==> m <= k
  }

  lemma AgreeIff(a: string, b: string, k: nat)
    ensures Agree(a, b, k) <==> k <= PrefixLength(a, b)
  {
    var n := PrefixLength(a, b);
    if k <= n {
      assert a[..k] == a[..n][..k] && b[..k] == b[..n][..k];
    } else if k <= |a| && k <= |b| {
      assert a[n] == a[..k][n] && b[n] == b[..k][n];
    }
  }

  lemma AgreeTransitive(a: string, b: string, c: string, k: nat)
    requires Agree(a, b, k) && Agree(b, c, k)
    ensures Agree(a, c, k)
  {
  }

  /** Every name begins with the shared part of any one of them. */
  lemma SharedBy(names: seq<string>, name: string, k: nat)
    requires Shared(names, k) && name in names
    ensures k <= |name| && forall i :: 0 <= i < |names| ==> Agree(name, names[i], k)
  {
    var at :| 0 <= at < |names| && names[at] == name;
    assert Agree(names[at], names[at], k);
  }

  // ----- Neighbours suffice

  predicate NeighboursAgree(names: seq<string>, k: nat) {
    forall i :: 0 < i < |names| ==> Agree(names[i - 1], names[i], k)
  }

  lemma {:induction false} NeighboursReach(names: seq<string>, k: nat, i: nat, j: nat)
    requires NeighboursAgree(names, k) && i < j < |names|
    ensures Agree(names[i], names[j], k)
    decreases j - i
  {
    if i + 1 < j {
      NeighboursReach(names, k, i, j - 1);
      assert Agree(names[j - 1], names[j], k);
      AgreeTransitive(names[i], names[j - 1], names[j], k);
    } else {
      assert Agree(names[j - 1], names[j], k);
    }
  }

  lemma NeighboursShare(names: seq<string>, k: nat)
    requires |names| >= 2
    ensures NeighboursAgree(names, k) <==> Shared(names, k)
  {
    if NeighboursAgree(names, k) {
      forall i, j | 0 <= i < |names| && 0 <= j < |names| ensures Agree(names[i], names[j], k) {
        if i < j {
          NeighboursReach(names, k, i, j);
        } else if j < i {
          NeighboursReach(names, k, j, i);
        } else if i > 0 {
          NeighboursReach(names, k, 0, i);
        } else {
          NeighboursReach(names, k, 0, 1);
        }
      }
    }
  }

  /** The first i names agree with their neighbours. */
  predicate NeighboursAgreeTo(names: seq<string>, i: nat, k: nat)
    requires i <= |names|
  {
    forall j :: 0 < j < i ==> Agree(names[j - 1], names[j], k)
  }

  /** k is the most that the first i names share with their neighbours. */
  ghost predicate LongestTo(names: seq<string>, i: nat, k: nat)
    requires i <= |names|
  {
    forall m: nat :: NeighboursAgreeTo(names, i, m) <==> m <= k
  }

  lemma NeighboursStep(names: seq<string>, i: nat, k: nat)
    requires 0 < i < |names| && (i > 1 ==> LongestTo(names, i, k))
    ensures var cur := PrefixLength(names[i - 1], names[i]);
            LongestTo(names, i + 1, if i > 1 && k < cur then k else cur)
  {
    var cur, next := PrefixLength(names[i - 1], names[i]), i + 1;
    var least := if i > 1 && k < cur then k else cur;
    forall m: nat ensures NeighboursAgreeTo(names, next, m) <==> m <= least {
      AgreeIff(names[i - 1], names[i], m);
      assert NeighboursAgreeTo(names, next, m) <==> NeighboursAgreeTo(names, i, m) && Agree(names[i - 1], names[i], m);
    }
  }

  /** host_name_completer: the minimum over neighbours, and the name it was last lowered at. */
  method HostPrefix(names: seq<string>) returns (prefixLen: nat, completion: string)
    requires |names| >= 2 && forall i :: 0 <= i < |names| ==> |names[i]| < INT_MAX
    ensures Longest(names, prefixLen)
    ensures prefixLen <= |completion| && forall i :: 0 <= i < |names| ==> Agree(completion, names[i], prefixLen)
  {
    prefixLen, completion := INT_MAX, names[0];
    var i: nat := 0;
    while i < |names|
      invariant i <= |names| && completion in names
      invariant i <= 1 ==> prefixLen == INT_MAX
      invariant i > 1 ==> prefixLen <= |completion| && LongestTo(names, i, prefixLen)
    {
      if i > 0 {
        NeighboursStep(names, i, prefixLen);
        hide LongestTo;
        var curPrefix := PrefixLength(names[i - 1], names[i]);
        if curPrefix < prefixLen {
          prefixLen := curPrefix;
          completion := names[i];
        }
      }
      i := i + 1;
    }
    forall k: nat ensures Shared(names, k) <==> k <= prefixLen {
      NeighboursShare(names, k);
      assert NeighboursAgreeTo(names, |names|, k) <==> NeighboursAgree(names, k);
    }
    assert Shared(names, prefixLen);
    SharedBy(names, completion, prefixLen);
  }

  // ----- The first match suffices

  predicate FirstAgreesTo(names: seq<string>, i: nat, k: nat)
    requires 0 < i <= |names|
  {
    forall j :: 0 <= j < i ==> Agree(names[0], names[j], k)
  }

  /** k is the most that the first i names share with the first. */
  ghost predicate LongestWithFirst(names: seq<string>, i: nat, k: nat)
    requires 0 < i <= |names|
  {
    forall m: nat :: FirstAgreesTo(names, i, m) <==> m <= k
  }

  lemma FirstStep(names: seq<string>, i: nat, k: nat)
    requires 0 < i < |names| && LongestWithFirst(names, i, k)
    ensures var cur := PrefixLength(names[0], names[i]); LongestWithFirst(names, i + 1, if cur < k then cur else k)
  {
    var cur, next := PrefixLength(names[0], names[i]), i + 1;
    var least := if cur < k then cur else k;
    forall m: nat ensures FirstAgreesTo(names, next, m) <==> m <= least {
      AgreeIff(names[0], names[i], m);
      assert FirstAgreesTo(names, next, m) <==> FirstAgreesTo(names, i, m) && Agree(names[0], names[i], m);
    }
  }

  /** param_completer: the minimum against the first match; a single match is its own prefix. */
  method ParamPrefix(names: seq<string>) returns (prefixLen: nat, prefix: string)
    requires names != []
    ensures Longest(names, prefixLen) && prefix == names[0] && prefixLen <= |prefix|
  {
    prefix := names[0];
    prefixLen := |prefix|;
    var i: nat := 1;
    while i < |names|
      invariant 0 < i <= |names| && prefixLen <= |prefix| && LongestWithFirst(names, i, prefixLen)
    {
      FirstStep(names, i, prefixLen);
      hide LongestWithFirst;
      var newPrefixLen := PrefixLength(prefix, names[i]);
      if newPrefixLen < prefixLen {
        prefixLen := newPrefixLen;
      }
      i := i + 1;
    }
    forall k: nat ensures Shared(names, k) <==> k <= prefixLen {
      if Shared(names, k) {
        assert FirstAgreesTo(names, |names|, k);
      }
      if FirstAgreesTo(names, |names|, k) {
        FirstShares(names, k);
      }
    }
  }

  lemma FirstShares(names: seq<string>, k: nat)
    requires names != [] && forall j :: 0 <= j < |names| ==> Agree(names[0], names[j], k)
    ensures Shared(names, k)
  {
  }

  /** The order of the matches does not matter. */
  lemma LongestIgnoresOrder(names: seq<string>, other: seq<string>, k: nat, m: nat)
    requires multiset(names) == multiset(other) && Longest(names, k) && Longest(other, m)
    ensures k == m
  {
    SharedIgnoresOrder(names, other, k);
    SharedIgnoresOrder(other, names, m);
  }

  lemma SharedIgnoresOrder(names: seq<string>, other: seq<string>, k: nat)
    requires multiset(names) == multiset(other) && Shared(names, k)
    ensures Shared(other, k)
  {
    forall i, j | 0 <= i < |other| && 0 <= j < |other| ensures Agree(other[i], other[j], k) {
      assert other[i] in multiset(names) && other[j] in multiset(names);
      var a :| 0 <= a < |names| && names[a] == other[i];
      var b :| 0 <= b < |names| && names[b] == other[j];
      assert Agree(names[a], names[b], k);
    }
  }
}
