/** The shell's variable store: a singly linked list that refines a finite map, and the scanner that expands references. */
module Environment {
  import opened CText
  import opened Expansion

  const SIZE_T_MODULUS: nat := 0x1_0000_0000_0000_0000

  class EnvEntry {
    const name: string
    var value: string
    var next: EnvEntry?

    constructor (name: string, value: string, next: EnvEntry?)
      ensures this.name == name && this.value == value && this.next == next
    {
      this.name, this.value, this.next := name, value, next;
    }
  }

  ghost predicate Distinct(entries: seq<EnvEntry>) {
    forall i, j :: 0 <= i < j < |entries| ==> entries[i].name != entries[j].name
  }

  ghost predicate Present(entries: seq<EnvEntry>, name: string) {
    exists i :: 0 <= i < |entries| && entries[i].name == name
  }

  lemma PresentCons(entry: EnvEntry, entries: seq<EnvEntry>)
    ensures forall n :: Present([entry] + entries, n) <==> n == entry.name || Present(entries, n)
    ensures Distinct(entries) && !Present(entries, entry.name) ==> Distinct([entry] + entries)
  {
    var all := [entry] + entries;
    assert forall i :: 0 < i < |all| ==> all[i] == entries[i - 1];
    forall n | n == entry.name || Present(entries, n) ensures Present(all, n) {
      if n == entry.name {
        assert all[0].name == n;
      } else {
        var i :| 0 <= i < |entries| && entries[i].name == n;
        assert all[i + 1].name == n;
      }
    }
  }

  lemma PresentRemove(entries: seq<EnvEntry>, at: nat)
    requires at < |entries| && Distinct(entries)
    ensures var rest := entries[..at] + entries[at + 1..];
            && Distinct(rest)
            && forall n :: Present(entries, n) && n != entries[at].name ==> Present(rest, n)
  {
    var rest := entries[..at] + entries[at + 1..];
    assert forall i :: 0 <= i < |rest| ==> rest[i] == entries[if i < at then i else i + 1];
    forall n | Present(entries, n) && n != entries[at].name ensures Present(rest, n) {
      var i :| 0 <= i < |entries| && entries[i].name == n;
      assert rest[if i < at then i else i - 1].name == n;
    }
  }

  class CshEnv {
    var first: EnvEntry?
    ghost var entries: seq<EnvEntry>  // the list, head first
    ghost var vars: Vars              // the map it stands for
    ghost var Repr: set<object>

    ghost predicate Valid()
      reads this, Repr
    {
      && this in Repr
      && first == From(0)
      && (forall i :: 0 <= i < |entries| ==> EntryOk(i))
      && Distinct(entries)
      && (forall name :: name in vars ==> Present(entries, name))
    }

    ghost predicate EntryOk(i: nat)
      requires i < |entries|
      reads this, Repr
    {
      var e := entries[i];
      e in Repr && e.name in vars && vars[e.name] == e.value && e.next == From(i + 1)
    }

    /** The entry at position i, or null past the end. */
    ghost function From(i: nat): EnvEntry?
      reads this`entries
    {
      if i < |entries| then entries[i] else null
    }

    constructor ()
      ensures Valid() && fresh(Repr) && vars == map[]
    {
      first, entries, vars, Repr := null, [], map[], {this};
    }

    method GetEntry(name: string) returns (entry: EnvEntry?, ghost at: nat)
      requires Valid()
      ensures entry == null <==> name !in vars
      ensures entry == null <==> !Present(entries, name)
      ensures entry != null ==> at < |entries| && entries[at] == entry && entry.name == name
    {
      entry, at := first, 0;
      while entry != null
        invariant at <= |entries| && entry == From(at)
        invariant forall i :: 0 <= i < at ==> entries[i].name != name
        decreases |entries| - at
      {
        assert EntryOk(at);
        if entry.name == name {
          return;
        }
        entry, at := entry.next, at + 1;
      }
    }

    method GetVar(name: string) returns (value: Option<string>)
      requires Valid()
      ensures value == if name in vars then Some(vars[name]) else None
    {
      var entry, at := GetEntry(name);
      if entry != null {
        assert EntryOk(at);
        value := Some(entry.value);
      } else {
        value := None;
      }
    }

    method PutVar(name: string, value: string)
      requires Valid()
      modifies Repr
      ensures Valid() && fresh(Repr - old(Repr)) && vars == old(vars)[name := value]
    {
      var existing, at := GetEntry(name);
      if existing != null {
        assert EntryOk(at);
        SetValue(existing, at, value);
      } else {
        InsertHead(name, value);
      }
    }

    method SetValue(entry: EnvEntry, ghost at: nat, value: string)
      requires Valid() && at < |entries| && entries[at] == entry
      modifies this`vars, entry`value
      ensures Valid() && Repr == old(Repr) && vars == old(vars)[entry.name := value]
    {
      assert EntryOk(at);
      entry.value := value;
      vars := vars[entry.name := value];
      forall i | 0 <= i < |entries| ensures EntryOk(i) {
        assert old(EntryOk(i));
      }
    }

    /** SLIST_INSERT_HEAD */
    method InsertHead(name: string, value: string)
      requires Valid() && !Present(entries, name)
      modifies this
      ensures Valid() && fresh(Repr - old(Repr)) && vars == old(vars)[name := value]
      ensures |entries| > 0 && fresh(entries[0]) && entries[1..] == old(entries)
    {
      var entry := new EnvEntry(name, value, first);
      PresentCons(entry, entries);
      ghost var before := entries;
      first, entries, vars, Repr := entry, [entry] + before, vars[name := value], Repr + {entry};
      forall i | 0 <= i < |entries| ensures EntryOk(i) {
        if i > 0 {
          assert old(EntryOk(i - 1)) && entries[i] == before[i - 1];
        }
      }
    }

    /** SLIST_REMOVE */
    method Remove(entry: EnvEntry, ghost at: nat)
      requires Valid() && at < |entries| && entries[at] == entry
      modifies Repr
      ensures Valid() && fresh(Repr - old(Repr)) && vars == old(vars) - {entry.name}
      ensures entries == old(entries[..at] + entries[at + 1..])
    {
      Unlink(entry, at);
      Forget(entry, at);
    }

    /** Entry i with the link that bypasses position `at`. */
    ghost predicate Bypasses(i: nat, at: nat)
      requires i < |entries|
      reads this, Repr
    {
      var e := entries[i];
      e in Repr && e.name in vars && vars[e.name] == e.value && e.next == From(if i + 1 == at then at + 1 else i + 1)
    }

    method Unlink(entry: EnvEntry, ghost at: nat)
      requires Valid() && at < |entries| && entries[at] == entry
      modifies Repr
      ensures entries == old(entries) && vars == old(vars) && Repr == old(Repr)
      ensures first == From(if at == 0 then 1 else 0)
      ensures forall i :: 0 <= i < |entries| ==> Bypasses(i, at)
    {
      assert EntryOk(at);
      if first == entry {
        assert at == 0;
        first := entry.next;
        forall i | 0 <= i < |entries| ensures Bypasses(i, at) {
          assert old(EntryOk(i));
        }
      } else {
        var cur: EnvEntry, i := first, 0;
        while cur.next != entry
          invariant i < at && cur == entries[i]
          decreases at - i
        {
          assert EntryOk(i);
          cur, i := cur.next, i + 1;
        }
        assert EntryOk(i);
        assert i + 1 == at;
        cur.next := entry.next;
        forall j | 0 <= j < |entries| ensures Bypasses(j, at) {
          assert old(EntryOk(j));
        }
      }
    }

    /** The ghost view catches up with an unlink. */
    ghost method Forget(entry: EnvEntry, at: nat)
      requires at < |entries| && entries[at] == entry
      requires this in Repr && first == From(if at == 0 then 1 else 0)
      requires forall i :: 0 <= i < |entries| ==> Bypasses(i, at)
      requires Distinct(entries) && forall name :: name in vars ==> Present(entries, name)
      modifies this`entries, this`vars
      ensures Valid() && Repr == old(Repr) && vars == old(vars) - {entry.name}
      ensures entries == old(entries[..at] + entries[at + 1..])
    {
      PresentRemove(entries, at);
      ghost var before := entries;
      entries, vars := before[..at] + before[at + 1..], vars - {entry.name};
      forall i | 0 <= i < |entries| ensures EntryOk(i) {
        if i < at {
          assert old(Bypasses(i, at)) && entries[i] == before[i];
        } else {
          assert old(Bypasses(i + 1, at)) && entries[i] == before[i + 1];
        }
      }
    }

    method DelVar(name: string) returns (res: int)
      requires Valid()
      modifies Repr
      ensures Valid() && fresh(Repr - old(Repr)) && vars == old(vars) - {name}
      ensures res == (if name in old(vars) then 0 else 1)
    {
      var entry, at := GetEntry(name);
      res := 0;
      if entry != null {
        Remove(entry, at);
      } else {
        res := 1;
      }
    }

    method ClearEnv()
      requires Valid()
      modifies Repr
      ensures Valid() && fresh(Repr - old(Repr)) && vars == map[] && entries == []
    {
      while first != null
        invariant Valid() && fresh(Repr - old(Repr))
        decreases |entries|
      {
        Remove(first, 0);
      }
      assert forall name :: name in vars ==> Present(entries, name);
    }

    // ----- Expansion

    /** The result buffer always holds one byte more than its recorded length. */
    static method CopyCharAndGrow(dest: array<char>, at: nat, destLen: nat, c: char)
      returns (grown: array<char>, newLen: nat)
      requires dest.Length == destLen + 1 && at <= destLen
      modifies dest
      ensures grown == dest || fresh(grown)
      ensures newLen == (if at == destLen then destLen + 16 else destLen)
      ensures grown.Length == newLen + 1
      ensures grown[..at + 1] == old(dest[..at]) + [c]
    {
      grown, newLen := dest, destLen;
      if at == destLen {
        newLen := destLen + 16;
        grown := new char[newLen + 1];
        forall i | 0 <= i < dest.Length {
          grown[i] := dest[i];
        }
      }
      grown[at] := c;
    }

    static method AppendText(dest: array<char>, at: nat, destLen: nat, text: string)
      returns (grown: array<char>, newLen: nat)
      requires dest.Length == destLen + 1 && at <= destLen
      modifies dest
      ensures grown == dest || fresh(grown)
      ensures grown.Length == newLen + 1 && at + |text| <= newLen
      ensures grown[..at + |text|] == old(dest[..at]) + text
    {
      grown, newLen := dest, destLen;
      var i := 0;
      while i < |text|
        invariant i <= |text| && grown.Length == newLen + 1 && at + i <= newLen
        invariant grown == dest || fresh(grown)
        invariant grown[..at + i] == old(dest[..at]) + text[..i]
      {
        grown, newLen := CopyCharAndGrow(grown, at + i, newLen, text[i]);
        i := i + 1;
      }
    }

    /** One iteration of the scanner at position idx. */
    method ScanChar(input: string, idx: nat, res: array<char>, resIdx: nat, resLen: nat,
                    inVar: bool, varS: nat, ghost out: string)
      returns (res': array<char>, resIdx': nat, resLen': nat, inVar': bool, varS': nat, ghost out': string)
      requires Valid() && idx < |input| < SIZE_T_MODULUS
      requires resIdx <= resLen && res.Length == resLen + 1 && res[..resIdx] == out
      requires Scanned(vars, input, idx, inVar, varS, out)
      modifies res
      ensures res' == res || fresh(res')
      ensures resIdx' <= resLen' && res'.Length == resLen' + 1 && res'[..resIdx'] == out'
      ensures Scanned(vars, input, idx + 1, inVar', varS', out')
    {
      hide Scanned, Expand, ExpandRef;
      res', resIdx', resLen', inVar', varS', out' := res, resIdx, resLen, inVar, varS, out;
      if !inVar {
        var opens := false;
        // the subtraction wraps for inputs shorter than two characters
        if idx < (|input| + SIZE_T_MODULUS - 2) % SIZE_T_MODULUS {
          opens := input[idx] == '$' && At(input, idx + 1) == '(';
        }
        OpensIff(input, idx);
        if opens {
          OpenStep(vars, input, idx, varS, out);
          inVar', varS' := true, idx + 2;
        } else {
          LiteralStep(vars, input, idx, varS, out);
          res', resLen' := CopyCharAndGrow(res, resIdx, resLen, input[idx]);
          resIdx', out' := resIdx + 1, out + [input[idx]];
        }
      } else if input[idx] == ')' {
        CloseStep(vars, input, idx, varS, out);
        var value := GetVar(input[varS..idx]);
        out' := out + Lookup(vars, input[varS..idx]);
        if value.Some? {
          res', resLen' := AppendText(res, resIdx, resLen, value.value);
          resIdx' := resIdx + |value.value|;
        }
        inVar', varS' := false, idx;
      } else {
        InsideStep(vars, input, idx, varS, out);
      }
    }

    method ExpandVars(input: string) returns (res: array<char>, resIdx: nat)
      requires Valid() && |input| < SIZE_T_MODULUS
      ensures fresh(res) && resIdx < res.Length
      ensures res[..resIdx] == Expand(vars, input) && res[resIdx] == '\0'
    {
      var resLen := |input|;
      res := new char[resLen + 1](i requires 0 <= i <= |input| => At(input, i));
      resIdx := 0;
      var idx, varS, inVar := 0, 0, false;
      ghost var out := "";
      ScanStart(vars, input);
      while idx < |input|
        invariant Valid() && fresh(res) && idx <= |input|
        invariant resIdx <= resLen && res.Length == resLen + 1 && res[..resIdx] == out
        invariant Scanned(vars, input, idx, inVar, varS, out)
      {
        res, resIdx, resLen, inVar, varS, out := ScanChar(input, idx, res, resIdx, resLen, inVar, varS, out);
        idx := idx + 1;
      }
      ScanEnd(vars, input, idx, inVar, varS, out);
      res[resIdx] := '\0';
    }
  }

  lemma OpensIff(input: string, idx: nat)
    requires idx < |input| < SIZE_T_MODULUS
    ensures OpensRef(input[idx..]) <==>
            && idx < (|input| + SIZE_T_MODULUS - 2) % SIZE_T_MODULUS
            && input[idx] == '$' && At(input, idx + 1) == '('
  {
  }

  // ----- The scanner's invariant and its steps

  /** `out` is the expansion of what was read before idx, with a reference open at varS when inVar. */
  ghost predicate Scanned(env: Vars, input: string, idx: nat, inVar: bool, varS: nat, out: string) {
    && idx <= |input|
    && (!inVar ==> Expand(env, input) == out + Expand(env, input[idx..]))
    && (inVar ==>
          && varS <= idx + 1 && varS < |input|
          && (forall i :: varS <= i < idx ==> input[i] != ')')
          && (idx < varS ==> input[idx] != ')')
          && Expand(env, input) == out + ExpandRef(env, input[varS..]))
  }

  lemma ScanStart(env: Vars, input: string)
    ensures Scanned(env, input, 0, false, 0, "")
  {
    assert input[0..] == input;
  }

  lemma ScanEnd(env: Vars, input: string, idx: nat, inVar: bool, varS: nat, out: string)
    requires Scanned(env, input, idx, inVar, varS, out) && idx >= |input|
    ensures Expand(env, input) == out
  {
  }

  lemma OpenStep(env: Vars, input: string, idx: nat, varS: nat, out: string)
    requires Scanned(env, input, idx, false, varS, out) && OpensRef(input[idx..])
    ensures Scanned(env, input, idx + 1, true, idx + 2, out)
  {
    assert input[idx..][2..] == input[idx + 2..];
    assert input[idx + 1] == '(';
  }

  lemma LiteralStep(env: Vars, input: string, idx: nat, varS: nat, out: string)
    requires Scanned(env, input, idx, false, varS, out) && idx < |input| && !OpensRef(input[idx..])
    ensures Scanned(env, input, idx + 1, false, varS, out + [input[idx]])
  {
    assert input[idx..][1..] == input[idx + 1..];
    Associate(out, [input[idx]], Expand(env, input[idx + 1..]));
  }

  lemma InsideStep(env: Vars, input: string, idx: nat, varS: nat, out: string)
    requires Scanned(env, input, idx, true, varS, out) && idx < |input| && input[idx] != ')'
    ensures Scanned(env, input, idx + 1, true, varS, out)
  {
  }

  lemma CloseStep(env: Vars, input: string, idx: nat, varS: nat, out: string)
    requires Scanned(env, input, idx, true, varS, out) && idx < |input| && input[idx] == ')'
    ensures varS <= idx
    ensures Scanned(env, input, idx + 1, false, idx, out + Lookup(env, input[varS..idx]))
  {
    var s := input[varS..];
    assert s[idx - varS] == ')';
    assert ')' !in s[..idx - varS];
    assert s[..idx - varS] == input[varS..idx] && s[idx - varS + 1..] == input[idx + 1..];
    hide Lookup;
    Associate(out, Lookup(env, input[varS..idx]), Expand(env, input[idx + 1..]));
  }
}
