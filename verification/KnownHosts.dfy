/** The table of known hosts: insertion at the head, removal while iterating, lookups, and saving it as commands. */
module KnownHosts {
  import opened CText
  import Expansion

  const HOSTNAME_MAXLEN := 50
  const MAX_NODE := 16384

  datatype Host = Host(node: int, name: string)

  // ----- The table as a list, newest first

  function Clip(s: string, n: nat): string {
    if |s| <= n then s else s[..n]
  }

  /** What fits in the name field beside its terminator. */
  function Stored(name: string): string { Clip(name, HOSTNAME_MAXLEN - 1) }

  function Without(t: seq<Host>, node: int): seq<Host> {
    if t == [] then []
    else if t[0].node == node then Without(t[1..], node)
    else [t[0]] + Without(t[1..], node)
  }

  predicate HasNode(t: seq<Host>, node: int) { exists i :: 0 <= i < |t| && t[i].node == node }

  function Add(t: seq<Host>, addr: int, name: string, overrideExisting: bool): seq<Host> {
    if addr == 0 || (!overrideExisting && HasNode(t, addr)) then t
    else [Host(addr, Stored(name))] + (if overrideExisting then Without(t, addr) else t)
  }

  function GetName(t: seq<Host>, node: int): Option<string> {
    if t == [] then None else if t[0].node == node then Some(t[0].name) else GetName(t[1..], node)
  }

  /** What strncpy() leaves in a buffer. */
  function Padded(s: string, buflen: nat): (r: string)
    ensures |r| == buflen
  {
    seq(buflen, i requires 0 <= i < buflen => if i < |s| then s[i] else '\0')
  }

  /** strncmp over the size of the name field; -1 when there is no such host. */
  function GetNode(t: seq<Host>, name: string): int {
    if t == [] then -1
    else if Clip(name, HOSTNAME_MAXLEN) == Clip(t[0].name, HOSTNAME_MAXLEN) then t[0].node
    else GetNode(t[1..], name)
  }

  /** Names of up to 49 characters are kept, longer ones cut there. */
  lemma StoredIsCut(name: string)
    ensures |name| <= 49 ==> Stored(name) == name
    ensures |name| > 49 ==> Stored(name) == name[..49]
  {
  }

  /** Node numbers are nonzero and pairwise distinct, and names fit their field. */
  predicate WellFormed(t: seq<Host>) {
    && (forall i :: 0 <= i < |t| ==> t[i].node != 0 && |t[i].name| < HOSTNAME_MAXLEN)
    && (forall i, j :: 0 <= i < j < |t| ==> t[i].node != t[j].node)
  }

  lemma {:induction false} WithoutHosts(t: seq<Host>, node: int, h: Host)
    ensures h in Without(t, node) <==> h in t && h.node != node
  {
    if t != [] {
      WithoutHosts(t[1..], node, h);
      assert h in t <==> h == t[0] || h in t[1..];
    }
  }

  lemma {:induction false} WithoutWellFormed(t: seq<Host>, node: int)
    requires WellFormed(t)
    ensures WellFormed(Without(t, node)) && !HasNode(Without(t, node), node)
  {
    if t != [] {
      var rest := Without(t[1..], node);
      WithoutWellFormed(t[1..], node);
      forall i | 0 <= i < |rest| ensures rest[i].node != t[0].node {
        WithoutHosts(t[1..], node, rest[i]);
        assert rest[i] in t[1..];
      }
    }
  }

  lemma {:induction false} WithoutAbsent(t: seq<Host>, node: int)
    requires !HasNode(t, node)
    ensures Without(t, node) == t
  {
    if t != [] {
      assert t[0].node != node;
      assert !HasNode(t[1..], node) by {
        assert forall i :: 0 <= i < |t[1..]| ==> t[1..][i] == t[i + 1];
      }
      WithoutAbsent(t[1..], node);
    }
  }

  /** Node 0 is refused and, unless told to override, a known node is kept; otherwise the host goes to the front, and only
      entries of its node go. */
  lemma AddMeaning(t: seq<Host>, addr: int, name: string, overrideExisting: bool)
    ensures var t' := Add(t, addr, name, overrideExisting);
            && (addr == 0 || (!overrideExisting && HasNode(t, addr)) ==> t' == t)
            && (addr != 0 && !HasNode(t, addr) ==> t' == [Host(addr, Stored(name))] + t)
            && (addr != 0 && overrideExisting ==>
                  t' != [] && t'[0] == Host(addr, Stored(name)) && forall h :: h in t'[1..] <==> h in t && h.node != addr)
  {
    hide Without;
    if !HasNode(t, addr) { WithoutAbsent(t, addr); }
    forall h ensures h in Without(t, addr) <==> h in t && h.node != addr {
      WithoutHosts(t, addr, h);
    }
  }

  lemma AddWellFormed(t: seq<Host>, addr: int, name: string, overrideExisting: bool)
    requires WellFormed(t)
    ensures WellFormed(Add(t, addr, name, overrideExisting))
  {
    WithoutWellFormed(t, addr);
  }

  // ----- Every reachable table

  datatype Request = Request(addr: int, name: string, overrideExisting: bool)

  function Serve(t: seq<Host>, requests: seq<Request>): seq<Host>
    decreases |requests|
  {
    if requests == [] then t
    else Serve(Add(t, requests[0].addr, requests[0].name, requests[0].overrideExisting), requests[1..])
  }

  lemma {:induction false} ReachableWellFormed(t: seq<Host>, requests: seq<Request>)
    requires WellFormed(t)
    ensures WellFormed(Serve(t, requests))
    decreases |requests|
  {
    if requests != [] {
      var r := requests[0];
      AddWellFormed(t, r.addr, r.name, r.overrideExisting);
      ReachableWellFormed(Add(t, r.addr, r.name, r.overrideExisting), requests[1..]);
    }
  }

  /** Name lookup finds the newest host of that name, node lookup the host itself; other names and nodes are unaffected
      except that the previous holder of the node is forgotten. */
  lemma LookupAfterAdd(t: seq<Host>, addr: int, name: string)
    requires WellFormed(t) && addr != 0
    ensures var t' := Add(t, addr, name, true);
            && GetNode(t', Stored(name)) == addr && GetName(t', addr) == Some(Stored(name))
            && (forall other :: Clip(other, HOSTNAME_MAXLEN) != Stored(name) ==>
                  GetNode(t', other) == GetNode(Without(t, addr), other))
            && (forall node :: node != addr ==> GetName(t', node) == GetName(t, node))
  {
    var t' := Add(t, addr, name, true);
    assert t'[1..] == Without(t, addr) && Clip(Stored(name), HOSTNAME_MAXLEN) == Stored(name);
    forall other | Clip(other, HOSTNAME_MAXLEN) != Stored(name)
      ensures GetNode(t', other) == GetNode(Without(t, addr), other)
    {
      assert t'[0].name == Stored(name);
    }
    forall node | node != addr ensures GetName(t', node) == GetName(t, node) {
      NameUnaffected(t, addr, node);
    }
  }

  /** Removing another host leaves the newest match where it is. */
  lemma {:induction false} MatchUnaffected(t: seq<Host>, gone: int, name: string)
    requires GetNode(t, name) != gone
    ensures GetNode(Without(t, gone), name) == GetNode(t, name)
  {
    if t != [] && !Named(t[0], name) {
      MatchUnaffected(t[1..], gone, name);
      if t[0].node != gone {
        assert Without(t, gone)[1..] == Without(t[1..], gone);
      }
    } else if t != [] {
      assert Without(t, gone)[0] == t[0];
    }
  }

  /** The request neither takes the node nor the name. */
  predicate Unrelated(r: Request, node: int, name: string) {
    r.addr != node && Clip(name, HOSTNAME_MAXLEN) != Stored(r.name)
  }

  /** Over any later requests, the host inserted last under a name is the one found, until its node or name is taken. */
  lemma {:induction false} NewestMatchFound(t: seq<Host>, requests: seq<Request>, node: int, name: string)
    requires GetNode(t, name) == node && forall r :: r in requests ==> Unrelated(r, node, name)
    ensures GetNode(Serve(t, requests), name) == node
    decreases |requests|
  {
    if requests != [] {
      var r := requests[0];
      assert Unrelated(r, node, name);
      MatchUnaffected(t, r.addr, name);
      var t' := Add(t, r.addr, r.name, r.overrideExisting);
      if t' != t {
        assert t'[1..] == (if r.overrideExisting then Without(t, r.addr) else t);
        assert t'[0].name == Stored(r.name);
      }
      NewestMatchFound(t', requests[1..], node, name);
    }
  }

  predicate Named(h: Host, name: string) { Clip(name, HOSTNAME_MAXLEN) == Clip(h.name, HOSTNAME_MAXLEN) }

  lemma {:induction false} NameUnaffected(t: seq<Host>, gone: int, node: int)
    requires node != gone
    ensures GetName(Without(t, gone), node) == GetName(t, node)
  {
    if t != [] {
      NameUnaffected(t[1..], gone, node);
      if t[0].node != gone {
        assert Without(t, gone)[1..] == Without(t[1..], gone);
      }
    }
  }

  // ----- Saving and replaying

  /** The command that restores a host. */
  function SavedLine(h: Host): string {
    "node add -n " + (PrintInt(h.node) + (" " + h.name))
  }

  function SavedLines(t: seq<Host>): seq<string> {
    if t == [] then [] else [SavedLine(t[0])] + SavedLines(t[1..])
  }

  lemma SavedLineText(name: string)
    ensures SavedLine(Host(5, name)) == "node add -n 5 " + name
  {
    assert PrintInt(5) == "5";
    assert "node add -n " + ("5" + (" " + name)) == "node add -n 5 " + name;
  }

  /** The blank-separated words of a command line. */
  function Words(line: string): seq<string>
    decreases |line|
  {
    match NextToken(line, ' ')
    case None => []
    case Some((word, rest)) => [word] + Words(rest)
  }

  /** get_host_by_addr_or_name: a number below 16384, otherwise a known name. */
  function NodeArgument(t: seq<Host>, arg: string): Option<int> {
    match ScanInt(arg)
    case Number(n, rest) =>
      if n < MAX_NODE && rest == "" then Some(n)
      else if GetNode(t, arg) >= 0 then Some(GetNode(t, arg)) else None
    case NoNumber => if GetNode(t, arg) >= 0 then Some(GetNode(t, arg)) else None
  }

  /** A number below 16384 is a node; any other is looked up as a name. */
  lemma NumbersAreNodes(t: seq<Host>, n: int)
    ensures NodeArgument(t, PrintInt(n))
         == if n < 16384 then Some(n) else if GetNode(t, PrintInt(n)) >= 0 then Some(GetNode(t, PrintInt(n))) else None
  {
    hide ScanInt, PrintInt, GetNode;
    ScanPrinted(n, "");
    assert PrintInt(n) + "" == PrintInt(n);
  }

  /** The table, and the variables a command line is expanded with. */
  datatype Shell = Shell(hosts: seq<Host>, vars: Expansion.Vars)

  /** `node add -n <node> <name>`, which also sets a variable of that name; anything else leaves both alone here. */
  function ExecuteLine(s: Shell, line: string): Shell {
    var words := Words(Expansion.Expand(s.vars, line));
    if |words| >= 5 && words[..3] == ["node", "add", "-n"] then
      match NodeArgument(s.hosts, words[3])
      case Some(node) =>
        if node == 0 then s
        else Shell(Add(s.hosts, node, words[4], true), s.vars[Stored(words[4]) := PrintInt(node)])
      case None => s
    else s
  }

  function Replay(s: Shell, lines: seq<string>): Shell
    decreases |lines|
  {
    if lines == [] then s else Replay(ExecuteLine(s, lines[0]), lines[1..])
  }

  predicate IsWord(w: string) { w != "" && ' ' !in w }

  /** Hosts whose saved line is one command with five words. */
  predicate Writable(h: Host) { 1 <= h.node < MAX_NODE && IsWord(h.name) }

  /** And it holds nothing to expand. */
  predicate Plain(h: Host) { Writable(h) && !Expansion.HoldsRef(h.name) }

  lemma WordsCons(word: string, rest: string)
    requires word != "" && ' ' !in word
    ensures Words(word + (" " + rest)) == [word] + Words(rest) && Words(word) == [word]
  {
    NextTokenAppend(word, ' ', rest);
    assert word + [' '] + rest == word + (" " + rest);
    assert Words("") == [];
  }

  /** The words of a saved line. */
  lemma SavedWords(node: int, name: string)
    requires node > 0 && ' ' !in name
    ensures Words(SavedLine(Host(node, name))) == ["node", "add", "-n", PrintInt(node)] + if name == "" then [] else [name]
  {
    hide Words;
    var number := PrintInt(node);
    var line := number + (" " + name);
    assert IsWord(number) && IsWord("node") && IsWord("add") && IsWord("-n");
    Spell(line);
    WordsCons(number, name);
    WordsCons("-n", line);
    WordsCons("add", "-n" + (" " + line));
    WordsCons("node", "add" + (" " + ("-n" + (" " + line))));
    if name == "" {
      NoWords();
    } else {
      WordsCons(name, "");
    }
    assert ["node"] + (["add"] + (["-n"] + ([number] + Words(name)))) == ["node", "add", "-n", number] + Words(name);
  }

  lemma NoWords()
    ensures Words("") == []
  {
  }

  lemma Spell(rest: string)
    ensures "node add -n " + rest == "node" + (" " + ("add" + (" " + ("-n" + (" " + rest)))))
  {
    assert "node add -n " == "node" + (" " + ("add" + (" " + ("-n" + " "))));
  }

  /** Only the name of a saved line can be expanded. */
  lemma SavedLineExpands(h: Host, vars: Expansion.Vars)
    requires h.node > 0
    ensures Expansion.Expand(vars, SavedLine(h)) == SavedLine(Host(h.node, Expansion.Expand(vars, h.name)))
  {
    var number := PrintInt(h.node);
    var front := "node add -n " + (number + " ");
    forall name: string ensures SavedLine(Host(h.node, name)) == front + name {
      assert "node add -n " + (number + (" " + name)) == front + name;
    }
    assert '$' !in number;
    Expansion.ExpandAfterFront(vars, front, h.name);
  }

  /** What a saved line does: it adds the host under the expanded name, unless nothing is left of the name. */
  lemma ExecuteSaved(s: Shell, h: Host)
    requires Writable(h) && ' ' !in Expansion.Expand(s.vars, h.name)
    ensures var name := Expansion.Expand(s.vars, h.name);
            ExecuteLine(s, SavedLine(h))
            == if name == "" then s
               else Shell(Add(s.hosts, h.node, name, true), s.vars[Stored(name) := PrintInt(h.node)])
  {
    var name := Expansion.Expand(s.vars, h.name);
    SavedLineExpands(h, s.vars);
    SavedWords(h.node, name);
    ScanPrinted(h.node, "");
    assert PrintInt(h.node) + "" == PrintInt(h.node);
    hide Words, PrintInt, ScanInt, GetNode, SavedLine, Expansion.Expand, Add;
    var words := Words(SavedLine(Host(h.node, name)));
    if name != "" {
      assert words[..3] == ["node", "add", "-n"] && words[3] == PrintInt(h.node) && words[4] == name;
    }
  }

  lemma ReplaySavedLine(s: Shell, h: Host)
    requires Plain(h) && |h.name| < HOSTNAME_MAXLEN && !HasNode(s.hosts, h.node)
    ensures ExecuteLine(s, SavedLine(h)) == Shell([h] + s.hosts, s.vars[h.name := PrintInt(h.node)])
  {
    Expansion.ExpandWithoutRefs(s.vars, h.name);
    ExecuteSaved(s, h);
    WithoutAbsent(s.hosts, h.node);
    hide ExecuteLine, SavedLine, Without;
  }

  /** Variables as `node add` sets them: no blank to split a line, no '$' to open a reference. */
  predicate Harmless(vars: Expansion.Vars) {
    forall name :: name in vars ==> '$' !in vars[name] && ' ' !in vars[name]
  }

  /** A name with a reference does not come back as itself. */
  lemma RefChangesName(vars: Expansion.Vars, name: string)
    requires Harmless(vars) && Expansion.HoldsRef(name)
    ensures Stored(Expansion.Expand(vars, name)) != name
  {
    hide Expansion.HoldsRef, Expansion.Expand;
    var e := Expansion.Expand(vars, name);
    Expansion.RefLosesDollar(vars, name);
    Expansion.DollarsSplit(e, |Stored(e)|);
    assert Stored(e) == e[..|Stored(e)|];
  }

  /** A saved host comes back from every shell that does not know its node exactly when its name holds no reference. */
  lemma ComesBackIffNoRef(h: Host)
    requires Writable(h) && |h.name| < HOSTNAME_MAXLEN
    ensures (forall s: Shell :: !HasNode(s.hosts, h.node) ==> ExecuteLine(s, SavedLine(h)).hosts == [h] + s.hosts)
            <==> !Expansion.HoldsRef(h.name)
  {
    hide ExecuteLine, SavedLine, Expansion.HoldsRef;
    if Expansion.HoldsRef(h.name) {
      var s := Shell([], map[]);
      Expansion.ExpandAddsNone(s.vars, h.name, ' ');
      ExecuteSaved(s, h);
      RefChangesName(s.vars, h.name);
      var after := ExecuteLine(s, SavedLine(h)).hosts;
      assert after == [] || after[0].name == Stored(Expansion.Expand(s.vars, h.name));
      assert ([h] + s.hosts)[0] == h;
      assert !HasNode(s.hosts, h.node) && after != [h] + s.hosts;
    } else {
      forall s: Shell | !HasNode(s.hosts, h.node) ensures ExecuteLine(s, SavedLine(h)).hosts == [h] + s.hosts {
        ReplaySavedLine(s, h);
      }
    }
  }

  /** For one, the host `$(x)y` comes back as `y`. */
  lemma ReferenceInNameIsLost()
    ensures ExecuteLine(Shell([], map[]), SavedLine(Host(1, "$(x)y"))) == Shell([Host(1, "y")], map["y" := "1"])
  {
    hide ExecuteLine, Expansion.Expand, SavedLine;
    NameExpands();
    ExecuteSaved(Shell([], map[]), Host(1, "$(x)y"));
    assert PrintInt(1) == "1" && Without([], 1) == [];
  }

  lemma NameExpands()
    ensures Expansion.Expand(map[], "$(x)y") == "y"
  {
    var name := "$(x)y";
    assert name[2..] == "x)y" && "x)y"[..1] == "x" && "x)y"[2..] == "y" && "y"[1..] == "";
    assert Expansion.IndexOf("x)y", ')') == Some(1);
    assert Expansion.ExpandRef(map[], "x)y") == Expansion.Lookup(map[], "x") + Expansion.Expand(map[], "y");
    assert Expansion.Expand(map[], "y") == "y";
  }

  function Reverse(t: seq<Host>): seq<Host> {
    if t == [] then [] else Reverse(t[1..]) + [t[0]]
  }

  /** The hosts can be replayed on top of what is already loaded. */
  predicate Loadable(t: seq<Host>, loaded: seq<Host>) {
    WellFormed(t) && forall i :: 0 <= i < |t| ==> Plain(t[i]) && !HasNode(loaded, t[i].node)
  }

  lemma LoadableTail(t: seq<Host>, loaded: seq<Host>)
    requires t != [] && Loadable(t, loaded)
    ensures Loadable(t[1..], [t[0]] + loaded)
  {
    var next := [t[0]] + loaded;
    forall i | 0 <= i < |t[1..]| ensures Plain(t[1..][i]) && !HasNode(next, t[1..][i].node) {
      assert t[1..][i] == t[i + 1] && t[i + 1].node != t[0].node;
      assert !HasNode(loaded, t[i + 1].node);
      assert forall j :: 0 < j < |next| ==> next[j] == loaded[j - 1];
    }
  }

  /** Replaying the saved commands into an empty table reverses it, whatever variables are set before. */
  lemma {:induction false} ReplayReverses(t: seq<Host>, loaded: seq<Host>, vars: Expansion.Vars)
    requires Loadable(t, loaded)
    ensures Replay(Shell(loaded, vars), SavedLines(t)).hosts == Reverse(t) + loaded
    decreases |t|
  {
    if t != [] {
      ReplayHead(t, loaded, vars);
      LoadableTail(t, loaded);
      ReverseOnto(t, loaded);
      hide Replay, SavedLines, Loadable, Reverse;
      ReplayReverses(t[1..], [t[0]] + loaded, vars[t[0].name := PrintInt(t[0].node)]);
    }
  }

  lemma ReplayHead(t: seq<Host>, loaded: seq<Host>, vars: Expansion.Vars)
    requires t != [] && Loadable(t, loaded)
    ensures Replay(Shell(loaded, vars), SavedLines(t))
         == Replay(Shell([t[0]] + loaded, vars[t[0].name := PrintInt(t[0].node)]), SavedLines(t[1..]))
  {
    assert Plain(t[0]) && !HasNode(loaded, t[0].node);
    ReplaySavedLine(Shell(loaded, vars), t[0]);
    hide ExecuteLine, SavedLine;
    var lines := SavedLines(t);
    assert lines[0] == SavedLine(t[0]) && lines[1..] == SavedLines(t[1..]);
  }

  /** While a saved table is replayed, a host whose name holds a reference never appears. */
  lemma {:induction false} LostForGood(t: seq<Host>, s: Shell, h: Host)
    requires (forall i :: 0 <= i < |t| ==> Writable(t[i]) && (t[i].node == h.node ==> t[i] == h))
    requires Harmless(s.vars) && Expansion.HoldsRef(h.name) && h !in s.hosts
    ensures h !in Replay(s, SavedLines(t)).hosts
    decreases |t|
  {
    hide ExecuteLine, SavedLine, Expansion.Expand, Expansion.HoldsRef, Without;
    if t != [] {
      var g := t[0];
      var name, next := Expansion.Expand(s.vars, g.name), ExecuteLine(s, SavedLine(g));
      Expansion.ExpandAddsNone(s.vars, g.name, ' ');
      ExecuteSaved(s, g);
      WithoutHosts(s.hosts, g.node, h);
      if g == h { RefChangesName(s.vars, h.name); }
      assert '$' !in PrintInt(g.node) && ' ' !in PrintInt(g.node);
      LostForGood(t[1..], next, h);
      assert SavedLines(t)[0] == SavedLine(g) && SavedLines(t)[1..] == SavedLines(t[1..]);
    }
  }

  lemma {:induction false} InReverse(t: seq<Host>, h: Host)
    ensures h in Reverse(t) <==> h in t
  {
    if t != [] {
      InReverse(t[1..], h);
      assert t == [t[0]] + t[1..];
    }
  }

  predicate NoRefs(t: seq<Host>) { forall i :: 0 <= i < |t| ==> !Expansion.HoldsRef(t[i].name) }

  /** A whole table comes back, reversed, exactly when no name in it holds a reference; and then from any variables. */
  lemma TableComesBackIffNoRefs(t: seq<Host>)
    requires WellFormed(t) && forall i :: 0 <= i < |t| ==> Writable(t[i])
    ensures Replay(Shell([], map[]), SavedLines(t)).hosts == Reverse(t) <==> NoRefs(t)
    ensures NoRefs(t) ==> forall vars: Expansion.Vars :: Replay(Shell([], vars), SavedLines(t)).hosts == Reverse(t)
  {
    hide Expansion.HoldsRef, Replay, SavedLines, Reverse, WellFormed;
    if NoRefs(t) {
      forall vars: Expansion.Vars ensures Replay(Shell([], vars), SavedLines(t)).hosts == Reverse(t) {
        PlainTableComesBack(t, vars);
      }
    } else {
      var i :| 0 <= i < |t| && Expansion.HoldsRef(t[i].name);
      LostFromTable(t, i);
      InReverse(t, t[i]);
    }
  }

  lemma PlainTableComesBack(t: seq<Host>, vars: Expansion.Vars)
    requires WellFormed(t) && NoRefs(t) && forall i :: 0 <= i < |t| ==> Writable(t[i])
    ensures Replay(Shell([], vars), SavedLines(t)).hosts == Reverse(t)
  {
    hide Expansion.HoldsRef, Replay, SavedLines, Reverse, WellFormed, Writable;
    assert Loadable(t, []);
    ReplayReverses(t, [], vars);
    assert Reverse(t) + [] == Reverse(t);
  }

  lemma LostFromTable(t: seq<Host>, i: nat)
    requires WellFormed(t) && (forall i :: 0 <= i < |t| ==> Writable(t[i])) && i < |t| && Expansion.HoldsRef(t[i].name)
    ensures t[i] !in Replay(Shell([], map[]), SavedLines(t)).hosts
  {
    hide Expansion.HoldsRef, Replay, SavedLines, Writable;
    LostForGood(t, Shell([], map[]), t[i]);
  }

  /** Such a table is one `known_hosts_add` away: names are taken as they come. */
  lemma LostHostIsReachable(h: Host)
    requires Writable(h) && |h.name| < HOSTNAME_MAXLEN && Expansion.HoldsRef(h.name)
    ensures var t := Serve([], [Request(h.node, h.name, false)]);
            t == [h] && Replay(Shell([], map[]), SavedLines(t)).hosts != Reverse(t)
  {
    hide Expansion.HoldsRef, Replay, SavedLines, Reverse;
    var r := Request(h.node, h.name, false);
    assert [r][1..] == [] && Add([], h.node, h.name, false) == [h];
    assert !NoRefs([h]) by { assert Expansion.HoldsRef([h][0].name); }
    TableComesBackIffNoRefs([h]);
  }

  lemma ReverseOnto(t: seq<Host>, loaded: seq<Host>)
    requires t != []
    ensures Reverse(t) + loaded == Reverse(t[1..]) + ([t[0]] + loaded)
  {
  }

  // ----- What survives the reversal

  lemma {:induction false} ReverseAt(t: seq<Host>, i: nat)
    requires i < |t|
    ensures |Reverse(t)| == |t| && Reverse(t)[|t| - 1 - i] == t[i]
  {
    if i == 0 {
      ReverseLength(t[1..]);
    } else {
      ReverseAt(t[1..], i - 1);
    }
  }

  lemma {:induction false} ReverseLength(t: seq<Host>)
    ensures |Reverse(t)| == |t|
  {
    if t != [] { ReverseLength(t[1..]); }
  }

  /** Node lookup returns the name of the only host with that node. */
  lemma {:induction false} GetNameAt(t: seq<Host>, i: nat)
    requires WellFormed(t) && i < |t|
    ensures GetName(t, t[i].node) == Some(t[i].name)
  {
    if i > 0 {
      assert t[0].node != t[i].node;
      GetNameAt(t[1..], i - 1);
    }
  }

  lemma ReverseWellFormed(t: seq<Host>)
    requires WellFormed(t)
    ensures WellFormed(Reverse(t))
  {
    var r := Reverse(t);
    ReverseLength(t);
    forall k | 0 <= k < |r| ensures r[k] == t[|t| - 1 - k] {
      ReverseAt(t, |t| - 1 - k);
    }
  }

  /** The node-to-name map is the same after saving and replaying. */
  lemma SameNamesAfterReplay(t: seq<Host>, node: int)
    requires WellFormed(t)
    ensures GetName(Reverse(t), node) == GetName(t, node)
  {
    ReverseWellFormed(t);
    ReverseLength(t);
    NameIffNode(t, node);
    NameIffNode(Reverse(t), node);
    if HasNode(t, node) {
      var i :| 0 <= i < |t| && t[i].node == node;
      ReverseAt(t, i);
      GetNameAt(t, i);
      GetNameAt(Reverse(t), |t| - 1 - i);
    } else if HasNode(Reverse(t), node) {
      var k :| 0 <= k < |t| && Reverse(t)[k].node == node;
      ReverseAt(t, |t| - 1 - k);
    }
  }

  /** Name lookup returns the newest host of that name. */
  lemma {:induction false} GetNodeFirst(t: seq<Host>, name: string, i: nat)
    requires i < |t| && Named(t[i], name) && forall j :: 0 <= j < i ==> !Named(t[j], name)
    ensures GetNode(t, name) == t[i].node
  {
    if i > 0 {
      assert !Named(t[0], name);
      GetNodeFirst(t[1..], name, i - 1);
    }
  }

  lemma {:induction false} GetNodeNone(t: seq<Host>, name: string)
    requires forall j :: 0 <= j < |t| ==> !Named(t[j], name)
    ensures GetNode(t, name) == -1
  {
    if t != [] {
      assert !Named(t[0], name);
      GetNodeNone(t[1..], name);
    }
  }

  predicate DistinctNames(t: seq<Host>) {
    forall i, j :: 0 <= i < j < |t| ==> t[i].name != t[j].name
  }

  ghost predicate SameNodes(t: seq<Host>, u: seq<Host>) {
    forall name :: GetNode(t, name) == GetNode(u, name)
  }

  /** The first and the last host with a name; they differ only if the name is used twice. */
  lemma {:induction false} LastNamed(t: seq<Host>, name: string, from: nat) returns (last: nat)
    requires from < |t| && Named(t[from], name)
    ensures from <= last < |t| && Named(t[last], name) && forall j :: last < j < |t| ==> !Named(t[j], name)
    decreases |t| - from
  {
    if exists j :: from < j < |t| && Named(t[j], name) {
      var j :| from < j < |t| && Named(t[j], name);
      last := LastNamed(t, name, j);
    } else {
      last := from;
    }
  }

  lemma {:induction false} FirstNamed(t: seq<Host>, name: string, upto: nat) returns (first: nat)
    requires upto < |t| && Named(t[upto], name)
    ensures first <= upto && Named(t[first], name) && forall j :: 0 <= j < first ==> !Named(t[j], name)
    decreases upto
  {
    if exists j :: 0 <= j < upto && Named(t[j], name) {
      var j :| 0 <= j < upto && Named(t[j], name);
      first := FirstNamed(t, name, j);
    } else {
      first := upto;
    }
  }

  lemma ReverseFindsLast(t: seq<Host>, name: string, last: nat)
    requires last < |t| && Named(t[last], name) && forall j :: last < j < |t| ==> !Named(t[j], name)
    ensures GetNode(Reverse(t), name) == t[last].node
  {
    ReverseAt(t, last);
    forall k | 0 <= k < |t| - 1 - last ensures !Named(Reverse(t)[k], name) {
      ReverseAt(t, |t| - 1 - k);
    }
    GetNodeFirst(Reverse(t), name, |t| - 1 - last);
  }

  /** Name lookup survives saving and replaying exactly when no name is used twice. */
  lemma NodesSurviveIffDistinctNames(t: seq<Host>)
    requires WellFormed(t)
    ensures SameNodes(t, Reverse(t)) <==> DistinctNames(t)
  {
    if DistinctNames(t) {
      forall name ensures GetNode(t, name) == GetNode(Reverse(t), name) {
        DistinctNamesAgree(t, name);
      }
    } else {
      var i, j :| 0 <= i < j < |t| && t[i].name == t[j].name;
      var name := t[i].name;
      var first := FirstNamed(t, name, i);
      var last := LastNamed(t, name, j);
      GetNodeFirst(t, name, first);
      ReverseFindsLast(t, name, last);
      assert t[first].node != t[last].node;
      assert GetNode(t, name) != GetNode(Reverse(t), name);
    }
  }

  lemma DistinctNamesAgree(t: seq<Host>, name: string)
    requires WellFormed(t) && DistinctNames(t)
    ensures GetNode(t, name) == GetNode(Reverse(t), name)
  {
    if exists i :: 0 <= i < |t| && Named(t[i], name) {
      var i :| 0 <= i < |t| && Named(t[i], name);
      var first := FirstNamed(t, name, i);
      var last := LastNamed(t, name, i);
      assert t[first].name == t[last].name;
      GetNodeFirst(t, name, first);
      ReverseFindsLast(t, name, last);
    } else {
      GetNodeNone(t, name);
      ReverseLength(t);
      forall k | 0 <= k < |t| ensures !Named(Reverse(t)[k], name) {
        ReverseAt(t, |t| - 1 - k);
      }
      GetNodeNone(Reverse(t), name);
    }
  }

  // ----- The linked list

  class HostEntry {
    const node: int
    const name: string
    var next: HostEntry?

    constructor (node: int, name: string, next: HostEntry?)
      ensures this.node == node && this.name == name && this.next == next
    {
      this.node, this.name, this.next := node, name, next;
    }
  }

  ghost function Table(entries: seq<HostEntry>): seq<Host> {
    if entries == [] then [] else [Host(entries[0].node, entries[0].name)] + Table(entries[1..])
  }

  lemma {:induction false} TableAppend(a: seq<HostEntry>, b: seq<HostEntry>)
    ensures Table(a + b) == Table(a) + Table(b)
  {
    if a == [] {
      assert a + b == b;
    } else {
      assert (a + b)[1..] == a[1..] + b;
      TableAppend(a[1..], b);
    }
  }

  lemma NothingKept(t: seq<Host>)
    ensures Table([]) + t == t
  {
  }

  lemma NothingLeft(kept: seq<HostEntry>, host: int)
    ensures Table(kept) + Without(Table([]), host) == Table(kept)
  {
  }

  lemma WithoutStep(t: seq<Host>, node: int)
    requires t != []
    ensures t[0].node == node ==> Without(t, node) == Without(t[1..], node)
    ensures t[0].node != node ==> Without(t, node) == [t[0]] + Without(t[1..], node)
  {
  }

  lemma MoveOver(kept: seq<Host>, h: Host, more: seq<Host>)
    ensures kept + ([h] + more) == (kept + [h]) + more
  {
  }

  /** The next entry either joins the kept ones or disappears. */
  lemma KeepOrDrop(kept: seq<HostEntry>, rest: seq<HostEntry>, host: int)
    requires rest != []
    ensures Table(kept) + Without(Table(rest), host)
         == Table(if rest[0].node == host then kept else kept + [rest[0]]) + Without(Table(rest[1..]), host)
  {
    hide Table, Without;
    TableHead(rest);
    WithoutStep(Table(rest), host);
    if rest[0].node != host {
      TableAppend(kept, [rest[0]]);
      TableHead([rest[0]]);
      MoveOver(Table(kept), Host(rest[0].node, rest[0].name), Without(Table(rest[1..]), host));
    }
  }

  lemma SavedHead(entries: seq<HostEntry>)
    requires entries != [] && WellFormed(Table(entries))
    ensures entries[0].node != 0 && WellFormed(Table(entries[1..]))
    ensures SavedLines(Table(entries))
         == [SavedLine(Host(entries[0].node, entries[0].name))] + SavedLines(Table(entries[1..]))
  {
    hide Table, SavedLine;
    TableHead(entries);
  }

  lemma NothingSaved(entries: seq<HostEntry>)
    requires entries == []
    ensures SavedLines(Table(entries)) == []
  {
  }

  lemma TableHead(entries: seq<HostEntry>)
    requires entries != []
    ensures var h := Host(entries[0].node, entries[0].name);
            && Table(entries) != [] && Table(entries)[0] == h && Table(entries)[1..] == Table(entries[1..])
            && (|entries| == 1 ==> Table(entries) == [h])
  {
  }

  class Hosts {
    var first: HostEntry?
    ghost var entries: seq<HostEntry>
    ghost var Repr: set<object>

    ghost predicate Valid()
      reads this, Repr
    {
      && this in Repr && first == From(entries, 0)
      && (forall i :: 0 <= i < |entries| ==> Linked(i))
      && (forall i, j :: 0 <= i < j < |entries| ==> entries[i] != entries[j])
    }

    ghost predicate Linked(i: nat)
      requires i < |entries|
      reads this, Repr
    {
      entries[i] in Repr && entries[i].next == From(entries, i + 1)
    }

    static ghost function From(entries: seq<HostEntry>, i: nat): HostEntry? {
      if i < |entries| then entries[i] else null
    }

    constructor ()
      ensures Valid() && fresh(Repr) && Table(entries) == []
    {
      first, entries, Repr := null, [], {this};
    }

    /** SLIST_REMOVE: the removed entry keeps its own link. */
    method Remove(e: HostEntry, ghost at: nat)
      requires Valid() && at < |entries| && entries[at] == e
      modifies Repr
      ensures Valid() && Repr == old(Repr) && entries == old(entries[..at] + entries[at + 1..])
      ensures e.next == old(e.next)
    {
      ghost var before := entries;
      assert Linked(at);
      if first == e {
        first := e.next;
      } else {
        var cur: HostEntry, i := first, 0;
        while cur.next != e
          invariant i < at && cur == entries[i]
          decreases at - i
        {
          assert Linked(i);
          cur, i := cur.next, i + 1;
        }
        assert Linked(i) && i + 1 == at;
        cur.next := e.next;
      }
      entries := before[..at] + before[at + 1..];
      forall i | 0 <= i < |entries| ensures Linked(i) {
        if i < at {
          assert old(Linked(i)) && entries[i] == before[i];
        } else {
          assert old(Linked(i + 1)) && entries[i] == before[i + 1];
        }
      }
    }

    /** known_hosts_del: the entry that was just removed still leads to the rest of the list. */
    method Del(host: int)
      requires Valid()
      modifies Repr
      ensures Valid() && Repr == old(Repr)
      ensures Table(entries) == Without(old(Table(entries)), host)
    {
      hide Without, Table;
      var element := first;
      ghost var kept: seq<HostEntry>, rest := [], entries;
      NothingKept(Without(Table(entries), host));
      while element != null
        invariant Valid() && Repr == old(Repr)
        invariant entries == kept + rest && element == From(rest, 0)
        invariant Table(kept) + Without(Table(rest), host) == Without(old(Table(entries)), host)
        decreases |rest|
      {
        ghost var at := |kept|;
        assert entries[at] == element && Linked(at);
        KeepOrDrop(kept, rest, host);
        if element.node == host {
          Remove(element, at);
          assert entries == kept + rest[1..];
          rest := rest[1..];
        } else {
          assert entries == (kept + [element]) + rest[1..];
          kept, rest := kept + [element], rest[1..];
        }
        element := element.next;
      }
      assert rest == [] && entries == kept;
      NothingLeft(kept, host);
    }

    /** The entry of this node, if any. */
    method FindNode(node: int) returns (e: HostEntry?)
      requires Valid()
      ensures e == null <==> !HasNode(Table(entries), node)
      ensures e != null ==> e.node == node && e in entries
      ensures GetName(Table(entries), node) == if e == null then None else Some(e.name)
    {
      e := first;
      ghost var k := 0;
      assert entries[0..] == entries;
      while e != null
        invariant k <= |entries| && e == From(entries, k)
        invariant GetName(Table(entries), node) == GetName(Table(entries[k..]), node)
        decreases |entries| - k
      {
        assert Linked(k) && entries[k..][1..] == entries[k + 1..];
        if e.node == node {
          break;
        }
        e, k := e.next, k + 1;
      }
      NameIffNode(Table(entries), node);
    }

    method KnownHostsAdd(addr: int, newName: string, overrideExisting: bool) returns (host: HostEntry?)
      requires Valid()
      modifies Repr
      ensures Valid() && fresh(Repr - old(Repr))
      ensures Table(entries) == Add(old(Table(entries)), addr, newName, overrideExisting)
      ensures host == null <==> addr == 0
      ensures host != null ==> host in entries && host.node == addr
    {
      if addr == 0 {
        return null;
      }
      if overrideExisting {
        Del(addr);
      } else {
        host := FindNode(addr);
        if host != null {
          return host;
        }
      }
      host := InsertHead(addr, Stored(newName));
    }

    /** SLIST_INSERT_HEAD */
    method InsertHead(addr: int, name: string) returns (host: HostEntry)
      requires Valid()
      modifies this
      ensures Valid() && fresh(Repr - old(Repr))
      ensures entries == [host] + old(entries) && host.node == addr && host.name == name
      ensures Table(entries) == [Host(addr, name)] + old(Table(entries))
    {
      ghost var before := entries;
      host := new HostEntry(addr, name, first);
      first, entries, Repr := host, [host] + before, Repr + {host};
      assert entries[1..] == before;
      forall i | 0 <= i < |entries| ensures Linked(i) {
        if i > 0 { assert old(Linked(i - 1)) && entries[i] == before[i - 1]; }
      }
    }

    /** node_save: one `node add` command for each host, in list order. */
    method NodeSave() returns (lines: seq<string>)
      requires Valid() && WellFormed(Table(entries))
      ensures lines == SavedLines(Table(entries))
    {
      hide SavedLine, SavedLines, WellFormed, Table;
      lines := [];
      var e := first;
      ghost var k: nat := 0;
      assert entries[0..] == entries;
      while e != null
        invariant k <= |entries| && e == From(entries, k)
        invariant SavedLines(Table(entries)) == lines + SavedLines(Table(entries[k..]))
        invariant WellFormed(Table(entries[k..]))
        decreases |entries| - k
      {
        assert Linked(k) && entries[k..][1..] == entries[k + 1..];
        SavedHead(entries[k..]);
        assert e.node != 0;
        if e.node != 0 {
          lines := lines + [SavedLine(Host(e.node, e.name))];
        }
        e, k := e.next, k + 1;
      }
      NothingSaved(entries[k..]);
    }

    /** Copies the name into the caller's buffer; strncpy pads it with terminators or cuts it at the end of the buffer. */
    method KnownHostsGetName(findHost: int, name: array<char>, buflen: nat) returns (found: bool)
      requires Valid() && buflen <= name.Length
      modifies name
      ensures found <==> GetName(Table(entries), findHost).Some?
      ensures found ==> name[..buflen] == Padded(GetName(Table(entries), findHost).value, buflen)
      ensures found ==> var n := GetName(Table(entries), findHost).value;
                        forall i :: 0 <= i < buflen ==> name[i] == if i < |n| then n[i] else '\0'
      ensures name[buflen..] == old(name[buflen..]) && (!found ==> name[..] == old(name[..]))
    {
      var e := FindNode(findHost);
      found := e != null;
      if found {
        var i: nat := 0;
        while i < buflen
          invariant i <= buflen && name[..i] == Padded(e.name, buflen)[..i]
          invariant name[buflen..] == old(name[buflen..])
        {
          name[i] := if i < |e.name| then e.name[i] else '\0';
          i := i + 1;
        }
      }
    }

    method KnownHostsGetNode(findName: string) returns (node: int)
      requires Valid()
      ensures node == GetNode(Table(entries), findName)
    {
      var e := first;
      ghost var k := 0;
      assert entries[0..] == entries;
      while e != null
        invariant k <= |entries| && e == From(entries, k)
        invariant GetNode(Table(entries), findName) == GetNode(Table(entries[k..]), findName)
        decreases |entries| - k
      {
        assert Linked(k) && entries[k..][1..] == entries[k + 1..];
        assert Table(entries[k..])[0] == Host(e.node, e.name) && Table(entries[k..])[1..] == Table(entries[k + 1..]);
        if Clip(findName, HOSTNAME_MAXLEN) == Clip(e.name, HOSTNAME_MAXLEN) {
          return e.node;
        }
        e, k := e.next, k + 1;
      }
      return -1;
    }
  }

  lemma {:induction false} NameIffNode(t: seq<Host>, node: int)
    ensures GetName(t, node).Some? <==> HasNode(t, node)
  {
    if t != [] {
      NameIffNode(t[1..], node);
      if HasNode(t[1..], node) {
        var i :| 0 <= i < |t[1..]| && t[1..][i].node == node;
        assert t[i + 1].node == node;
      }
      if HasNode(t, node) && t[0].node != node {
        var i :| 0 <= i < |t| && t[i].node == node;
        assert t[1..][i - 1].node == node;
      }
    }
  }
}
