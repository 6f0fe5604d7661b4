/** Loading add-on modules: a bounded search list, and the sorted list of what is loaded. */
module ApmQueue {
  import opened CText
  import WalkDir

  const MAX_ENTRIES := 32

  // ----- File names in order

  /** strcmp() order without repetition. */
  predicate Sorted(files: seq<string>) {
    forall i, j :: 0 <= i < j < |files| ==> Less(files[i], files[j])
  }

  /** In front of the first name that is not smaller. */
  function Insert(files: seq<string>, f: string): seq<string> {
    if files == [] || !Less(files[0], f) then [f] + files else [files[0]] + Insert(files[1..], f)
  }

  lemma {:induction false} InsertMembers(files: seq<string>, f: string)
    ensures multiset(Insert(files, f)) == multiset(files) + multiset{f}
  {
    if files == [] || !Less(files[0], f) {
    } else {
      InsertMembers(files[1..], f);
      assert files == [files[0]] + files[1..];
    }
  }

  lemma InsertIn(files: seq<string>, f: string, n: string)
    ensures n in Insert(files, f) <==> n == f || n in files
  {
    InsertMembers(files, f);
    assert n in Insert(files, f) <==> n in multiset(Insert(files, f));
    assert n in files <==> n in multiset(files);
  }

  /** Insertion keeps the names sorted exactly when the name is new. */
  lemma {:induction false} InsertSortedIffNew(files: seq<string>, f: string)
    requires Sorted(files)
    ensures Sorted(Insert(files, f)) <==> f !in files
  {
    if files == [] {
    } else if !Less(files[0], f) {
      InsertFirst(files, f);
    } else {
      var rest := files[1..];
      InsertSortedIffNew(rest, f);
      LessIrreflexive(f);
      SortedCons(files[0], Insert(rest, f));
      assert f in files <==> f in rest;
      forall x | x in Insert(rest, f) ensures Less(files[0], x) {
        InsertIn(rest, f, x);
      }
    }
  }

  lemma InsertFirst(files: seq<string>, f: string)
    requires Sorted(files) && files != [] && !Less(files[0], f)
    ensures Sorted([f] + files) <==> f !in files
  {
    var all := [f] + files;
    if f in files {
      var i :| 0 <= i < |files| && files[i] == f;
      LessIrreflexive(f);
      assert all[0] == all[i + 1];
    } else {
      LessTotal(files[0], f);
      forall i | 0 <= i < |files| ensures Less(f, files[i]) {
        if i > 0 { LessTransitive(f, files[0], files[i]); }
      }
      assert forall i :: 0 < i < |all| ==> all[i] == files[i - 1];
    }
  }

  lemma SortedCons(first: string, rest: seq<string>)
    ensures Sorted([first] + rest) <==> Sorted(rest) && forall x :: x in rest ==> Less(first, x)
  {
    var all := [first] + rest;
    assert forall i :: 0 <= i < |rest| ==> all[i + 1] == rest[i];
    if Sorted(all) {
      forall i, j | 0 <= i < j < |rest| ensures Less(rest[i], rest[j]) {
        assert Less(all[i + 1], all[j + 1]);
      }
      forall x | x in rest ensures Less(first, x) {
        var i :| 0 <= i < |rest| && rest[i] == x;
        assert Less(all[0], all[i + 1]);
      }
    }
    if Sorted(rest) && forall x :: x in rest ==> Less(first, x) {
      forall i, j | 0 <= i < j < |all| ensures Less(all[i], all[j]) {
        if i > 0 { assert all[i] == rest[i - 1] && all[j] == rest[j - 1]; } else { assert all[j] == rest[j - 1]; }
      }
    }
  }

  // ----- The linked list

  class ApmEntry {
    const path: string
    const file: string
    var next: ApmEntry?

    constructor (path: string)
      ensures this.path == path && this.file == BaseName(path)
    {
      this.path, this.file, next := path, BaseName(path), null;
    }
  }

  /** The part after the last '/'. */
  function BaseName(path: string): string {
    if path == "" || path[|path| - 1] == '/' then "" else BaseName(path[..|path| - 1]) + [path[|path| - 1]]
  }

  ghost function Files(entries: seq<ApmEntry>): seq<string> {
    if entries == [] then [] else [entries[0].file] + Files(entries[1..])
  }

  class Queue {
    var first: ApmEntry?
    ghost var entries: seq<ApmEntry>
    ghost var Repr: set<object>

    ghost predicate Valid()
      reads this, Repr
    {
      && this in Repr && first == From(entries, 0)
      && (forall i :: 0 <= i < |entries| ==> Linked(i))
      && (forall i, j :: 0 <= i < j < |entries| ==> entries[i] != entries[j])
    }

    ghost predicate Linked(i: nat)
      requires i < |entries|
      reads this, Repr
    {
      entries[i] in Repr && entries[i].next == From(entries, i + 1)
    }

    static ghost function From(entries: seq<ApmEntry>, i: nat): ApmEntry? {
      if i < |entries| then entries[i] else null
    }

    constructor ()
      ensures Valid() && fresh(Repr) && entries == []
    {
      first, entries, Repr := null, [], {this};
    }

    /** Is a library of this name loaded? */
    method Has(name: string) returns (r: bool)
      requires Valid()
      ensures r <==> name in Files(entries)
    {
      var e := first;
      ghost var k := 0;
      assert entries[0..] == entries;
      while e != null
        invariant k <= |entries| && e == From(entries, k)
        invariant name in Files(entries) <==> name in Files(entries[k..])
        decreases |entries| - k
      {
        assert Linked(k) && entries[k..][1..] == entries[k + 1..];
        if e.file == name {
          return true;
        }
        e, k := e.next, k + 1;
      }
      return false;
    }

    /** apm_queue_add */
    method Add(e: ApmEntry)
      requires Valid() && e !in entries && e !in Repr
      modifies Repr, e
      ensures Valid() && Repr == old(Repr) + {e}
      ensures Files(entries) == Insert(old(Files(entries)), e.file)
    {
      ghost var before, k := entries, 0;
      e.next := first;
      var prev: ApmEntry? := null;
      while e.next != null && Less(e.next.file, e.file)
        invariant k <= |before| && entries == before && Repr == old(Repr) && first == From(before, 0)
        invariant e.next == From(before, k)
        invariant prev == if k == 0 then null else before[k - 1]
        invariant forall i :: 0 <= i < |before| ==> Linked(i)
        invariant forall i :: 0 <= i < k ==> Less(before[i].file, e.file)
        decreases |before| - k
      {
        assert Linked(k);
        prev := e.next;
        e.next := e.next.next;
        k := k + 1;
      }
      InsertPosition(before, k, e);
      LinkIn(e, prev, k);
    }

    /** Insert before e->next, or as first entry. */
    method LinkIn(e: ApmEntry, prev: ApmEntry?, ghost k: nat)
      requires Valid() && e !in entries && e !in Repr && k <= |entries|
      requires e.next == From(entries, k) && prev == if k == 0 then null else entries[k - 1]
      modifies Repr
      ensures Valid() && Repr == old(Repr) + {e}
      ensures entries == old(entries[..k] + [e] + entries[k..])
    {
      ghost var before := entries;
      if prev != null {
        assert Linked(k - 1);
        prev.next := e;
      } else {
        first := e;
      }
      entries, Repr := before[..k] + [e] + before[k..], Repr + {e};
      forall i | 0 <= i < |entries| ensures Linked(i) {
        if i < k {
          assert old(Linked(i)) && entries[i] == before[i];
        } else if i > k {
          assert old(Linked(i - 1)) && entries[i] == before[i - 1];
        }
      }
    }
  }

  lemma {:induction false} InsertPosition(entries: seq<ApmEntry>, k: nat, e: ApmEntry)
    requires k <= |entries| && forall i :: 0 <= i < k ==> Less(entries[i].file, e.file)
    requires k < |entries| ==> !Less(entries[k].file, e.file)
    ensures Files(entries[..k] + [e] + entries[k..]) == Insert(Files(entries), e.file)
  {
    var all := entries[..k] + [e] + entries[k..];
    if k == 0 {
      assert all == [e] + entries && all[1..] == entries;
    } else {
      assert all[1..] == entries[1..][..k - 1] + [e] + entries[1..][k - 1..];
      InsertPosition(entries[1..], k - 1, e);
    }
  }

  // ----- Searching and loading

  /** What walkdir() reports: a path and its last component. */
  datatype Candidate = Candidate(path: string, name: string)

  predicate Wanted(name: string, search: Option<string>) {
    (search.Some? ==> Contains(name, search.value)) && Contains(name, "libcsh_") && Contains(name, ".so")
  }

  function Names(paths: seq<string>): seq<string> {
    if paths == [] then [] else [BaseName(paths[0])] + Names(paths[1..])
  }

  /** One call of the file callback on the list found so far. */
  function Found(found: seq<string>, c: Candidate, loaded: seq<string>, search: Option<string>): seq<string> {
    if |found| >= MAX_ENTRIES || !Wanted(c.name, search) || c.name in loaded || c.name in Names(found) then found
    else found + [c.path]
  }

  function FoundAll(found: seq<string>, cs: seq<Candidate>, loaded: seq<string>, search: Option<string>): seq<string>
    decreases |cs|
  {
    if cs == [] then found else FoundAll(Found(found, cs[0], loaded, search), cs[1..], loaded, search)
  }

  /** How loading a library ends: the file does not load, its init refuses, or it is in. */
  datatype LoadResult = NoLibrary | Refused | Loaded

  /** The load loop: the first file that does not load ends it. */
  function LoadAll(files: seq<string>, paths: seq<string>, load: string -> LoadResult): seq<string>
    decreases |paths|
  {
    if paths == [] then files
    else match load(paths[0])
      case NoLibrary => files
      case Refused => LoadAll(files, paths[1..], load)
      case Loaded => LoadAll(Insert(files, BaseName(paths[0])), paths[1..], load)
  }

  /** One `apm load`: what the directories contain, the search string, and how each load ends. */
  datatype Run = Run(candidates: seq<Candidate>, search: Option<string>, load: string -> LoadResult)

  function AfterRun(files: seq<string>, run: Run): seq<string> {
    LoadAll(files, FoundAll([], run.candidates, files, run.search), run.load)
  }

  class Search {
    const libs: array<string>
    var libCount: nat

    ghost predicate Valid()
      reads this
    {
      libs.Length == MAX_ENTRIES && libCount <= MAX_ENTRIES
    }

    ghost function Paths(): seq<string>
      requires Valid()
      reads this, libs
    {
      libs[..libCount]
    }

    constructor ()
      ensures Valid() && Paths() == [] && fresh(libs)
    {
      libs := new string[MAX_ENTRIES](_ => "");
      libCount := 0;
    }

    method FileCallback(c: Candidate, search: Option<string>, queue: Queue)
      requires Valid() && queue.Valid() && this !in queue.Repr && libs !in queue.Repr
      modifies this, libs
      ensures Valid() && Paths() == Found(old(Paths()), c, Files(queue.entries), search)
    {
      if libCount >= MAX_ENTRIES {
        return;
      }
      if search.Some? && !Contains(c.name, search.value) {
        return;
      }
      if !Contains(c.name, "libcsh_") {
        return;
      }
      if !Contains(c.name, ".so") {
        return;
      }
      libs[libCount] := c.path;  // counted only further down
      assert libs[..libCount] == old(Paths());
      var loaded := queue.Has(c.name);
      if loaded {
        return;
      }
      var i := 0;
      assert libs[0..libCount] == libs[..libCount];
      while i < libCount
        invariant i <= libCount
        invariant c.name in Names(libs[..libCount]) <==> c.name in Names(libs[i..libCount])
      {
        assert libs[i..libCount][1..] == libs[i + 1..libCount];
        if BaseName(libs[i]) == c.name {
          return;
        }
        i := i + 1;
      }
      libCount := libCount + 1;
    }
  }

  /** apm_load_search, from the directory walk to the load loop. */
  method LoadSearch(run: Run, queue: Queue)
    requires queue.Valid()
    modifies queue.Repr
    ensures queue.Valid() && fresh(queue.Repr - old(queue.Repr))
    ensures Files(queue.entries) == AfterRun(old(Files(queue.entries)), run)
  {
    var search := new Search();
    var i := 0;
    ghost var files := Files(queue.entries);
    while i < |run.candidates|
      invariant i <= |run.candidates| && search.Valid() && fresh(search) && fresh(search.libs)
      invariant queue.Valid() && Files(queue.entries) == files && queue.Repr == old(queue.Repr)
      invariant FoundAll([], run.candidates, files, run.search)
             == FoundAll(search.Paths(), run.candidates[i..], files, run.search)
    {
      search.FileCallback(run.candidates[i], run.search, queue);
      i := i + 1;
    }
    ghost var paths := search.Paths();
    assert run.candidates[i..] == [];
    LoadFound(search, run.load, queue);
  }

  method LoadFound(search: Search, load: string -> LoadResult, queue: Queue)
    requires queue.Valid() && search.Valid() && search !in queue.Repr && search.libs !in queue.Repr
    modifies queue.Repr
    ensures queue.Valid() && fresh(queue.Repr - old(queue.Repr))
    ensures Files(queue.entries) == LoadAll(old(Files(queue.entries)), search.Paths(), load)
  {
    ghost var paths := search.Paths();
    ghost var files := Files(queue.entries);
    var i := 0;
    assert paths[0..] == paths;
    while i < search.libCount
      invariant i <= search.libCount && search.Valid() && search.Paths() == paths
      invariant search !in queue.Repr && search.libs !in queue.Repr
      invariant queue.Valid() && fresh(queue.Repr - old(queue.Repr))
      invariant LoadAll(files, paths, load) == LoadAll(Files(queue.entries), paths[i..], load)
      decreases |paths| - i
    {
      var path := search.libs[i];
      assert path == paths[i] && paths[i..][0] == paths[i] && paths[i..][1..] == paths[i + 1..];
      var result := load(path);
      if result.NoLibrary? {
        return;
      }
      if result.Loaded? {
        var e := new ApmEntry(path);
        queue.Add(e);
      }
      i := i + 1;
    }
  }

  // ----- What any sequence of loads keeps

  /** Found in a directory: the name is the last component of the path. */
  predicate FromDirectory(c: Candidate) { BaseName(c.path) == c.name }

  predicate Distinct(s: seq<string>) {
    forall i, j :: 0 <= i < j < |s| ==> s[i] != s[j]
  }

  lemma {:induction false} NamesSnoc(paths: seq<string>, p: string)
    ensures Names(paths + [p]) == Names(paths) + [BaseName(p)]
  {
    if paths == [] {
      assert (paths + [p])[1..] == [];
    } else {
      assert (paths + [p])[1..] == paths[1..] + [p];
      NamesSnoc(paths[1..], p);
    }
  }

  /** The search list: bounded, without repetition, and without anything already loaded. */
  predicate Fresh(found: seq<string>, loaded: seq<string>) {
    && |found| <= MAX_ENTRIES && Distinct(Names(found))
    && forall n :: n in Names(found) ==> n !in loaded
  }

  lemma {:induction false} FoundAllFresh(found: seq<string>, cs: seq<Candidate>, loaded: seq<string>, search: Option<string>)
    requires Fresh(found, loaded) && forall c :: c in cs ==> FromDirectory(c)
    ensures Fresh(FoundAll(found, cs, loaded, search), loaded)
    decreases |cs|
  {
    if cs != [] {
      assert FromDirectory(cs[0]);
      NamesSnoc(found, cs[0].path);
      FoundAllFresh(Found(found, cs[0], loaded, search), cs[1..], loaded, search);
    }
  }

  /** The list never holds more than 32 libraries, wherever the candidates come from. */
  lemma {:induction false} FoundAllBounded(found: seq<string>, cs: seq<Candidate>, loaded: seq<string>, search: Option<string>)
    requires |found| <= MAX_ENTRIES
    ensures |FoundAll(found, cs, loaded, search)| <= 32
    decreases |cs|
  {
    if cs != [] {
      FoundAllBounded(Found(found, cs[0], loaded, search), cs[1..], loaded, search);
    }
  }

  /** Names of the libraries the load loop puts into the queue. */
  function LoadedNames(paths: seq<string>, load: string -> LoadResult): seq<string>
    decreases |paths|
  {
    if paths == [] || load(paths[0]).NoLibrary? then []
    else (if load(paths[0]).Loaded? then [BaseName(paths[0])] else []) + LoadedNames(paths[1..], load)
  }

  /** Nothing is lost: the queue gains exactly what was loaded. */
  lemma {:induction false} LoadAllAdds(files: seq<string>, paths: seq<string>, load: string -> LoadResult)
    ensures multiset(LoadAll(files, paths, load)) == multiset(files) + multiset(LoadedNames(paths, load))
    decreases |paths|
  {
    if paths != [] && !load(paths[0]).NoLibrary? {
      var name := BaseName(paths[0]);
      InsertMembers(files, name);
      LoadAllAdds(if load(paths[0]).Loaded? then Insert(files, name) else files, paths[1..], load);
    }
  }

  lemma DistinctCons(name: string, names: seq<string>)
    ensures Distinct([name] + names) <==> name !in names && Distinct(names)
  {
    var all := [name] + names;
    assert all[0] == name && forall i :: 0 <= i < |names| ==> all[i + 1] == names[i];
    assert forall i :: 0 < i < |all| ==> all[i] == names[i - 1];
  }

  lemma {:induction false} DistinctIffOnce(names: seq<string>)
    ensures Distinct(names) <==> forall n :: multiset(names)[n] <= 1
  {
    if names != [] {
      var name, rest := names[0], names[1..];
      DistinctIffOnce(rest);
      DistinctCons(name, rest);
      hide Distinct;
      assert names == [name] + rest;
      assert multiset(names) == multiset{name} + multiset(rest);
      assert multiset(names)[name] == 1 + multiset(rest)[name];
      assert forall n :: n != name ==> multiset(names)[n] == multiset(rest)[n];
      assert name in rest <==> multiset(rest)[name] > 0;
    }
  }

  lemma SortedIsDistinct(files: seq<string>)
    requires Sorted(files)
    ensures Distinct(files)
  {
    forall i, j | 0 <= i < j < |files| ensures files[i] != files[j] {
      LessIrreflexive(files[i]);
    }
  }

  lemma {:induction false} NewNamesStaySorted(files: seq<string>, paths: seq<string>, load: string -> LoadResult)
    requires Sorted(files) && Distinct(LoadedNames(paths, load))
    requires forall n :: n in LoadedNames(paths, load) ==> n !in files
    ensures Sorted(LoadAll(files, paths, load))
    decreases |paths|
  {
    hide Sorted, Insert, BaseName;
    if paths != [] && !load(paths[0]).NoLibrary? {
      var name, names := BaseName(paths[0]), LoadedNames(paths[1..], load);
      if load(paths[0]).Loaded? {
        assert LoadedNames(paths, load) == [name] + names;
        DistinctCons(name, names);
        InsertSortedIffNew(files, name);
        forall n | n in names ensures n !in Insert(files, name) {
          assert n in [name] + names && n != name;
          InsertIn(files, name, n);
        }
        NewNamesStaySorted(Insert(files, name), paths[1..], load);
      } else {
        assert LoadedNames(paths, load) == names;
        NewNamesStaySorted(files, paths[1..], load);
      }
    }
  }

  /** A whole load keeps the queue sorted exactly when what it loads is new, each name once. */
  lemma LoadSortedIffNew(files: seq<string>, paths: seq<string>, load: string -> LoadResult)
    requires Sorted(files)
    ensures var loaded := LoadedNames(paths, load);
            Sorted(LoadAll(files, paths, load)) <==> Distinct(loaded) && forall n :: n in loaded ==> n !in files
  {
    var loaded, after := LoadedNames(paths, load), LoadAll(files, paths, load);
    if Sorted(after) {
      SortedIsDistinct(after);
      LoadAllAdds(files, paths, load);
      DistinctIffOnce(after);
      DistinctIffOnce(loaded);
      hide Sorted, Distinct, LoadAll, LoadedNames;
      assert forall n :: multiset(after)[n] == multiset(files)[n] + multiset(loaded)[n];
      assert forall n :: multiset(after)[n] <= 1;
      assert forall n :: n in loaded ==> multiset(loaded)[n] >= 1 && multiset(files)[n] == 0;
      assert forall n :: multiset(files)[n] == 0 ==> n !in files;
    } else if Distinct(loaded) && forall n :: n in loaded ==> n !in files {
      NewNamesStaySorted(files, paths, load);
    }
  }

  lemma {:induction false} LoadedAreFound(paths: seq<string>, load: string -> LoadResult)
    ensures forall n :: n in LoadedNames(paths, load) ==> n in Names(paths)
    ensures Distinct(Names(paths)) ==> Distinct(LoadedNames(paths, load))
    decreases |paths|
  {
    hide BaseName;
    if paths != [] {
      LoadedAreFound(paths[1..], load);
      var name, names, more := BaseName(paths[0]), Names(paths[1..]), LoadedNames(paths[1..], load);
      DistinctCons(name, names);
      DistinctCons(name, more);
      assert [] + more == more && Distinct([]);
      hide Distinct;
    }
  }

  function AfterRuns(files: seq<string>, runs: seq<Run>): seq<string>
    decreases |runs|
  {
    if runs == [] then files else AfterRuns(AfterRun(files, runs[0]), runs[1..])
  }

  predicate DirectoryRun(run: Run) { forall c :: c in run.candidates ==> FromDirectory(c) }

  /** Over any sequence of directory-based loads the queue stays strictly sorted by file name, each name at most once. */
  lemma {:induction false} RunsStaySorted(files: seq<string>, runs: seq<Run>)
    requires Sorted(files) && forall r :: r in runs ==> DirectoryRun(r)
    ensures Sorted(AfterRuns(files, runs))
    decreases |runs|
  {
    if runs != [] {
      assert DirectoryRun(runs[0]);
      FoundAllFresh([], runs[0].candidates, files, runs[0].search);
      LoadedAreFound(FoundAll([], runs[0].candidates, files, runs[0].search), runs[0].load);
      LoadSortedIffNew(files, FoundAll([], runs[0].candidates, files, runs[0].search), runs[0].load);
      RunsStaySorted(AfterRun(files, runs[0]), runs[1..]);
    }
  }

  // ----- What is found and what is loaded

  predicate Occurs(word: string, text: string) { exists i :: 0 <= i <= |text| && word <= text[i..] }

  /** A candidate whose name has the right parts is found, as long as there is room and its name is neither loaded nor found yet;
      any other is not. */
  lemma FoundIffQualified(found: seq<string>, c: Candidate, loaded: seq<string>, search: Option<string>)
    ensures var qualified := && |found| < 32 && Occurs("libcsh_", c.name) && Occurs(".so", c.name)
                             && (search.Some? ==> Occurs(search.value, c.name))
                             && c.name !in loaded && c.name !in Names(found);
            Found(found, c, loaded, search) == if qualified then found + [c.path] else found
  {
    hide Contains, Names;
    ContainsIff(c.name, "libcsh_");
    ContainsIff(c.name, ".so");
    if search.Some? { ContainsIff(c.name, search.value); }
  }

  /** A file that does not load ends the run: nothing after it counts. */
  lemma {:induction false} LoadStopsAtNoLibrary(files: seq<string>, before: seq<string>, path: string, rest: seq<string>, load: string -> LoadResult)
    requires load(path).NoLibrary?
    ensures LoadAll(files, before + ([path] + rest), load) == LoadAll(files, before, load)
    decreases |before|
  {
    hide BaseName, Insert;
    var paths := before + ([path] + rest);
    if before == [] {
      assert paths[0] == path;
    } else {
      assert paths[0] == before[0] && paths[1..] == before[1..] + ([path] + rest);
      var next := if load(before[0]).Loaded? then Insert(files, BaseName(before[0])) else files;
      LoadStopsAtNoLibrary(next, before[1..], path, rest, load);
    }
  }

  /** One whose initialisation refuses is passed over. */
  lemma {:induction false} RefusedIsPassedOver(files: seq<string>, before: seq<string>, path: string, rest: seq<string>, load: string -> LoadResult)
    requires load(path).Refused?
    ensures LoadAll(files, before + ([path] + rest), load) == LoadAll(files, before + rest, load)
    decreases |before|
  {
    hide BaseName, Insert;
    var paths := before + ([path] + rest);
    if before == [] {
      assert paths[0] == path && paths[1..] == rest && before + rest == rest;
    } else {
      assert paths[0] == before[0] && paths[1..] == before[1..] + ([path] + rest);
      assert (before + rest)[0] == before[0] && (before + rest)[1..] == before[1..] + rest;
      var next := if load(before[0]).Loaded? then Insert(files, BaseName(before[0])) else files;
      RefusedIsPassedOver(next, before[1..], path, rest, load);
    }
  }

  /** When everything loads, the queue gains the last component of every path. */
  lemma {:induction false} AllLoadedAreGained(files: seq<string>, paths: seq<string>, load: string -> LoadResult)
    requires forall path :: load(path).Loaded?
    ensures multiset(LoadAll(files, paths, load)) == multiset(files) + multiset(Names(paths))
    decreases |paths|
  {
    hide BaseName, Insert;
    if paths != [] {
      InsertMembers(files, BaseName(paths[0]));
      AllLoadedAreGained(Insert(files, BaseName(paths[0])), paths[1..], load);
    }
  }

  // ----- Loads that walk directories

  /** One `apm load`: the files as it finds them, the directories it searches, the search string, and how each load ends. */
  datatype Load = Load(fs: WalkDir.FileSystem, roots: seq<string>, search: Option<string>, load: string -> LoadResult)

  /** dir_callback: all directories are searched. */
  const ALL := WalkDir.Accepts((path, name) => true)

  /** The files that a walk reports. */
  function FilesOf(visits: seq<WalkDir.Visit>): seq<Candidate> {
    if visits == [] then []
    else (if visits[0].FileVisit? then [Candidate(visits[0].path, visits[0].name)] else []) + FilesOf(visits[1..])
  }

  /** build_apm_list: a walk one level deep below each directory of the search path. */
  function Reported(fs: WalkDir.FileSystem, roots: seq<string>): seq<Candidate> {
    if roots == [] then [] else FilesOf(WalkDir.Walk(fs, ALL, roots[0], 1)) + Reported(fs, roots[1..])
  }

  function RunOf(l: Load): Run { Run(Reported(l.fs, l.roots), l.search, l.load) }

  function RunsOf(loads: seq<Load>): seq<Run> {
    if loads == [] then [] else [RunOf(loads[0])] + RunsOf(loads[1..])
  }

  /** What is searched is a directory, if it is there at all. */
  predicate SearchesDirectories(l: Load) {
    WalkDir.SlashFree(l.fs) && forall root :: root in l.roots && root in l.fs ==> root != "" && l.fs[root].Directory?
  }

  lemma {:induction false} BaseAfterSlash(front: string, name: string)
    requires front != "" && front[|front| - 1] == '/' && '/' !in name
    ensures BaseName(front + name) == name
  {
    if name == "" {
      assert front + name == front;
    } else {
      var n := |name| - 1;
      assert name[n] in name && (front + name)[..|front| + n] == front + name[..n];
      BaseAfterSlash(front, name[..n]);
      assert name == name[..n] + [name[n]];
    }
  }

  lemma {:induction false} BaseOfPlainName(name: string)
    requires '/' !in name
    ensures BaseName(name) == name
  {
    if name != "" {
      var n := |name| - 1;
      assert name[n] in name && name == name[..n] + [name[n]];
      BaseOfPlainName(name[..n]);
    }
  }

  lemma BaseOfJoin(path: string, name: string)
    requires path != "" && '/' !in name
    ensures BaseName(WalkDir.Join(path, name)) == name
  {
    if path[|path| - 1] == '/' {
      BaseAfterSlash(path, name);
    } else {
      BaseAfterSlash(path + "/", name);
    }
  }

  /** Every file reported below a directory carries the last component of its path as name. */
  lemma {:induction false} WalkNamesLastComponent(fs: WalkDir.FileSystem, cb: WalkDir.DirCallback, path: string, depth: nat, v: WalkDir.Visit)
    requires WalkDir.SlashFree(fs) && path != "" && path in fs && fs[path].Directory?
    requires v.FileVisit? && v in WalkDir.Walk(fs, cb, path, depth)
    ensures BaseName(v.path) == v.name
    decreases depth
  {
    hide BaseName;
    var name := WalkDir.EntryOfVisit(fs, cb, path, fs[path].names, depth, v);
    var full := WalkDir.Join(path, name);
    if fs[full].Regular? {
      BaseOfJoin(path, name);
    } else {
      WalkNamesLastComponent(fs, cb, full, depth - 1, v);
    }
  }

  lemma {:induction false} FilesAreVisits(visits: seq<WalkDir.Visit>, c: Candidate)
    requires c in FilesOf(visits)
    ensures WalkDir.FileVisit(c.path, c.name) in visits
  {
    if visits[0] != WalkDir.FileVisit(c.path, c.name) {
      FilesAreVisits(visits[1..], c);
    }
  }

  lemma {:induction false} ReportedFromDirectories(fs: WalkDir.FileSystem, roots: seq<string>, c: Candidate)
    requires WalkDir.SlashFree(fs) && c in Reported(fs, roots)
    requires forall root :: root in roots && root in fs ==> root != "" && fs[root].Directory?
    ensures FromDirectory(c)
    decreases |roots|
  {
    hide WalkDir.Walk, WalkDir.SlashFree, BaseName;
    var visits := WalkDir.Walk(fs, ALL, roots[0], 1);
    if c in FilesOf(visits) {
      FilesAreVisits(visits, c);
      VisitedBelow(fs, roots[0], WalkDir.FileVisit(c.path, c.name));
    } else {
      ReportedFromDirectories(fs, roots[1..], c);
    }
  }

  lemma VisitedBelow(fs: WalkDir.FileSystem, root: string, v: WalkDir.Visit)
    requires WalkDir.SlashFree(fs) && (root in fs ==> root != "" && fs[root].Directory?)
    requires v.FileVisit? && v in WalkDir.Walk(fs, ALL, root, 1)
    ensures BaseName(v.path) == v.name
  {
    WalkNamesLastComponent(fs, ALL, root, 1, v);
  }

  /** Over any sequence of loads that search directories, whatever changes on disk between them, the queue stays strictly
      sorted by file name. */
  lemma WalksStaySorted(files: seq<string>, loads: seq<Load>)
    requires Sorted(files) && forall l :: l in loads ==> SearchesDirectories(l)
    ensures Sorted(AfterRuns(files, RunsOf(loads)))
  {
    hide Sorted, AfterRuns;
    RunsFromDirectories(loads);
    RunsStaySorted(files, RunsOf(loads));
  }

  lemma {:induction false} RunsFromDirectories(loads: seq<Load>)
    requires forall l :: l in loads ==> SearchesDirectories(l)
    ensures forall r :: r in RunsOf(loads) ==> DirectoryRun(r)
  {
    hide FromDirectory, Reported;
    if loads != [] {
      var l := loads[0];
      assert SearchesDirectories(l);
      forall c | c in Reported(l.fs, l.roots) ensures FromDirectory(c) {
        ReportedFromDirectories(l.fs, l.roots, c);
      }
      RunsFromDirectories(loads[1..]);
    }
  }

  /** A path given directly is reported with its whole path as name. Then a library that is already loaded goes in again. */
  lemma DirectPathIsLoadedTwice(files: seq<string>, c: Candidate, load: string -> LoadResult)
    requires Sorted(files) && Wanted(c.name, None) && load(c.path).Loaded?
    requires !FromDirectory(c) && c.name !in files && BaseName(c.path) in files
    ensures !Sorted(AfterRun(files, Run([c], None, load)))
  {
    FoundAlone(c, files);
    LoadAlone(files, c.path, load);
    InsertSortedIffNew(files, BaseName(c.path));
  }

  lemma FoundAlone(c: Candidate, loaded: seq<string>)
    requires Wanted(c.name, None) && c.name !in loaded
    ensures FoundAll([], [c], loaded, None) == [c.path]
  {
    assert Names([]) == [];
    assert Found([], c, loaded, None) == [c.path];
    assert [c][1..] == [];
  }

  lemma LoadAlone(files: seq<string>, path: string, load: string -> LoadResult)
    requires load(path).Loaded?
    ensures LoadAll(files, [path], load) == Insert(files, BaseName(path))
  {
    assert [path][1..] == [];
    assert LoadAll(Insert(files, BaseName(path)), [], load) == Insert(files, BaseName(path));
  }
}
