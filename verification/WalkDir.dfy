/** The recursive directory walk over one shared path buffer. */
module WalkDir {

  datatype Kind = Regular | Other | Directory(readable: bool, names: seq<string>)

  /** What is at each full path. */
  type FileSystem = map<string, Kind>

  datatype Visit = DirVisit(path: string, name: string) | FileVisit(path: string, name: string)

  // ----- The traversal as a function

  function Join(path: string, name: string): string
    requires path != ""
  {
    if path[|path| - 1] == '/' then path + name else path + "/" + name
  }

  predicate Hidden(name: string) { name != "" && name[0] == '.' }

  /** The directory callback; None when the caller passed none. */
  datatype DirCallback = NoCallback | Accepts(test: (string, string) -> bool)

  /** Pre-order, entries in the order they are read, at most `depth` levels below `path`. */
  function Walk(fs: FileSystem, cb: DirCallback, path: string, depth: nat): seq<Visit>
    decreases depth, 2
  {
    if path == "" || path !in fs then []
    else match fs[path]
      case Directory(readable, names) => if readable then WalkEntries(fs, cb, path, names, depth) else []
      case _ => [FileVisit(path, path)]
  }

  function WalkEntries(fs: FileSystem, cb: DirCallback, path: string, names: seq<string>, depth: nat): seq<Visit>
    requires path != ""
    decreases depth, 1, |names|
  {
    if names == [] then []
    else WalkEntry(fs, cb, path, names[0], depth) + WalkEntries(fs, cb, path, names[1..], depth)
  }

  function WalkEntry(fs: FileSystem, cb: DirCallback, path: string, name: string, depth: nat): seq<Visit>
    requires path != ""
    decreases depth, 0
  {
    var full := Join(path, name);
    if Hidden(name) || full !in fs then []
    else match fs[full]
      case Regular => [FileVisit(full, name)]
      case Directory(_, _) =>
        if depth == 0 || cb.NoCallback? then []
        else [DirVisit(full, name)] + (if cb.test(full, name) then Walk(fs, cb, full, depth - 1) else [])
      case Other => []
  }

  /** Entries that readdir() returns can be looked up, and are C strings. */
  predicate Listed(fs: FileSystem) {
    "" !in fs
    && forall path :: path in fs && fs[path].Directory? ==>
         forall i :: 0 <= i < |fs[path].names| ==>
           var name := fs[path].names[i]; name != "" && '\0' !in name && Join(path, name) in fs
  }

  /** Every path that is built on the way fits the buffer; that includes hidden entries, which are built before they are skipped. */
  predicate Fits(fs: FileSystem, cb: DirCallback, path: string, depth: nat, size: nat)
    decreases depth, 1
  {
    path != "" && path in fs && fs[path].Directory? && fs[path].readable ==>
      forall i :: 0 <= i < |fs[path].names| ==> EntryFits(fs, cb, path, fs[path].names[i], depth, size)
  }

  predicate EntryFits(fs: FileSystem, cb: DirCallback, path: string, name: string, depth: nat, size: nat)
    requires path != ""
    decreases depth, 0
  {
    var full := Join(path, name);
    && |full| < size
    && (depth > 0 && !Hidden(name) && full in fs && fs[full].Directory? && cb.Accepts? && cb.test(full, name) ==>
          Fits(fs, cb, full, depth - 1, size))
  }

  // ----- C strings in the buffer

  ghost predicate Holds(buf: array<char>, path: string)
    reads buf
  {
    |path| < buf.Length && buf[..|path|] == path && buf[|path|] == '\0' && '\0' !in path
  }

  method StrLen(buf: array<char>, ghost path: string) returns (n: nat)
    requires Holds(buf, path)
    ensures n == |path|
  {
    forall i | 0 <= i < |path| ensures buf[i] != '\0' {
      assert buf[i] == buf[..|path|][i] && path[i] in path;
    }
    n := 0;
    while buf[n] != '\0'
      invariant n <= |path|
      decreases |path| - n
    {
      n := n + 1;
    }
  }

  /** Appends at most n characters, and a terminator. */
  method StrNCat(buf: array<char>, src: string, n: nat, ghost path: string)
    requires Holds(buf, path) && '\0' !in src && |src| <= n && |path| + |src| < buf.Length
    modifies buf
    ensures Holds(buf, path + src)
  {
    var at := StrLen(buf, path);
    var i := 0;
    while i < |src| && i < n
      invariant i <= |src| && buf[..|path|] == path
      invariant buf[|path|..|path| + i] == src[..i]
    {
      buf[at + i] := src[i];
      i := i + 1;
    }
    buf[at + i] := '\0';
    assert buf[..|path| + i] == buf[..|path|] + buf[|path|..|path| + i];
  }

  method PathText(buf: array<char>, ghost path: string) returns (text: string)
    requires Holds(buf, path)
    ensures text == path
  {
    var len := StrLen(buf, path);
    text := buf[..len];
  }

  // ----- walkdir

  class Walker {
    const fs: FileSystem
    const cb: DirCallback
    const path: array<char>          // the shared buffer
    const signalAt: nat -> bool      // has SIGINT arrived by the time this many entries were read?
    var entriesRead: nat
    var log: seq<Visit>              // callbacks fired so far

    constructor (fs: FileSystem, cb: DirCallback, path: array<char>, signalAt: nat -> bool)
      ensures this.fs == fs && this.cb == cb && this.path == path && this.signalAt == signalAt
      ensures entriesRead == 0 && log == []
    {
      this.fs, this.cb, this.path, this.signalAt, entriesRead, log := fs, cb, path, signalAt, 0, [];
    }

    predicate Interrupted()
      reads this
    {
      signalAt(entriesRead)
    }

    /** The callbacks since `before` are all of `visits`, with the path as it was, or some first part of them when interrupted. */
    ghost predicate Fired(before: seq<Visit>, visits: seq<Visit>, at: string)
      reads this, path
    {
      if Interrupted() then before <= log <= before + visits
      else log == before + visits && Holds(path, at)
    }

    method WalkDir(pathSize: nat, depth: nat, ghost at: string)
      requires Holds(path, at) && pathSize <= path.Length && Listed(fs) && Fits(fs, cb, at, depth, pathSize)
      modifies this, path
      ensures Fired(old(log), Walk(fs, cb, at, depth), at)
      decreases depth, 1
    {
      var current := PathText(path, at);
      if current !in fs {
        return;
      }
      match fs[current]
      case Directory(readable, names) =>
        if readable {
          ReadEntries(pathSize, depth, at, names);
        }
      case _ =>
        log := log + [FileVisit(current, current)];
    }

    method ReadEntries(pathSize: nat, depth: nat, ghost at: string, names: seq<string>)
      requires Holds(path, at) && pathSize <= path.Length && Listed(fs)
      requires at in fs && fs[at] == Directory(true, names)
      requires forall i :: 0 <= i < |names| ==> EntryFits(fs, cb, at, names[i], depth, pathSize)
      modifies this, path
      ensures Fired(old(log), WalkEntries(fs, cb, at, names, depth), at)
      decreases depth, 0, |names| + 1
    {
      hide WalkEntry, Walk, EntryFits;
      var i := 0;
      assert names[0..] == names;
      while i < |names|
        invariant i <= |names| && Holds(path, at)
        invariant old(log) + WalkEntries(fs, cb, at, names, depth) == log + WalkEntries(fs, cb, at, names[i..], depth)
        invariant old(log) <= log
      {
        ghost var before := log;
        entriesRead := entriesRead + 1;
        var pathLen := ReadEntry(pathSize, depth, at, names[i]);
        assert names[i..][0] == names[i] && names[i..][1..] == names[i + 1..];
        ghost var entry, rest := WalkEntry(fs, cb, at, names[i], depth), WalkEntries(fs, cb, at, names[i + 1..], depth);
        assert before + (entry + rest) == (before + entry) + rest;
        if Interrupted() {
          return;
        }
        // Restore path length
        RestoreLength(pathLen, at, names[i]);
        i := i + 1;
      }
    }

    method RestoreLength(pathLen: nat, ghost at: string, ghost name: string)
      requires at != "" && pathLen == |at| && Holds(path, Join(at, name)) && '\0' !in at
      modifies path
      ensures Holds(path, at)
    {
      path[pathLen] := '\0';
      assert at == Join(at, name)[..pathLen];
    }

    /** Appends a separator, unless there is one, and the entry's name. */
    method AppendName(pathSize: nat, ghost at: string, entry: string) returns (pathLen: nat)
      requires Holds(path, at) && pathSize <= path.Length
      requires at != "" && entry != "" && '\0' !in entry && |Join(at, entry)| < pathSize
      modifies path
      ensures pathLen == |at| && Holds(path, Join(at, entry))
    {
      pathLen := StrLen(path, at);
      ghost var base := at;
      if path[pathLen - 1] != '/' {
        StrNCat(path, "/", pathSize - pathLen, at);
        base := at + "/";
      }
      var len := StrLen(path, base);
      StrNCat(path, entry, pathSize - len, base);
      assert base + entry == Join(at, entry);
    }

    /** One entry: its name is appended to the path, looked up, and reported or entered. */
    method ReadEntry(pathSize: nat, depth: nat, ghost at: string, entry: string) returns (pathLen: nat)
      requires Holds(path, at) && pathSize <= path.Length && Listed(fs)
      requires at != "" && entry != "" && '\0' !in entry && Join(at, entry) in fs
      requires EntryFits(fs, cb, at, entry, depth, pathSize)
      modifies this, path
      ensures pathLen == |at|
      ensures Fired(old(log), WalkEntry(fs, cb, at, entry, depth), Join(at, entry))
      decreases depth, 0, 0, 1
    {
      hide Walk, Fits, Join;
      pathLen := AppendName(pathSize, at, entry);
      var current := PathText(path, Join(at, entry));
      var kind := fs[current];
      if ((kind.Directory? && depth > 0) || kind.Regular?) && entry[0] != '.' {
        if kind.Directory? {
          if cb.Accepts? {
            ReportDirectory(pathSize, depth, current, entry);
          }
        } else {
          log := log + [FileVisit(current, entry)];
        }
      }
    }

    /** The callback decides whether the directory is entered. */
    method ReportDirectory(pathSize: nat, depth: nat, current: string, entry: string)
      requires Holds(path, current) && pathSize <= path.Length && Listed(fs)
      requires depth > 0 && cb.Accepts? && (cb.test(current, entry) ==> Fits(fs, cb, current, depth - 1, pathSize))
      modifies this, path
      ensures Fired(old(log), [DirVisit(current, entry)]
                              + (if cb.test(current, entry) then Walk(fs, cb, current, depth - 1) else []), current)
      decreases depth, 0, 0, 0
    {
      hide Walk, Fits;
      log := log + [DirVisit(current, entry)];
      if cb.test(current, entry) {
        WalkDir(pathSize, depth - 1, current);
      }
    }
  }

  // ----- Which files the traversal reports

  function EndPath(path: string, chain: seq<string>): string
    requires path != ""
    decreases |chain|
  {
    if chain == [] then path else EndPath(Join(path, chain[0]), chain[1..])
  }

  /** The names lead from a directory to a regular file, through listed, visible, accepted, readable directories, `depth` of them at most. */
  predicate Leads(fs: FileSystem, cb: DirCallback, path: string, chain: seq<string>, depth: nat)
    decreases |chain|
  {
    && chain != [] && path != "" && path in fs && fs[path].Directory? && fs[path].readable
    && chain[0] in fs[path].names && !("." <= chain[0])
    && var full := Join(path, chain[0]);
       full in fs
       && if |chain| == 1 then fs[full].Regular?
          else depth > 0 && fs[full].Directory? && cb.Accepts? && cb.test(full, chain[0])
               && Leads(fs, cb, full, chain[1..], depth - 1)
  }

  predicate VisitedAt(fs: FileSystem, cb: DirCallback, path: string, name: string, depth: nat, v: Visit)
    requires path != ""
  {
    v in WalkEntry(fs, cb, path, name, depth)
  }

  /** A visit among the entries belongs to one of them. */
  lemma {:induction false} EntryOfVisit(fs: FileSystem, cb: DirCallback, path: string, names: seq<string>, depth: nat, v: Visit)
    returns (name: string)
    requires path != "" && v in WalkEntries(fs, cb, path, names, depth)
    ensures name in names && VisitedAt(fs, cb, path, name, depth, v)
    decreases |names|
  {
    hide WalkEntry;
    if VisitedAt(fs, cb, path, names[0], depth, v) {
      name := names[0];
    } else {
      name := EntryOfVisit(fs, cb, path, names[1..], depth, v);
    }
  }

  lemma {:induction false} VisitOfEntry(fs: FileSystem, cb: DirCallback, path: string, names: seq<string>, depth: nat, name: string, v: Visit)
    requires path != "" && name in names && VisitedAt(fs, cb, path, name, depth, v)
    ensures v in WalkEntries(fs, cb, path, names, depth)
    decreases |names|
  {
    hide WalkEntry;
    if name != names[0] {
      assert name in names[1..];
      VisitOfEntry(fs, cb, path, names[1..], depth, name, v);
    }
  }

  /** Every reported file is reached by such a chain. */
  lemma {:induction false} FindChain(fs: FileSystem, cb: DirCallback, path: string, depth: nat, v: Visit) returns (chain: seq<string>)
    requires path != "" && path in fs && fs[path].Directory? && v.FileVisit? && v in Walk(fs, cb, path, depth)
    ensures Leads(fs, cb, path, chain, depth) && v == FileVisit(EndPath(path, chain), chain[|chain| - 1])
    decreases depth
  {
    var name := EntryOfVisit(fs, cb, path, fs[path].names, depth, v);
    var full := Join(path, name);
    if fs[full].Regular? {
      chain := [name];
    } else {
      var rest := FindChain(fs, cb, full, depth - 1, v);
      chain := [name] + rest;
      assert chain[1..] == rest;
    }
  }

  /** Every file at the end of such a chain is reported. */
  lemma {:induction false} ChainIsVisited(fs: FileSystem, cb: DirCallback, path: string, depth: nat, chain: seq<string>)
    requires Leads(fs, cb, path, chain, depth)
    ensures FileVisit(EndPath(path, chain), chain[|chain| - 1]) in Walk(fs, cb, path, depth)
    decreases |chain|
  {
    var v := FileVisit(EndPath(path, chain), chain[|chain| - 1]);
    var full := Join(path, chain[0]);
    if |chain| > 1 {
      ChainIsVisited(fs, cb, full, depth - 1, chain[1..]);
    }
    assert EndPath(path, chain) == EndPath(full, chain[1..]);
    assert |chain| > 1 ==> chain[1..][|chain| - 2] == chain[|chain| - 1];
    assert VisitedAt(fs, cb, path, chain[0], depth, v);
    VisitOfEntry(fs, cb, path, fs[path].names, depth, chain[0], v);
  }

  /** The files reported below a directory are exactly those a chain leads to. */
  lemma FileVisitedIffLed(fs: FileSystem, cb: DirCallback, path: string, depth: nat, v: Visit)
    requires path != "" && path in fs && fs[path].Directory? && v.FileVisit?
    ensures v in Walk(fs, cb, path, depth) <==>
            exists chain :: Leads(fs, cb, path, chain, depth) && v == FileVisit(EndPath(path, chain), chain[|chain| - 1])
  {
    if v in Walk(fs, cb, path, depth) {
      var chain := FindChain(fs, cb, path, depth, v);
    }
    forall chain | Leads(fs, cb, path, chain, depth) && v == FileVisit(EndPath(path, chain), chain[|chain| - 1])
      ensures v in Walk(fs, cb, path, depth)
    {
      ChainIsVisited(fs, cb, path, depth, chain);
    }
  }

  /** A directory is reported when accepted, visible directories lead to it and the depth reaches it. */
  predicate LeadsToDir(fs: FileSystem, cb: DirCallback, path: string, chain: seq<string>, depth: nat)
    decreases |chain|
  {
    && chain != [] && path != "" && path in fs && fs[path].Directory? && fs[path].readable
    && chain[0] in fs[path].names && !("." <= chain[0])
    && var full := Join(path, chain[0]);
       && full in fs && fs[full].Directory? && depth > 0 && cb.Accepts?
       && (|chain| > 1 ==> cb.test(full, chain[0]) && LeadsToDir(fs, cb, full, chain[1..], depth - 1))
  }

  lemma {:induction false} FindDirChain(fs: FileSystem, cb: DirCallback, path: string, depth: nat, v: Visit) returns (chain: seq<string>)
    requires path != "" && path in fs && fs[path].Directory? && v.DirVisit? && v in Walk(fs, cb, path, depth)
    ensures LeadsToDir(fs, cb, path, chain, depth) && v == DirVisit(EndPath(path, chain), chain[|chain| - 1])
    decreases depth
  {
    var name := EntryOfVisit(fs, cb, path, fs[path].names, depth, v);
    var full := Join(path, name);
    if v == DirVisit(full, name) {
      chain := [name];
    } else {
      var rest := FindDirChain(fs, cb, full, depth - 1, v);
      chain := [name] + rest;
      assert chain[1..] == rest;
    }
  }

  lemma {:induction false} DirChainIsVisited(fs: FileSystem, cb: DirCallback, path: string, depth: nat, chain: seq<string>)
    requires LeadsToDir(fs, cb, path, chain, depth)
    ensures DirVisit(EndPath(path, chain), chain[|chain| - 1]) in Walk(fs, cb, path, depth)
    decreases |chain|
  {
    var v := DirVisit(EndPath(path, chain), chain[|chain| - 1]);
    var full := Join(path, chain[0]);
    if |chain| > 1 {
      DirChainIsVisited(fs, cb, full, depth - 1, chain[1..]);
    }
    assert EndPath(path, chain) == EndPath(full, chain[1..]);
    assert |chain| > 1 ==> chain[1..][|chain| - 2] == chain[|chain| - 1];
    assert VisitedAt(fs, cb, path, chain[0], depth, v);
    VisitOfEntry(fs, cb, path, fs[path].names, depth, chain[0], v);
  }

  /** The directories reported below a directory are exactly those such a chain leads to. */
  lemma DirVisitedIffLed(fs: FileSystem, cb: DirCallback, path: string, depth: nat, v: Visit)
    requires path != "" && path in fs && fs[path].Directory? && v.DirVisit?
    ensures v in Walk(fs, cb, path, depth) <==>
            exists chain :: LeadsToDir(fs, cb, path, chain, depth) && v == DirVisit(EndPath(path, chain), chain[|chain| - 1])
  {
    if v in Walk(fs, cb, path, depth) {
      var chain := FindDirChain(fs, cb, path, depth, v);
    }
    forall chain | LeadsToDir(fs, cb, path, chain, depth) && v == DirVisit(EndPath(path, chain), chain[|chain| - 1])
      ensures v in Walk(fs, cb, path, depth)
    {
      DirChainIsVisited(fs, cb, path, depth, chain);
    }
  }

  // ----- Nothing is reported twice

  /** No name in a directory is empty or holds a '/'. */
  predicate SlashFree(fs: FileSystem) {
    forall path :: path in fs && fs[path].Directory? ==>
      forall name :: name in fs[path].names ==> name != "" && '/' !in name
  }

  predicate DistinctNames(fs: FileSystem) {
    forall path :: path in fs && fs[path].Directory? ==> Distinct(fs[path].names)
  }

  predicate Distinct(names: seq<string>) { forall i, j :: 0 <= i < j < |names| ==> names[i] != names[j] }

  predicate DistinctPaths(visits: seq<Visit>) {
    forall i, j :: 0 <= i < j < |visits| ==> visits[i].path != visits[j].path
  }

  /** The path itself, or something below it. */
  predicate AtOrBelow(p: string, full: string) { p == full || full + "/" <= p }

  lemma {:induction false} EntryVisitsBelow(fs: FileSystem, cb: DirCallback, path: string, name: string, depth: nat, v: Visit)
    requires SlashFree(fs) && path != "" && name != "" && '/' !in name && v in WalkEntry(fs, cb, path, name, depth)
    ensures AtOrBelow(v.path, Join(path, name))
    decreases depth
  {
    var full := Join(path, name);
    if v.path != full {
      var below := EntryOfVisit(fs, cb, full, fs[full].names, depth - 1, v);
      EntryVisitsBelow(fs, cb, full, below, depth - 1, v);
      BelowEntry(path, name, below, v.path);
    }
  }

  lemma BelowEntry(path: string, name: string, below: string, p: string)
    requires path != "" && name != "" && '/' !in name && AtOrBelow(p, Join(Join(path, name), below))
    ensures AtOrBelow(p, Join(path, name))
  {
    var full := Join(path, name);
    assert full[|full| - 1] == name[|name| - 1] && name[|name| - 1] in name;
    var next := Join(full, below);
    assert next == full + "/" + below && full + "/" <= next <= p;
  }

  /** Two entries of a directory have nothing below them in common. */
  lemma OneComponent(base: string, a: string, b: string, p: string)
    requires '/' !in a && '/' !in b && AtOrBelow(p, base + a) && AtOrBelow(p, base + b)
    ensures a == b
  {
    var rest := p[|base|..];
    assert rest == a || a + "/" <= rest;
    assert rest == b || b + "/" <= rest;
    FirstComponent(rest, a);
    FirstComponent(rest, b);
  }

  function Component(rest: string): string {
    if rest == "" || rest[0] == '/' then "" else [rest[0]] + Component(rest[1..])
  }

  lemma {:induction false} FirstComponent(rest: string, a: string)
    requires '/' !in a && (rest == a || a + "/" <= rest)
    ensures Component(rest) == a
  {
    if a != "" {
      assert a[0] in a && rest[0] == a[0];
      assert rest[1..] == a[1..] || a[1..] + "/" <= rest[1..];
      FirstComponent(rest[1..], a[1..]);
    }
  }

  lemma AppendDistinct(a: seq<Visit>, b: seq<Visit>)
    requires DistinctPaths(a) && DistinctPaths(b)
    requires forall v, w :: v in a && w in b ==> v.path != w.path
    ensures DistinctPaths(a + b)
  {
  }

  lemma EntriesApart(fs: FileSystem, cb: DirCallback, path: string, name: string, other: string, depth: nat, v: Visit, w: Visit)
    requires SlashFree(fs) && path != "" && name != other
    requires name != "" && '/' !in name && v in WalkEntry(fs, cb, path, name, depth)
    requires other != "" && '/' !in other && w in WalkEntry(fs, cb, path, other, depth)
    ensures v.path != w.path
  {
    hide WalkEntry;
    EntryVisitsBelow(fs, cb, path, name, depth, v);
    EntryVisitsBelow(fs, cb, path, other, depth, w);
    var base := if path[|path| - 1] == '/' then path else path + "/";
    assert Join(path, name) == base + name && Join(path, other) == base + other;
    if v.path == w.path {
      OneComponent(base, name, other, v.path);
    }
  }

  lemma {:induction false} EntriesDistinct(fs: FileSystem, cb: DirCallback, path: string, names: seq<string>, depth: nat)
    requires SlashFree(fs) && DistinctNames(fs) && path != "" && Distinct(names)
    requires forall name :: name in names ==> name != "" && '/' !in name
    ensures DistinctPaths(WalkEntries(fs, cb, path, names, depth))
    decreases depth, 1, |names|
  {
    if names != [] {
      var name, rest := names[0], names[1..];
      assert name in names && forall n :: n in rest ==> n in names;
      EntryDistinct(fs, cb, path, name, depth);
      EntriesDistinct(fs, cb, path, rest, depth);
      hide WalkEntry, SlashFree, DistinctNames, Distinct, DistinctPaths;
      forall v, w | v in WalkEntry(fs, cb, path, name, depth) && w in WalkEntries(fs, cb, path, rest, depth)
        ensures v.path != w.path
      {
        var other := EntryOfVisit(fs, cb, path, rest, depth, w);
        HeadApart(names, other);
        EntriesApart(fs, cb, path, name, other, depth, v, w);
      }
      AppendDistinct(WalkEntry(fs, cb, path, name, depth), WalkEntries(fs, cb, path, rest, depth));
    }
  }

  lemma HeadApart(names: seq<string>, other: string)
    requires names != [] && Distinct(names) && other in names[1..]
    ensures names[0] != other && other in names && Distinct(names[1..])
  {
  }

  lemma {:induction false} EntryDistinct(fs: FileSystem, cb: DirCallback, path: string, name: string, depth: nat)
    requires SlashFree(fs) && DistinctNames(fs) && path != "" && name != "" && '/' !in name
    ensures DistinctPaths(WalkEntry(fs, cb, path, name, depth))
    decreases depth, 0
  {
    var full := Join(path, name);
    if !Hidden(name) && full in fs && fs[full].Directory? && depth > 0 && cb.Accepts? && cb.test(full, name) {
      WalkNeverRepeats(fs, cb, full, depth - 1);
      var below := Walk(fs, cb, full, depth - 1);
      forall v | v in below ensures v.path != full {
        var entry := EntryOfVisit(fs, cb, full, fs[full].names, depth - 1, v);
        EntryVisitsBelow(fs, cb, full, entry, depth - 1, v);
      }
      AppendDistinct([DirVisit(full, name)], below);
    }
  }

  /** A walk reports no path twice. */
  lemma {:induction false} WalkNeverRepeats(fs: FileSystem, cb: DirCallback, path: string, depth: nat)
    requires SlashFree(fs) && DistinctNames(fs)
    ensures DistinctPaths(Walk(fs, cb, path, depth))
    decreases depth, 2
  {
    if path != "" && path in fs && fs[path].Directory? && fs[path].readable {
      EntriesDistinct(fs, cb, path, fs[path].names, depth);
    }
  }

  // ----- In which order

  /** Entries are reported in the order they are read, and a directory before what is below it. */
  lemma {:induction false} EntriesInOrder(fs: FileSystem, cb: DirCallback, path: string, a: seq<string>, b: seq<string>, depth: nat)
    requires path != ""
    ensures WalkEntries(fs, cb, path, a + b, depth) == WalkEntries(fs, cb, path, a, depth) + WalkEntries(fs, cb, path, b, depth)
    decreases |a|
  {
    hide WalkEntry;
    if a == [] {
      assert a + b == b;
    } else {
      assert (a + b)[1..] == a[1..] + b;
      EntriesInOrder(fs, cb, path, a[1..], b, depth);
    }
  }

  lemma DirectoryComesFirst(fs: FileSystem, cb: DirCallback, path: string, name: string, depth: nat)
    requires path != "" && name != "" && '/' !in name && SlashFree(fs)
    requires exists v :: v in WalkEntry(fs, cb, path, name, depth) && v.path != Join(path, name)
    ensures WalkEntry(fs, cb, path, name, depth)[0] == DirVisit(Join(path, name), name)
  {
  }
}
