/** `run` scripts: the hooks that save `__FILE__` and `__FILE_DIR__` on entry and put them back on exit. */
module RunHooks {
  import opened CText
  import opened Expansion
  import opened Environment

  const ENV_FILE := "__FILE__"
  const ENV_FILE_DIR := "__FILE_DIR__"

  /** What a successful realpath() returns. */
  predicate Absolute(path: string) { path != "" && path[0] == '/' }

  type AbsolutePath = path: string | Absolute(path) witness "/"

  /** Position of the last '/', which strrchr() finds. */
  function LastSlash(path: string): (at: nat)
    requires '/' in path
    ensures at < |path| && path[at] == '/' && '/' !in path[at + 1..]
  {
    if path[|path| - 1] == '/' then |path| - 1 else
      var at := LastSlash(path[..|path| - 1]);
      assert path[at + 1..] == path[..|path| - 1][at + 1..] + [path[|path| - 1]];
      at
  }

  /** `__FILE__` for a script; empty when the path does not resolve. */
  function FilePath(path: Option<AbsolutePath>): string {
    if path.Some? then path.value else ""
  }

  /** `__FILE_DIR__` for a script: its path up to the last '/'. */
  function FileDir(path: Option<AbsolutePath>): string {
    if path.Some? then path.value[..LastSlash(path.value)] else ""
  }

  /** That is the directory it lies in, without a slash at the end; nothing for a script in the root directory. */
  lemma FileDirIsParent(dir: string, name: string)
    requires Absolute(dir + "/" + name) && '/' !in name
    ensures FileDir(Some(dir + "/" + name)) == dir && FilePath(Some(dir + "/" + name)) == dir + "/" + name
    ensures FileDir(None) == "" && FilePath(None) == ""
  {
    LastSlashIs(dir, name);
    assert (dir + "/" + name)[..|dir|] == dir;
  }

  lemma {:induction false} LastSlashIs(dir: string, name: string)
    requires '/' !in name
    ensures LastSlash(dir + "/" + name) == |dir|
    decreases |name|
  {
    var path := dir + "/" + name;
    assert path[|dir|] == '/';
    if name != "" {
      var n := |name| - 1;
      assert path[|path| - 1] == name[n] && name[n] in name && path[..|path| - 1] == dir + "/" + name[..n];
      LastSlashIs(dir, name[..n]);
    }
  }

  datatype RunContext = RunContext(oldFile: Option<string>, oldFileDir: Option<string>)

  function Get(vars: Vars, name: string): Option<string> {
    if name in vars then Some(vars[name]) else None
  }

  /** Put a saved value back, or remove the variable when there was none. */
  function Restore(vars: Vars, name: string, saved: Option<string>): Vars {
    if saved.Some? then vars[name := saved.value] else vars - {name}
  }

  // ----- The hooks on the shared store

  method PreHook(env: CshEnv, path: Option<AbsolutePath>) returns (ctx: RunContext)
    requires env.Valid()
    modifies env.Repr
    ensures env.Valid() && fresh(env.Repr - old(env.Repr))
    ensures ctx == RunContext(Get(old(env.vars), ENV_FILE), Get(old(env.vars), ENV_FILE_DIR))
    ensures env.vars == old(env.vars)[ENV_FILE := FilePath(path)][ENV_FILE_DIR := FileDir(path)]
  {
    var oldFile := env.GetVar(ENV_FILE);
    var oldFileDir := env.GetVar(ENV_FILE_DIR);
    ctx := RunContext(oldFile, oldFileDir);
    var pathbuf := if path.Some? then path.value else "";
    env.PutVar(ENV_FILE, pathbuf);
    if |pathbuf| > 0 {
      var lastSlash := LastSlash(pathbuf);
      pathbuf := pathbuf[..lastSlash];
    }
    env.PutVar(ENV_FILE_DIR, pathbuf);
  }

  method PostHook(env: CshEnv, ctx: RunContext)
    requires env.Valid()
    modifies env.Repr
    ensures env.Valid() && fresh(env.Repr - old(env.Repr))
    ensures env.vars == Restore(Restore(old(env.vars), ENV_FILE, ctx.oldFile), ENV_FILE_DIR, ctx.oldFileDir)
  {
    PutBack(env, ENV_FILE, ctx.oldFile);
    PutBack(env, ENV_FILE_DIR, ctx.oldFileDir);
  }

  method PutBack(env: CshEnv, name: string, saved: Option<string>)
    requires env.Valid()
    modifies env.Repr
    ensures env.Valid() && fresh(env.Repr - old(env.Repr))
    ensures env.vars == Restore(old(env.vars), name, saved)
  {
    match saved
    case None => var _ := env.DelVar(name);
    case Some(value) => env.PutVar(name, value);
  }

  // ----- Scripts that run scripts

  /** What a command line does once it is expanded. Which line means what is up to slash. */
  datatype Action = Set(name: string, value: string) | Unset(name: string) | Clear | Show(text: string) | Run(filename: string) | Other

  type Parser = string -> Action

  /** A line of a script, and the files a `run` in this line can find on disk. */
  datatype Line = Line(text: string, files: map<string, File>)

  /** What realpath() makes of the file's name, and the lines in it. */
  datatype File = File(path: Option<AbsolutePath>, body: seq<Line>)

  datatype World = World(vars: Vars, output: seq<string>)

  function Exec(parse: Parser, w: World, script: seq<Line>): World
    decreases script, 0
  {
    if script == [] then w else Exec(parse, Step(parse, w, script[0]), script[1..])
  }

  /** The shell expands the whole line before it looks at it. */
  function Step(parse: Parser, w: World, line: Line): World
    decreases line, 1
  {
    match parse(Expand(w.vars, line.text))
    case Set(name, value) => w.(vars := w.vars[name := value])
    case Unset(name) => w.(vars := w.vars - {name})
    case Clear => w.(vars := map[])
    case Show(text) => w.(output := w.output + [text])
    case Run(filename) => if filename in line.files then RunFile(parse, w, line.files[filename]) else w
    case Other => w
  }

  /** What the script sees when it starts. */
  function Entered(w: World, file: File): World {
    w.(vars := w.vars[ENV_FILE := FilePath(file.path)][ENV_FILE_DIR := FileDir(file.path)])
  }

  function RunFile(parse: Parser, w: World, file: File): World
    decreases file, 2
  {
    var end := Exec(parse, Entered(w, file), file.body);
    end.(vars := Restore(Restore(end.vars, ENV_FILE, Get(w.vars, ENV_FILE)),
                         ENV_FILE_DIR, Get(w.vars, ENV_FILE_DIR)))
  }

  predicate Framed(name: string) { name == ENV_FILE || name == ENV_FILE_DIR }

  /** After a run both variables have their value or absence from before it; the rest is as the script left it. */
  lemma RunRestores(parse: Parser, w: World, file: File)
    ensures var left := Exec(parse, Entered(w, file), file.body);
            var after := RunFile(parse, w, file);
            && after.output == left.output
            && forall name :: Get(after.vars, name) == Get(if Framed(name) then w.vars else left.vars, name)
  {
  }

  // ----- The same on the linked list

  /** Text lengths fit in size_t, as they must in memory. */
  ghost predicate ShortTexts(script: seq<Line>)
    decreases script, 0
  {
    forall i :: 0 <= i < |script| ==> ShortText(script[i])
  }

  ghost predicate ShortText(line: Line)
    decreases line, 1
  {
    |line.text| < SIZE_T_MODULUS && forall name :: name in line.files ==> ShortTexts(line.files[name].body)
  }

  method ExecScript(parse: Parser, env: CshEnv, script: seq<Line>, before: seq<string>) returns (output: seq<string>)
    requires env.Valid() && ShortTexts(script)
    modifies env.Repr
    ensures env.Valid() && fresh(env.Repr - old(env.Repr))
    ensures Exec(parse, World(old(env.vars), before), script) == World(env.vars, output)
    decreases script, 0
  {
    output := before;
    var i := 0;
    while i < |script|
      invariant i <= |script| && env.Valid() && fresh(env.Repr - old(env.Repr))
      invariant Exec(parse, World(old(env.vars), before), script) == Exec(parse, World(env.vars, output), script[i..])
    {
      output := ExecLine(parse, env, script[i], output);
      i := i + 1;
    }
  }

  method ExecLine(parse: Parser, env: CshEnv, line: Line, before: seq<string>) returns (output: seq<string>)
    requires env.Valid() && ShortText(line)
    modifies env.Repr
    ensures env.Valid() && fresh(env.Repr - old(env.Repr))
    ensures Step(parse, World(old(env.vars), before), line) == World(env.vars, output)
    ensures match parse(Expand(old(env.vars), line.text))
            case Set(name, value) => env.vars == old(env.vars)[name := value] && output == before
            case Unset(name) => env.vars == old(env.vars) - {name} && output == before
            case Clear => env.vars == map[] && output == before
            case Show(text) => env.vars == old(env.vars) && output == before + [text]
            case Run(filename) => filename !in line.files ==> env.vars == old(env.vars) && output == before
            case Other => env.vars == old(env.vars) && output == before
    decreases line, 1
  {
    output := before;
    var expansion, len := env.ExpandVars(line.text);
    match parse(expansion[..len])
    case Set(name, value) =>
      env.PutVar(name, value);
    case Unset(name) =>
      var _ := env.DelVar(name);
    case Clear =>
      env.ClearEnv();
    case Show(text) =>
      output := output + [text];
    case Run(filename) =>
      if filename in line.files {
        output := RunScript(parse, env, line.files[filename], output);
      }
    case Other =>
  }

  /** A script between its hooks: both variables are back afterwards, all others are as the script left them. */
  method RunScript(parse: Parser, env: CshEnv, file: File, before: seq<string>) returns (output: seq<string>)
    requires env.Valid() && ShortTexts(file.body)
    modifies env.Repr
    ensures env.Valid() && fresh(env.Repr - old(env.Repr))
    ensures RunFile(parse, World(old(env.vars), before), file) == World(env.vars, output)
    ensures var left := Exec(parse, Entered(World(old(env.vars), before), file), file.body);
            && output == left.output
            && forall name :: Get(env.vars, name) == Get(if Framed(name) then old(env.vars) else left.vars, name)
    decreases file, 2
  {
    RunRestores(parse, World(env.vars, before), file);
    var ctx := PreHook(env, file.path);
    output := ExecScript(parse, env, file.body, before);
    PostHook(env, ctx);
  }

  // ----- Saving and restoring amounts to a stack of frames

  /** Each running script owns its frame of the two variables; everything else is global. */
  datatype Scoped = Scoped(globals: Vars, frame: Vars, output: seq<string>) {
    function Vars(): Vars { globals + frame }

    predicate Valid() {
      ENV_FILE !in globals && ENV_FILE_DIR !in globals && frame.Keys <= {ENV_FILE, ENV_FILE_DIR}
    }
  }

  function ScopedExec(parse: Parser, s: Scoped, script: seq<Line>): Scoped
    decreases script, 0
  {
    if script == [] then s else ScopedExec(parse, ScopedStep(parse, s, script[0]), script[1..])
  }

  /** No saving: a run pushes a new frame and, when it ends, the caller's frame is simply still there. */
  function ScopedStep(parse: Parser, s: Scoped, line: Line): Scoped
    decreases line, 1
  {
    match parse(Expand(s.Vars(), line.text))
    case Set(name, value) =>
      if Framed(name) then s.(frame := s.frame[name := value]) else s.(globals := s.globals[name := value])
    case Unset(name) => s.(globals := s.globals - {name}, frame := s.frame - {name})
    case Clear => s.(globals := map[], frame := map[])
    case Show(text) => s.(output := s.output + [text])
    case Run(filename) =>
      if filename in line.files then
        var file := line.files[filename];
        ScopedExec(parse, s.(frame := Frame(file.path)), file.body).(frame := s.frame)
      else s
    case Other => s
  }

  /** The frame a script starts with. */
  function Frame(path: Option<AbsolutePath>): Vars {
    map[ENV_FILE := FilePath(path), ENV_FILE_DIR := FileDir(path)]
  }

  /** For every script, whatever its lines expand to, and every choice of files on disk. */
  lemma {:induction false} ExecRefinesScoped(parse: Parser, s: Scoped, script: seq<Line>)
    requires s.Valid()
    ensures var s' := ScopedExec(parse, s, script);
            s'.Valid() && Exec(parse, World(s.Vars(), s.output), script) == World(s'.Vars(), s'.output)
    decreases script, 0
  {
    if script != [] {
      StepRefinesScoped(parse, s, script[0]);
      ExecRefinesScoped(parse, ScopedStep(parse, s, script[0]), script[1..]);
    }
  }

  lemma {:induction false} StepRefinesScoped(parse: Parser, s: Scoped, line: Line)
    requires s.Valid()
    ensures var s' := ScopedStep(parse, s, line);
            s'.Valid() && Step(parse, World(s.Vars(), s.output), line) == World(s'.Vars(), s'.output)
    decreases line, 1
  {
    hide Expand, FilePath, FileDir;
    match parse(Expand(s.Vars(), line.text))
    case Set(name, value) =>
      SetRefinesScoped(s, name, value);
    case Unset(name) =>
      assert s.Vars() - {name} == ScopedStep(parse, s, line).Vars();
    case Run(filename) =>
      if filename in line.files {
        var file := line.files[filename];
        var start := s.(frame := Frame(file.path));
        EnterFrame(s, file.path);
        ExecRefinesScoped(parse, start, file.body);
        LeaveFrame(s, ScopedExec(parse, start, file.body));
      }
    case _ =>
  }

  lemma SetRefinesScoped(s: Scoped, name: string, text: string)
    requires s.Valid()
    ensures s.Vars()[name := text]
         == if Framed(name) then s.globals + s.frame[name := text] else s.globals[name := text] + s.frame
  {
  }

  lemma EnterFrame(s: Scoped, path: Option<AbsolutePath>)
    requires s.Valid()
    ensures s.(frame := Frame(path)).Vars() == s.Vars()[ENV_FILE := FilePath(path)][ENV_FILE_DIR := FileDir(path)]
  {
  }

  lemma GetRestored(vars: Vars, saved: Vars, name: string)
    ensures Get(Restore(Restore(vars, ENV_FILE, Get(saved, ENV_FILE)), ENV_FILE_DIR, Get(saved, ENV_FILE_DIR)), name)
         == Get(if Framed(name) then saved else vars, name)
  {
  }

  lemma SameVars(a: Vars, b: Vars)
    requires forall name :: Get(a, name) == Get(b, name)
    ensures a == b
  {
    forall name ensures name in a <==> name in b {
      assert Get(a, name) == Get(b, name);
    }
    forall name | name in a ensures a[name] == b[name] {
      assert Get(a, name) == Get(b, name);
    }
  }

  lemma LeaveFrame(caller: Scoped, end: Scoped)
    requires caller.Valid() && end.Valid()
    ensures Restore(Restore(end.Vars(), ENV_FILE, Get(caller.Vars(), ENV_FILE)),
                    ENV_FILE_DIR, Get(caller.Vars(), ENV_FILE_DIR))
         == end.(frame := caller.frame).Vars()
  {
    var restored := Restore(Restore(end.Vars(), ENV_FILE, Get(caller.Vars(), ENV_FILE)),
                            ENV_FILE_DIR, Get(caller.Vars(), ENV_FILE_DIR));
    var after := end.(frame := caller.frame).Vars();
    forall name ensures Get(restored, name) == Get(after, name) {
      GetRestored(end.Vars(), caller.Vars(), name);
    }
    hide Restore;
    SameVars(restored, after);
  }
}
