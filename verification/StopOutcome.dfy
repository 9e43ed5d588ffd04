/**
 Whom the stop takes, from what `/proc` and the pid files show: the link, the command line as the kernel
 prints it, and the texts of the files.
 */
module StopOutcome {
  import opened Sequences
  import opened StopProcesses
  import opened Text
  import opened Wrappers

  // ---- Command lines ----

  /** The kernel puts a NUL behind every argument. */
  function CmdLine(args: seq<string>): string {
    if args == [] then "" else args[0] + "\0" + CmdLine(args[1..])
  }

  /** The command line of a process; one that rewrites it may leave out the last NUL. */
  predicate Shows(p: Process, args: seq<string>) {
    && (forall arg :: arg in args ==> '\0' !in arg)
    && (p.cmdline == CmdLine(args) || (args != [] && p.cmdline + "\0" == CmdLine(args)))
  }

  lemma {:induction false} SplitCmdLine(args: seq<string>)
    requires forall arg :: arg in args ==> '\0' !in arg
    ensures Split(CmdLine(args), '\0') == args + [""]
  {
    if args != [] {
      SplitOnceAt(args[0], '\0', CmdLine(args[1..]));
      assert CmdLine(args) == args[0] + ['\0'] + CmdLine(args[1..]);
      SplitCmdLine(args[1..]);
      assert args == [args[0]] + args[1..];
    }
  }

  lemma {:induction false} SplitEnd(text: string, c: char)
    ensures Split(text + [c], c) == Split(text, c) + [""]
    decreases |text|
  {
    match SplitOnce(text, c)
    case None =>
      SplitOnceAt(text, c, "");
      assert text + [c] == text + [c] + "";
    case Some((before, after)) =>
      assert text + [c] == before + [c] + (after + [c]);
      SplitOnceAt(before, c, after + [c]);
      SplitEnd(after, c);
  }

  /** The arguments that are read are the ones that are not empty. */
  lemma ArgsOfCmdLine(p: Process, args: seq<string>)
    requires Shows(p, args)
    ensures Args(p) == Filter(args, IsNotEmpty)
  {
    hide Split, Filter;
    SplitCmdLine(args);
    FilterConcat(args, [""], IsNotEmpty);
    FilterNone([""], IsNotEmpty);
    if p.cmdline != CmdLine(args) {
      SplitEnd(p.cmdline, '\0');
      assert Split(p.cmdline, '\0') == args by {
        assert (Split(p.cmdline, '\0') + [""])[..|args|] == (args + [""])[..|args|];
      }
    }
  }

  // ---- Paths ----

  /** `/a/b/c` */
  function Absolute(names: seq<string>): string {
    if names == [] then "" else "/" + names[0] + Absolute(names[1..])
  }

  predicate PlainNames(names: seq<string>) {
    forall name :: name in names ==> IsName(name) && '/' !in name
  }

  lemma {:induction false} SplitJoined(a: string, c: char, b: string)
    ensures Split(a + [c] + b, c) == Split(a, c) + Split(b, c)
    decreases |a|
  {
    match SplitOnce(a, c)
    case None => SplitOnceAt(a, c, b);
    case Some((before, after)) =>
      assert a + [c] + b == before + [c] + (after + [c] + b);
      SplitOnceAt(before, c, after + [c] + b);
      SplitJoined(after, c, b);
  }

  lemma {:induction false} SplitNames(name: string, names: seq<string>)
    requires '/' !in name && PlainNames(names)
    ensures Split(name + Absolute(names), '/') == [name] + names
    decreases |names|
  {
    if names == [] {
      assert name + Absolute(names) == name;
    } else {
      var rest := names[0] + Absolute(names[1..]);
      assert name + Absolute(names) == name + ['/'] + rest;
      SplitOnceAt(name, '/', rest);
      SplitNames(names[0], names[1..]);
      assert names == [names[0]] + names[1..];
    }
  }

  /** Absolute paths without superfluous parts are the same path exactly if they are the same text. */
  lemma PlainPathsDiffer(a: seq<string>, b: seq<string>)
    requires PlainNames(a) && PlainNames(b) && a != [] && b != []
    ensures SamePath(Absolute(a), Absolute(b)) <==> a == b
  {
    hide Split;
    KeyOfAbsolute(a);
    KeyOfAbsolute(b);
  }

  lemma KeyOfAbsolute(names: seq<string>)
    requires PlainNames(names) && names != []
    ensures KeyOf(Absolute(names)) == PathKey(true, false, names)
  {
    hide Split, Filter;
    SplitNames("", names);
    assert "" + Absolute(names) == Absolute(names);
    FilterConcat([""], names, IsName);
    FilterNone([""], IsName);
    FilterAll(names, IsName);
  }

  /** The parts of a path put together with a slash. */
  lemma KeyOfJoined(a: string, b: string)
    requires a != ""
    ensures var k := KeyOf(a + "/" + b);
            && k.components == KeyOf(a).components + KeyOf(b).components
            && k.rooted == KeyOf(a).rooted && k.dotted == KeyOf(a).dotted
  {
    hide Split, Filter;
    assert a + "/" + b == a + ['/'] + b;
    SplitJoined(a, '/', b);
    FilterConcat(Split(a, '/'), Split(b, '/'), IsName);
  }

  lemma KeyOfNothing()
    ensures KeyOf("").components == [] && KeyOf(".").components == [] && KeyOf(".").dotted && !KeyOf(".").rooted
  {
    assert Split("", '/') == [""] && Split(".", '/') == ["."];
  }

  lemma KeyOfRooted(b: string)
    ensures KeyOf("/" + b).components == KeyOf(b).components && KeyOf("/" + b).rooted
  {
    hide Filter;
    assert "/" + b == "" + ['/'] + b;
    SplitOnceAt("", '/', b);
    FilterConcat([""], Split(b, '/'), IsName);
    NoNames([""]);
  }

  /** A repeated slash, a dot between two slashes and a slash at the end do not count. */
  lemma SpellingDoesNotCount(a: string, b: string)
    requires a != ""
    ensures SamePath(a + "/" + b, a + "//" + b) && SamePath(a + "/" + b, a + "/./" + b) && SamePath(a + "/", a)
  {
    hide KeyOf;
    KeyOfNothing();
    KeyOfJoined(a, b);
    KeyOfJoined(a, "/" + b);
    KeyOfRooted(b);
    assert a + "//" + b == a + "/" + ("/" + b);
    KeyOfJoined(".", b);
    KeyOfJoined(a, "./" + b);
    assert a + "/./" + b == a + "/" + ("./" + b) && "./" + b == "." + "/" + b;
    KeyOfJoined(a, "");
    assert a + "/" == a + "/" + "";
  }

  lemma KeyOfName(name: string)
    requires IsName(name) && '/' !in name
    ensures KeyOf(name) == PathKey(false, false, [name])
  {
    hide SplitOnce;
    assert name[0] in name;
    assert Split(name, '/') == [name];
    FilterAll([name], IsName);
  }

  /** A slash or a dot at the front does. */
  lemma FrontCounts(name: string)
    requires IsName(name) && '/' !in name
    ensures !SamePath("/" + name, name) && !SamePath("./" + name, name)
  {
    hide KeyOf;
    KeyOfName(name);
    KeyOfRooted(name);
    KeyOfNothing();
    KeyOfJoined(".", name);
    assert "./" + name == "." + "/" + name;
  }

  lemma NoNames(parts: seq<string>)
    requires forall part :: part in parts ==> !IsName(part)
    ensures Filter(parts, IsName) == []
  {
    FilterNone(parts, IsName);
  }

  // ---- Pid files ----

  predicate Blank(s: string) {
    forall c :: c in s ==> IsSpace(c)
  }

  /** A pid file may hold blanks around the number. */
  lemma PidTextRead(before: string, pid: nat, after: string)
    requires Blank(before) && Blank(after)
    ensures ParsePid(Trim(before + Decimal(pid) + after)) == if 0 < pid < TWO_32 then Some(pid) else None
  {
    hide Value;
    var digits := Decimal(pid);
    assert digits[0] in digits && digits[|digits| - 1] in digits;
    TrimStartBlank(before, digits + after);
    assert before + digits + after == before + (digits + after);
    TrimEndBlank(digits, after);
    ValueOfDecimal(pid);
  }

  lemma {:induction false} TrimStartBlank(blank: string, s: string)
    requires Blank(blank) && s != "" && !IsSpace(s[0])
    ensures TrimStart(blank + s) == s
  {
    if blank == "" {
      assert blank + s == s;
    } else {
      assert blank[0] in blank;
      assert (blank + s)[1..] == blank[1..] + s;
      TrimStartBlank(blank[1..], s);
    }
  }

  lemma {:induction false} TrimEndBlank(s: string, blank: string)
    requires Blank(blank) && s != "" && !IsSpace(s[|s| - 1])
    ensures TrimEnd(s + blank) == s
  {
    if blank == "" {
      assert s + blank == s;
    } else {
      var n := |blank| - 1;
      assert blank[n] in blank;
      assert (s + blank)[..|s| + n] == s + blank[..n];
      TrimEndBlank(s, blank[..n]);
    }
  }

  // ---- Who is stopped ----

  /** The link or the first argument that is not empty names one of the executables; further arguments do not count. */
  predicate Runs(link: Option<string>, args: seq<string>, executables: seq<string>) {
    var named := Filter(args, IsNotEmpty);
    exists path :: path in executables && ((link.Some? && SamePath(link.value, path)) ||
                                           (named != [] && SamePath(named[0], path)))
  }

  predicate HasLaterArg(args: seq<string>, arg: string) {
    var named := Filter(args, IsNotEmpty);
    exists i :: 0 < i < |named| && named[i] == arg
  }

  /** The three places of the runtime's core. */
  function Cores(config: StopConfig): seq<string> {
    [config.commonCore,
     "/data/adb/modules/achost-base/achost/bin/achost-runtime-core",
     "/data/adb/achost/bin/achost-runtime-core"]
  }

  /** The pid files, and the executables that each may name. */
  function PidFiles(config: StopConfig): (r: seq<(string, seq<string>)>)
    ensures |r| == 5
  {
    [(config.watchdogPid, Cores(config)),
     (config.dockerdPid, [config.dockerd]),
     (config.dockerdLaunchPid, [config.dockerd]),
     (config.containerdPid, [config.containerd]),
     (config.supervisorPid, [config.supervise])]
  }

  /** Pid file `k` names the process; of several uses of one path only the first counts. */
  predicate NamedInFile(s: State, config: StopConfig, k: nat, pid: nat)
    requires k < 5
  {
    var path := PidFiles(config)[k].0;
    && (forall j :: 0 <= j < k ==> PidFiles(config)[j].0 != path)
    && path in s.files && ParsePid(Trim(s.files[path])) == Some(pid)
  }

  lemma UsesIsRuns(p: Process, args: seq<string>, executables: seq<string>)
    requires Shows(p, args)
    ensures UsesAny(p, executables) <==> Runs(p.exe, args, executables)
  {
    hide SamePath, Args, Shows, Filter;
    ArgsOfCmdLine(p, args);
  }

  lemma UsesOne(p: Process, executable: string)
    ensures Uses(p, executable) <==> UsesAny(p, [executable])
  {
    hide Uses;
    assert executable in [executable];
  }

  lemma HasArgIsLater(p: Process, args: seq<string>, arg: string)
    requires Shows(p, args)
    ensures HasArg(p, arg) <==> HasLaterArg(args, arg)
  {
    hide Args, Shows, Filter;
    ArgsOfCmdLine(p, args);
    var named := Filter(args, IsNotEmpty);
    if named != [] {
      assert forall i :: 0 < i < |named| ==> named[i] == named[1..][i - 1];
    }
  }

  /** Searches: two by name, one by argument. */
  predicate FoundBySearch(config: StopConfig, p: Process, args: seq<string>) {
    || (p.comm == Some("dockerd") && Runs(p.exe, args, [config.dockerd]))
    || (p.comm == Some("containerd") && Runs(p.exe, args, [config.containerd]))
    || (HasLaterArg(args, "net-watchdog") && Runs(p.exe, args, Cores(config)))
  }

  predicate FoundByFile(s: State, config: StopConfig, pid: nat, args: seq<string>)
    requires pid in s.table
  {
    exists k :: 0 <= k < 5 && NamedInFile(s, config, k, pid) && Runs(s.table[pid].exe, args, PidFiles(config)[k].1)
  }

  /** The step of the stop that uses pid file `k`. */
  function FileStep(k: nat): nat
    requires k < 5
  {
    if k == 0 then 0 else if k == 4 then 7 else k + 1
  }

  lemma FileStepIs(config: StopConfig, k: nat)
    requires k < 5
    ensures FileStep(k) < 8 && |StopSteps(config)| == 8
    ensures StopSteps(config)[FileStep(k)] == PidFile(PidFiles(config)[k].0, PidFiles(config)[k].1)
    ensures forall j: nat :: j < 5 ==> (FileStep(j) < FileStep(k) <==> j < k)
  {
  }

  lemma FileStepsAll(config: StopConfig, i: nat)
    requires i < 8
    ensures StopSteps(config)[i].PidFile? <==> exists k: nat :: k < 5 && FileStep(k) == i
  {
    assert FileStep(0) == 0 && FileStep(1) == 2 && FileStep(2) == 3 && FileStep(3) == 4 && FileStep(4) == 7;
  }

  lemma EarlierPaths(config: StopConfig, k: nat)
    requires k < 5
    ensures FileStep(k) < 8
    ensures PidFiles(config)[k].0 in Paths(StopSteps(config)[..FileStep(k)]) <==>
            exists j :: 0 <= j < k && PidFiles(config)[j].0 == PidFiles(config)[k].0
  {
    hide StopSteps, PidFiles, FileStep;
    FileStepIs(config, k);
    var steps, path := StopSteps(config)[..FileStep(k)], PidFiles(config)[k].0;
    if path in Paths(steps) {
      var i :| 0 <= i < |steps| && steps[i].PidFile? && steps[i].path == path;
      FileStepsAll(config, i);
      var j: nat :| j < 5 && FileStep(j) == i;
      FileStepIs(config, j);
      assert j < k && PidFiles(config)[j].0 == path;
    }
    if j: nat :| j < k && PidFiles(config)[j].0 == path {
      FileStepIs(config, j);
      assert steps[FileStep(j)] == StopSteps(config)[FileStep(j)];
    }
  }

  lemma FileAims(s: State, config: StopConfig, pid: nat, args: seq<string>, k: nat)
    requires pid in s.table && Shows(s.table[pid], args) && k < 5
    ensures FileStep(k) < 8
    ensures AimsAt(s, StopSteps(config), FileStep(k), pid) <==>
            NamedInFile(s, config, k, pid) && Runs(s.table[pid].exe, args, PidFiles(config)[k].1)
  {
    hide StopSteps, PidFiles, FileStep, Shows, Runs, UsesAny, ParsePid, Trim, Paths;
    FileStepIs(config, k);
    EarlierPaths(config, k);
    UsesIsRuns(s.table[pid], args, PidFiles(config)[k].1);
  }

  lemma SearchAims(s: State, config: StopConfig, pid: nat, args: seq<string>)
    requires pid in s.table && Shows(s.table[pid], args)
    ensures var steps := StopSteps(config);
            FoundBySearch(config, s.table[pid], args) <==>
            AimsAt(s, steps, 1, pid) || AimsAt(s, steps, 5, pid) || AimsAt(s, steps, 6, pid)
  {
    hide Shows, Runs, UsesAny, Uses, HasArg, HasLaterArg, NamedBy;
    var p := s.table[pid];
    UsesIsRuns(p, args, Cores(config));
    UsesIsRuns(p, args, [config.dockerd]);
    UsesIsRuns(p, args, [config.containerd]);
    UsesOne(p, config.dockerd);
    UsesOne(p, config.containerd);
    HasArgIsLater(p, args, "net-watchdog");
    assert RuntimeCores(config) == Cores(config);
  }

  /** Exactly these processes are gone after the stop, and every other one is as it was. */
  lemma StoppedIff(s: State, config: StopConfig, pid: nat, args: seq<string>)
    requires pid in s.table && Shows(s.table[pid], args)
    ensures pid !in Run(s, StopSteps(config)).table <==>
            FoundBySearch(config, s.table[pid], args) || FoundByFile(s, config, pid, args)
    ensures pid in Run(s, StopSteps(config)).table ==> Run(s, StopSteps(config)).table[pid] == s.table[pid]
  {
    hide Run, AimsAt, StopSteps, FoundBySearch, NamedInFile, Runs, Shows, FileStep, PidFiles;
    var steps := StopSteps(config);
    RunExactly(s, steps);
    SearchAims(s, config, pid, args);
    EightSteps(config);
    if FoundByFile(s, config, pid, args) {
      var k :| 0 <= k < 5 && NamedInFile(s, config, k, pid) && Runs(s.table[pid].exe, args, PidFiles(config)[k].1);
      FileAims(s, config, pid, args, k);
    }
    if Targeted(s, steps, pid) {
      var i :| 0 <= i < |steps| && AimsAt(s, steps, i, pid);
      WhichStep(config, i);
      if k: nat :| k < 5 && FileStep(k) == i {
        FileAims(s, config, pid, args, k);
      }
    }
  }

  lemma WhichStep(config: StopConfig, i: nat)
    requires i < 8
    ensures i == 1 || i == 5 || i == 6 || exists k: nat :: k < 5 && FileStep(k) == i
  {
    assert FileStep(0) == 0 && FileStep(1) == 2 && FileStep(2) == 3 && FileStep(3) == 4 && FileStep(4) == 7;
  }

  /** Safety: a process whose link and first argument are none of our executables is as it was. */
  lemma OnlyOursAreStopped(s: State, config: StopConfig, pid: nat, args: seq<string>)
    requires pid in s.table && Shows(s.table[pid], args)
    requires !Runs(s.table[pid].exe, args, Cores(config) + [config.dockerd, config.containerd, config.supervise])
    ensures var after := Run(s, StopSteps(config)).table; pid in after && after[pid] == s.table[pid]
  {
    hide Run, StopSteps, NamedInFile, Shows, Cores, Filter, SamePath, HasLaterArg;
    var p := s.table[pid];
    var all := Cores(config) + [config.dockerd, config.containerd, config.supervise];
    StoppedIff(s, config, pid, args);
    forall some: seq<string> | forall path :: path in some ==> path in all ensures !Runs(p.exe, args, some) {
    }
    assert !Runs(p.exe, args, Cores(config)) && !Runs(p.exe, args, [config.dockerd]);
    assert !Runs(p.exe, args, [config.containerd]) && !Runs(p.exe, args, [config.supervise]);
  }
}
