/**
 Stopping the Docker runtime: which processes are signalled, which survive, and what is left. A process
 is ours only if its executable link or its first argument is one of our executables.
 */
module StopProcesses {
  import opened Sequences
  import opened Text
  import opened Wrappers

  const TWO_31: nat := 0x8000_0000
  const TWO_32: nat := 0x1_0000_0000
  const WATCHDOG_ARG := "net-watchdog"
  const CORE_IN_MODULE := "/data/adb/modules/achost-base/achost/bin/achost-runtime-core"
  const CORE_IN_DATA := "/data/adb/achost/bin/achost-runtime-core"

  /**
   A process as `/proc` shows it: `comm` without surrounding whitespace, the link `exe` if it can be
   read, and the NUL-separated command line. `grace` is how many seconds it lives after SIGTERM; one
   that has none ignores the signal.
   */
  datatype Process = Process(comm: Option<string>, exe: Option<string>, cmdline: string, grace: Option<nat>)

  type Table = map<nat, Process>

  datatype Signal = Term | Kill

  // ---- Ownership ----

  /** What `Path` equality compares: repeated slashes and inner dots do not count. */
  datatype PathKey = PathKey(rooted: bool, dotted: bool, components: seq<string>)

  predicate IsName(component: string) {
    component != "" && component != "."
  }

  function KeyOf(path: string): PathKey {
    var parts := Split(path, '/');
    var rooted := path != "" && path[0] == '/';
    PathKey(rooted, !rooted && parts[0] == ".", Filter(parts, IsName))
  }

  predicate SamePath(a: string, b: string) {
    KeyOf(a) == KeyOf(b)
  }

  predicate IsNotEmpty(s: string) {
    s != ""
  }

  /** `read_cmdline_args` */
  function Args(p: Process): seq<string> {
    Filter(Split(p.cmdline, '\0'), IsNotEmpty)
  }

  /** `process_uses_executable` */
  predicate Uses(p: Process, executable: string) {
    || (p.exe.Some? && SamePath(p.exe.value, executable))
    || (Args(p) != [] && SamePath(Args(p)[0], executable))
  }

  predicate UsesAny(p: Process, executables: seq<string>) {
    exists e :: e in executables && Uses(p, e)
  }

  predicate HasArg(p: Process, arg: string) {
    Args(p) != [] && arg in Args(p)[1..]
  }

  /** `parse_pid` */
  function ParsePid(value: string): (r: Option<nat>)
    ensures r.Some? ==> 0 < r.value < TWO_32
  {
    if value == "" || !(forall c :: c in value ==> IsDigit(c)) then None
    else if 0 < Value(value) < TWO_32 then Some(Value(value))
    else None
  }

  // ---- What each step of the stop leaves ----

  datatype State = State(table: Table, files: map<string, string>)

  /** The processes of `table` that `goes` does not take. */
  function Without(table: Table, goes: Process -> bool): (r: Table)
    ensures forall pid :: pid in r <==> pid in table && !goes(table[pid])
    ensures forall pid :: pid in r ==> r[pid] == table[pid]
  {
    map pid | pid in table && !goes(table[pid]) :: table[pid]
  }

  /** The process that a pid file names, if it is ours. */
  function NamedBy(s: State, file: string, executables: seq<string>): (r: Option<nat>)
    ensures r.Some? ==> r.value in s.table && UsesAny(s.table[r.value], executables)
  {
    if file !in s.files then None
    else
      var pid := ParsePid(Trim(s.files[file]));
      if pid.Some? && pid.value in s.table && UsesAny(s.table[pid.value], executables) then pid else None
  }

  /** The pid as `pid_t`: 2^31 and above become process groups. */
  function AsPidT(pid: nat): int {
    if pid < TWO_31 then pid else pid - TWO_32
  }

  /** It is the 32-bit number of the same remainder. */
  lemma CastWraps(pid: nat)
    requires pid < TWO_32
    ensures 0 <= AsPidT(pid) + TWO_31 < TWO_32 && (pid - AsPidT(pid)) % TWO_32 == 0
  {
  }

  /** A pid file whose number becomes a process group is never acted on, whatever that group holds. */
  lemma GroupsAreSafe(s: State, file: string, executables: seq<string>, pid: nat)
    requires forall q :: q in s.table ==> 0 < q < TWO_31
    requires NamedBy(s, file, executables) == Some(pid)
    ensures AsPidT(pid) == pid > 0
  {
  }

  function AfterPidFile(s: State, file: string, executables: seq<string>): State {
    var pid := NamedBy(s, file, executables);
    State(if pid.Some? then s.table - {pid.value} else s.table, s.files - {file})
  }

  function IsOwned(name: string, executable: string): Process -> bool {
    (p: Process) => p.comm == Some(name) && Uses(p, executable)
  }

  function IsOwnedWithArg(executables: seq<string>, arg: string): Process -> bool {
    (p: Process) => UsesAny(p, executables) && HasArg(p, arg)
  }

  function AfterOwned(s: State, goes: Process -> bool): State {
    s.(table := Without(s.table, goes))
  }

  // ---- The host ----

  predicate Ascending(pids: seq<nat>) {
    forall i, j :: 0 <= i < j < |pids| ==> pids[i] < pids[j]
  }

  /** It is gone so many seconds after SIGTERM at the latest. */
  predicate Exits(p: Process, seconds: nat) {
    p.grace.Some? && p.grace.value <= seconds
  }

  /** The process table, the regular files at the paths of interest, and the signals sent so far. */
  class Host {
    var table: Table
    /** Processes that got SIGTERM and will exit, with the seconds that they have left. */
    var dying: map<nat, nat>
    var files: map<string, string>
    var sent: seq<nat>
    /** Those among them that were SIGKILL. */
    var kills: seq<nat>
    /** Whether a signal to a whole process group would find anyone; groups have ids from 0 down. */
    const groups: int -> bool

    ghost predicate Valid()
      reads this
    {
      && (forall pid :: pid in table ==> 0 < pid < TWO_31)
      && dying.Keys <= table.Keys
    }

    constructor (table: Table, files: map<string, string>, groups: int -> bool)
      requires forall pid :: pid in table ==> 0 < pid < TWO_31
      ensures Valid() && this.table == table && this.files == files && dying == map[] && sent == kills == []
    {
      this.table := table;
      this.files := files;
      this.groups := groups;
      dying := map[];
      sent, kills := [], [];
    }

    ghost function Now(): State
      reads this
    {
      State(table, files)
    }

    /** `pid_alive` */
    predicate Alive(pid: nat)
      reads this
    {
      var target := AsPidT(pid);
      (if target > 0 then target in table else groups(target)) || pid in table
    }

    /** `signal_pid`. A signal to a process that has gone has no effect. */
    method SignalPid(pid: nat, signal: Signal)
      requires Valid() && 0 < AsPidT(pid)
      modifies `table, `dying, `sent, `kills
      ensures Valid() && sent == old(sent) + [pid] && kills == old(kills) + if signal == Kill then [pid] else []
      ensures table == old(table) || table == old(table) - {pid}
      ensures signal == Kill ==> pid !in table
      ensures signal == Term && pid in old(table) ==>
                (pid in table <==> !Exits(old(table)[pid], 0)) && dying == TimeLeft(old(table), old(dying), pid)
      ensures signal == Term && pid !in old(table) ==> table == old(table) && dying == old(dying)
      ensures dying.Keys <= old(dying).Keys + {pid}
    {
      sent := sent + [pid];
      kills := kills + if signal == Kill then [pid] else [];
      if pid in table {
        var grace := table[pid].grace;
        if signal == Kill || grace == Some(0) {
          table := table - {pid};
          dying := dying - {pid};
        } else if grace.Some? && pid !in dying {
          dying := dying[pid := grace.value];
        }
      }
    }

    /** One second: processes whose time is over exit. */
    method SleepSecond()
      requires Valid()
      modifies `table, `dying
      ensures Valid() && dying.Keys <= old(dying).Keys
      ensures table == old(table) - (set pid | pid in old(dying) && old(dying)[pid] <= 1)
      ensures forall pid :: pid in dying <==> pid in old(dying) && old(dying)[pid] > 1
      ensures forall pid :: pid in dying ==> dying[pid] == old(dying)[pid] - 1
    {
      var over := set pid | pid in dying && dying[pid] <= 1;
      table := table - over;
      dying := map pid | pid in dying && pid !in over :: dying[pid] - 1;
    }

    method RemoveFileQuiet(path: string)
      modifies `files
      ensures files == old(files) - {path}
    {
      files := files - {path};
    }

    /** `stop_pid_file_any`; the pid file goes in every case. */
    method StopPidFileAny(file: string, executables: seq<string>)
      requires Valid() && dying == map[]
      modifies this
      ensures Valid() && dying == map[]
      ensures Now() == AfterPidFile(old(Now()), file, executables)
      ensures SignalsAreLosses(old(Now()), old(sent), Now(), sent)
      ensures kills == old(kills) + LateOne(old(Now()), NamedBy(old(Now()), file, executables), 10)
    {
      hide Trim, ParsePid, UsesAny, SignalsAreLosses, AsPidT;
      if file !in files {
        assert files - {file} == files;
        NoSignal(old(Now()), Now(), sent);
        return;
      }
      var parsed := ParsePid(Trim(files[file]));
      if parsed.None? {
        RemoveFileQuiet(file);
        NoSignal(old(Now()), Now(), sent);
        return;
      }
      var pid := parsed.value;
      if !Alive(pid) {
        RemoveFileQuiet(file);
        NoSignal(old(Now()), Now(), sent);
        return;
      }
      if pid !in table || !UsesAny(table[pid], executables) {
        RemoveFileQuiet(file);
        NoSignal(old(Now()), Now(), sent);
        return;
      }
      GroupsAreSafe(old(Now()), file, executables, pid);
      SignalPid(pid, Term);
      for waited := 0 to 10
        invariant Valid() && dying.Keys <= {pid}
        invariant files == old(files) && sent == old(sent) + [pid] && kills == old(kills)
        invariant table == old(table) || table == old(table) - {pid}
        invariant pid in table <==> !Exits(old(table)[pid], waited)
        invariant pid in dying <==> pid in table && old(table)[pid].grace.Some?
        invariant pid in dying ==> dying[pid] == old(table)[pid].grace.value - waited
      {
        if !Alive(pid) {
          break;
        }
        SleepSecond();
      }
      if Alive(pid) {
        SignalPid(pid, Kill);
      }
      assert dying == map[];
      RemoveFileQuiet(file);
      OneLoss(old(Now()), old(sent), Now(), sent, pid);
    }

    /** The directory entries of `/proc` that are numbers, in no particular order. */
    method ReadProc() returns (pids: seq<nat>)
      ensures forall pid :: pid in pids <==> pid in table
      ensures forall i, j :: 0 <= i < j < |pids| ==> pids[i] != pids[j]
    {
      pids := [];
      var rest := table.Keys;
      while rest != {}
        invariant rest <= table.Keys
        invariant forall pid :: pid in pids <==> pid in table && pid !in rest
        invariant forall i, j :: 0 <= i < j < |pids| ==> pids[i] != pids[j]
        decreases |rest|
      {
        var pid :| pid in rest;
        rest := rest - {pid};
        pids := pids + [pid];
      }
    }

    /** `pids_for_executable` and `pids_for_executables_with_arg`: the pids that match, in ascending order. */
    method PidsFor(matches: Process -> bool) returns (pids: seq<nat>)
      ensures Ascending(pids)
      ensures forall pid :: pid in pids <==> pid in table && matches(table[pid])
    {
      var entries := ReadProc();
      pids := [];
      for i := 0 to |entries|
        invariant Ascending(pids)
        invariant forall pid :: pid in pids <==> pid in entries[..i] && matches(table[pid])
      {
        assert entries[..i + 1] == entries[..i] + [entries[i]];
        if matches(table[entries[i]]) {
          assert entries[i] !in entries[..i];
          pids := Insert(pids, entries[i]);
        }
      }
      assert entries[..|entries|] == entries;
    }

    /** `stop_pid_list` */
    method StopPidList(pids: seq<nat>)
      requires Valid() && dying == map[]
      requires forall pid :: pid in pids ==> pid in table
      modifies `table, `dying, `sent, `kills
      ensures Valid() && dying == map[]
      ensures table == old(table) - (set pid | pid in pids)
      ensures old(sent) <= sent
      ensures forall pid :: pid in sent[|old(sent)|..] <==> pid in pids
      ensures old(kills) <= kills
      ensures forall pid :: pid in kills[|old(kills)|..] <==> pid in pids && !Exits(old(table)[pid], 1)
    {
      if pids == [] {
        assert sent[|old(sent)|..] == [];
        return;
      }
      TermAll(pids);
      SleepSecond();
      KillSurvivors(pids);
      assert table == old(table) - (set pid | pid in pids);
      assert sent[|old(sent)|..][..|pids|] == pids;
    }

    /** Its first loop. */
    method TermAll(pids: seq<nat>)
      requires Valid() && dying == map[]
      requires forall pid :: pid in pids ==> pid in table
      modifies `table, `dying, `sent, `kills
      ensures Valid() && Spared(old(table), table, pids)
      ensures forall pid :: pid in dying ==> pid in pids
      ensures sent == old(sent) + pids && kills == old(kills)
      ensures Aging(old(table), table, dying, pids, 0)
    {
      hide TimeLeft, Exits;
      for i := 0 to |pids|
        invariant Valid() && Spared(old(table), table, pids[..i])
        invariant forall pid :: pid in dying ==> pid in pids[..i]
        invariant sent == old(sent) + pids[..i] && kills == old(kills)
        invariant Aging(old(table), table, dying, pids[..i], 0)
      {
        assert pids[i] in pids && pids[i] in old(table);
        assert pids[..i + 1] == pids[..i] + [pids[i]];
        ghost var now, left := table, dying;
        SignalPid(pids[i], Term);
        AgingGrows(old(table), now, left, table, dying, pids[..i], pids[i]);
      }
      assert pids[..|pids|] == pids;
    }

    /** Its second loop. */
    method KillSurvivors(pids: seq<nat>)
      requires Valid() && forall pid :: pid in dying ==> pid in pids
      requires forall pid :: pid in pids ==> 0 < pid < TWO_31
      modifies `table, `dying, `sent, `kills
      ensures Valid() && dying == map[]
      ensures table == old(table) - (set pid | pid in pids)
      ensures old(sent) <= sent && forall pid :: pid in sent[|old(sent)|..] ==> pid in pids
      ensures old(kills) <= kills
      ensures forall pid :: pid in kills[|old(kills)|..] <==> pid in pids && pid in old(table)
    {
      for i := 0 to |pids|
        invariant Valid() && Spared(old(table), table, pids)
        invariant forall pid :: pid in dying ==> pid in pids
        invariant forall pid :: pid in pids[..i] ==> pid !in table
        invariant forall pid :: pid in old(table) && pid !in pids[..i] ==> pid in table
        invariant old(kills) <= kills
        invariant forall pid :: pid in kills[|old(kills)|..] <==> pid in pids[..i] && pid in old(table)
        invariant old(sent) <= sent && forall pid :: pid in sent[|old(sent)|..] ==> pid in pids
      {
        assert pids[i] in pids;
        assert forall pid :: pid in pids[..i + 1] ==> pid in pids[..i] || pid == pids[i];
        if Alive(pids[i]) {
          ghost var before := kills;
          SignalPid(pids[i], Kill);
          assert kills[|old(kills)|..] == before[|old(kills)|..] + [pids[i]];
        }
      }
      assert pids[..|pids|] == pids;
      assert dying == map[];
    }

    /** `stop_owned_processes` and its variant with an argument. */
    method StopOwned(goes: Process -> bool)
      requires Valid() && dying == map[]
      modifies `table, `dying, `sent, `kills
      ensures Valid() && dying == map[]
      ensures Now() == AfterOwned(old(Now()), goes)
      ensures SignalsAreLosses(old(Now()), old(sent), Now(), sent)
      ensures old(kills) <= kills
      ensures forall pid :: pid in kills[|old(kills)|..] <==>
                pid in old(table) && goes(old(table)[pid]) && !Exits(old(table)[pid], 1)
    {
      var pids := PidsFor(goes);
      StopPidList(pids);
      assert table == Without(old(table), goes);
    }
  }

  /** Who is still there `seconds` after SIGTERM. */
  function LateOne(s: State, pid: Option<nat>, seconds: nat): seq<nat>
    requires pid.Some? ==> pid.value in s.table
  {
    if pid.Some? && !Exits(s.table[pid.value], seconds) then [pid.value] else []
  }

  /** The seconds that the dying have left when one more got SIGTERM. */
  function TimeLeft(table: Table, dying: map<nat, nat>, pid: nat): map<nat, nat>
    requires pid in table
  {
    match table[pid].grace
    case None => dying
    case Some(0) => dying - {pid}
    case Some(g) => if pid in dying then dying else dying[pid := g]
  }

  /** The listed processes, `seconds` after SIGTERM. */
  ghost predicate Aging(before: Table, now: Table, dying: map<nat, nat>, pids: seq<nat>, seconds: nat) {
    forall pid :: pid in pids && pid in before ==>
      && (pid in now <==> !Exits(before[pid], seconds))
      && (pid in dying <==> pid in now && before[pid].grace.Some?)
      && (pid in dying ==> dying[pid] == before[pid].grace.value - seconds)
  }

  lemma AgingGrows(
      before: Table, now: Table, dying: map<nat, nat>, next: Table, left: map<nat, nat>, pids: seq<nat>, pid: nat)
    requires Aging(before, now, dying, pids, 0) && pid in before
    requires forall q :: q in now ==> q in before && now[q] == before[q]
    requires forall q :: q in before && q !in pids ==> q in now
    requires forall q :: q in dying ==> q in pids
    requires if pid in now
             then (next == now || next == now - {pid}) && left == TimeLeft(now, dying, pid)
                  && (pid in next <==> !Exits(now[pid], 0))
             else next == now && left == dying
    ensures Aging(before, next, left, pids + [pid], 0)
  {
  }

  /** Between two moments, exactly the processes that got a signal are gone, and nothing is new. */
  ghost predicate SignalsAreLosses(before: State, sentBefore: seq<nat>, after: State, sentAfter: seq<nat>) {
    && sentBefore <= sentAfter
    && (forall pid :: pid in after.table ==> pid in before.table && after.table[pid] == before.table[pid])
    && (forall pid :: pid in sentAfter[|sentBefore|..] <==> pid in before.table && pid !in after.table)
  }

  lemma NoSignal(before: State, after: State, sent: seq<nat>)
    requires before.table == after.table
    ensures SignalsAreLosses(before, sent, after, sent)
  {
  }

  lemma OneLoss(before: State, sentBefore: seq<nat>, after: State, sentAfter: seq<nat>, pid: nat)
    requires pid in before.table && after.table == before.table - {pid}
    requires sentAfter == sentBefore + [pid] || sentAfter == sentBefore + [pid] + [pid]
    ensures SignalsAreLosses(before, sentBefore, after, sentAfter)
  {
    assert sentAfter[|sentBefore|..] == [pid] || sentAfter[|sentBefore|..] == [pid] + [pid];
  }

  lemma LossesAddUp(a: State, sentA: seq<nat>, b: State, sentB: seq<nat>, c: State, sentC: seq<nat>)
    requires SignalsAreLosses(a, sentA, b, sentB) && SignalsAreLosses(b, sentB, c, sentC)
    ensures SignalsAreLosses(a, sentA, c, sentC)
  {
    assert sentC[|sentA|..] == sentB[|sentA|..] + sentC[|sentB|..];
  }

  /**
   SIGKILL, between two moments: whoever exits within a second of SIGTERM does not get it; of those that
   are gone, whoever does not exit within ten seconds has got it.
   */
  ghost predicate Gentle(before: State, killsBefore: seq<nat>, after: State, killsAfter: seq<nat>) {
    && killsBefore <= killsAfter
    && (forall pid :: pid in killsAfter[|killsBefore|..] ==>
          pid in before.table && pid !in after.table && !Exits(before.table[pid], 1))
    && (forall pid :: pid in before.table && pid !in after.table && !Exits(before.table[pid], 10) ==>
          pid in killsAfter[|killsBefore|..])
  }

  lemma NoKill(before: State, after: State, kills: seq<nat>)
    requires before.table == after.table
    ensures Gentle(before, kills, after, kills)
  {
  }

  lemma GentleAddsUp(a: State, killsA: seq<nat>, b: State, killsB: seq<nat>, c: State, killsC: seq<nat>)
    requires Gentle(a, killsA, b, killsB) && Gentle(b, killsB, c, killsC)
    requires forall pid :: pid in b.table ==> pid in a.table && b.table[pid] == a.table[pid]
    requires forall pid :: pid in c.table ==> pid in b.table
    ensures Gentle(a, killsA, c, killsC)
  {
    assert killsC[|killsA|..] == killsB[|killsA|..] + killsC[|killsB|..];
  }

  lemma SearchIsGentle(a: State, killsA: seq<nat>, killsB: seq<nat>, goes: Process -> bool)
    requires killsA <= killsB
    requires forall pid :: pid in killsB[|killsA|..] <==>
               pid in a.table && goes(a.table[pid]) && !Exits(a.table[pid], 1)
    ensures Gentle(a, killsA, AfterOwned(a, goes), killsB)
  {
  }

  lemma PidFileIsGentle(a: State, killsA: seq<nat>, killsB: seq<nat>, file: string, executables: seq<string>)
    requires killsB == killsA + LateOne(a, NamedBy(a, file, executables), 10)
    ensures Gentle(a, killsA, AfterPidFile(a, file, executables), killsB)
  {
    hide NamedBy;
    assert killsB[|killsA|..] == LateOne(a, NamedBy(a, file, executables), 10);
  }

  lemma LossesOnly(before: State, sentBefore: seq<nat>, after: State, sentAfter: seq<nat>)
    requires SignalsAreLosses(before, sentBefore, after, sentAfter)
    ensures forall pid :: pid in after.table ==> pid in before.table && after.table[pid] == before.table[pid]
  {
  }

  /** Every process that is not listed is as it was, and nothing is new. */
  ghost predicate Spared(before: Table, after: Table, pids: seq<nat>) {
    && (forall pid :: pid in before && pid !in pids ==> pid in after)
    && (forall pid :: pid in after ==> pid in before && after[pid] == before[pid])
  }

  function Insert(pids: seq<nat>, pid: nat): (r: seq<nat>)
    requires Ascending(pids) && pid !in pids
    ensures Ascending(r) && forall q :: q in r <==> q in pids || q == pid
  {
    if pids == [] then [pid]
    else
      AboveFirst(pids);
      if pid < pids[0] then
        Prepend(pid, pids);
        [pid] + pids
      else
        var rest := Insert(pids[1..], pid);
        assert pids[0] in pids && pids == [pids[0]] + pids[1..];
        Prepend(pids[0], rest);
        [pids[0]] + rest
  }

  lemma AboveFirst(pids: seq<nat>)
    requires Ascending(pids) && pids != []
    ensures Ascending(pids[1..]) && forall q :: q in pids ==> q == pids[0] || q > pids[0]
    ensures forall q :: q in pids[1..] ==> q > pids[0]
  {
    forall q | q in pids[1..] ensures q > pids[0] {
      var i :| 0 <= i < |pids| - 1 && pids[1..][i] == q;
      assert pids[i + 1] == q;
    }
  }

  lemma Prepend(pid: nat, pids: seq<nat>)
    requires Ascending(pids) && forall q :: q in pids ==> pid < q
    ensures Ascending([pid] + pids)
  {
    forall i, j | 0 <= i < j < 1 + |pids| ensures ([pid] + pids)[i] < ([pid] + pids)[j] {
      assert pids[j - 1] in pids;
    }
  }

  // ---- The whole stop ----

  datatype StopConfig = StopConfig(
    dockerd: string, containerd: string, supervise: string, commonCore: string,
    watchdogPid: string, dockerdPid: string, dockerdLaunchPid: string, containerdPid: string, supervisorPid: string,
    sockets: seq<string>)

  /** `runtime_core_candidates`; a repetition that it drops would change nothing. */
  function RuntimeCores(config: StopConfig): seq<string> {
    [config.commonCore, CORE_IN_MODULE, CORE_IN_DATA]
  }

  function IsWatchdog(config: StopConfig): Process -> bool {
    IsOwnedWithArg(RuntimeCores(config), WATCHDOG_ARG)
  }

  function IsDockerd(config: StopConfig): Process -> bool {
    IsOwned("dockerd", config.dockerd)
  }

  function IsContainerd(config: StopConfig): Process -> bool {
    IsOwned("containerd", config.containerd)
  }

  /** A step of the stop: one pid file with the executables that it may name, or a search of all processes. */
  datatype Step = PidFile(path: string, executables: seq<string>) | Search(goes: Process -> bool)

  function After(s: State, step: Step): State {
    match step
    case PidFile(path, executables) => AfterPidFile(s, path, executables)
    case Search(goes) => AfterOwned(s, goes)
  }

  function Run(s: State, steps: seq<Step>): State {
    if steps == [] then s else After(Run(s, steps[..|steps| - 1]), steps[|steps| - 1])
  }

  function StopSteps(config: StopConfig): seq<Step> {
    [PidFile(config.watchdogPid, RuntimeCores(config)),
     Search(IsWatchdog(config)),
     PidFile(config.dockerdPid, [config.dockerd]),
     PidFile(config.dockerdLaunchPid, [config.dockerd]),
     PidFile(config.containerdPid, [config.containerd]),
     Search(IsDockerd(config)),
     Search(IsContainerd(config)),
     PidFile(config.supervisorPid, [config.supervise])]
  }

  lemma RunStep(s: State, config: StopConfig, i: nat)
    requires i < 8
    ensures Run(s, StopSteps(config)[..i + 1]) == After(Run(s, StopSteps(config)[..i]), StopSteps(config)[i])
  {
    var steps := StopSteps(config)[..i + 1];
    assert steps[..i] == StopSteps(config)[..i];
  }

  /** How far a stop that began in `s0` has come: its first `i` steps are done. */
  ghost predicate Stopping(config: StopConfig, s0: State, sent0: seq<nat>, kills0: seq<nat>, i: nat, host: Host)
    requires i <= 8
    reads host
  {
    && host.Valid() && host.dying == map[]
    && host.Now() == Run(s0, StopSteps(config)[..i])
    && SignalsAreLosses(s0, sent0, host.Now(), host.sent)
    && Gentle(s0, kills0, host.Now(), host.kills)
  }

  /** One step of `run_stop` on the host. */
  method DoStep(
      host: Host, step: Step, ghost config: StopConfig, ghost s0: State, ghost sent0: seq<nat>, ghost kills0: seq<nat>,
      ghost i: nat)
    requires i < 8 && step == StopSteps(config)[i]
    requires Stopping(config, s0, sent0, kills0, i, host)
    modifies host
    ensures Stopping(config, s0, sent0, kills0, i + 1, host)
  {
    hide SignalsAreLosses, Run, AfterPidFile, AfterOwned, Gentle, LateOne;
    ghost var s1, sent1, kills1 := host.Now(), host.sent, host.kills;
    RunStep(s0, config, i);
    match step {
      case PidFile(path, executables) =>
        host.StopPidFileAny(path, executables);
        PidFileIsGentle(s1, kills1, host.kills, path, executables);
      case Search(goes) =>
        host.StopOwned(goes);
        SearchIsGentle(s1, kills1, host.kills, goes);
    }
    LossesOnly(s0, sent0, s1, sent1);
    LossesOnly(s1, sent1, host.Now(), host.sent);
    LossesAddUp(s0, sent0, s1, sent1, host.Now(), host.sent);
    GentleAddsUp(s0, kills0, s1, kills1, host.Now(), host.kills);
  }

  /** The steps of `run_stop` that stop processes. */
  method StopAll(host: Host, config: StopConfig, ghost s0: State, ghost sent0: seq<nat>, ghost kills0: seq<nat>)
    requires Stopping(config, s0, sent0, kills0, 0, host)
    modifies host
    ensures Stopping(config, s0, sent0, kills0, 8, host)
  {
    hide Stopping, RuntimeCores, IsWatchdog, IsDockerd, IsContainerd;
    var cores := RuntimeCores(config);
    DoStep(host, PidFile(config.watchdogPid, cores), config, s0, sent0, kills0, 0);
    DoStep(host, Search(IsWatchdog(config)), config, s0, sent0, kills0, 1);
    DoStep(host, PidFile(config.dockerdPid, [config.dockerd]), config, s0, sent0, kills0, 2);
    DoStep(host, PidFile(config.dockerdLaunchPid, [config.dockerd]), config, s0, sent0, kills0, 3);
    DoStep(host, PidFile(config.containerdPid, [config.containerd]), config, s0, sent0, kills0, 4);
    DoStep(host, Search(IsDockerd(config)), config, s0, sent0, kills0, 5);
    DoStep(host, Search(IsContainerd(config)), config, s0, sent0, kills0, 6);
    DoStep(host, PidFile(config.supervisorPid, [config.supervise]), config, s0, sent0, kills0, 7);
  }

  /** `run_stop`; unmounting the chroot, between these two parts, touches neither processes nor these files. */
  method RunStop(host: Host, config: StopConfig)
    requires host.Valid() && host.dying == map[]
    modifies host
    ensures host.Valid() && host.dying == map[]
    ensures host.table == Run(old(host.Now()), StopSteps(config)).table
    ensures host.files == Run(old(host.Now()), StopSteps(config)).files - (set path | path in config.sockets)
    ensures SignalsAreLosses(old(host.Now()), old(host.sent), host.Now(), host.sent)
    ensures Gentle(old(host.Now()), old(host.kills), host.Now(), host.kills)
  {
    hide SignalsAreLosses, StopSteps, Gentle;
    ghost var s0, sent0, kills0, steps := host.Now(), host.sent, host.kills, StopSteps(config);
    EightSteps(config);
    assert steps[..0] == [];
    NoSignal(s0, s0, sent0);
    NoKill(s0, s0, kills0);
    StopAll(host, config, s0, sent0, kills0);
    ghost var stopped := host.Now();
    for i := 0 to |config.sockets|
      invariant host.Valid() && host.dying == map[]
      invariant host.table == stopped.table
      invariant host.files == stopped.files - (set path | path in config.sockets[..i])
      invariant SignalsAreLosses(s0, sent0, host.Now(), host.sent)
      invariant Gentle(s0, kills0, host.Now(), host.kills)
    {
      assert config.sockets[..i + 1] == config.sockets[..i] + [config.sockets[i]];
      ghost var next := State(host.table, host.files - {config.sockets[i]});
      FilesDoNotCount(s0, sent0, host.Now(), next, host.sent);
      FilesDoNotKill(s0, kills0, host.Now(), next, host.kills);
      host.RemoveFileQuiet(config.sockets[i]);
    }
    assert config.sockets[..|config.sockets|] == config.sockets;
  }

  lemma EightSteps(config: StopConfig)
    ensures |StopSteps(config)| == 8 && StopSteps(config)[..8] == StopSteps(config)
  {
  }

  lemma FilesDoNotCount(a: State, sentA: seq<nat>, b: State, c: State, sentB: seq<nat>)
    requires SignalsAreLosses(a, sentA, b, sentB) && b.table == c.table
    ensures SignalsAreLosses(a, sentA, c, sentB)
  {
  }

  lemma FilesDoNotKill(a: State, killsA: seq<nat>, b: State, c: State, killsB: seq<nat>)
    requires Gentle(a, killsA, b, killsB) && b.table == c.table
    ensures Gentle(a, killsA, c, killsB)
  {
  }

  // ---- Who is stopped ----

  function Paths(steps: seq<Step>): set<string> {
    set i | 0 <= i < |steps| && steps[i].PidFile? :: steps[i].path
  }

  /** Step `i` aims at the process: a search that it matches, or the first use of a pid file that names it. */
  predicate AimsAt(s: State, steps: seq<Step>, i: nat, pid: nat)
    requires i < |steps| && pid in s.table
  {
    match steps[i]
    case PidFile(path, executables) => path !in Paths(steps[..i]) && NamedBy(s, path, executables) == Some(pid)
    case Search(goes) => goes(s.table[pid])
  }

  predicate Targeted(s: State, steps: seq<Step>, pid: nat)
    requires pid in s.table
  {
    exists i :: 0 <= i < |steps| && AimsAt(s, steps, i, pid)
  }

  lemma TargetedSnoc(s: State, steps: seq<Step>, pid: nat)
    requires steps != [] && pid in s.table
    ensures var n := |steps| - 1;
            Targeted(s, steps, pid) <==> Targeted(s, steps[..n], pid) || AimsAt(s, steps, n, pid)
  {
    hide NamedBy, Paths;
    var n := |steps| - 1;
    forall i | 0 <= i < n ensures AimsAt(s, steps, i, pid) <==> AimsAt(s, steps[..n], i, pid) {
      assert steps[..n][..i] == steps[..i];
    }
  }

  lemma PathsSnoc(steps: seq<Step>)
    requires steps != []
    ensures var n := |steps| - 1;
            Paths(steps) == Paths(steps[..n]) + if steps[n].PidFile? then {steps[n].path} else {}
  {
    var n := |steps| - 1;
    assert steps == steps[..n] + [steps[n]];
  }

  /** Any sequence of steps removes exactly the processes that some step aims at in the initial state. */
  lemma {:induction false} RunExactly(s: State, steps: seq<Step>)
    ensures var r := Run(s, steps);
            && r.files == s.files - Paths(steps)
            && (forall pid :: pid in r.table <==> pid in s.table && !Targeted(s, steps, pid))
            && (forall pid :: pid in r.table ==> r.table[pid] == s.table[pid])
  {
    hide Targeted, Paths, UsesAny, ParsePid, Trim;
    if steps == [] {
      EmptySteps(s);
    } else {
      var n := |steps| - 1;
      RunExactly(s, steps[..n]);
      PathsSnoc(steps);
      forall pid | pid in s.table ensures pid in Run(s, steps).table <==> !Targeted(s, steps, pid) {
        TargetedSnoc(s, steps, pid);
      }
    }
  }

  lemma EmptySteps(s: State)
    ensures Paths([]) == {} && forall pid | pid in s.table :: !Targeted(s, [], pid)
  {
  }

  /** Completeness: a search for any of the three services finds nothing afterwards. */
  lemma NothingOfOursRemains(s: State, config: StopConfig, pid: nat)
    requires pid in Run(s, StopSteps(config)).table
    ensures var p := Run(s, StopSteps(config)).table[pid];
            !IsWatchdog(config)(p) && !IsDockerd(config)(p) && !IsContainerd(config)(p)
  {
    hide IsOwned, IsOwnedWithArg, Run, Paths, NamedBy;
    var steps := StopSteps(config);
    RunExactly(s, steps);
    assert !AimsAt(s, steps, 1, pid) && !AimsAt(s, steps, 5, pid) && !AimsAt(s, steps, 6, pid);
  }

  /** The daemons that are searched for by name, with their executables and the steps that search. */
  function Daemons(config: StopConfig): seq<(string, string, nat)> {
    [("dockerd", config.dockerd, 5), ("containerd", config.containerd, 6)]
  }

  /** A daemon of ours outlives the stop exactly if it goes by another name and no other step aims at it. */
  lemma DaemonSurvivesIff(s: State, config: StopConfig, pid: nat, k: nat)
    requires k < 2 && pid in s.table && Uses(s.table[pid], Daemons(config)[k].1)
    ensures var (name, executable, search) := Daemons(config)[k];
            pid in Run(s, StopSteps(config)).table
            <==> && s.table[pid].comm != Some(name)
                 && forall i :: 0 <= i < 8 && i != search ==> !AimsAt(s, StopSteps(config), i, pid)
  {
    hide Uses, Run, Paths, NamedBy, IsOwnedWithArg;
    var steps := StopSteps(config);
    var (name, executable, search) := Daemons(config)[k];
    RunExactly(s, steps);
    assert AimsAt(s, steps, search, pid) <==> s.table[pid].comm == Some(name);
  }

  /** Stopping twice is stopping once. */
  lemma StopTwice(s: State, config: StopConfig)
    ensures Run(Run(s, StopSteps(config)), StopSteps(config)) == Run(s, StopSteps(config))
  {
    hide IsOwned, IsOwnedWithArg, Run, Paths, UsesAny;
    var steps := StopSteps(config);
    var once := Run(s, steps);
    RunExactly(s, steps);
    RunExactly(once, steps);
    forall pid | pid in once.table ensures !Targeted(once, steps, pid) {
      NothingOfOursRemains(s, config, pid);
      forall i | 0 <= i < 8 ensures !AimsAt(once, steps, i, pid) {
        PathOfStep(steps, i);
      }
    }
    assert once.files - Paths(steps) == once.files;
    assert Run(once, steps).table == once.table;
  }

  lemma PathOfStep(steps: seq<Step>, i: nat)
    requires i < |steps|
    ensures steps[i].PidFile? ==> steps[i].path in Paths(steps)
  {
  }
}
