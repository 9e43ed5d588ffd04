/**
 Importing a container: everything is built in a hidden temporary directory and then renamed into
 place. The import may fail or be interrupted between any two of its writes.
 */
module ContainerImport {
  import opened Addresses
  import opened FileTree
  import opened GuestNetwork
  import opened Paths
  import opened RootfsExtract
  import opened RootfsLaws
  import opened Text
  import opened Wrappers

  const ROOTFS := "rootfs"
  const CONFIG := "config"
  const METADATA := "achost-container.json"

  /** What is imported: the archive's entries, the container's network settings, and the two texts. */
  datatype Import = Import(
    containers: NamePath, name: string, pid: string,
    entries: seq<Entry>, settings: Settings, config: string, metadata: string)

  function Final(m: Import): NamePath {
    m.containers + [m.name]
  }

  /** The temporary directory; its name starts with a dot. */
  function Temp(m: Import): NamePath {
    m.containers + ["." + m.name + ".tmp." + m.pid]
  }

  function Rootfs(m: Import): NamePath {
    Temp(m) + [ROOTFS]
  }

  function GuestFiles(m: Import): Guest {
    GuestOf(Rootfs(m), m.settings)
  }

  predicate Hidden(name: string) {
    name != "" && name[0] == '.'
  }

  /** `validate_container_name` */
  predicate ValidName(name: string) {
    && name != ""
    && (forall i :: 0 <= i < |name| - 1 ==> name[i] != '.' || name[i + 1] != '.')
    && name != "."
    && forall c :: c in name ==>
         'a' <= c <= 'z' || 'A' <= c <= 'Z' || '0' <= c <= '9' || c == '.' || c == '_' || c == '-'
  }

  /** The names that this accepts: of letters, digits, dots, dashes and underscores, without two dots in a row. */
  lemma ValidNameIff(name: string)
    ensures ValidName(name) <==>
            && name != "" && name != "." && !Contains(name, "..")
            && forall i :: 0 <= i < |name| ==>
                 var c := name[i] as int; c in {45, 46, 95} || 48 <= c <= 57 || 65 <= c <= 90 || 97 <= c <= 122
  {
    TwoDots(name);
    assert forall i :: 0 <= i < |name| ==> name[i] in name;
    assert forall c :: c in name ==> exists i :: 0 <= i < |name| && name[i] == c;
  }

  lemma TwoDots(name: string)
    ensures Contains(name, "..") <==> exists i :: 0 <= i < |name| - 1 && name[i] == '.' && name[i + 1] == '.'
  {
    forall i | 0 <= i < |name| - 1 ensures OccursAt(name, "..", i) <==> name[i] == '.' && name[i + 1] == '.' {
      assert name[i..i + 2] == [name[i], name[i + 1]];
    }
    if Contains(name, "..") {
      var i :| 0 <= i <= |name| && OccursAt(name, "..", i);
      assert name[i] == '.' && name[i + 1] == '.';
    }
    if i :| 0 <= i < |name| - 1 && name[i] == '.' && name[i + 1] == '.' {
      assert OccursAt(name, "..", i);
    }
  }

  /** `list_containers` shows the name; its tests for the two files follow links. */
  predicate Listed(t: Tree, containers: NamePath, name: string) {
    && containers + [name] in t && t[containers + [name]] == Dir
    && !Hidden(name) && ValidName(name)
    && (Present(t, containers + [name, CONFIG]) || Present(t, containers + [name, METADATA]))
  }

  ghost predicate SameUnder(a: Tree, b: Tree, top: NamePath) {
    forall p :: Under(top, p) ==> (p in a <==> p in b) && (p in a ==> a[p] == b[p])
  }

  /** `rename` of a directory to a free name: every path under the old name moves. */
  function Renamed(t: Tree, from: NamePath, to: NamePath): Tree {
    (map p | p in t && !Under(from, p) :: t[p]) +
    (map p | p in (set q | q in t && Under(from, q) :: to + q[|from|..]) && from + p[|to|..] in t ::
       t[from + p[|to|..]])
  }

  // ---- The import as a transition system ----

  datatype Phase =
    | Checking | Clearing | Making | Filling(done: nat) | GuestNetwork(stage: Stage)
    | Configuring | Describing | Described | Installed | Failing

  datatype State = State(t: Tree, phase: Phase)

  /** A stale temporary directory can go: it is a directory, or a link to something, which goes itself. */
  predicate Clearable(m: Import, t: Tree) {
    Temp(m) in t ==> t[Temp(m)] == Dir || (t[Temp(m)].Link? && Present(t, Temp(m)))
  }

  /** One write, or one decision, of `import_rootfs`. */
  ghost predicate Next(m: Import, s: State, s': State) {
    match s.phase
    case Checking =>
      s'.t == s.t && s'.phase == if Present(s.t, Final(m)) then Failing else Clearing
    case Clearing =>
      // a stale temporary directory goes piece by piece; then the new one is made
      || (s'.phase == Clearing && Clearable(m, s.t) && Cleaner(m, s.t, s'.t))
      || (s'.phase == Making && Temp(m) !in s.t && s'.t == s.t[Temp(m) := Dir])
      || Fails(s, s')
    case Making =>
      || (s'.phase == Filling(0) && Rootfs(m) !in s.t && s'.t == s.t[Rootfs(m) := Dir])
      || Fails(s, s')
    case Filling(n) =>
      || EntryDone(m, n, s, s')
      || (n == |m.entries| && s' == State(s.t, GuestNetwork(MakeEtc)))
      // an entry that fails, or is broken off, leaves something below the new root
      || (s'.phase == Failing && SameOutside(s.t, s'.t, Rootfs(m)) && WellFormed(s'.t))
    case GuestNetwork(stage) =>
      || (s'.phase.GuestNetwork? && GuestNext(GuestFiles(m), stage, s.t, s'.phase.stage, s'.t))
      || (stage == Done && s' == State(s.t, Configuring))
      || Fails(s, s')
    case Configuring => FileNext(Temp(m) + [CONFIG], m.config, Describing, s, s') || Fails(s, s')
    case Describing => FileNext(Temp(m) + [METADATA], m.metadata, Described, s, s') || Fails(s, s')
    case Described =>
      || (s'.phase == Installed && Final(m) !in s.t && s'.t == Renamed(s.t, Temp(m), Final(m)))
      || Fails(s, s')
    case Installed => false
    case Failing => s'.phase == Failing && SameOutside(s.t, s'.t, Temp(m)) && WellFormed(s'.t)
  }

  /** Something of the temporary directory is gone, or all of it. */
  ghost predicate Cleaner(m: Import, t: Tree, t': Tree) {
    && SameOutside(t, t', Temp(m)) && WellFormed(t')
    && (Temp(m) in t' ==> t'[Temp(m)] == Dir)
  }

  ghost predicate EntryDone(m: Import, n: nat, s: State, s': State) {
    && n < |m.entries|
    && var (after, status) := Step(s.t, Rootfs(m), m.entries[n]);
    status != Failed && s' == State(after, Filling(n + 1))
  }

  /** A file is written up to some point, or completely. */
  ghost predicate FileNext(path: NamePath, text: string, next: Phase, s: State, s': State) {
    var at := WriteAt(s.t, path);
    && at.Some?
    && (|| (s'.phase == s.phase && exists part: string :: part <= text && s'.t == s.t[at.value := File(part)])
        || s' == State(s.t[at.value := File(text)], next))
  }

  predicate Fails(s: State, s': State) {
    s'.phase == Failing && s'.t == s.t
  }

  /** A run up to any point: it may have been interrupted there. */
  ghost predicate IsRun(m: Import, t: Tree, run: seq<State>) {
    && run != [] && run[0] == State(t, Checking)
    && forall i :: 0 <= i < |run| - 1 ==> Next(m, run[i], run[i + 1])
  }

  // ---- What has to hold at the start ----

  ghost predicate Ready(m: Import, t: Tree) {
    WellFormed(t) && m.containers in t && t[m.containers] == Dir
  }

  /** The tree without the temporary directory. */
  function Cleared(m: Import, t: Tree): Tree {
    map p | p in t && !Under(Temp(m), p) :: t[p]
  }

  /** And with a fresh one that holds an empty root. */
  function Fresh(m: Import, t: Tree): Tree {
    Cleared(m, t)[Temp(m) := Dir][Rootfs(m) := Dir]
  }

  /** The tree in which the guest network step begins, if the archive can be extracted. */
  function Filled(m: Import, t: Tree): (Tree, Option<nat>) {
    Extract(Fresh(m, t), Rootfs(m), m.entries)
  }

  /**
   The import changes nothing that the guard selects: it gives up before the guest network step, or
   nothing that this step writes is selected, links resolved.
   */
  predicate StaysOff(m: Import, t: Tree, guard: NamePath -> bool) {
    || Present(t, Final(m))
    || !Clearable(m, t)
    || Filled(m, t).1.None?
    || Spares(GuestFiles(m), guard, MakeEtc, Filled(m, t).0)
  }

  function OutsideTemp(m: Import): NamePath -> bool {
    (p: NamePath) => !Under(Temp(m), p)
  }

  /** All that the import writes before the rename lies in its temporary directory. */
  predicate StaysInside(m: Import, t: Tree) {
    StaysOff(m, t, OutsideTemp(m))
  }

  /** A guard that leaves the temporary directory to the import. */
  ghost predicate FitGuard(m: Import, t: Tree, guard: NamePath -> bool) {
    Rooted(guard, t) && forall p :: guard(p) ==> !Under(Temp(m), p)
  }

  // ---- The invariant ----

  predicate HasFile(t: Tree, p: NamePath, data: string) {
    p in t && t[p] == File(data)
  }

  /** No link lies directly in the temporary directory. */
  ghost predicate NoLinksIn(dir: NamePath, t: Tree) {
    forall name :: dir + [name] in t ==> !t[dir + [name]].Link?
  }

  predicate HasTemp(phase: Phase) {
    phase.Making? || HasRootfs(phase)
  }

  predicate HasRootfs(phase: Phase) {
    phase.Filling? || phase.GuestNetwork? || phase.Configuring? || phase.Describing? || phase.Described?
  }

  /** Before anything is written through links. */
  predicate IsEarly(phase: Phase) {
    phase.Checking? || phase.Clearing? || phase.Making? || phase.Filling?
  }

  /** What holds between two writes, before the rename. */
  ghost predicate Building(m: Import, guard: NamePath -> bool, t0: Tree, s: State) {
    && Ready(m, s.t) && Agree(guard, t0, s.t)
    && (IsEarly(s.phase) ==> SameOutside(t0, s.t, Temp(m)))
    && (HasTemp(s.phase) ==> Temp(m) in s.t && s.t[Temp(m)] == Dir && NoLinksIn(Temp(m), s.t))
    && (HasRootfs(s.phase) ==> Rootfs(m) in s.t && s.t[Rootfs(m)] == Dir)
    && Progress(m, guard, t0, s)
  }

  /** How far the work has come. */
  ghost predicate Progress(m: Import, guard: NamePath -> bool, t0: Tree, s: State) {
    match s.phase
    case Checking => s.t == t0
    case Clearing => !Present(t0, Final(m)) && (s.t == t0 || Clearable(m, t0))
    case Making => !Present(t0, Final(m)) && Clearable(m, t0) && s.t == Cleared(m, t0)[Temp(m) := Dir]
    case Filling(n) =>
      && !Present(t0, Final(m)) && Clearable(m, t0) && n <= |m.entries|
      && Extract(Fresh(m, t0), Rootfs(m), m.entries[..n]).0 == s.t
      && Extract(Fresh(m, t0), Rootfs(m), m.entries[..n]).1.Some?
    case GuestNetwork(stage) =>
      !Present(t0, Final(m)) && Rooted(guard, s.t) && Spares(GuestFiles(m), guard, stage, s.t)
    case Configuring => !Present(t0, Final(m))
    case Describing => !Present(t0, Final(m)) && HasFile(s.t, Temp(m) + [CONFIG], m.config)
    case Described =>
      && !Present(t0, Final(m))
      && HasFile(s.t, Temp(m) + [CONFIG], m.config) && HasFile(s.t, Temp(m) + [METADATA], m.metadata)
    case _ => true
  }

  /** The new container is complete. */
  ghost predicate NewContainer(m: Import, t: Tree) {
    && WellFormed(t)
    && Final(m) in t && t[Final(m)] == Dir
    && Final(m) + [ROOTFS] in t && t[Final(m) + [ROOTFS]] == Dir
    && HasFile(t, Final(m) + [CONFIG], m.config) && HasFile(t, Final(m) + [METADATA], m.metadata)
  }

  /** What the guard selects is as it was, but for the new container once it is there. */
  ghost predicate Untouched(m: Import, guard: NamePath -> bool, t0: Tree, s: State) {
    forall p :: guard(p) && !(s.phase == Installed && Under(Final(m), p)) ==>
      (p in t0 <==> p in s.t) && (p in t0 ==> t0[p] == s.t[p])
  }

  ghost predicate Invariant(m: Import, guard: NamePath -> bool, t0: Tree, s: State) {
    if s.phase == Installed then
      && !Present(t0, Final(m)) && NewContainer(m, s.t) && Untouched(m, guard, t0, s)
      && (guard(Final(m)) ==> Final(m) !in t0)
    else Building(m, guard, t0, s)
  }

  lemma TempIsOther(m: Import, name: string)
    requires !Hidden(name)
    ensures !Under(Temp(m), m.containers + [name])
    ensures forall p :: Under(m.containers + [name], p) ==> !Under(Temp(m), p)
  {
    var hidden := "." + m.name + ".tmp." + m.pid;
    assert Hidden(hidden);
    forall p | Under(m.containers + [name], p) ensures !Under(Temp(m), p) {
      assert p[..|m.containers| + 1][|m.containers|] == name;
      assert Temp(m)[|m.containers|] == hidden;
    }
  }

  lemma ContainersOutsideTemp(m: Import)
    ensures !Under(Temp(m), m.containers) && Parent(Temp(m)) == m.containers && Parent(Rootfs(m)) == Temp(m)
  {
  }

  lemma RenamedParts(t: Tree, from: NamePath, to: NamePath)
    requires !Under(from, to) && !Under(to, from)
    ensures var t' := Renamed(t, from, to);
            && (forall p :: !Under(from, p) && !Under(to, p) ==> (p in t <==> p in t') && (p in t ==> t[p] == t'[p]))
            && (forall rest: NamePath :: from + rest in t ==> to + rest in t' && t'[to + rest] == t[from + rest])
  {
    var t' := Renamed(t, from, to);
    forall p | !Under(from, p) && !Under(to, p) ensures (p in t <==> p in t') && (p in t ==> t[p] == t'[p]) {
      forall q | q in t && Under(from, q) ensures p != to + q[|from|..] {
        assert (to + q[|from|..])[..|to|] == to;
      }
    }
    forall rest: NamePath | from + rest in t ensures to + rest in t' && t'[to + rest] == t[from + rest] {
      var q := from + rest;
      assert q[..|from|] == from && q[|from|..] == rest && (to + rest)[|to|..] == rest;
      assert Under(from, q) && to + q[|from|..] == to + rest;
    }
  }

  lemma UnderTemp(m: Import, rest: NamePath)
    ensures Under(Temp(m), Temp(m) + rest)
  {
  }

  /** A renamed directory takes its part of the tree along, and the tree stays well-formed. */
  lemma RenamedKeepsShape(t: Tree, from: NamePath, to: NamePath)
    requires WellFormed(t) && from in t && t[from] == Dir && to !in t && from != [] && to != []
    requires Parent(from) == Parent(to) && !Under(from, to) && !Under(to, from)
    ensures WellFormed(Renamed(t, from, to))
  {
    hide Renamed;
    var t' := Renamed(t, from, to);
    RenamedParts(t, from, to);
    RenamedNodes(t, from, to);
    assert !Under(from, []) && !Under(to, []);
    ParentOutside(from, Parent(to));
    forall p | p in t' && p != [] ensures Parent(p) in t' && t'[Parent(p)] == Dir {
      if Under(to, p) {
        MovedParent(t, from, to, p);
      } else {
        KeptParent(t, from, to, p);
      }
    }
  }

  lemma ParentOutside(from: NamePath, above: NamePath)
    requires from != [] && Parent(from) == above
    ensures !Under(from, above)
  {
  }

  /** Where the nodes of the renamed tree come from. */
  lemma RenamedNodes(t: Tree, from: NamePath, to: NamePath)
    requires WellFormed(t) && to !in t
    ensures var t' := Renamed(t, from, to);
            forall p :: p in t' ==>
              if Under(to, p) then from + p[|to|..] in t && t'[p] == t[from + p[|to|..]]
              else p in t && !Under(from, p) && t'[p] == t[p]
  {
    var t' := Renamed(t, from, to);
    forall p | p in t' && Under(to, p) ensures p !in t {
      if p in t {
        PrefixIn(t, p, |to|);
        assert false;
      }
    }
    forall p | p in t' && !Under(to, p) ensures p in t && !Under(from, p) && t'[p] == t[p] {
      forall q | q in t && Under(from, q) ensures p != to + q[|from|..] {
        assert (to + q[|from|..])[..|to|] == to;
      }
    }
  }

  lemma MovedParent(t: Tree, from: NamePath, to: NamePath, p: NamePath)
    requires WellFormed(t) && from in t && t[from] == Dir && to !in t && from != [] && to != []
    requires Parent(from) == Parent(to) && !Under(from, to) && !Under(to, from)
    requires p in Renamed(t, from, to) && Under(to, p)
    ensures Parent(p) in Renamed(t, from, to) && Renamed(t, from, to)[Parent(p)] == Dir
  {
    hide Renamed;
    RenamedParts(t, from, to);
    RenamedNodes(t, from, to);
    var rest := p[|to|..];
    if rest == [] {
      assert p == to;
      ParentOutside(from, Parent(to));
      ParentOutside(to, Parent(to));
    } else {
      assert p == to + rest;
      ParentBehind(from, rest);
      ParentBehind(to, rest);
      assert from + rest in t && from + rest != [];
      assert from + Parent(rest) in t && t[from + Parent(rest)] == Dir;
    }
  }

  lemma ParentBehind(head: NamePath, rest: NamePath)
    requires rest != []
    ensures Parent(head + rest) == head + Parent(rest)
  {
  }

  lemma KeptParent(t: Tree, from: NamePath, to: NamePath, p: NamePath)
    requires WellFormed(t) && to !in t && p != [] && !Under(from, to) && !Under(to, from)
    requires p in Renamed(t, from, to) && !Under(to, p)
    ensures Parent(p) in Renamed(t, from, to) && Renamed(t, from, to)[Parent(p)] == Dir
  {
    hide Renamed;
    RenamedParts(t, from, to);
    RenamedNodes(t, from, to);
    UnderParent(to, p);
    UnderParent(from, p);
  }

  lemma UnderParent(top: NamePath, p: NamePath)
    requires !Under(top, p)
    ensures !Under(top, Parent(p))
  {
    if |top| <= |Parent(p)| {
      assert Parent(p)[..|top|] == p[..|top|];
    }
  }

  /** The rename shows the finished container, and nothing else changes. */
  lemma InstallStep(m: Import, guard: NamePath -> bool, t0: Tree, s: State)
    requires Building(m, guard, t0, s) && s.phase == Described && Final(m) !in s.t && !Hidden(m.name)
    requires FitGuard(m, t0, guard)
    ensures Invariant(m, guard, t0, State(Renamed(s.t, Temp(m), Final(m)), Installed))
  {
    hide WellFormed, NoLinksIn, Renamed, Rooted, NewContainer, Untouched, Agree;
    NewContainerShown(m, s.t);
    OthersUntouched(m, guard, t0, s);
    if guard(Final(m)) {
      SelectedAgree(guard, t0, s.t, Final(m));
    }
  }

  lemma SelectedAgree(guard: NamePath -> bool, a: Tree, b: Tree, p: NamePath)
    requires Agree(guard, a, b) && guard(p)
    ensures p in a <==> p in b
  {
  }

  lemma NewContainerShown(m: Import, t: Tree)
    requires WellFormed(t) && Temp(m) in t && t[Temp(m)] == Dir && Rootfs(m) in t && t[Rootfs(m)] == Dir
    requires HasFile(t, Temp(m) + [CONFIG], m.config) && HasFile(t, Temp(m) + [METADATA], m.metadata)
    requires Final(m) !in t && !Hidden(m.name)
    ensures NewContainer(m, Renamed(t, Temp(m), Final(m)))
  {
    hide WellFormed, Renamed;
    TempIsOther(m, m.name);
    FinalIsOther(m);
    RenamedParts(t, Temp(m), Final(m));
    RenamedKeepsShape(t, Temp(m), Final(m));
    assert Temp(m) + [] == Temp(m) && Final(m) + [] == Final(m);
  }

  lemma OthersUntouched(m: Import, guard: NamePath -> bool, t0: Tree, s: State)
    requires Agree(guard, t0, s.t) && FitGuard(m, t0, guard) && !Hidden(m.name)
    ensures Untouched(m, guard, t0, State(Renamed(s.t, Temp(m), Final(m)), Installed))
  {
    hide Renamed, Rooted;
    TempIsOther(m, m.name);
    FinalIsOther(m);
    RenamedParts(s.t, Temp(m), Final(m));
  }

  lemma FinalIsOther(m: Import)
    requires !Hidden(m.name)
    ensures !Under(Final(m), Temp(m)) && Parent(Temp(m)) == m.containers == Parent(Final(m))
  {
    assert Hidden("." + m.name + ".tmp." + m.pid);
    assert Temp(m)[|m.containers|] != Final(m)[|m.containers|];
  }

  lemma GuestFilesOf(m: Import)
    ensures GuestFiles(m).root == Rootfs(m) && HasTexts(GuestFiles(m))
  {
    hide ShowOctets;
    GuestHasTexts(Rootfs(m), m.settings);
  }

  lemma SameOutsideTwice(a: Tree, b: Tree, c: Tree, top: NamePath)
    requires SameOutside(a, b, top)
    ensures SameOutside(b, c, top) ==> SameOutside(a, c, top)
    ensures SameOutside(b, b, top)
  {
  }

  lemma AgreeTwice(guard: NamePath -> bool, a: Tree, b: Tree, c: Tree)
    requires Agree(guard, a, b)
    ensures Agree(guard, b, c) <==> Agree(guard, a, c)
    ensures Agree(guard, b, b)
  {
  }

  lemma AgreeOutside(m: Import, guard: NamePath -> bool, t0: Tree, a: Tree, b: Tree)
    requires FitGuard(m, t0, guard) && SameOutside(a, b, Temp(m))
    ensures Agree(guard, a, b)
  {
  }

  lemma StaysReady(m: Import, t: Tree, t': Tree)
    requires Ready(m, t) && WellFormed(t') && SameOutside(t, t', Temp(m))
    ensures Ready(m, t')
  {
    ContainersOutsideTemp(m);
  }

  /** What is below the new root is in the temporary directory. */
  lemma RootfsInTemp(m: Import, t: Tree, t': Tree)
    requires SameOutside(t, t', Rootfs(m))
    ensures SameOutside(t, t', Temp(m))
  {
    forall p | Under(Rootfs(m), p) ensures Under(Temp(m), p) {
      assert p[..|Rootfs(m)|][..|Temp(m)|] == p[..|Temp(m)|];
    }
  }

  lemma ClearedIs(m: Import, t0: Tree, t: Tree)
    requires WellFormed(t) && SameOutside(t0, t, Temp(m)) && Temp(m) !in t
    ensures t == Cleared(m, t0)
  {
    forall p | p in t ensures !Under(Temp(m), p) {
      if Under(Temp(m), p) {
        PrefixIn(t, p, |Temp(m)|);
        assert false;
      }
    }
  }

  lemma MakingStep(m: Import, guard: NamePath -> bool, t0: Tree, s: State, s': State)
    requires FitGuard(m, t0, guard) && Ready(m, t0)
    requires Building(m, guard, t0, s) && Next(m, s, s') && s.phase == Clearing && s'.phase == Making
    ensures Building(m, guard, t0, s')
  {
    hide Rooted, Agree, SameOutside;
    ContainersOutsideTemp(m);
    UnderTemp(m, []);
    assert Temp(m) + [] == Temp(m);
    ClearedIs(m, t0, s.t);
    DirFits(s.t, Temp(m));
    forall name ensures Temp(m) + [name] !in s'.t {
      assert Parent(Temp(m) + [name]) == Temp(m);
    }
    NewBelow(s.t, Temp(m), Temp(m), Dir);
    SameOutsideTwice(t0, s.t, s'.t, Temp(m));
    AgreeOutside(m, guard, t0, t0, s'.t);
  }

  lemma RootfsStep(m: Import, guard: NamePath -> bool, t0: Tree, s: State, s': State)
    requires FitGuard(m, t0, guard)
    requires Building(m, guard, t0, s) && Next(m, s, s') && s.phase == Making && s'.phase == Filling(0)
    ensures Building(m, guard, t0, s')
  {
    hide SameOutside, Agree, Rooted;
    ContainersOutsideTemp(m);
    UnderTemp(m, [ROOTFS]);
    NewBelow(s.t, Temp(m), Rootfs(m), Dir);
    SameOutsideTwice(t0, s.t, s'.t, Temp(m));
    AgreeOutside(m, guard, t0, t0, s'.t);
    DirFits(s.t, Rootfs(m));
    assert m.entries[..0] == [];
  }

  lemma NewBelow(t: Tree, top: NamePath, p: NamePath, node: Node)
    requires Under(top, p)
    ensures SameOutside(t, t[p := node], top)
  {
  }

  lemma NextWhileMaking(m: Import, guard: NamePath -> bool, t0: Tree, s: State, s': State)
    requires FitGuard(m, t0, guard) && Ready(m, t0)
    requires Building(m, guard, t0, s) && Next(m, s, s')
    requires s.phase in {Checking, Clearing, Making, Failing}
    ensures Building(m, guard, t0, s')
  {
    hide Present, WellFormed, SameOutside, NoLinksIn, Agree, Rooted;
    AgreeTwice(guard, t0, s.t, s'.t);
    if s.phase == Clearing && s'.phase == Making {
      MakingStep(m, guard, t0, s, s');
    } else if s.phase == Making && s'.phase != Failing {
      RootfsStep(m, guard, t0, s, s');
    } else if s.phase == Clearing && s'.phase == Clearing {
      SameOutsideTwice(t0, s.t, s'.t, Temp(m));
      AgreeOutside(m, guard, t0, s.t, s'.t);
      StaysReady(m, s.t, s'.t);
    } else if s.phase == Failing {
      AgreeOutside(m, guard, t0, s.t, s'.t);
      StaysReady(m, s.t, s'.t);
    }
  }

  /** One entry of the archive. */
  lemma FillingStep(m: Import, guard: NamePath -> bool, t0: Tree, s: State, s': State)
    requires FitGuard(m, t0, guard)
    requires Building(m, guard, t0, s) && s.phase.Filling? && EntryDone(m, s.phase.done, s, s')
    ensures Building(m, guard, t0, s')
  {
    hide Step, WellFormed, Rooted, Agree;
    var n, root := s.phase.done, Rootfs(m);
    ContainersOutsideTemp(m);
    StepConfined(s.t, root, m.entries[n]);
    assert m.entries[..n + 1][..n] == m.entries[..n];
    ConfinedIsOutside(s.t, s'.t, root);
    RootfsInTemp(m, s.t, s'.t);
    SameOutsideTwice(t0, s.t, s'.t, Temp(m));
    AgreeOutside(m, guard, t0, t0, s'.t);
    forall name | Temp(m) + [name] in s'.t ensures !s'.t[Temp(m) + [name]].Link? {
      assert !Below(root, Temp(m) + [name]);
    }
  }

  lemma ConfinedIsOutside(t: Tree, t': Tree, root: NamePath)
    requires Confined(t, t', root)
    ensures SameOutside(t, t', root)
  {
  }

  /** The temporary directory is not needed for the guard. */
  lemma RootedOutside(m: Import, guard: NamePath -> bool, t0: Tree, t: Tree)
    requires FitGuard(m, t0, guard) && SameOutside(t0, t, Temp(m))
    ensures Rooted(guard, t)
  {
    forall p: NamePath, name: string | guard(p + [name]) ensures guard(p) || (p in t && t[p] == Dir) {
      assert Parent(p + [name]) == p;
      UnderTempParent(m, p, name);
    }
  }

  lemma UnderTempParent(m: Import, p: NamePath, name: string)
    requires !Under(Temp(m), p + [name])
    ensures !Under(Temp(m), p)
  {
    assert Parent(p + [name]) == p;
    UnderParent(Temp(m), p + [name]);
  }

  lemma FilledIsFilled(m: Import, guard: NamePath -> bool, t0: Tree, s: State)
    requires FitGuard(m, t0, guard) && StaysOff(m, t0, guard)
    requires Building(m, guard, t0, s) && s.phase == Filling(|m.entries|)
    ensures Building(m, guard, t0, State(s.t, GuestNetwork(MakeEtc)))
  {
    hide Spares, Extract, GuestFiles, WellFormed, Fresh, NoLinksIn, Rooted;
    assert m.entries[..|m.entries|] == m.entries;
    RootedOutside(m, guard, t0, s.t);
  }

  lemma NextWhileFilling(m: Import, guard: NamePath -> bool, t0: Tree, s: State, s': State)
    requires FitGuard(m, t0, guard) && StaysOff(m, t0, guard)
    requires Building(m, guard, t0, s) && Next(m, s, s') && s.phase.Filling?
    ensures Building(m, guard, t0, s')
  {
    hide Step, WellFormed, SameOutside, Extract, NoLinksIn, Agree, Rooted;
    if EntryDone(m, s.phase.done, s, s') {
      FillingStep(m, guard, t0, s, s');
    } else if s'.phase.GuestNetwork? {
      FilledIsFilled(m, guard, t0, s);
    } else {
      RootfsInTemp(m, s.t, s'.t);
      SameOutsideTwice(t0, s.t, s'.t, Temp(m));
      AgreeOutside(m, guard, t0, t0, s'.t);
      StaysReady(m, s.t, s'.t);
    }
  }

  lemma NextWhileNetworking(m: Import, guard: NamePath -> bool, t0: Tree, s: State, s': State)
    requires Building(m, guard, t0, s) && Next(m, s, s') && s.phase.GuestNetwork?
    ensures Building(m, guard, t0, s')
  {
    hide GuestNext, WellFormed, Agree, Spares, NoLinksIn, GuestFiles, Rooted;
    var g := GuestFiles(m);
    GuestFilesOf(m);
    AgreeTwice(guard, t0, s.t, s'.t);
    if s'.phase.GuestNetwork? {
      GuestKeeps(g, s.phase.stage, s.t, s'.phase.stage, s'.t);
      SparesKept(g, guard, s.phase.stage, s.t, s'.phase.stage, s'.t);
      StaysRooted(guard, s.t, s'.t);
      KeepsNoLinks(Temp(m), s.t, s'.t);
    }
  }

  lemma KeepsNoLinks(dir: NamePath, t: Tree, t': Tree)
    requires NoLinksIn(dir, t) && Keeps(t, t')
    ensures NoLinksIn(dir, t')
  {
  }

  /** A file directly in the temporary directory is written there. */
  lemma FileStep(m: Import, t: Tree, name: string, data: string)
    requires Ready(m, t) && Temp(m) in t && t[Temp(m)] == Dir && NoLinksIn(Temp(m), t)
    requires WriteAt(t, Temp(m) + [name]).Some?
    ensures WriteAt(t, Temp(m) + [name]) == Some(Temp(m) + [name])
    ensures var t' := t[Temp(m) + [name] := File(data)];
            && Ready(m, t') && SameOutside(t, t', Temp(m)) && NoLinksIn(Temp(m), t')
            && forall p :: p in t && t[p] == Dir ==> t'[p] == Dir
  {
    hide WellFormed;
    var path := Temp(m) + [name];
    RootIsPlain(t, Temp(m));
    PlainName(t, Temp(m), name);
    OpenPlain(t, path);
    FileWritten(t, path, data);
    UnderTemp(m, [name]);
    StaysReady(m, t, t[path := File(data)]);
    KeepsNoLinks(Temp(m), t, t[path := File(data)]);
  }

  lemma NextWhileWriting(m: Import, guard: NamePath -> bool, t0: Tree, s: State, s': State)
    requires FitGuard(m, t0, guard)
    requires Building(m, guard, t0, s) && Next(m, s, s') && s.phase in {Configuring, Describing}
    ensures Building(m, guard, t0, s')
  {
    hide WriteAt, WellFormed, SameOutside, NoLinksIn, Agree, Rooted;
    var name := if s.phase == Configuring then CONFIG else METADATA;
    var path := Temp(m) + [name];
    AgreeTwice(guard, t0, s.t, s'.t);
    if s'.phase != Failing {
      FileStep(m, s.t, name, s'.t[WriteAt(s.t, path).value].data);
      AgreeOutside(m, guard, t0, s.t, s'.t);
      assert METADATA != CONFIG && (Temp(m) + [METADATA])[|Temp(m)|] != (Temp(m) + [CONFIG])[|Temp(m)|];
    }
  }

  lemma NextKeepsInvariant(m: Import, guard: NamePath -> bool, t0: Tree, s: State, s': State)
    requires Ready(m, t0) && FitGuard(m, t0, guard) && !Hidden(m.name) && StaysOff(m, t0, guard)
    requires Invariant(m, guard, t0, s) && Next(m, s, s')
    ensures Invariant(m, guard, t0, s')
  {
    hide NewContainer, Renamed, Building, StaysOff, FitGuard, Untouched;
    if s.phase in {Checking, Clearing, Making, Failing} {
      NextWhileMaking(m, guard, t0, s, s');
    } else if s.phase.Filling? {
      NextWhileFilling(m, guard, t0, s, s');
    } else if s.phase.GuestNetwork? {
      NextWhileNetworking(m, guard, t0, s, s');
    } else if s.phase in {Configuring, Describing} {
      NextWhileWriting(m, guard, t0, s, s');
    } else if s'.phase == Installed {
      InstallStep(m, guard, t0, s);
    } else {
      DescribedFails(m, guard, t0, s, s');
    }
  }

  lemma DescribedFails(m: Import, guard: NamePath -> bool, t0: Tree, s: State, s': State)
    requires Building(m, guard, t0, s) && s.phase == Described && Fails(s, s')
    ensures Building(m, guard, t0, s')
  {
    hide WellFormed, NoLinksIn, Agree, Rooted, SameOutside, Present, HasFile, Extract, Spares;
  }

  lemma {:induction false} RunKeepsInvariant(m: Import, guard: NamePath -> bool, t: Tree, run: seq<State>, i: nat)
    requires Ready(m, t) && FitGuard(m, t, guard) && !Hidden(m.name) && StaysOff(m, t, guard)
    requires IsRun(m, t, run) && i < |run|
    ensures Invariant(m, guard, t, run[i])
  {
    hide Next, StaysOff, FitGuard;
    if i > 0 {
      RunKeepsInvariant(m, guard, t, run, i - 1);
      NextKeepsInvariant(m, guard, t, run[i - 1], run[i]);
    } else {
      AgreeTwice(guard, t, t, t) by {
        AgreeSame(guard, t);
      }
    }
  }

  lemma AgreeSame(guard: NamePath -> bool, t: Tree)
    ensures Agree(guard, t, t)
  {
  }

  lemma OutsideTempFits(m: Import, t: Tree)
    ensures FitGuard(m, t, OutsideTemp(m))
  {
    var guard := OutsideTemp(m);
    forall p: NamePath, name: string | guard(p + [name]) ensures guard(p) {
      UnderTempParent(m, p, name);
    }
  }
}
