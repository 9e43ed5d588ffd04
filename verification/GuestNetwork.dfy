/**
 The network files that an import writes into a new root file system. The three writers follow every
 link they meet, except one at `etc/resolv.conf` itself, which the first of them removes.
 */
module GuestNetwork {
  import opened Addresses
  import opened FileTree
  import opened Paths
  import opened RootfsExtract
  import opened Text
  import opened TextLines
  import opened Wrappers

  /** The new root and the three texts that are written into it. */
  datatype Guest = Guest(root: NamePath, resolv: string, netplan: string, network: string)

  const NETWORK_FILE := "10-achost-lxc.network"
  const LXC_YAML := "10-lxc.yaml"
  const ACHOST_YAML := "10-achost-lxc.yaml"

  function Etc(g: Guest): NamePath {
    g.root + ["etc"]
  }

  function ResolvConf(g: Guest): NamePath {
    Etc(g) + ["resolv.conf"]
  }

  function Netplan(g: Guest): NamePath {
    Etc(g) + ["netplan"]
  }

  function Systemd(g: Guest): NamePath {
    Etc(g) + ["systemd"]
  }

  function NetworkDir(g: Guest): NamePath {
    Systemd(g) + ["network"]
  }

  const DNS: seq<Ipv4> := [[1, 1, 1, 1], [8, 8, 8, 8]]

  function DnsLines(before: string, servers: seq<Ipv4>): seq<string> {
    if servers == [] then [] else [before + ShowOctets(servers[0])] + DnsLines(before, servers[1..])
  }

  function WithPrefix(s: Settings): string {
    ShowOctets(s.address) + "/" + Decimal(s.prefix)
  }

  function NetplanLines(s: Settings): seq<string> {
    ["network:", "  version: 2", "  renderer: networkd", "  ethernets:", "    eth0:", "      dhcp4: false",
     "      addresses: [" + WithPrefix(s) + "]",
     "      routes:",
     "        - to: default",
     "          via: " + ShowOctets(s.gateway),
     "      nameservers:",
     "        addresses: [" + ShowOctets(DNS[0]) + ", " + ShowOctets(DNS[1]) + "]"]
  }

  function SystemdLines(s: Settings): seq<string> {
    ["[Match]", "Name=eth0", "", "[Network]",
     "Address=" + WithPrefix(s),
     "Gateway=" + ShowOctets(s.gateway)] + DnsLines("DNS=", DNS)
  }

  function GuestOf(root: NamePath, s: Settings): Guest {
    Guest(root, Unlines(DnsLines("nameserver ", DNS)), Unlines(NetplanLines(s)), Unlines(SystemdLines(s)))
  }

  predicate HasTexts(g: Guest) {
    g.resolv != "" && g.netplan != "" && g.network != ""
  }

  lemma GuestHasTexts(root: NamePath, s: Settings)
    ensures HasTexts(GuestOf(root, s))
  {
    hide ShowOctets, WithPrefix;
    assert DnsLines("nameserver ", DNS) != [];
  }

  // ---- Stage by stage ----

  /** What is done next; every stage changes the tree by at most one call. */
  datatype Stage =
    | MakeEtc | DropLink | WriteResolv | LookNetplan | WriteNetplan(file: string) | LookSystemd | WriteNetwork | Done

  function Left(stage: Stage): nat {
    match stage
    case MakeEtc => 7
    case DropLink => 6
    case WriteResolv => 5
    case LookNetplan => 4
    case WriteNetplan(_) => 3
    case LookSystemd => 2
    case WriteNetwork => 1
    case Done => 0
  }

  /** A stage that writes a file: where, what, and what comes after it. */
  datatype Writing = Writing(path: NamePath, text: string, next: Stage)

  function WritingOf(g: Guest, stage: Stage): (r: Option<Writing>)
    ensures r.Some? ==> Left(r.value.next) < Left(stage)
  {
    match stage
    case WriteResolv => Some(Writing(ResolvConf(g), g.resolv, LookNetplan))
    case WriteNetplan(file) => Some(Writing(Netplan(g) + [file], g.netplan, LookSystemd))
    case WriteNetwork => Some(Writing(NetworkDir(g) + [NETWORK_FILE], g.network, Done))
    case _ => None
  }

  /** The link at the place of `etc/resolv.conf`, if there is one. */
  function ResolvLink(g: Guest, t: Tree): Option<NamePath> {
    match Locate(t, ResolvConf(g))
    case Found(at) => if at in t && t[at].Link? then Some(at) else None
    case _ => None
  }

  function NetplanFile(g: Guest, t: Tree): string {
    if Present(t, Netplan(g) + [LXC_YAML]) then LXC_YAML else ACHOST_YAML
  }

  /** The tree after a stage, and the next stage unless this one fails. */
  function Advance(g: Guest, stage: Stage, t: Tree): (r: (Tree, Option<Stage>))
    ensures r.1.Some? && stage != Done ==> Left(r.1.value) < Left(stage)
  {
    match WritingOf(g, stage)
    case Some(writing) =>
      var at := WriteAt(t, writing.path);
      if at.Some? then (t[at.value := File(writing.text)], Some(writing.next)) else (t, None)
    case None =>
      match stage
      case MakeEtc =>
        var (made, ok) := MkdirAll(t, Etc(g));
        (made, if ok then Some(DropLink) else None)
      case DropLink =>
        var link := ResolvLink(g, t);
        (if link.Some? then t - {link.value} else t, Some(WriteResolv))
      case LookNetplan =>
        if !Present(t, Netplan(g)) then (t, Some(LookSystemd))
        else
          var (made, ok) := MkdirAll(t, Netplan(g));
          (made, if ok then Some(WriteNetplan(NetplanFile(g, made))) else None)
      case LookSystemd =>
        if !Present(t, Systemd(g)) then (t, Some(Done))
        else
          var (made, ok) := MkdirAll(t, NetworkDir(g));
          (made, if ok then Some(WriteNetwork) else None)
      case _ => (t, Some(Done))
  }

  /** All stages from one on, up to a failure. */
  function Finish(g: Guest, stage: Stage, t: Tree): (Tree, bool)
    decreases Left(stage)
  {
    if stage == Done then (t, true)
    else
      var (after, next) := Advance(g, stage, t);
      if next.Some? then Finish(g, next.value, after) else (after, false)
  }

  // ---- The program ----

  method WriteGuestFile(fs: FileSystem, g: Guest, stage: Stage, path: NamePath, text: string) returns (ok: bool)
    requires WritingOf(g, stage).Some? && WritingOf(g, stage).value.path == path
    requires WritingOf(g, stage).value.text == text
    modifies fs
    ensures (fs.nodes, if ok then Some(WritingOf(g, stage).value.next) else None) == Advance(g, stage, old(fs.nodes))
  {
    ok := fs.WriteFile(path, text);
  }

  /** `write_guest_resolv_conf` */
  method WriteGuestResolvConf(fs: FileSystem, g: Guest) returns (ok: bool)
    modifies fs
    ensures Finish(g, MakeEtc, old(fs.nodes)) == if ok then Finish(g, LookNetplan, fs.nodes) else (fs.nodes, false)
  {
    hide MkdirAll, Locate, WriteAt, Present;
    ok := CreateDirAll(fs, Etc(g));
    if !ok {
      return;
    }
    var node := fs.SymlinkMetadata(ResolvConf(g));
    if node.Ok? && node.value.Link? {
      var removed := fs.RemoveFile(ResolvConf(g));
      if removed.Err? {
        return false;
      }
    }
    ok := WriteGuestFile(fs, g, WriteResolv, ResolvConf(g), g.resolv);
  }

  /** `write_guest_netplan` */
  method WriteGuestNetplan(fs: FileSystem, g: Guest) returns (ok: bool)
    modifies fs
    ensures Finish(g, LookNetplan, old(fs.nodes)) == if ok then Finish(g, LookSystemd, fs.nodes) else (fs.nodes, false)
  {
    hide MkdirAll, WriteAt, Present;
    var there := fs.PathExists(Netplan(g));
    if !there {
      return true;
    }
    ok := CreateDirAll(fs, Netplan(g));
    if !ok {
      return;
    }
    var lxc := fs.PathExists(Netplan(g) + [LXC_YAML]);
    var file := if lxc then LXC_YAML else ACHOST_YAML;
    ok := WriteGuestFile(fs, g, WriteNetplan(file), Netplan(g) + [file], g.netplan);
  }

  /** `write_guest_systemd_network` */
  method WriteGuestSystemdNetwork(fs: FileSystem, g: Guest) returns (ok: bool)
    modifies fs
    ensures Finish(g, LookSystemd, old(fs.nodes)) == (fs.nodes, ok)
  {
    hide MkdirAll, WriteAt, Present;
    var there := fs.PathExists(Systemd(g));
    if !there {
      return true;
    }
    ok := CreateDirAll(fs, NetworkDir(g));
    if !ok {
      return;
    }
    ok := WriteGuestFile(fs, g, WriteNetwork, NetworkDir(g) + [NETWORK_FILE], g.network);
  }

  /** `ensure_guest_network_config` */
  method EnsureGuestNetworkConfig(fs: FileSystem, g: Guest) returns (ok: bool)
    modifies fs
    ensures (fs.nodes, ok) == Finish(g, MakeEtc, old(fs.nodes))
  {
    hide Finish;
    ok := WriteGuestResolvConf(fs, g);
    if !ok {
      return;
    }
    ok := WriteGuestNetplan(fs, g);
    if !ok {
      return;
    }
    ok := WriteGuestSystemdNetwork(fs, g);
  }

  // ---- Where it writes ----

  /** One moment later: a stage is done, or a file is written up to some point. */
  ghost predicate GuestNext(g: Guest, stage: Stage, t: Tree, stage': Stage, t': Tree) {
    || (t', Some(stage')) == Advance(g, stage, t)
    || (stage' == stage && PartWritten(g, stage, t, t'))
  }

  ghost predicate PartWritten(g: Guest, stage: Stage, t: Tree, t': Tree) {
    var writing := WritingOf(g, stage);
    && writing.Some?
    && var at := WriteAt(t, writing.value.path);
    && at.Some?
    && exists part: string :: part <= writing.value.text && t' == t[at.value := File(part)]
  }

  /** The file that the netplan writer creates or overwrites. */
  function NetplanTarget(g: Guest, t: Tree): Option<NamePath> {
    if IsDirectory(t, Netplan(g)) then WriteAt(t, Netplan(g) + [NetplanFile(g, t)]) else None
  }

  /** Whether there is anything to do after the netplan writer: it had nothing to write, or could. */
  predicate NetplanPasses(g: Guest, t: Tree) {
    Present(t, Netplan(g)) ==> NetplanTarget(g, t).Some?
  }

  /** What the systemd writer creates or overwrites: the file, and before it perhaps its directory. */
  function SystemdTargets(g: Guest, t: Tree): seq<NamePath> {
    if !IsDirectory(t, Systemd(g)) then []
    else
      var dir := Resolve(t, Systemd(g)).at + ["network"];
      if dir !in t then [dir, dir + [NETWORK_FILE]]
      else
        var file := WriteAt(t, NetworkDir(g) + [NETWORK_FILE]);
        if file.Some? then [file.value] else []
  }

  /**
   The paths that the guest network step changes from a stage on, links resolved. Behind `resolv.conf` all
   of them are resolved in the same tree.
   */
  function Targets(g: Guest, stage: Stage, t: Tree): seq<NamePath> {
    match stage
    case MakeEtc => if Etc(g) !in t then [Etc(g)] + ResolvTargets(g, t[Etc(g) := Dir]) else ResolvTargets(g, t)
    case DropLink => ResolvTargets(g, t)
    case WriteResolv => ResolvTarget(g, t)
    case LookNetplan => BehindResolv(g, t)
    case WriteNetplan(file) =>
      var at := WriteAt(t, Netplan(g) + [file]);
      if at.Some? then [at.value] + SystemdTargets(g, t) else []
    case LookSystemd => SystemdTargets(g, t)
    case WriteNetwork =>
      var at := WriteAt(t, NetworkDir(g) + [NETWORK_FILE]);
      if at.Some? then [at.value] else []
    case Done => []
  }

  function ResolvTargets(g: Guest, t: Tree): seq<NamePath> {
    var link := ResolvLink(g, t);
    if link.Some? then [link.value] + ResolvTarget(g, t - {link.value}) else ResolvTarget(g, t)
  }

  function ResolvTarget(g: Guest, t: Tree): seq<NamePath> {
    var at := WriteAt(t, ResolvConf(g));
    if at.Some? then [at.value] + BehindResolv(g, t[at.value := File(g.resolv)]) else []
  }

  function BehindResolv(g: Guest, t: Tree): seq<NamePath> {
    var netplan := NetplanTarget(g, t);
    (if netplan.Some? then [netplan.value] else []) + if NetplanPasses(g, t) then SystemdTargets(g, t) else []
  }

  /** From this stage on nothing changes that `guard` selects. */
  predicate Spares(g: Guest, guard: NamePath -> bool, stage: Stage, t: Tree) {
    forall p :: p in Targets(g, stage, t) ==> !guard(p)
  }

  /** What is selected lies in something selected, or in a directory of the tree. */
  ghost predicate Rooted(guard: NamePath -> bool, t: Tree) {
    forall p: NamePath, name: string :: guard(p + [name]) ==> guard(p) || (p in t && t[p] == Dir)
  }

  /** The tree is fit for the step. */
  ghost predicate GuestReady(g: Guest, t: Tree) {
    WellFormed(t) && g.root in t && t[g.root] == Dir
  }

  // ---- A write leads no later write elsewhere ----

  lemma SameAfterWrite(t: Tree, w: NamePath, data: string, path: NamePath)
    requires WellFormed(t) && w != [] && Parent(w) in t && t[Parent(w)] == Dir && (w in t ==> t[w].File?)
    ensures WellFormed(t[w := File(data)])
    ensures WriteAt(t[w := File(data)], path) == WriteAt(t, path)
    ensures IsDirectory(t[w := File(data)], path) == IsDirectory(t, path)
    ensures IsDirectory(t, path) ==> Resolve(t[w := File(data)], path) == Resolve(t, path)
  {
    var u := t[w := File(data)];
    FileFits(t, w, data);
    OpenAfterWrite(t, [], Names(path), MAX_LINKS, w, data);
    OpenIsWalk(t, [], Names(path), MAX_LINKS);
    OpenIsWalk(u, [], Names(path), MAX_LINKS);
  }

  lemma FileFits(t: Tree, w: NamePath, data: string)
    requires WellFormed(t) && w != [] && Parent(w) in t && t[Parent(w)] == Dir && (w in t ==> t[w].File?)
    ensures WellFormed(t[w := File(data)])
  {
    var u := t[w := File(data)];
    forall p | p in u && p != [] ensures Parent(p) in u && u[Parent(p)] == Dir {
      if p != w {
        assert p in t;
      }
    }
  }

  /** What `WriteAt` gives is a file or a free name in a directory. */
  lemma WriteAtFits(t: Tree, path: NamePath)
    requires WellFormed(t)
    ensures var w := WriteAt(t, path);
            w.Some? ==> && w.value != [] && Parent(w.value) in t && t[Parent(w.value)] == Dir
                        && (w.value in t ==> t[w.value].File?)
  {
    if WriteAt(t, path).Some? {
      var w := WriteAt(t, path).value;
      if w !in t {
        OpenParent(t, [], Names(path), MAX_LINKS);
      }
    }
  }

  /** A file is written in a directory only. */
  lemma WriteNeedsDir(t: Tree, dir: NamePath, name: string)
    requires WellFormed(t) && Open(t, dir + [name]).Found?
    ensures IsDirectory(t, dir)
  {
    assert Names(dir + [name]) == Names(dir) + [Name(name)];
    var mid, rest := OpenSplit(t, [], Names(dir), [Name(name)], MAX_LINKS);
    OpenIsWalk(t, [], Names(dir), MAX_LINKS);
  }

  /** What is present is there in the directory that the beginning of its path names. */
  lemma PresentInDir(t: Tree, dir: NamePath, name: string)
    requires WellFormed(t) && Present(t, dir + [name])
    ensures IsDirectory(t, dir) && Resolve(t, dir).at + [name] in t
  {
    assert Names(dir + [name]) == Names(dir) + [Name(name)];
    OpenIsWalk(t, [], Names(dir + [name]), MAX_LINKS);
    var mid, rest := OpenSplit(t, [], Names(dir), [Name(name)], MAX_LINKS);
    OpenIsWalk(t, [], Names(dir), MAX_LINKS);
    FreeNameIsFree(t, mid, name, rest);
  }

  lemma FreeNameIsFree(t: Tree, at: NamePath, name: string, budget: nat)
    requires at in t && t[at] == Dir
    ensures at + [name] !in t ==> OpenFrom(t, at, [Name(name)], budget) == Found(at + [name])
  {
  }

  /** Behind a directory, two names are opened from there. */
  lemma OpenTwo(t: Tree, dir: NamePath, name: string, file: string) returns (rest: nat)
    requires WellFormed(t) && IsDirectory(t, dir)
    ensures Open(t, dir + [name] + [file]) == OpenFrom(t, Resolve(t, dir).at, [Name(name), Name(file)], rest)
  {
    assert Names(dir + [name] + [file]) == Names(dir) + [Name(name), Name(file)];
    OpenIsWalk(t, [], Names(dir), MAX_LINKS);
    rest := OpenAppend(t, [], Names(dir), [Name(name), Name(file)], MAX_LINKS);
  }

  /** Without its directory a file is not opened. */
  lemma NoDirNoFile(t: Tree, dir: NamePath, name: string, file: string)
    requires WellFormed(t) && IsDirectory(t, dir) && Resolve(t, dir).at + [name] !in t
    ensures WriteAt(t, dir + [name] + [file]).None?
  {
    var rest := OpenTwo(t, dir, name, file);
  }

  /** In a new directory a file is opened there. */
  lemma NewDirNewFile(t: Tree, dir: NamePath, name: string, file: string)
    requires WellFormed(t) && IsDirectory(t, dir) && Resolve(t, dir).at + [name] !in t
    ensures var made := Resolve(t, dir).at + [name];
            WriteAt(t[made := Dir], dir + [name] + [file]) == Some(made + [file])
  {
    var at := Resolve(t, dir).at;
    var made := at + [name];
    var u := t[made := Dir];
    assert Parent(made) == at;
    DirFits(t, made);
    OpenIsWalk(t, [], Names(dir), MAX_LINKS);
    OpenGrows(t, u, [], Names(dir), MAX_LINKS);
    OpenIsWalk(u, [], Names(dir), MAX_LINKS);
    var rest := OpenTwo(u, dir, name, file);
    assert [Name(name), Name(file)][1..] == [Name(file)];
    assert Parent(made + [file]) == made;
    assert made + [file] !in t;
    OpenName(u, made, file, rest);
  }

  lemma DirFits(t: Tree, p: NamePath)
    requires WellFormed(t) && p != [] && p !in t && Parent(p) in t && t[Parent(p)] == Dir
    ensures WellFormed(t[p := Dir])
  {
    var u := t[p := Dir];
    forall q | q in u && q != [] ensures Parent(q) in u && u[Parent(q)] == Dir {
      if q != p {
        assert q in t;
      }
    }
  }

  lemma SystemdAfterWrite(g: Guest, guard: NamePath -> bool, t: Tree, path: NamePath, data: string)
    requires WellFormed(t) && Rooted(guard, t) && WriteAt(t, path).Some? && !guard(WriteAt(t, path).value)
    ensures var after := t[WriteAt(t, path).value := File(data)];
            (forall p :: p in SystemdTargets(g, t) ==> !guard(p)) <==>
            (forall p :: p in SystemdTargets(g, after) ==> !guard(p))
  {
    hide WriteAt, Resolve, WellFormed;
    var w := WriteAt(t, path).value;
    WriteAtFits(t, path);
    SameAfterWrite(t, w, data, Systemd(g));
    SameAfterWrite(t, w, data, NetworkDir(g) + [NETWORK_FILE]);
    if IsDirectory(t, Systemd(g)) {
      var dir := Resolve(t, Systemd(g)).at + ["network"];
      if dir == w && dir !in t {
        NoDirNoFile(t, Systemd(g), "network", NETWORK_FILE);
        assert !guard(dir + [NETWORK_FILE]);
      }
    }
  }

  // ---- What one stage changes ----

  /** The path that a stage changes, if any. */
  function StageTarget(g: Guest, stage: Stage, t: Tree): Option<NamePath> {
    match stage
    case MakeEtc => if Etc(g) !in t then Some(Etc(g)) else None
    case DropLink => ResolvLink(g, t)
    case LookSystemd =>
      if IsDirectory(t, Systemd(g)) && Resolve(t, Systemd(g)).at + ["network"] !in t
      then Some(Resolve(t, Systemd(g)).at + ["network"]) else None
    case _ =>
      var writing := WritingOf(g, stage);
      if writing.Some? then WriteAt(t, writing.value.path) else None
  }

  /** A new directory in a directory. */
  predicate NewDir(t: Tree, p: NamePath) {
    p != [] && p !in t && Parent(p) in t && t[Parent(p)] == Dir
  }

  lemma EtcStage(g: Guest, t: Tree)
    requires GuestReady(g, t)
    ensures if Etc(g) !in t then NewDir(t, Etc(g)) && MkdirAll(t, Etc(g)) == (t[Etc(g) := Dir], true)
            else MkdirAll(t, Etc(g)) == (t, IsDirectory(t, Etc(g)))
  {
    assert Parent(Etc(g)) == g.root;
    DirParentFound(t, Etc(g));
  }

  lemma NetplanStage(g: Guest, t: Tree)
    requires GuestReady(g, t) && Present(t, Netplan(g))
    ensures MkdirAll(t, Netplan(g)) == (t, IsDirectory(t, Netplan(g)))
  {
    hide Resolve;
    PresentInDir(t, Etc(g), "netplan");
    assert Parent(Netplan(g)) == Etc(g);
  }

  lemma SystemdStage(g: Guest, t: Tree)
    requires GuestReady(g, t) && Present(t, Systemd(g))
    ensures var target := StageTarget(g, LookSystemd, t);
            if target.Some? then NewDir(t, target.value) && MkdirAll(t, NetworkDir(g)) == (t[target.value := Dir], true)
            else MkdirAll(t, NetworkDir(g)) == (t, IsDirectory(t, NetworkDir(g)))
  {
    hide Resolve;
    assert Parent(NetworkDir(g)) == Systemd(g);
  }

  /** A stage changes its target and nothing else. */
  lemma AdvanceChanges(g: Guest, stage: Stage, t: Tree)
    requires GuestReady(g, t)
    ensures var target, after := StageTarget(g, stage, t), Advance(g, stage, t).0;
            if target.None? then after == t
            else if stage == DropLink
              then target.value in t && t[target.value].Link? && after == t - {target.value}
            else if stage in {MakeEtc, LookSystemd} then NewDir(t, target.value) && after == t[target.value := Dir]
            else WritingOf(g, stage).Some? && after == t[target.value := File(WritingOf(g, stage).value.text)]
  {
    hide MkdirAll, WriteAt, IsDirectory, WellFormed;
    match stage
    case MakeEtc => EtcStage(g, t);
    case LookNetplan =>
      if Present(t, Netplan(g)) {
        NetplanStage(g, t);
      }
    case LookSystemd => LookSystemdChanges(g, t);
    case _ =>
  }

  lemma LookSystemdChanges(g: Guest, t: Tree)
    requires GuestReady(g, t)
    ensures var target, after := StageTarget(g, LookSystemd, t), Advance(g, LookSystemd, t).0;
            if target.None? then after == t else NewDir(t, target.value) && after == t[target.value := Dir]
  {
    hide MkdirAll;
    if Present(t, Systemd(g)) {
      SystemdStage(g, t);
    }
  }

  /** The targets of a stage are its own and those of the stages after it. */
  lemma TargetsStepwise(g: Guest, guard: NamePath -> bool, stage: Stage, t: Tree)
    requires GuestReady(g, t) && Rooted(guard, t)
    ensures var target := StageTarget(g, stage, t);
            var (after, next) := Advance(g, stage, t);
            Spares(g, guard, stage, t) <==>
              (target.Some? ==> !guard(target.value)) && (next.Some? ==> Spares(g, guard, next.value, after))
  {
    hide MkdirAll, WriteAt, IsDirectory, WellFormed, Resolve, Locate, SystemdTargets, BehindResolv;
    match stage
    case MakeEtc => EtcTargets(g, guard, t);
    case LookNetplan => NetplanTargets(g, guard, t);
    case WriteNetplan(file) =>
      var path := Netplan(g) + [file];
      if WriteAt(t, path).Some? && !guard(WriteAt(t, path).value) {
        SystemdAfterWrite(g, guard, t, path, g.netplan);
      }
    case LookSystemd => SystemdTargetsStepwise(g, guard, t);
    case _ =>
  }

  lemma EtcTargets(g: Guest, guard: NamePath -> bool, t: Tree)
    requires GuestReady(g, t)
    ensures var target := StageTarget(g, MakeEtc, t);
            var (after, next) := Advance(g, MakeEtc, t);
            Spares(g, guard, MakeEtc, t) <==>
              (target.Some? ==> !guard(target.value)) && (next.Some? ==> Spares(g, guard, next.value, after))
  {
    hide MkdirAll, Resolve, WellFormed, BehindResolv;
    EtcStage(g, t);
    if Etc(g) in t && !IsDirectory(t, Etc(g)) {
      assert Parent(ResolvConf(g)) == Etc(g);
      if WriteAt(t, ResolvConf(g)).Some? {
        WriteNeedsDir(t, Etc(g), "resolv.conf");
        assert false;
      }
      assert ResolvTargets(g, t) == [];
    }
  }

  lemma NetplanTargets(g: Guest, guard: NamePath -> bool, t: Tree)
    requires GuestReady(g, t)
    ensures var (after, next) := Advance(g, LookNetplan, t);
            Spares(g, guard, LookNetplan, t) <==> (next.Some? ==> Spares(g, guard, next.value, after))
  {
    hide MkdirAll, WriteAt, WellFormed, Resolve, Locate, SystemdTargets;
    if Present(t, Netplan(g)) {
      NetplanStage(g, t);
    } else {
      NotPresentNoDir(t, Netplan(g));
    }
  }

  lemma NotPresentNoDir(t: Tree, path: NamePath)
    ensures IsDirectory(t, path) ==> Present(t, path)
  {
  }

  lemma SystemdTargetsStepwise(g: Guest, guard: NamePath -> bool, t: Tree)
    requires GuestReady(g, t)
    ensures var target := StageTarget(g, LookSystemd, t);
            var (after, next) := Advance(g, LookSystemd, t);
            Spares(g, guard, LookSystemd, t) <==>
              (target.Some? ==> !guard(target.value)) && (next.Some? ==> Spares(g, guard, next.value, after))
  {
    hide MkdirAll, WriteAt, WellFormed, Resolve, IsDirectory;
    NotPresentNoDir(t, Systemd(g));
    var target := StageTarget(g, LookSystemd, t);
    if Present(t, Systemd(g)) {
      SystemdStage(g, t);
      if target.Some? {
        NewDirNewFile(t, Systemd(g), "network", NETWORK_FILE);
      } else {
        NetworkFileNeedsDirs(g, t);
      }
    }
  }

  lemma NetworkFileNeedsDirs(g: Guest, t: Tree)
    requires WellFormed(t)
    ensures WriteAt(t, NetworkDir(g) + [NETWORK_FILE]).Some? ==> IsDirectory(t, NetworkDir(g))
    ensures IsDirectory(t, NetworkDir(g)) ==> IsDirectory(t, Systemd(g))
  {
    hide Resolve, IsDirectory, WellFormed;
    if WriteAt(t, NetworkDir(g) + [NETWORK_FILE]).Some? {
      WriteNeedsDir(t, NetworkDir(g), NETWORK_FILE);
    }
    NotPresentNoDir(t, NetworkDir(g));
    if IsDirectory(t, NetworkDir(g)) {
      PresentInDir(t, Systemd(g), "network");
    }
  }

  // ---- Moments of the step ----

  /** The tree stays fit, directories stay, and no link is made. */
  ghost predicate Keeps(t: Tree, t': Tree) {
    && WellFormed(t')
    && (forall p :: p in t && t[p] == Dir ==> p in t' && t'[p] == Dir)
    && (forall p :: p in t' && t'[p].Link? ==> p in t && t[p] == t'[p])
  }

  lemma StaysRooted(guard: NamePath -> bool, t: Tree, t': Tree)
    requires Rooted(guard, t) && Keeps(t, t')
    ensures Rooted(guard, t')
  {
  }

  lemma LinkRemoved(t: Tree, p: NamePath)
    requires WellFormed(t) && p in t && t[p].Link?
    ensures Keeps(t, t - {p})
  {
  }

  lemma DirMade(t: Tree, p: NamePath)
    requires WellFormed(t) && NewDir(t, p)
    ensures Keeps(t, t[p := Dir])
  {
    DirFits(t, p);
  }

  lemma FileWritten(t: Tree, path: NamePath, data: string)
    requires WellFormed(t) && WriteAt(t, path).Some?
    ensures Keeps(t, t[WriteAt(t, path).value := File(data)])
  {
    hide WriteAt;
    WriteAtFits(t, path);
    FileFits(t, WriteAt(t, path).value, data);
  }

  lemma GuestKeeps(g: Guest, stage: Stage, t: Tree, stage': Stage, t': Tree)
    requires GuestReady(g, t) && GuestNext(g, stage, t, stage', t')
    ensures Keeps(t, t') && GuestReady(g, t')
  {
    hide Advance, WriteAt, WellFormed;
    AdvanceChanges(g, stage, t);
    var target, writing := StageTarget(g, stage, t), WritingOf(g, stage);
    if writing.Some? {
      if target.Some? {
        FileWritten(t, writing.value.path, t'[target.value].data);
      }
    } else if target.Some? {
      if stage == DropLink {
        LinkRemoved(t, target.value);
      } else {
        DirMade(t, target.value);
      }
    }
  }

  /** A file that is only partly written does not change what is still to come. */
  lemma PartWrittenSpares(g: Guest, guard: NamePath -> bool, stage: Stage, t: Tree, t': Tree)
    requires GuestReady(g, t) && Rooted(guard, t) && PartWritten(g, stage, t, t')
    ensures Spares(g, guard, stage, t') <==> Spares(g, guard, stage, t)
    ensures t'.Keys == t.Keys + {StageTarget(g, stage, t).value}
    ensures forall p :: p in t && Some(p) != StageTarget(g, stage, t) ==> t'[p] == t[p]
  {
    hide WriteAt, WellFormed, Spares, Rooted;
    var path := WritingOf(g, stage).value.path;
    var w := WriteAt(t, path).value;
    var part :| t' == t[w := File(part)];
    WriteAtFits(t, path);
    FileWritten(t, path, part);
    StaysRooted(guard, t, t');
    SameAfterWrite(t, w, part, path);
    assert w != g.root;
    var text := WritingOf(g, stage).value.text;
    assert t'[w := File(text)] == t[w := File(text)];
    TargetsStepwise(g, guard, stage, t);
    TargetsStepwise(g, guard, stage, t');
  }

  /** As long as the guard selects no target, every moment leaves alone what it selects. */
  lemma SparesKept(g: Guest, guard: NamePath -> bool, stage: Stage, t: Tree, stage': Stage, t': Tree)
    requires GuestReady(g, t) && Rooted(guard, t) && GuestNext(g, stage, t, stage', t') && Spares(g, guard, stage, t)
    ensures Agree(guard, t, t') && Spares(g, guard, stage', t')
  {
    hide Advance, WriteAt, WellFormed, Spares, Rooted;
    TargetsStepwise(g, guard, stage, t);
    if (t', Some(stage')) == Advance(g, stage, t) {
      AdvanceChanges(g, stage, t);
    } else {
      PartWrittenSpares(g, guard, stage, t, t');
    }
  }

  /** Otherwise there is a moment that changes something outside, or a later stage that leads to one. */
  lemma EscapeStep(g: Guest, guard: NamePath -> bool, stage: Stage, t: Tree) returns (stage': Stage, t': Tree)
    requires GuestReady(g, t) && Rooted(guard, t) && HasTexts(g) && !Spares(g, guard, stage, t)
    ensures GuestNext(g, stage, t, stage', t')
    ensures !Agree(guard, t, t') || (!Spares(g, guard, stage', t') && Left(stage') < Left(stage))
  {
    hide WriteAt, WellFormed, Spares, MkdirAll, Resolve, IsDirectory, Locate, Rooted;
    TargetsStepwise(g, guard, stage, t);
    AdvanceChanges(g, stage, t);
    DoneHasNoTargets(g, guard, t);
    var target := StageTarget(g, stage, t);
    var (after, next) := Advance(g, stage, t);
    if target.None? || !guard(target.value) {
      return next.value, after;
    }
    TargetAdvances(g, stage, t);
    if WritingOf(g, stage).Some? && target.value in t && t[target.value] == after[target.value] {
      var t'' := t[target.value := File("")];
      assert "" <= WritingOf(g, stage).value.text;
      return stage, t'';
    }
    return next.value, after;
  }

  lemma DoneHasNoTargets(g: Guest, guard: NamePath -> bool, t: Tree)
    ensures Spares(g, guard, Done, t)
  {
  }

  /** A stage that changes something succeeds. */
  lemma TargetAdvances(g: Guest, stage: Stage, t: Tree)
    requires GuestReady(g, t) && StageTarget(g, stage, t).Some?
    ensures Advance(g, stage, t).1.Some?
  {
    hide WriteAt, WellFormed, MkdirAll, Locate, Resolve;
    match stage
    case MakeEtc => EtcStage(g, t);
    case LookSystemd =>
      NotPresentNoDir(t, Systemd(g));
      SystemdStage(g, t);
    case _ =>
  }

  // ---- A root without links at the paths of the step ----

  /** The paths at which the step would follow a link. */
  function FollowedPaths(): seq<NamePath> {
    [["etc"], ["etc", "netplan"], ["etc", "netplan", LXC_YAML], ["etc", "netplan", ACHOST_YAML],
     ["etc", "systemd"], ["etc", "systemd", "network"], ["etc", "systemd", "network", NETWORK_FILE]]
  }

  /** No link stands at any of them. */
  ghost predicate NothingToFollow(g: Guest, t: Tree) {
    forall p :: p in FollowedPaths() && g.root + p in t ==> !t[g.root + p].Link?
  }

  lemma FollowedAreListed()
    ensures var l := FollowedPaths();
            && ["etc"] in l && ["etc", "netplan"] in l && ["etc", "netplan", LXC_YAML] in l
            && ["etc", "netplan", ACHOST_YAML] in l && ["etc", "systemd"] in l && ["etc", "systemd", "network"] in l
            && ["etc", "systemd", "network", NETWORK_FILE] in l
  {
    var l := FollowedPaths();
    assert l[0] in l && l[1] in l && l[2] in l && l[3] in l && l[4] in l && l[5] in l && l[6] in l;
  }

  lemma PlainName(t: Tree, dir: NamePath, name: string)
    requires NoLinkOn(t, dir) && (dir + [name] in t ==> !t[dir + [name]].Link?)
    ensures NoLinkOn(t, dir + [name])
  {
    assert Parent(dir + [name]) == dir;
  }

  /** Then no link is on the way to any path of the step. */
  lemma PlainPaths(g: Guest, t: Tree)
    requires GuestReady(g, t) && NothingToFollow(g, t)
    ensures NoLinkOn(t, Etc(g)) && NoLinkOn(t, Netplan(g)) && NoLinkOn(t, Systemd(g)) && NoLinkOn(t, NetworkDir(g))
    ensures NoLinkOn(t, Netplan(g) + [LXC_YAML]) && NoLinkOn(t, Netplan(g) + [ACHOST_YAML])
    ensures NoLinkOn(t, NetworkDir(g) + [NETWORK_FILE])
  {
    hide NoLinkOn, FollowedPaths, WellFormed;
    var r := g.root;
    FollowedAreListed();
    RootIsPlain(t, r);
    PlainName(t, r, "etc");
    assert Netplan(g) == r + ["etc", "netplan"] && Systemd(g) == r + ["etc", "systemd"];
    PlainName(t, Etc(g), "netplan");
    PlainName(t, Etc(g), "systemd");
    assert Netplan(g) + [LXC_YAML] == r + ["etc", "netplan", LXC_YAML];
    assert Netplan(g) + [ACHOST_YAML] == r + ["etc", "netplan", ACHOST_YAML];
    PlainName(t, Netplan(g), LXC_YAML);
    PlainName(t, Netplan(g), ACHOST_YAML);
    assert NetworkDir(g) == r + ["etc", "systemd", "network"];
    PlainName(t, Systemd(g), "network");
    assert NetworkDir(g) + [NETWORK_FILE] == r + ["etc", "systemd", "network", NETWORK_FILE];
    PlainName(t, NetworkDir(g), NETWORK_FILE);
  }

  /** What the stages before have seen to. */
  predicate Prepared(g: Guest, stage: Stage, t: Tree) {
    match stage
    case WriteResolv => ResolvConf(g) in t ==> !t[ResolvConf(g)].Link?
    case WriteNetplan(file) => file == LXC_YAML || file == ACHOST_YAML
    case _ => true
  }

  lemma PlainTarget(g: Guest, stage: Stage, t: Tree)
    requires GuestReady(g, t) && NothingToFollow(g, t) && Prepared(g, stage, t)
    ensures var target := StageTarget(g, stage, t); target.Some? ==> Under(g.root, target.value)
  {
    hide NothingToFollow, NoLinkOn, Locate, Open, Resolve, WellFormed;
    PlainPaths(g, t);
    match stage
    case DropLink =>
      assert Parent(ResolvConf(g)) == Etc(g);
      LocatePlain(t, ResolvConf(g));
    case WriteResolv =>
      PlainName(t, Etc(g), "resolv.conf");
      OpenPlain(t, ResolvConf(g));
    case WriteNetplan(file) => OpenPlain(t, Netplan(g) + [file]);
    case LookSystemd => ResolvePlain(t, Systemd(g));
    case WriteNetwork => OpenPlain(t, NetworkDir(g) + [NETWORK_FILE]);
    case _ =>
  }

  lemma PlainAdvance(g: Guest, stage: Stage, t: Tree)
    requires GuestReady(g, t) && NothingToFollow(g, t) && Prepared(g, stage, t) && Advance(g, stage, t).1.Some?
    ensures var (after, next) := Advance(g, stage, t);
            GuestReady(g, after) && NothingToFollow(g, after) && Prepared(g, next.value, after)
  {
    hide MkdirAll, WriteAt, Present, Locate, IsDirectory, WellFormed, NoLinkOn, FollowedPaths;
    var (after, next) := Advance(g, stage, t);
    GuestKeeps(g, stage, t, next.value, after);
    if stage == DropLink {
      AfterDropLink(g, t);
    }
  }

  lemma AfterDropLink(g: Guest, t: Tree)
    requires GuestReady(g, t) && NothingToFollow(g, t)
    ensures Prepared(g, WriteResolv, Advance(g, DropLink, t).0)
  {
    PlainPaths(g, t);
    assert Parent(ResolvConf(g)) == Etc(g);
    LocatePlain(t, ResolvConf(g));
    if ResolvConf(g) in t {
      AboveIsDir(t, ResolvConf(g));
    }
  }

  /** Without links at its paths the whole step stays below the new root: every guard outside it is spared. */
  lemma {:induction false} PlainSpares(g: Guest, guard: NamePath -> bool, stage: Stage, t: Tree)
    requires GuestReady(g, t) && NothingToFollow(g, t) && Prepared(g, stage, t) && Rooted(guard, t)
    requires forall p :: Under(g.root, p) ==> !guard(p)
    ensures Spares(g, guard, stage, t)
    decreases Left(stage)
  {
    hide Advance, StageTarget, NothingToFollow, Prepared, WellFormed, Spares, Rooted;
    if stage == Done {
      DoneHasNoTargets(g, guard, t);
    } else {
      var target := StageTarget(g, stage, t);
      var (after, next) := Advance(g, stage, t);
      TargetsStepwise(g, guard, stage, t);
      PlainTarget(g, stage, t);
      if next.Some? {
        PlainAdvance(g, stage, t);
        GuestKeeps(g, stage, t, next.value, after);
        StaysRooted(guard, t, after);
        PlainSpares(g, guard, next.value, after);
      }
    }
  }
}
