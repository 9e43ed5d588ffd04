/**
 The commands that rewrite an existing container's configuration file: the autostart switch, and the
 network repair before a start, which writes the guest files as well.
 */
module ContainerFiles {
  import opened Addresses
  import opened ContainerImport
  import opened ContainerImportLaws
  import opened FileTree
  import opened GuestNetwork
  import opened GuestOutcome
  import opened LxcConfigText
  import opened Paths
  import opened RootfsExtract
  import opened Wrappers

  function ContainerDir(containers: NamePath, name: string): NamePath {
    containers + [name]
  }

  function ContainerConfig(containers: NamePath, name: string): NamePath {
    ContainerDir(containers, name) + [CONFIG]
  }

  function ContainerRootfs(containers: NamePath, name: string): NamePath {
    ContainerDir(containers, name) + [ROOTFS]
  }

  /** A valid name is its own UTF-8 text. */
  function NameBytes(name: string): Name
    requires ValidName(name)
  {
    seq(|name|, i requires 0 <= i < |name| => assert name[i] in name; name[i] as int as bv8)
  }

  // ---- What the commands do ----

  /** `validate_existing_container`; a valid name is one step below the containers. */
  predicate IsExisting(t: Tree, containers: NamePath, name: string) {
    ValidName(name) && Present(t, ContainerDir(containers, name)) && SafeRelative([Name(name)]).Some?
  }

  /** A file is read, its text changed, and written again. */
  function Rewritten(t: Tree, path: NamePath, change: string -> string): (Tree, bool) {
    match FileText(t, path)
    case None => (t, false)
    case Some(text) =>
      var at := WriteAt(t, path);
      if at.Some? then (t[at.value := File(change(text))], true) else (t, false)
  }

  function AutostartSwitched(t: Tree, containers: NamePath, name: string, enabled: bool): (Tree, bool) {
    if IsExisting(t, containers, name)
    then Rewritten(t, ContainerConfig(containers, name), text => SetAutostart(text, enabled))
    else (t, false)
  }

  /** `set_container_autostart` */
  method SetContainerAutostart(fs: FileSystem, containers: NamePath, name: string, enabled: bool) returns (ok: bool)
    modifies fs
    ensures (fs.nodes, ok) == AutostartSwitched(old(fs.nodes), containers, name, enabled)
  {
    hide Present, FileText, WriteAt, SetAutostart, ValidName;
    var existing := ValidateExistingContainer(fs, containers, name);
    if !existing {
      return false;
    }
    var text := fs.ReadToString(ContainerConfig(containers, name));
    if text.None? {
      return false;
    }
    var updated := RewriteLxcStartAuto(text.value, enabled);
    ok := fs.WriteFile(ContainerConfig(containers, name), updated);
  }

  method ValidateExistingContainer(fs: FileSystem, containers: NamePath, name: string) returns (ok: bool)
    ensures ok == IsExisting(fs.nodes, containers, name)
  {
    if !ValidName(name) {
      return false;
    }
    ok := fs.PathExists(ContainerDir(containers, name));
    if ok {
      var relative := SafeRelativePath([Name(name)]);
      ok := relative.Some?;
    }
  }

  function NetworkOf(subnet: string, name: string): Settings
    requires ValidName(name)
  {
    SettingsOf(subnet, NameBytes(name))
  }

  function GuestFor(containers: NamePath, name: string, subnet: string): Guest
    requires ValidName(name)
  {
    GuestOf(ContainerRootfs(containers, name), NetworkOf(subnet, name))
  }

  function NetworkEnsured(t: Tree, containers: NamePath, name: string, subnet: string): (Tree, bool)
    requires ValidName(name)
  {
    var s := NetworkOf(subnet, name);
    var (rewritten, ok) := Rewritten(t, ContainerConfig(containers, name), text => SetNetwork(text, s));
    if ok then Finish(GuestFor(containers, name, subnet), MakeEtc, rewritten) else (rewritten, false)
  }

  /** `ensure_container_network`; its caller has validated the name. */
  method EnsureContainerNetwork(fs: FileSystem, containers: NamePath, name: string, subnet: string) returns (ok: bool)
    requires ValidName(name)
    modifies fs
    ensures (fs.nodes, ok) == NetworkEnsured(old(fs.nodes), containers, name, subnet)
  {
    hide FileText, WriteAt, Upsert, Finish, GuestOf, ValidName, SettingsOf, NameBytes;
    var settings := ContainerNetworkSettings(subnet, NameBytes(name));
    var text := fs.ReadToString(ContainerConfig(containers, name));
    if text.None? {
      return false;
    }
    var updated := UpsertLxcConfigValue(text.value, ADDRESS_KEY, AddressValue(settings));
    updated := UpsertLxcConfigValue(updated, GATEWAY_KEY, ShowOctets(settings.gateway));
    ok := fs.WriteFile(ContainerConfig(containers, name), updated);
    if !ok {
      return;
    }
    ok := EnsureGuestNetworkConfig(fs, GuestOf(ContainerRootfs(containers, name), settings));
  }

  // ---- What is in the file afterwards ----

  /** What can be read can be written, through the same links, and reads back; nothing else changes. */
  lemma RewrittenReadsBack(t: Tree, path: NamePath, change: string -> string)
    requires WellFormed(t)
    ensures var (after, ok) := Rewritten(t, path, change);
            && (ok <==> FileText(t, path).Some?)
            && (!ok ==> after == t)
            && (ok ==> FileText(after, path) == Some(change(FileText(t, path).value)))
            && (ok ==> WellFormed(after) && forall p :: p in t && Resolve(t, path) != Found(p) ==>
                         p in after && after[p] == t[p])
            && after.Keys == t.Keys
  {
    hide WellFormed;
    if FileText(t, path).Some? {
      var at := Resolve(t, path).at;
      RootInTree(t);
      OpenIsWalk(t, [], Names(path), MAX_LINKS);
      WriteAtFits(t, path);
      var text := change(FileText(t, path).value);
      var after := t[at := File(text)];
      FileFits(t, at, text);
      OpenAfterWrite(t, [], Names(path), MAX_LINKS, at, text);
      RootInTree(after);
      OpenIsWalk(after, [], Names(path), MAX_LINKS);
    }
  }

  /** The switch works exactly for an existing container with a readable file, and is found there as set. */
  lemma SwitchReadsBack(t: Tree, containers: NamePath, name: string, enabled: bool)
    requires WellFormed(t)
    ensures var config := containers + [name, "config"];
            var (after, ok) := AutostartSwitched(t, containers, name, enabled);
            && (ok <==> ValidName(name) && Present(t, containers + [name]) && FileText(t, config).Some?)
            && (!ok ==> after == t)
            && (ok ==> FileText(after, config).Some? && Autostart(FileText(after, config).value) == enabled)
            && (ok ==> IsExisting(after, containers, name))
  {
    hide FileText, Rewritten, SetAutostart, Autostart, Present, ValidName, WellFormed;
    var config := ContainerConfig(containers, name);
    assert config == containers + [name, "config"];
    assert SafeRelative([Name(name)]).Some? by {
      assert [Name(name)][1..] == [];
    }
    RewrittenReadsBack(t, config, text => SetAutostart(text, enabled));
    if FileText(t, config).Some? {
      GetAfterSet(FileText(t, config).value, enabled);
      StillPresent(t, config, text => SetAutostart(text, enabled), ContainerDir(containers, name));
    }
  }

  /** Rewriting a file hides nothing. */
  lemma StillPresent(t: Tree, path: NamePath, change: string -> string, other: NamePath)
    requires WellFormed(t)
    ensures Present(Rewritten(t, path, change).0, other) <==> Present(t, other)
  {
    hide WellFormed, FileText;
    if Rewritten(t, path, change).1 {
      var at, text := WriteAt(t, path).value, change(FileText(t, path).value);
      var after := t[at := File(text)];
      RewrittenReadsBack(t, path, change);
      WriteAtFits(t, path);
      RootInTree(t);
      RootInTree(after);
      OpenAfterWrite(t, [], Names(other), MAX_LINKS, at, text);
      OpenIsWalk(t, [], Names(other), MAX_LINKS);
      OpenIsWalk(after, [], Names(other), MAX_LINKS);
    }
  }

  // ---- The network repair ----

  lemma {:induction false} WalkEndsSelected(
      t: Tree, guard: NamePath -> bool, at: NamePath, path: seq<Component>, budget: nat)
    requires Upwards(guard) && guard(at) && StaysOn(t, guard, at, path, budget)
    ensures Walk(t, at, path, budget).Found? ==> guard(Walk(t, at, path, budget).at)
    decreases budget, |path|
  {
    if path != [] && at in t && t[at] == Dir {
      match path[0]
      case Root => WalkEndsSelected(t, guard, [], path[1..], budget);
      case Here => WalkEndsSelected(t, guard, at, path[1..], budget);
      case Up => WalkEndsSelected(t, guard, Parent(at), path[1..], budget);
      case Name(n) =>
        var p := at + [n];
        if p in t && t[p].Link? {
          if budget > 0 {
            WalkEndsSelected(t, guard, at, t[p].target + path[1..], budget - 1);
          }
        } else if p in t {
          WalkEndsSelected(t, guard, p, path[1..], budget);
        }
    }
  }

  lemma SameText(t: Tree, u: Tree, guard: NamePath -> bool, path: NamePath)
    requires Agree(guard, t, u) && Upwards(guard) && StaysOn(t, guard, [], Names(path), MAX_LINKS)
    ensures FileText(t, path) == FileText(u, path)
  {
    hide StaysOn;
    SameWalk(t, u, guard, [], Names(path), MAX_LINKS);
    WalkEndsSelected(t, guard, [], Names(path), MAX_LINKS);
  }

  /** The tree between the rewriting and the guest step. */
  function ConfigRepaired(t: Tree, containers: NamePath, name: string, subnet: string): Tree
    requires ValidName(name)
  {
    var s := NetworkOf(subnet, name);
    Rewritten(t, ContainerConfig(containers, name), text => SetNetwork(text, s)).0
  }

  /** The guard selects all that a look-up of the file meets, and the guest step aims at nothing selected. */
  ghost predicate SparesConfig(t: Tree, containers: NamePath, name: string, subnet: string, guard: NamePath -> bool)
    requires ValidName(name)
  {
    var g, u := GuestFor(containers, name, subnet), ConfigRepaired(t, containers, name, subnet);
    && GuestReady(g, u) && Upwards(guard) && Rooted(guard, u) && Spares(g, guard, MakeEtc, u)
    && StaysOn(u, guard, [], Names(ContainerConfig(containers, name)), MAX_LINKS)
  }

  /** Both values are there, and everything else is as it was. */
  predicate IsRepaired(before: string, after: string, s: Settings, other: string) {
    && after == SetNetwork(before, s)
    && ConfigValue(after, ADDRESS_KEY) == Some(AddressValue(s))
    && ConfigValue(after, GATEWAY_KEY) == Some(ShowOctets(s.gateway))
    && ConfigValue(after, other) == ConfigValue(before, other)
    && Autostart(after) == Autostart(before)
  }

  /** After a repair the file holds both values, unless a link leads the guest step to it; all other settings stay. */
  lemma RepairedConfig(
      t: Tree, containers: NamePath, name: string, subnet: string, guard: NamePath -> bool, other: string)
    requires WellFormed(t) && ValidName(name) && NetworkEnsured(t, containers, name, subnet).1
    requires SparesConfig(t, containers, name, subnet, guard)
    requires Apart(ADDRESS_KEY, other) && Apart(GATEWAY_KEY, other)
    ensures var config, s := ContainerConfig(containers, name), NetworkOf(subnet, name);
            var before, after := FileText(t, config), FileText(NetworkEnsured(t, containers, name, subnet).0, config);
            before.Some? && after.Some? && IsRepaired(before.value, after.value, s, other)
  {
    hide FileText, Rewritten, SetNetwork, Autostart, ConfigValue, ValidName, WellFormed, StaysOn, Spares, Finish;
    hide Rooted, Upwards, Agree, GuestOf, SettingsOf, NameBytes, ShowOctets, AddressValue, Apart;
    var config, s := ContainerConfig(containers, name), NetworkOf(subnet, name);
    var u := ConfigRepaired(t, containers, name, subnet);
    RewrittenReadsBack(t, config, text => SetNetwork(text, s));
    FinishSpares(GuestFor(containers, name, subnet), guard, MakeEtc, u);
    SameText(u, NetworkEnsured(t, containers, name, subnet).0, guard, config);
    NetworkReadsBack(FileText(t, config).value, s, other);
  }

  function OutsideOf(root: NamePath): NamePath -> bool {
    (p: NamePath) => !Under(root, p)
  }

  lemma OutsideOfFits(root: NamePath, t: Tree)
    requires root != []
    ensures Upwards(OutsideOf(root)) && Rooted(OutsideOf(root), t)
  {
    forall p | !Under(root, p) ensures !Under(root, Parent(p)) {
      UnderParent(root, p);
    }
    forall p: NamePath, name: string | OutsideOf(root)(p + [name]) ensures OutsideOf(root)(p) {
      assert Parent(p + [name]) == p;
      UnderParent(root, p + [name]);
    }
  }

  lemma ConfigOutside(t: Tree, containers: NamePath, name: string)
    requires WellFormed(t)
    requires var config := ContainerConfig(containers, name); config in t && t[config].File?
    ensures var config, root := ContainerConfig(containers, name), ContainerRootfs(containers, name);
            && !Under(root, config) && FileText(t, config) == Some(t[config].data)
            && Resolve(t, config) == Found(config)
            && StaysOn(t, OutsideOf(root), [], Names(config), MAX_LINKS)
  {
    hide WellFormed, StaysOn, Walk;
    var config, root := ContainerConfig(containers, name), ContainerRootfs(containers, name);
    assert config[|containers| + 1] != root[|containers| + 1];
    AboveIsDir(t, config);
    ResolvePlain(t, config);
    forall i | 0 < i <= |config|
      ensures OutsideOf(root)([] + config[..i]) && ([] + config[..i] in t ==> !t[[] + config[..i]].Link?)
    {
      NoLinkPrefixes(t, config, i);
      OutsideOfFits(root, t);
      PrefixSelected(OutsideOf(root), config, i);
    }
    PlainStaysOn(t, OutsideOf(root), [], config, MAX_LINKS);
  }

  /** So if the file is one, and nothing is to be followed in the container: both are repaired, nothing else changes. */
  lemma PlainRepair(t: Tree, containers: NamePath, name: string, subnet: string)
    requires WellFormed(t) && ValidName(name) && NetworkEnsured(t, containers, name, subnet).1
    requires var config, g := ContainerConfig(containers, name), GuestFor(containers, name, subnet);
             config in t && t[config].File? && GuestReady(g, t) && NothingToFollow(g, t)
    ensures var config, root := ContainerConfig(containers, name), ContainerRootfs(containers, name);
            var after := NetworkEnsured(t, containers, name, subnet).0;
            && (config in after && after[config] == File(SetNetwork(t[config].data, NetworkOf(subnet, name))))
            && SameOutside(t[config := after[config]], after, root)
  {
    hide FileText, SetNetwork, ValidName, WellFormed, StaysOn, Spares, Finish, NothingToFollow, Rooted, Upwards;
    hide SettingsOf, NameBytes, Resolve, WriteAt, Rewritten, SameOutside, Agree, GuestOf, GuestReady;
    var config, root, g :=
      ContainerConfig(containers, name), ContainerRootfs(containers, name), GuestFor(containers, name, subnet);
    var s := NetworkOf(subnet, name);
    ConfigOutside(t, containers, name);
    RewrittenReadsBack(t, config, text => SetNetwork(text, s));
    RewrittenPlain(t, config, text => SetNetwork(text, s));
    var u := ConfigRepaired(t, containers, name, subnet);
    GuestForRoot(containers, name, subnet);
    StillReady(g, t, config, SetNetwork(t[config].data, s));
    OutsideOfFits(root, u);
    PlainSpares(g, OutsideOf(root), MakeEtc, u);
    FinishSpares(g, OutsideOf(root), MakeEtc, u);
    AgreesOutside(root, config, u, NetworkEnsured(t, containers, name, subnet).0);
  }

  /** What such a repair leaves, file by file, and when it fails. */
  lemma PlainRepairExactly(t: Tree, containers: NamePath, name: string, subnet: string)
    requires WellFormed(t) && ValidName(name)
    requires var config, g := ContainerConfig(containers, name), GuestFor(containers, name, subnet);
             config in t && t[config].File? && GuestReady(g, t) && NothingToFollow(g, t)
    ensures var config, g := containers + [name, "config"], GuestFor(containers, name, subnet);
            var (after, ok) := NetworkEnsured(t, containers, name, subnet);
            && config in t && t[config].File?
            && var u := t[config := File(SetNetwork(t[config].data, NetworkOf(subnet, name)))];
            && (ok <==> HasRoom(g, u))
            && (ok ==> after == WithNetwork(g, u, WithNetplan(g, u, WithResolv(g, u))))
  {
    hide FileText, SetNetwork, ValidName, WellFormed, StaysOn, Finish, NothingToFollow, SettingsOf, NameBytes;
    hide Resolve, WriteAt, Rewritten, GuestOf, GuestReady, HasRoom, WithNetwork, WithNetplan, WithResolv;
    var config, g := ContainerConfig(containers, name), GuestFor(containers, name, subnet);
    var s := NetworkOf(subnet, name);
    assert config == containers + [name, "config"];
    ConfigOutside(t, containers, name);
    RewrittenReadsBack(t, config, text => SetNetwork(text, s));
    RewrittenPlain(t, config, text => SetNetwork(text, s));
    GuestForRoot(containers, name, subnet);
    StillReady(g, t, config, SetNetwork(t[config].data, s));
    PlainFinish(g, t[config := File(SetNetwork(t[config].data, s))]);
  }

  lemma GuestForRoot(containers: NamePath, name: string, subnet: string)
    requires ValidName(name)
    ensures GuestFor(containers, name, subnet).root == ContainerRootfs(containers, name)
  {
  }

  lemma AgreesOutside(root: NamePath, path: NamePath, u: Tree, after: Tree)
    requires Agree(OutsideOf(root), u, after) && !Under(root, path) && path in u
    ensures path in after && after[path] == u[path] && SameOutside(u, after, root)
  {
    assert OutsideOf(root)(path);
  }

  lemma RewrittenPlain(t: Tree, path: NamePath, change: string -> string)
    requires WellFormed(t) && path in t && t[path].File? && Resolve(t, path) == Found(path)
    ensures Rewritten(t, path, change) == (t[path := File(change(t[path].data))], true)
  {
    hide WellFormed;
    RootInTree(t);
    OpenIsWalk(t, [], Names(path), MAX_LINKS);
  }

  lemma StillReady(g: Guest, t: Tree, path: NamePath, text: string)
    requires GuestReady(g, t) && NothingToFollow(g, t) && path in t && t[path].File? && !Under(g.root, path)
    requires WellFormed(t[path := File(text)])
    ensures GuestReady(g, t[path := File(text)]) && NothingToFollow(g, t[path := File(text)])
  {
  }
}
