/**
 What a container finds after the guest network step: the three texts as their readers see them, and, in a
 root without links at the paths of the step, exactly which files there are.
 */
module GuestOutcome {
  import opened Addresses
  import opened ContainerImportLaws
  import opened FileTree
  import opened GuestNetwork
  import opened LxcConfigText
  import opened Paths
  import opened RootfsExtract
  import opened Text
  import opened TextLines
  import opened Wrappers

  // ---- The texts ----

  /** A line that a text can hold as it is. */
  predicate IsWhole(line: string) {
    '\n' !in line && '\r' !in line
  }

  lemma WholeLines(lines: seq<string>)
    requires forall line :: line in lines ==> IsWhole(line)
    ensures Lines(Unlines(lines)) == lines
  {
    hide Lines, Unlines;
    forall line | line in lines ensures !EndsWithCr(line) {
      if line != "" {
        assert line[|line| - 1] in line;
      }
    }
    LinesOfUnlines(lines);
    StripAllIff(lines);
  }

  lemma WholeConcat(a: string, b: string)
    requires IsWhole(a) && IsWhole(b)
    ensures IsWhole(a + b)
  {
  }

  lemma PlainIsWhole(s: string)
    requires IsPlainValue(s)
    ensures IsWhole(s)
  {
    assert IsSpace('\n') && IsSpace('\r');
  }

  lemma OctetsAreWhole(a: Ipv4)
    ensures IsPlainValue(ShowOctets(a)) && IsWhole(ShowOctets(a))
  {
    hide ShowOctets, IsPlainValue, IsWhole;
    ShownIsPlain(a);
    PlainIsWhole(ShowOctets(a));
  }

  lemma ValuesAreWhole(s: Settings)
    ensures IsWhole(AddressValue(s)) && IsWhole(ShowOctets(s.gateway))
  {
    hide IsPlainValue, IsWhole, AddressValue, ShowOctets, IsKey, Apart;
    ValuesArePlain(s);
    PlainIsWhole(AddressValue(s));
    PlainIsWhole(ShowOctets(s.gateway));
  }

  /** The two servers, as they are printed. */
  lemma DnsShown()
    ensures |DNS| == 2 && ShowOctets(DNS[0]) == "1.1.1.1" && ShowOctets(DNS[1]) == "8.8.8.8"
  {
    assert Decimal(1) == "1" && Decimal(8) == "8";
  }

  lemma DnsTwo(before: string)
    ensures |DNS| == 2 && DnsLines(before, DNS) == [before + ShowOctets(DNS[0]), before + ShowOctets(DNS[1])]
  {
    hide ShowOctets;
    assert DNS[1..] == [DNS[1]] && DNS[1..][1..] == [];
    assert DnsLines(before, DNS[1..]) == [before + ShowOctets(DNS[1])] + [];
  }

  /** The resolver file has one line for each server. */
  lemma ResolvRead(root: NamePath, s: Settings)
    ensures Lines(GuestOf(root, s).resolv) == ["nameserver " + "1.1.1.1", "nameserver " + "8.8.8.8"]
  {
    hide Lines, Unlines, ShowOctets, NetplanLines, SystemdLines;
    DnsShown();
    DnsTwo("nameserver ");
    WholeLines(["nameserver " + "1.1.1.1", "nameserver " + "8.8.8.8"]);
  }

  /** A line `key=value` of the network file. */
  lemma PairIsRead(key: string, value: string)
    requires IsKey(key) && IsPlainValue(value)
    ensures Setting(key + "=" + value) == Some((key, value))
  {
    hide SplitOnce, TrimStart, TrimEnd;
    var line := key + "=" + value;
    assert '#' !in line;
    NoSplit(line, '#');
    assert line[0] == key[0] && key[0] in key;
    assert line[|line| - 1] == value[|value| - 1] && value[|value| - 1] in value;
    TrimUntouched(line);
    assert line == key + ['='] + value;
    SplitOnceAt(key, '=', value);
    TrimToken(key);
    TrimToken(value);
  }

  const ADDRESS := "Address"
  const GATEWAY := "Gateway"
  const SERVER := "DNS"

  lemma NetworkFileKeys()
    ensures IsKey(ADDRESS) && IsKey(GATEWAY) && IsKey(SERVER)
  {
  }

  lemma NetworkFileLines(s: Settings)
    ensures SystemdLines(s) ==
            ["[Match]", "Name=eth0", "", "[Network]",
             ADDRESS + "=" + AddressValue(s), GATEWAY + "=" + ShowOctets(s.gateway),
             SERVER + "=" + ShowOctets(DNS[0]), SERVER + "=" + ShowOctets(DNS[1])]
  {
    hide ShowOctets, Decimal;
    DnsTwo("DNS=");
    assert ADDRESS + "=" == "Address=" && GATEWAY + "=" == "Gateway=" && SERVER + "=" == "DNS=";
  }

  lemma SystemdLinesAreWhole(s: Settings)
    ensures forall line :: line in SystemdLines(s) ==> IsWhole(line)
  {
    hide ShowOctets, AddressValue, IsWhole, SystemdLines;
    NetworkFileLines(s);
    ValuesAreWhole(s);
    OctetsAreWhole(DNS[0]);
    OctetsAreWhole(DNS[1]);
    FixedLines();
    WholeConcat(ADDRESS + "=", AddressValue(s));
    WholeConcat(GATEWAY + "=", ShowOctets(s.gateway));
    WholeConcat(SERVER + "=", ShowOctets(DNS[0]));
    WholeConcat(SERVER + "=", ShowOctets(DNS[1]));
  }

  lemma FixedLines()
    ensures IsWhole("[Match]") && IsWhole("Name=eth0") && IsWhole("") && IsWhole("[Network]")
    ensures IsWhole(ADDRESS + "=") && IsWhole(GATEWAY + "=") && IsWhole(SERVER + "=")
  {
  }

  /** The network file's last address and gateway are the container's, whichever way its sections are read. */
  lemma NetworkRead(root: NamePath, s: Settings)
    ensures var text := GuestOf(root, s).network;
            && ConfigValue(text, "Address") == Some(AddressValue(s))
            && ConfigValue(text, "Gateway") == Some(ShowOctets(s.gateway))
  {
    hide Lines, Unlines, ShowOctets, AddressValue, NetplanLines, SystemdLines, IsKey, IsPlainValue, Setting;
    var lines := SystemdLines(s);
    SystemdLinesAreWhole(s);
    WholeLines(lines);
    NetworkFileLines(s);
    NetworkFileKeys();
    OctetsAreWhole(DNS[0]);
    OctetsAreWhole(DNS[1]);
    OctetsAreWhole(s.gateway);
    ValuesArePlain(s);
    PairIsRead(ADDRESS, AddressValue(s));
    PairIsRead(GATEWAY, ShowOctets(s.gateway));
    PairIsRead(SERVER, ShowOctets(DNS[0]));
    PairIsRead(SERVER, ShowOctets(DNS[1]));
    assert ADDRESS != GATEWAY && ADDRESS != SERVER && GATEWAY != SERVER;
    LastOfThree(lines, ADDRESS);
    LastOfThree(lines, GATEWAY);
  }

  /** The last four lines decide. */
  lemma LastOfThree(lines: seq<string>, key: string)
    requires |lines| == 8 && ValueOf(key, lines[7]).None? && ValueOf(key, lines[6]).None?
    ensures ValueOf(key, lines[5]).Some? ==> LastSome(lines, Reads(key)) == ValueOf(key, lines[5])
    ensures ValueOf(key, lines[5]).None? && ValueOf(key, lines[4]).Some? ==>
              LastSome(lines, Reads(key)) == ValueOf(key, lines[4])
  {
    hide ValueOf, LastSome;
    forall n | 4 <= n < 8 ensures lines[..n] + [lines[n]] == lines[..n + 1] {
    }
    assert lines[..8] == lines;
    LastSomeSnoc(lines[..7], lines[7], Reads(key));
    LastSomeSnoc(lines[..6], lines[6], Reads(key));
    LastSomeSnoc(lines[..5], lines[5], Reads(key));
    LastSomeSnoc(lines[..4], lines[4], Reads(key));
  }

  /** What the first line that starts with `head` has behind it. */
  function Behind(lines: seq<string>, head: string): Option<string> {
    if lines == [] then None
    else if head <= lines[0] then Some(lines[0][|head|..])
    else Behind(lines[1..], head)
  }

  lemma {:induction false} BehindAt(lines: seq<string>, head: string, i: nat)
    requires i < |lines| && head <= lines[i] && forall j :: 0 <= j < i ==> !(head <= lines[j])
    ensures Behind(lines, head) == Some(lines[i][|head|..])
  {
    if i > 0 {
      BehindAt(lines[1..], head, i - 1);
    }
  }

  const YAML_ADDRESS := "      addresses: ["
  const YAML_VIA := "          via: "
  const YAML_SERVERS := "        addresses: ["

  /** The netplan file: one address with its prefix, and a default route through the gateway. */
  lemma NetplanRead(root: NamePath, s: Settings)
    ensures var lines := Lines(GuestOf(root, s).netplan);
            && Behind(lines, YAML_ADDRESS) == Some(AddressValue(s) + "]")
            && Behind(lines, YAML_VIA) == Some(ShowOctets(s.gateway))
            && Behind(lines, YAML_SERVERS) == Some("1.1.1.1" + ", " + "8.8.8.8" + "]")
            && |lines| == 12 && lines[8] == "        - to: default" && lines[9] == YAML_VIA + ShowOctets(s.gateway)
  {
    hide Lines, Unlines, ShowOctets, Decimal, SystemdLines, Behind, IsWhole;
    var lines := NetplanLines(s);
    NetplanLinesAreWhole(s);
    WholeLines(lines);
    DnsShown();
    NetplanFront(s);
    assert lines[6] == YAML_ADDRESS + (AddressValue(s) + "]");
    assert lines[9] == YAML_VIA + ShowOctets(s.gateway);
    assert lines[11] == YAML_SERVERS + ("1.1.1.1" + ", " + "8.8.8.8" + "]");
    assert lines[6][..18] == YAML_ADDRESS && lines[9][..15] == YAML_VIA && lines[11][..20] == YAML_SERVERS;
    BehindAt(lines, YAML_ADDRESS, 6);
    BehindAt(lines, YAML_VIA, 9);
    BehindAt(lines, YAML_SERVERS, 11);
  }

  /** No line before starts as those three do. */
  lemma NetplanFront(s: Settings)
    ensures var lines := NetplanLines(s);
            && (forall j :: 0 <= j < 6 ==> !(YAML_ADDRESS <= lines[j]))
            && (forall j :: 0 <= j < 9 ==> !(YAML_VIA <= lines[j]))
            && (forall j :: 0 <= j < 11 ==> !(YAML_SERVERS <= lines[j]))
  {
    hide ShowOctets, WithPrefix;
    var lines := NetplanLines(s);
    assert lines[0][0] == 'n' && lines[1][2] == 'v' && lines[2][2] == 'r' && lines[3][2] == 'e' && lines[4][4] == 'e';
    assert lines[5][6] == 'd' && lines[6][6] == 'a' && lines[7][6] == 'r' && lines[8][8] == '-';
    assert lines[9][8] == ' ' && lines[10][6] == 'n';
    assert YAML_ADDRESS[0] == YAML_ADDRESS[2] == YAML_ADDRESS[4] == ' ' && YAML_ADDRESS[6] == 'a';
    assert YAML_VIA[0] == YAML_VIA[2] == YAML_VIA[4] == YAML_VIA[6] == YAML_VIA[8] == ' ';
    assert YAML_SERVERS[0] == YAML_SERVERS[2] == YAML_SERVERS[4] == YAML_SERVERS[6] == ' ' && YAML_SERVERS[8] == 'a';
  }

  lemma NetplanLinesAreWhole(s: Settings)
    ensures forall line :: line in NetplanLines(s) ==> IsWhole(line)
  {
    hide ShowOctets, AddressValue, IsWhole, Decimal;
    ValuesAreWhole(s);
    OctetsAreWhole(DNS[0]);
    OctetsAreWhole(DNS[1]);
    assert WithPrefix(s) == AddressValue(s) by {
      SamePrefix(s);
    }
    FixedHead();
    FixedMiddle();
    FixedRoutes();
    FixedTail();
    FixedParts();
    WholeConcat(YAML_ADDRESS, AddressValue(s));
    WholeConcat(YAML_ADDRESS + AddressValue(s), "]");
    WholeConcat(YAML_VIA, ShowOctets(s.gateway));
    WholeConcat(YAML_SERVERS, ShowOctets(DNS[0]));
    WholeConcat(YAML_SERVERS + ShowOctets(DNS[0]), ", ");
    WholeConcat(YAML_SERVERS + ShowOctets(DNS[0]) + ", ", ShowOctets(DNS[1]));
    WholeConcat(YAML_SERVERS + ShowOctets(DNS[0]) + ", " + ShowOctets(DNS[1]), "]");
  }

  lemma SamePrefix(s: Settings)
    ensures WithPrefix(s) == AddressValue(s)
  {
  }

  lemma FixedHead()
    ensures IsWhole("network:") && IsWhole("  version: 2") && IsWhole("    eth0:")
  {
  }

  lemma FixedMiddle()
    ensures IsWhole("  renderer: networkd") && IsWhole("  ethernets:")
  {
  }

  lemma FixedRoutes()
    ensures IsWhole("      dhcp4: false") && IsWhole("      routes:")
  {
  }

  lemma FixedTail()
    ensures IsWhole("        - to: default") && IsWhole("      nameservers:")
  {
  }

  lemma FixedParts()
    ensures IsWhole("]") && IsWhole(", ") && IsWhole(YAML_ADDRESS) && IsWhole(YAML_VIA) && IsWhole(YAML_SERVERS)
  {
  }

  // ---- The files, in a root without links at the paths of the step ----

  function At(g: Guest, names: seq<string>): NamePath {
    g.root + names
  }

  /** The file of the netplan writer. */
  function NetplanName(g: Guest, t: Tree): string {
    if At(g, ["etc", "netplan", "10-lxc.yaml"]) in t then "10-lxc.yaml" else "10-achost-lxc.yaml"
  }

  predicate IsMissingOr(t: Tree, p: NamePath, node: Node) {
    p !in t || t[p] == node
  }

  /** A directory does not stand where a file goes. */
  predicate MayHoldFile(t: Tree, p: NamePath) {
    p !in t || t[p] != Dir
  }

  predicate NetplanRoom(g: Guest, t: Tree) {
    At(g, ["etc", "netplan"]) in t ==>
      t[At(g, ["etc", "netplan"])] == Dir && MayHoldFile(t, At(g, ["etc", "netplan", NetplanName(g, t)]))
  }

  predicate NetworkRoom(g: Guest, t: Tree) {
    At(g, ["etc", "systemd"]) in t ==>
      && t[At(g, ["etc", "systemd"])] == Dir && IsMissingOr(t, At(g, ["etc", "systemd", "network"]), Dir)
      && MayHoldFile(t, At(g, ["etc", "systemd", "network", "10-achost-lxc.network"]))
  }

  /** What stands at its paths does not stop the step. */
  predicate HasRoom(g: Guest, t: Tree) {
    && IsMissingOr(t, At(g, ["etc"]), Dir) && MayHoldFile(t, At(g, ["etc", "resolv.conf"]))
    && NetplanRoom(g, t) && NetworkRoom(g, t)
  }

  /** The resolver file always; the netplan file and the network file where the guest has their directories. */
  function WithResolv(g: Guest, t: Tree): Tree {
    t[At(g, ["etc"]) := Dir][At(g, ["etc", "resolv.conf"]) := File(g.resolv)]
  }

  function WithNetplan(g: Guest, t: Tree, u: Tree): Tree {
    if At(g, ["etc", "netplan"]) in t then u[At(g, ["etc", "netplan", NetplanName(g, t)]) := File(g.netplan)] else u
  }

  function WithNetwork(g: Guest, t: Tree, u: Tree): Tree {
    if At(g, ["etc", "systemd"]) in t
    then u[At(g, ["etc", "systemd", "network"]) := Dir]
          [At(g, ["etc", "systemd", "network", "10-achost-lxc.network"]) := File(g.network)]
    else u
  }

  lemma PathsAre(g: Guest)
    ensures Etc(g) == At(g, ["etc"]) && ResolvConf(g) == At(g, ["etc", "resolv.conf"])
    ensures Netplan(g) == At(g, ["etc", "netplan"]) && Systemd(g) == At(g, ["etc", "systemd"])
    ensures NetworkDir(g) == At(g, ["etc", "systemd", "network"])
    ensures NetworkDir(g) + [NETWORK_FILE] == At(g, ["etc", "systemd", "network", "10-achost-lxc.network"])
    ensures Netplan(g) + [LXC_YAML] == At(g, ["etc", "netplan", "10-lxc.yaml"])
    ensures Netplan(g) + [ACHOST_YAML] == At(g, ["etc", "netplan", "10-achost-lxc.yaml"])
  {
  }

  /** A write to a path without links. */
  lemma PlainWrite(t: Tree, dir: NamePath, name: string)
    requires WellFormed(t) && dir in t && t[dir] == Dir && (dir + [name] in t ==> !t[dir + [name]].Link?)
    ensures WriteAt(t, dir + [name]) == if MayHoldFile(t, dir + [name]) then Some(dir + [name]) else None
  {
    hide WellFormed;
    RootIsPlain(t, dir);
    ResolvePlain(t, dir);
    PlainName(t, dir, name);
    if MayHoldFile(t, dir + [name]) {
      OpenBehind(t, dir, dir, name);
    } else {
      OpenPlain(t, dir + [name]);
    }
  }

  lemma PlainLook(t: Tree, path: NamePath)
    requires WellFormed(t) && NoLinkOn(t, path) && path != []
    ensures Present(t, path) <==> path in t
    ensures IsDirectory(t, path) <==> path in t && t[path] == Dir
  {
    ResolvePlain(t, path);
  }

  /** The stages one by one, on such a tree. */
  lemma MakeEtcPlain(g: Guest, t: Tree)
    requires GuestReady(g, t) && NothingToFollow(g, t)
    ensures Advance(g, MakeEtc, t) ==
            if IsMissingOr(t, Etc(g), Dir) then (t[Etc(g) := Dir], Some(DropLink)) else (t, None)
  {
    hide WellFormed, MkdirAll, IsDirectory, NoLinkOn, NothingToFollow;
    PlainPaths(g, t);
    EtcStage(g, t);
    PlainLook(t, Etc(g));
    if Etc(g) in t && t[Etc(g)] == Dir {
      assert t[Etc(g) := Dir] == t;
    }
  }

  lemma DropLinkPlain(g: Guest, t: Tree)
    requires GuestReady(g, t) && NothingToFollow(g, t) && Etc(g) in t && t[Etc(g)] == Dir
    ensures Advance(g, DropLink, t) ==
            (if ResolvConf(g) in t && t[ResolvConf(g)].Link? then t - {ResolvConf(g)} else t, Some(WriteResolv))
  {
    hide WellFormed, NothingToFollow;
    assert Parent(ResolvConf(g)) == Etc(g);
    DirParentFound(t, ResolvConf(g));
  }

  lemma WriteResolvPlain(g: Guest, t: Tree)
    requires GuestReady(g, t) && Etc(g) in t && t[Etc(g)] == Dir && Prepared(g, WriteResolv, t)
    ensures Advance(g, WriteResolv, t) ==
            if MayHoldFile(t, ResolvConf(g)) then (t[ResolvConf(g) := File(g.resolv)], Some(LookNetplan)) else (t, None)
  {
    hide WellFormed, WriteAt;
    PlainWrite(t, Etc(g), "resolv.conf");
  }

  lemma LookNetplanPlain(g: Guest, t: Tree)
    requires GuestReady(g, t) && NothingToFollow(g, t)
    ensures Advance(g, LookNetplan, t) ==
            if Netplan(g) !in t then (t, Some(LookSystemd))
            else if t[Netplan(g)] == Dir then (t, Some(WriteNetplan(NetplanName(g, t))))
            else (t, None)
  {
    hide WellFormed, MkdirAll, IsDirectory, Present, NoLinkOn, NothingToFollow;
    PathsAre(g);
    PlainPaths(g, t);
    PlainLook(t, Netplan(g));
    PlainLook(t, Netplan(g) + [LXC_YAML]);
    if Netplan(g) in t {
      NetplanStage(g, t);
    }
  }

  lemma WriteNetplanPlain(g: Guest, t: Tree)
    requires GuestReady(g, t) && NothingToFollow(g, t) && Netplan(g) in t && t[Netplan(g)] == Dir
    ensures var name := NetplanName(g, t);
            var p := At(g, ["etc", "netplan", name]);
            Advance(g, WriteNetplan(name), t) ==
            if MayHoldFile(t, p) then (t[p := File(g.netplan)], Some(LookSystemd)) else (t, None)
  {
    hide WellFormed, WriteAt;
    PathsAre(g);
    FollowedAreListed();
    PlainWrite(t, Netplan(g), NetplanName(g, t));
  }

  lemma LookSystemdPlain(g: Guest, t: Tree)
    requires GuestReady(g, t) && NothingToFollow(g, t)
    ensures Advance(g, LookSystemd, t) ==
            if Systemd(g) !in t then (t, Some(Done))
            else if t[Systemd(g)] == Dir && IsMissingOr(t, NetworkDir(g), Dir)
            then (t[NetworkDir(g) := Dir], Some(WriteNetwork))
            else (t, None)
  {
    hide WellFormed, NoLinkOn, NothingToFollow, MkdirAll, Present;
    PlainPaths(g, t);
    PlainLook(t, Systemd(g));
    if Systemd(g) in t {
      NetworkDirPlain(g, t);
    }
  }

  lemma NetworkDirPlain(g: Guest, t: Tree)
    requires GuestReady(g, t) && NoLinkOn(t, NetworkDir(g)) && Systemd(g) in t
    ensures MkdirAll(t, NetworkDir(g)) ==
            if t[Systemd(g)] == Dir && IsMissingOr(t, NetworkDir(g), Dir)
            then (t[NetworkDir(g) := Dir], true) else (t, false)
  {
    hide WellFormed;
    var p := NetworkDir(g);
    assert Parent(p) == Systemd(g);
    MkdirAllPlain(t, p);
    AboveIsDir(t, Systemd(g));
    if p in t {
      AboveIsDir(t, p);
      assert t[p] == Dir ==> t[p := Dir] == t;
    }
  }

  lemma WriteNetworkPlain(g: Guest, t: Tree)
    requires GuestReady(g, t) && NothingToFollow(g, t) && NetworkDir(g) in t && t[NetworkDir(g)] == Dir
    ensures var p := NetworkDir(g) + [NETWORK_FILE];
            Advance(g, WriteNetwork, t) ==
            if MayHoldFile(t, p) then (t[p := File(g.network)], Some(Done)) else (t, None)
  {
    hide WellFormed, WriteAt;
    PathsAre(g);
    FollowedAreListed();
    PlainWrite(t, NetworkDir(g), NETWORK_FILE);
  }

  lemma FinishUnfolds(g: Guest, stage: Stage, t: Tree)
    requires stage != Done
    ensures var (after, next) := Advance(g, stage, t);
            Finish(g, stage, t) == if next.Some? then Finish(g, next.value, after) else (after, false)
    ensures Finish(g, Done, t) == (t, true)
  {
  }

  lemma AtDiffers(g: Guest, a: seq<string>, b: seq<string>)
    ensures At(g, a) == At(g, b) <==> a == b
  {
    assert At(g, a)[|g.root|..] == a && At(g, b)[|g.root|..] == b;
  }

  lemma FinishFromSystemd(g: Guest, t: Tree)
    requires GuestReady(g, t) && NothingToFollow(g, t)
    ensures Finish(g, LookSystemd, t).1 <==> NetworkRoom(g, t)
    ensures NetworkRoom(g, t) ==> Finish(g, LookSystemd, t).0 == WithNetwork(g, t, t)
  {
    hide WellFormed, Advance, NothingToFollow, Finish;
    PathsAre(g);
    LookSystemdPlain(g, t);
    FinishUnfolds(g, LookSystemd, t);
    FinishUnfolds(g, WriteNetwork, t);
    var (after, next) := Advance(g, LookSystemd, t);
    if next == Some(WriteNetwork) {
      PlainAdvance(g, LookSystemd, t);
      WriteNetworkPlain(g, after);
      FinishUnfolds(g, WriteNetwork, after);
      FinishUnfolds(g, WriteNetwork, Advance(g, WriteNetwork, after).0);
      AtDiffers(g, ["etc", "systemd", "network"], ["etc", "systemd", "network", "10-achost-lxc.network"]);
    }
  }

  predicate SameAt(t: Tree, u: Tree, p: NamePath) {
    (p in t <==> p in u) && (p in t ==> t[p] == u[p])
  }

  predicate SameSystemd(g: Guest, t: Tree, u: Tree) {
    && SameAt(t, u, At(g, ["etc", "systemd"])) && SameAt(t, u, At(g, ["etc", "systemd", "network"]))
    && SameAt(t, u, At(g, ["etc", "systemd", "network", "10-achost-lxc.network"]))
  }

  predicate SameNetplan(g: Guest, t: Tree, u: Tree) {
    && SameAt(t, u, At(g, ["etc", "netplan"])) && SameAt(t, u, At(g, ["etc", "netplan", "10-lxc.yaml"]))
    && SameAt(t, u, At(g, ["etc", "netplan", "10-achost-lxc.yaml"]))
  }

  /** A change at another path leaves these as they are. */
  lemma OtherPath(g: Guest, t: Tree, names: seq<string>, node: Node)
    ensures |names| >= 2 && names[1] == "netplan" ==> SameSystemd(g, t, t[At(g, names) := node])
    ensures names == ["etc"] || names == ["etc", "resolv.conf"] ==>
              SameSystemd(g, t, t[At(g, names) := node]) && SameNetplan(g, t, t[At(g, names) := node])
    ensures names == ["etc", "resolv.conf"] ==>
              SameSystemd(g, t, t - {At(g, names)}) && SameNetplan(g, t, t - {At(g, names)})
  {
    AtDiffers(g, names, ["etc", "systemd"]);
    AtDiffers(g, names, ["etc", "systemd", "network"]);
    AtDiffers(g, names, ["etc", "systemd", "network", "10-achost-lxc.network"]);
    AtDiffers(g, names, ["etc", "netplan"]);
    AtDiffers(g, names, ["etc", "netplan", "10-lxc.yaml"]);
    AtDiffers(g, names, ["etc", "netplan", "10-achost-lxc.yaml"]);
  }

  lemma SystemdElsewhere(g: Guest, t: Tree, u: Tree)
    requires SameSystemd(g, t, u)
    ensures NetworkRoom(g, t) <==> NetworkRoom(g, u)
    ensures forall v :: WithNetwork(g, t, v) == WithNetwork(g, u, v)
  {
  }

  lemma NetplanElsewhere(g: Guest, t: Tree, u: Tree)
    requires SameNetplan(g, t, u)
    ensures NetplanRoom(g, t) <==> NetplanRoom(g, u)
    ensures forall v :: WithNetplan(g, t, v) == WithNetplan(g, u, v)
  {
  }

  lemma FinishFromNetplan(g: Guest, t: Tree)
    requires GuestReady(g, t) && NothingToFollow(g, t)
    ensures Finish(g, LookNetplan, t).1 <==> NetplanRoom(g, t) && NetworkRoom(g, t)
    ensures NetplanRoom(g, t) && NetworkRoom(g, t) ==>
              Finish(g, LookNetplan, t).0 == WithNetwork(g, t, WithNetplan(g, t, t))
  {
    hide WellFormed, Advance, NothingToFollow, Finish, NetworkRoom, WithNetwork, MayHoldFile;
    PathsAre(g);
    LookNetplanPlain(g, t);
    FinishUnfolds(g, LookNetplan, t);
    if Netplan(g) !in t {
      FinishFromSystemd(g, t);
    } else if t[Netplan(g)] == Dir {
      var name := NetplanName(g, t);
      WriteNetplanPlain(g, t);
      FinishUnfolds(g, WriteNetplan(name), t);
      if Advance(g, WriteNetplan(name), t).1.Some? {
        var after := Advance(g, WriteNetplan(name), t).0;
        PlainAdvance(g, WriteNetplan(name), t);
        OtherPath(g, t, ["etc", "netplan", name], File(g.netplan));
        SystemdElsewhere(g, t, after);
        FinishFromSystemd(g, after);
      }
    }
  }

  lemma FinishFromResolv(g: Guest, t: Tree)
    requires GuestReady(g, t) && NothingToFollow(g, t) && Etc(g) in t && t[Etc(g)] == Dir
    ensures var p := At(g, ["etc", "resolv.conf"]);
            && (Finish(g, DropLink, t).1 <==> MayHoldFile(t, p) && NetplanRoom(g, t) && NetworkRoom(g, t))
            && (MayHoldFile(t, p) && NetplanRoom(g, t) && NetworkRoom(g, t) ==>
                  Finish(g, DropLink, t).0 == WithNetwork(g, t, WithNetplan(g, t, t[p := File(g.resolv)])))
  {
    hide WellFormed, Advance, NothingToFollow, Finish, NetworkRoom, NetplanRoom, WithNetwork, WithNetplan;
    PathsAre(g);
    var p := At(g, ["etc", "resolv.conf"]);
    DropLinkPlain(g, t);
    FinishUnfolds(g, DropLink, t);
    PlainAdvance(g, DropLink, t);
    var dropped := Advance(g, DropLink, t).0;
    AtDiffers(g, ["etc"], ["etc", "resolv.conf"]);
    OtherPath(g, t, ["etc", "resolv.conf"], File(g.resolv));
    WriteResolvPlain(g, dropped);
    FinishUnfolds(g, WriteResolv, dropped);
    if MayHoldFile(t, p) {
      PlainAdvance(g, WriteResolv, dropped);
      var after := t[p := File(g.resolv)];
      assert dropped[p := File(g.resolv)] == after;
      SystemdElsewhere(g, t, after);
      NetplanElsewhere(g, t, after);
      FinishFromNetplan(g, after);
    }
  }

  /**
   The whole step: it succeeds exactly if nothing in the way stops it, and then these files are there as
   given and everything else is as it was.
   */
  lemma PlainFinish(g: Guest, t: Tree)
    requires GuestReady(g, t) && NothingToFollow(g, t)
    ensures Finish(g, MakeEtc, t).1 <==> HasRoom(g, t)
    ensures HasRoom(g, t) ==>
              Finish(g, MakeEtc, t).0 == WithNetwork(g, t, WithNetplan(g, t, WithResolv(g, t)))
  {
    hide WellFormed, Advance, NothingToFollow, Finish, NetworkRoom, NetplanRoom, WithNetwork, WithNetplan;
    PathsAre(g);
    MakeEtcPlain(g, t);
    FinishUnfolds(g, MakeEtc, t);
    if IsMissingOr(t, Etc(g), Dir) {
      var made := t[Etc(g) := Dir];
      PlainAdvance(g, MakeEtc, t);
      AtDiffers(g, ["etc"], ["etc", "resolv.conf"]);
      OtherPath(g, t, ["etc"], Dir);
      SystemdElsewhere(g, t, made);
      NetplanElsewhere(g, t, made);
      FinishFromResolv(g, made);
    }
  }
}
