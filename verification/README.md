# ACHost: a verified model of its host-side algorithms

ACHost runs Docker and LXC containers on an Android host. Its daemons and command-line tools change state
that other programs share: kernel rule lists, a directory tree, configuration texts, a process table, a mount
table. This project models those parts over explicit state and proves what each change amounts to, what whole
runs keep, and, where the code falls short of what it is for, exactly when.

`dafny verify dfyconfig.toml` checks everything.

## What is modelled

**Network reconciler and watchdog** (`KernelTables`, `NetReconcile`, `NetReconcileLaws`, `NetWatchdog`,
`NetWatchdogLaws`). The kernel is a class with the `ip rule` list and the FORWARD and POSTROUTING chains; each
command is a method that deletes the first match, inserts, appends or prints. The reconciler's loops over these
commands are proved equal to a closed form, and the closed form is an idempotent projection onto a shape that is
stated about the tables alone. The watchdog is a state machine whose environment may rewrite every table between
iterations; from anything, `max(1, ceil(repair_interval / watch_interval))` undisturbed iterations settle it.

**Containers** (`Paths`, `FileTree`, `RootfsExtract`, `RootfsLaws`, `RootfsSuccess`, `GuestNetwork`, `GuestOutcome`,
`ContainerImport`, `ContainerImportLaws`, `ImportOutcome`, `ContainerFiles`). A tree of directories, files and symbolic
links with the kernel's own path walk, which follows links up to a budget. The extraction loop, written against those
calls, refines a specification that never looks through a link, so every law of the specification holds of the real
calls. The three writers of the guest's network files do follow links; where they write is computed from the tree they
start in. The import is a transition system over all of this, because it may fail or be interrupted between any two
changes. The commands that rewrite an existing container's files act on the same tree.

**Passwords, addresses and configuration texts** (`Octets`, `CryptBase64`, `Sha512Crypt`, `Addresses`, `TextLines`,
`LxcConfigText`). SHA-512 crypt is proved against the numbered steps of Ulrich Drepper's "Unix crypt using SHA-256
and SHA-512" for an arbitrary 64-byte hash function; the encoding is proved a bijection. Container addresses, the
two readers of the subnet text and the rewriting of configuration texts follow.

**Supervisor protocol** (`WireProtocol`). The two ends of a length-prefixed request as methods on a byte stream,
with the encoder and the decoder proved inverse.

**Docker stop** (`StopProcesses`, `StopOutcome`, `MountFields`, `MountTeardown`). Signals to a process table with an
owner test, and the teardown of the mounts below the chroot, including the text form of the mount table.

**Kernel configuration merging** (`ConfigMerge`, `ConfigRemerge`). A parser, a printer, a last-wins merge with its change
log, and what a second merge into the output does.

`Wrappers`, `Sequences` and `Text` hold what several of these need.

## Where the code and its intent part

Each of these has a lemma with an input that fails, or an equivalence that says exactly when it holds.

- A reconcile takes the source rule of uplink `eth01` for one of `eth0`, because the test is a substring test:
  `NetReconcileLaws.SourceRuleCarries`, `NetReconcileLaws.PrefixUplinkLoses`. Over whole runs the last uplink wins
  for the chains always and for the source rule exactly under `NetReconcileLaws.LastUplinkWinsSource`.
- With one priority for both policy rules the return rule is lost, unless one rule there served as both before:
  `NetReconcileLaws.PrioritiesMustDiffer`.
- The reconciler prefers the route's subnet and the watchdog the configured one. If they differ, every active
  iteration from the first repair on repairs again: `NetWatchdogLaws.Schedule`,
  `NetWatchdogLaws.DisagreeingSubnetsRepairAlways`.
- The watchdog's bound needs a counter that it can have at the head of its loop; from 0 it takes one iteration more:
  `NetWatchdogLaws.ZeroCounterIsLate`. `NetWatchdogLaws.WatchdogSelfStabilises` needs no such assumption, since it starts
  from the program's own start.
- An extracted symbolic link resolves inside the root where it was placed, but a hard link to it copies its text to a
  place where it may not: `RootfsLaws.LinksInsideIff` says for which archives, `RootfsLaws.HardLinkedSymlinkPointsOutside`
  gives one.
- The guest network files are written through the extracted tree, so an import leaves all but its temporary directory
  alone exactly under the condition of `ContainerImportLaws.ImportConfinedIff`, and the listed containers exactly under that
  of `ContainerImportLaws.ListedSparedIff`. `ContainerImportLaws.ExistingContainerModified` is an import that changes another
  container, `ContainerImportLaws.ArchiveStaysInside` a test on the archive that excludes this.
- The listing tests for a container's two files through links. `ContainerImportLaws.ImportAllOrNothing` says for which names
  an import leaves the listing alone, `ContainerImportLaws.ListingFollowsLink` is an import that makes a second container
  appear, one whose configuration is a link into the new one.
- Rewriting a configuration text twice differs from rewriting it once if a line ends in `\r\r\n`:
  `LxcConfigText.SecondSetOverwritesIff`, `LxcConfigText.NetworkRepairTwiceIff`. A line `key=value` without a blank is not
  replaced by an upsert: `LxcConfigText.OneSettingIff`.
- A subnet such as `10.01.0.0/16` is read by the bridge side and refused by the container side:
  `Addresses.GatewaysAgreeIff`. A prefix above 16 bits cannot hold all addresses: `Addresses.InSubnetIff`.
- A salt longer than 16 bytes, or with a `$`, gives another text than the standard: `Sha512Crypt.StandardIff`. The
  generated salts are never of that kind: `Sha512Crypt.PasswordHash`.
- A dockerd or containerd that goes by another name and that no pid file names outlives the stop:
  `StopProcesses.DaemonSurvivesIff`.
- A mount path with whitespace that the kernel does not escape is not read back: `MountFields.RecordReadBackIff`.
- An unset symbol whose name holds " is not set" is lost by printing and parsing: `ConfigMerge.ReadAfterRenderIff`. Merging the
  same fragments into the output then leaves its text alone exactly under the condition of
  `ConfigRemerge.RemergeLeavesText`; `ConfigRemerge.RemergeChangesText` is an input that fails,
  `ConfigRemerge.RestoredWithoutReadingBack` one where a fragment restores what was lost.
- A symbol that a fragment adds with the value "missing" is not in the change log, and the count of added symbols is off:
  `ConfigMerge.MissingIsNotLogged`, `ConfigMerge.AddedBalance`.

## Model

| member | source | states |
|---|---|---|
| `KernelTables.ShownPriority` | crates/achost-runtime-core/src/main.rs:729-734 | the first word of a printed policy rule is `P:` exactly for the rules of priority P |
| `KernelTables.ShownRule` | crates/achost-runtime-core/src/main.rs:800-805 | splitting a printed FORWARD rule gives `-A FORWARD` and the rule's own tokens |
| `NetReconcile.CountIpRulesAtPriority` | crates/achost-runtime-core/src/main.rs:722-742 | the scan of the printed list counts the rules at a priority, and those among them whose text contains the needle |
| `NetReconcile.CountsDecide` | crates/achost-runtime-core/src/main.rs:707-746 | "count 1 and exact 1" means one rule at that priority and it carries the needle; "exact > 0" means that some rule does |
| `NetReconcile.DeleteIpRulesAtPriority` | crates/achost-runtime-core/src/main.rs:748-754 | deleting until the command fails ends, and leaves exactly the rules of other priorities in order |
| `NetReconcile.EnsureIpRule` | crates/achost-runtime-core/src/main.rs:707-720 | the list afterwards is the closed form `EnsuredRules` of the list before |
| `NetReconcile.EnsuredRulesShape` | crates/achost-runtime-core/src/main.rs:707-720 | one rule with the needle at the priority, others untouched, order kept, and nothing changed if and only if it was settled |
| `NetReconcile.EnsuredRulesElsewhere` | crates/achost-runtime-core/src/main.rs:666-705 | ensuring a rule at one priority is invisible at any other |
| `NetReconcile.ScanLine` | crates/achost-runtime-core/src/main.rs:806-827 | the index loop over a printed rule's tokens computes the last word after each of `-i`, `-o` and `-j` |
| `NetReconcile.ScanBridgeAccept` | crates/achost-runtime-core/src/main.rs:806-828 | a rule of the exact form is scanned as what it is, even if an interface is called like a flag |
| `NetReconcile.DeleteForwardUntilFail` | crates/achost-runtime-core/src/main.rs:780-791 | the loop ends with every copy of the specification gone and the rest in order |
| `NetReconcile.CleanupLine` | crates/achost-runtime-core/src/main.rs:801-843 | one line of the snapshot removes exact-form rules to one more output, also when the line is misread |
| `NetReconcile.CleanupBridgeForwardRules` | crates/achost-runtime-core/src/main.rs:793-844 | the snapshot scan with its nested loops removes exactly the rules of the form `-i bridge -o X -j ACCEPT` |
| `NetReconcile.EnsureForwardRule` | crates/achost-runtime-core/src/main.rs:756-791 | the rule stands once at the head, the others follow in order |
| `NetReconcile.EnsurePostroutingRule` | crates/achost-runtime-core/src/main.rs:756-791 | the rule stands once at the end, the others before it in order |
| `NetReconcile.Reconcile` | crates/achost-runtime-core/src/main.rs:280-375 | from arbitrary tables and any environment: the tables become `Reconciled`, and each failure leaves them alone |
| `NetReconcileLaws.ReconcileFailsIff` | crates/achost-runtime-core/src/main.rs:280-297 | it fails exactly if the `ip` command, the bridge, iptables or every source of a subnet is missing, names the first missing one, and then changes nothing |
| `NetReconcileLaws.ReconcileOutcome` | crates/achost-runtime-core/src/main.rs:280-375 | what any successful run leaves, from configuration and host alone: one return rule for the first subnet of route, configuration and address, also without an uplink; with one (configured before detected) the whole wanted shape; without one both chains and all other rules as they were |
| `NetReconcileLaws.ManagedRules` | crates/achost-runtime-core/src/main.rs:324-371 | the three managed iptables rules, word by word |
| `NetReconcileLaws.ReturnRuleText` | crates/achost-runtime-core/src/main.rs:666-682 | the return rule reads `from all to S lookup main` |
| `NetReconcileLaws.SourceRuleText` | crates/achost-runtime-core/src/main.rs:684-705 | the source rule reads `from S lookup U` |
| `NetReconcile.ForwardClosedForm` | crates/achost-runtime-core/src/main.rs:320-355 | cleanup and two ensures together are: the conntrack rule, the bridge-to-uplink rule, then the old unmanaged rules in order |
| `NetReconcileLaws.SourceRuleCarries` | crates/achost-runtime-core/src/main.rs:684-705 | the needle of an uplink is found in another uplink's rule exactly if its name is a prefix of the other's |
| `NetReconcileLaws.ReturnRuleCarries` | crates/achost-runtime-core/src/main.rs:666-682 | a return rule is found under its own subnet's needle and no other |
| `NetReconcileLaws.ReturnRuleIsNoSourceRule` | crates/achost-runtime-core/src/main.rs:666-705 | a return rule never carries the text of a source rule |
| `NetReconcileLaws.SourceRuleIsNoReturnRule` | crates/achost-runtime-core/src/main.rs:666-705 | a source rule never carries the text of a return rule |
| `NetReconcileLaws.PolicyRulesAfterReconcile` | crates/achost-runtime-core/src/main.rs:666-742 | each managed priority ends with exactly one rule carrying the wanted selector; which one, and that neither step disturbs the other |
| `NetReconcileLaws.OtherRulesUntouched` | crates/achost-runtime-core/src/main.rs:666-754 | rules at all other priorities keep their contents and order, and a list ordered by priority stays so |
| `NetReconcileLaws.PrioritiesMustDiffer` | crates/achost-runtime-core/src/main.rs:666-705 | from any tables: the return rule is there after a reconcile if and only if the two priorities differ or a single rule there carried both selectors before |
| `NetReconcileLaws.ReconcileFixpoint` | crates/achost-runtime-core/src/main.rs:280-375 | a reconcile changes nothing if and only if the tables have the wanted shape, and it always produces that shape |
| `NetReconcileLaws.ReconcileIdempotent` | crates/achost-runtime-core/src/main.rs:280-375 | reconciling twice is reconciling once, with or without an uplink |
| `NetReconcileLaws.LastUplinkWinsChains` | crates/achost-runtime-core/src/main.rs:313-371 | after any sequence of reconciles, some without an uplink, both chains are those of one reconcile with the last uplink |
| `NetReconcileLaws.SourceRuleOfRun` | crates/achost-runtime-core/src/main.rs:684-720 | the rules at the source priority after any run, for uplink names none of which is a proper prefix of another |
| `NetReconcileLaws.LastUplinkWinsSource` | crates/achost-runtime-core/src/main.rs:684-720 | the source rule of a run is that of one reconcile with the last uplink, exactly under a condition on the starting rules |
| `NetReconcileLaws.PrefixUplinkLoses` | crates/achost-runtime-core/src/main.rs:733-738 | from any tables: after uplink u and then v the source rule is v's if and only if v is not a proper prefix of u; with tables that already serve u, if they do not serve v or hold v's rule |
| `NetWatchdog.Iterate` | crates/achost-runtime-core/src/main.rs:410-522 | one pass of the loop body on the kernel is the step function on values |
| `NetWatchdog.Watch` | crates/achost-runtime-core/src/main.rs:406-522 | the loop over any sequence of environments is the run of the state machine |
| `NetWatchdogLaws.StateTextIdentifies` | crates/achost-runtime-core/src/main.rs:475-482 | the remembered text is equal exactly if subnet and uplink label are, however the fields are spelled |
| `NetWatchdogLaws.StateTextWithoutUplink` | crates/achost-runtime-core/src/main.rs:475-480 | the text that is remembered without an uplink |
| `NetWatchdogLaws.WaitMessages` | crates/achost-runtime-core/src/main.rs:410-456 | the waiting reason names the first thing that is missing, and is empty exactly if nothing is |
| `NetWatchdogLaws.ObservedFirst` | crates/achost-runtime-core/src/main.rs:632-639 | an iteration sees the configured subnet before the route's before the address's, and the configured uplink before the detected one |
| `NetWatchdogLaws.StateFromHistory` | crates/achost-runtime-core/src/main.rs:406-521 | at every loop head the memory is that of the latest attempt and the counter that of the active iterations since it, saturation included |
| `NetWatchdogLaws.AttemptsOfARun` | crates/achost-runtime-core/src/main.rs:410-518 | from what the host shows: when an iteration waits, stays quiet or attempts a reconcile, and with which subnet and uplink; a missing rule or a changed state is acted on in the same iteration |
| `NetWatchdogLaws.AttemptOutcome` | crates/achost-runtime-core/src/main.rs:499-503 | what an attempt leaves, with or without an uplink: the rules for the first subnet of route, configuration and address, whatever was observed |
| `NetWatchdogLaws.AttemptsNeverLate` | crates/achost-runtime-core/src/main.rs:497-521 | whatever the environment does, no more than max(1, ceil(R/W)) active iterations pass without an attempt |
| `NetWatchdogLaws.AttemptSpacing` | crates/achost-runtime-core/src/main.rs:472-521 | with nothing changed and the return rule there, consecutive attempts are exactly max(1, ceil(R/W)) active iterations apart |
| `NetWatchdogLaws.CounterValue` | crates/achost-runtime-core/src/main.rs:520-521 | the saturating counter after n steps is the sum, cut at the largest 64-bit number |
| `NetWatchdogLaws.WaitingDoesNotCount` | crates/achost-runtime-core/src/main.rs:410-445 | iterations that wait change neither the tables nor what decides about repairs |
| `NetWatchdogLaws.ExactStabilisation` | crates/achost-runtime-core/src/main.rs:406-521 | from any tables and any watchdog state, with any waiting in between: unchanged up to a computed number of active iterations, the repaired tables ever after |
| `NetWatchdogLaws.SelfStabilisation` | crates/achost-runtime-core/src/main.rs:377-526 | from any tables and any state possible at the loop head, max(1, ceil(R/W)) undisturbed active iterations, with any waiting in between, settle the tables for good |
| `NetWatchdogLaws.WatchdogSelfStabilises` | crates/achost-runtime-core/src/main.rs:377-526 | the same from the program's start after any past, with rewrites by others in it |
| `NetWatchdogLaws.ZeroCounterIsLate` | crates/achost-runtime-core/src/main.rs:497-521 | a counter of 0, which no loop head has, would take exactly one iteration more |
| `NetWatchdogLaws.ReturnRuleSeenIffSubnetsAgree` | crates/achost-runtime-core/src/main.rs:621-639 | from any tables: after a repair the watchdog finds its return rule if and only if configuration and route do not name different subnets, or a single rule already carries both selectors |
| `NetWatchdogLaws.Schedule` | crates/achost-runtime-core/src/main.rs:406-521 | the exact schedule in an undisturbed world: quiet up to the first repair, then a repair every max(1, ceil(R/W)) iterations if the subnets agree, and in every iteration if not |
| `NetWatchdogLaws.DisagreeingSubnetsRepairAlways` | crates/achost-runtime-core/src/main.rs:463-518 | if they do not, every undisturbed active iteration from the first repair on attempts another for the configured subnet, whatever waiting there is in between |
| `Paths.SafeRelativePath` | crates/achost-lxc-runtime/src/main.rs:1170-1180 | the loop over components gives the names, or refuses a root or a parent step |
| `Paths.NormalizeLinkTarget` | crates/achost-lxc-runtime/src/main.rs:1182-1202 | pushing and popping on a path buffer is the normalisation function |
| `Paths.NormalizeTargetMeaning` | crates/achost-lxc-runtime/src/main.rs:1182-1202 | refused exactly if some prefix climbs above the start; the result has the balance as depth, re-normalises to itself and agrees with `safe_relative_path` |
| `FileTree.WalkPlain` | crates/achost-lxc-runtime/src/main.rs:1092-1098 | without links on the way the kernel's walk ends at the very path that was named |
| `RootfsExtract.HasSymlinkAncestor` | crates/achost-lxc-runtime/src/main.rs:1204-1216 | the chain of `lstat` calls answers whether a link stands above the path, though each call itself walks the tree |
| `RootfsExtract.CreateDirAll` | crates/achost-lxc-runtime/src/main.rs:1099-1103 | on any tree: one directory, and the missing ones above it first, through whatever links are there |
| `RootfsExtract.MkdirAllPlain` | crates/achost-lxc-runtime/src/main.rs:1099-1103 | on a path without links it makes exactly the missing directories, or fails and changes nothing |
| `RootfsExtract.PlaceHardLink` | crates/achost-lxc-runtime/src/main.rs:1129-1159 | the hard-link branch on the real calls is the lexical specification |
| `RootfsExtract.PlaceSymlink` | crates/achost-lxc-runtime/src/main.rs:1108-1128 | the symlink branch on the real calls is the lexical specification |
| `RootfsExtract.PlaceFile` | crates/achost-lxc-runtime/src/main.rs:1099-1107 | the file branch on the real calls is the lexical specification |
| `RootfsExtract.PlaceDir` | crates/achost-lxc-runtime/src/main.rs:1099-1107 | the directory branch on the real calls is the lexical specification |
| `RootfsExtract.ExtractEntry` | crates/achost-lxc-runtime/src/main.rs:1081-1165 | one pass of the loop on the real calls is one step of the specification |
| `RootfsExtract.ExtractTarStream` | crates/achost-lxc-runtime/src/main.rs:1074-1168 | the whole extraction, with calls that follow links, refines a specification that never does; tree, count and failure |
| `RootfsExtract.StepKeepsShape` | crates/achost-lxc-runtime/src/main.rs:1080-1166 | every entry leaves a tree in which all ancestors of a node are directories |
| `RootfsLaws.ExtractionConfined` | crates/achost-lxc-runtime/src/main.rs:1074-1168 | after every prefix of every entry list: only paths below the root are created or replaced, a link once placed is never overwritten and stays a leaf, directories stay |
| `RootfsLaws.SuccessMeansAll` | crates/achost-lxc-runtime/src/main.rs:1080-1166 | a successful run got past every single entry |
| `RootfsLaws.SuccessCounts` | crates/achost-lxc-runtime/src/main.rs:1076-1167 | the reported count is the number of entries that name something below the root |
| `RootfsLaws.NodeStays` | crates/achost-lxc-runtime/src/main.rs:1093-1107 | what is there at some point is there at the end; only a file's contents may change, and only by an entry for its path |
| `RootfsLaws.SuccessPlaces` | crates/achost-lxc-runtime/src/main.rs:1099-1159 | after a successful run every entry's path holds its directory, its link, the data of the last entry for it, or for a hard link the node that its source had at its turn |
| `RootfsSuccess.PlacedIff` | crates/achost-lxc-runtime/src/main.rs:1087-1159 | an entry is placed if and only if its path crosses neither a link nor a file and its kind fits: what may stand at its place, a hard link's source, a link's text |
| `RootfsSuccess.FailureLeaves` | crates/achost-lxc-runtime/src/main.rs:1087-1165 | an entry that is refused leaves nothing, one that fails later at most the directories above its place |
| `RootfsSuccess.ExtractSucceedsIff` | crates/achost-lxc-runtime/src/main.rs:1074-1168 | an archive is extracted into an empty root if and only if each entry fits what the entries before it put where, read off the archive alone; and then exactly that stands at every path |
| `RootfsLaws.StepLinks` | crates/achost-lxc-runtime/src/main.rs:1108-1159 | one entry keeps all links resolving inside if and only if it does not copy a link outwards |
| `RootfsLaws.LinksComeFromEntries` | crates/achost-lxc-runtime/src/main.rs:1108-1159 | however an extraction ends, every link below the root is one that the archive places there |
| `RootfsLaws.LinksInsideIff` | crates/achost-lxc-runtime/src/main.rs:1108-1159 | after a successful extraction every link resolves inside the root if and only if each link text of the archive does so from every place where a symlink or hard-link entry puts it |
| `RootfsLaws.LinksInsideAnyway` | crates/achost-lxc-runtime/src/main.rs:1108-1159 | for every run, failing or not: the same for the archive up to the entry that fails |
| `RootfsLaws.NoHardLinkToSymlinkSuffices` | crates/achost-lxc-runtime/src/main.rs:1129-1159 | a test on the archive alone that is enough: no hard link names a symlink entry |
| `RootfsLaws.HardLinkedSymlinkPointsOutside` | crates/achost-lxc-runtime/src/main.rs:1129-1159 | two accepted entries that leave a link pointing outside |
| `FileTree.OpenAfterWrite` | crates/achost-lxc-runtime/src/main.rs:1902-1971 | a file that is written changes for no other path where a write to it lands |
| `GuestNetwork.WriteGuestResolvConf` | crates/achost-lxc-runtime/src/main.rs:1902-1924 | the directory is made, a link at the last place removed, the file written through all other links |
| `GuestOutcome.ResolvRead` | crates/achost-lxc-runtime/src/main.rs:1917-1923 | the resolver file has one line for each of the two servers |
| `GuestNetwork.WriteGuestNetplan` | crates/achost-lxc-runtime/src/main.rs:1926-1949 | nothing without the directory; else the file that is there is overwritten, links followed, or a new one made |
| `GuestOutcome.NetplanRead` | crates/achost-lxc-runtime/src/main.rs:1944-1947 | the netplan file has the container's address with its prefix, the default route through the gateway, and the servers |
| `GuestNetwork.WriteGuestSystemdNetwork` | crates/achost-lxc-runtime/src/main.rs:1951-1971 | nothing without `etc/systemd`; else the directory is made and the file written, links followed |
| `GuestOutcome.NetworkRead` | crates/achost-lxc-runtime/src/main.rs:1959-1967 | the network file's address and gateway are read back as the container's |
| `GuestNetwork.EnsureGuestNetworkConfig` | crates/achost-lxc-runtime/src/main.rs:1892-1900 | the three writers in order, up to the first failure, are the stages of the step |
| `GuestOutcome.PlainFinish` | crates/achost-lxc-runtime/src/main.rs:1892-1971 | in a root without links at seven named paths the step succeeds if and only if nothing stands in the way of its files, and then exactly these files are there: the resolver file always, the other two where the guest has their directories |
| `GuestNetwork.TargetsStepwise` | crates/achost-lxc-runtime/src/main.rs:1892-1971 | the paths computed from the tree at the start are the one that each stage changes, stage after stage |
| `GuestNetwork.SparesKept` | crates/achost-lxc-runtime/src/main.rs:1892-1971 | for any set of paths that holds, or finds as a directory, the parent of each of its paths: while none of the step's paths is in it, no moment of the step changes anything in it, half-written files included |
| `GuestNetwork.EscapeStep` | crates/achost-lxc-runtime/src/main.rs:1892-1971 | if one is in it, some moment changes something in it or leads to a later one that does |
| `GuestNetwork.PlainSpares` | crates/achost-lxc-runtime/src/main.rs:1892-1971 | without links at seven named paths the step stays below the new root, whatever `resolv.conf` is |
| `ContainerImport.ValidNameIff` | crates/achost-lxc-runtime/src/main.rs:2189-2204 | exactly which names a container may have |
| `ContainerImportLaws.StartsIff` | crates/achost-lxc-runtime/src/main.rs:910-925 | an import gets as far as the extraction if and only if the name is free and what is stale at the temporary directory can be removed |
| `ContainerImport.NextKeepsInvariant` | crates/achost-lxc-runtime/src/main.rs:901-961 | every step of an import, failing or not, keeps the invariant for any set of paths outside the temporary directory, if the start meets the condition for that set |
| `ContainerImport.RenamedKeepsShape` | crates/achost-lxc-runtime/src/main.rs:947-953 | renaming a directory to a free name moves its whole part of the tree and leaves a tree |
| `ContainerImportLaws.ImportSparesIff` | crates/achost-lxc-runtime/src/main.rs:901-961 | for any set of paths outside the temporary directory: no moment of any run touches it, up to the rename, if and only if the import gives up before the guest network step or that step aims, links resolved, at nothing in it |
| `ContainerImportLaws.ImportConfinedIff` | crates/achost-lxc-runtime/src/main.rs:901-961 | in particular all but the temporary directory stays as it is exactly if all paths of the step, links resolved, lie in that directory or the import gives up before |
| `ContainerImportLaws.StaleStaysInTheWay` | crates/achost-lxc-runtime/src/main.rs:918-923 | a file, or a link that leads nowhere, at the place of the temporary directory ends every run before anything is made |
| `ContainerImportLaws.ListedSparedIff` | crates/achost-lxc-runtime/src/main.rs:901-961 | and no listed container is ever modified exactly if the import gives up before or the step aims at no path in one |
| `ContainerImportLaws.ImportAllOrNothing` | crates/achost-lxc-runtime/src/main.rs:901-961 | under the condition on the start, at every moment of every run: the listing shows what it showed, and after the rename the new, complete container as well, for every name whose look-up does not lead into the temporary directory or the new container; the old ones are untouched |
| `ContainerImportLaws.PlainListing` | crates/achost-lxc-runtime/src/main.rs:1224-1250 | a name without a link at its directory or its two files is listed if and only if it was, or it is the new one and the rename is done |
| `ContainerImportLaws.InstallRun` | crates/achost-lxc-runtime/src/main.rs:901-961 | an import of an archive that can be extracted, whose network step succeeds below the new root, has a run that completes |
| `ContainerImportLaws.ListingFollowsLink` | crates/achost-lxc-runtime/src/main.rs:1240-1242 | a run of an import after which another container is listed as well, for any container whose configuration is a link to the new one's |
| `ContainerImportLaws.ArchiveStaysInside` | crates/achost-lxc-runtime/src/main.rs:928-939 | an archive that puts no link at the seven paths meets the condition, whatever else is in it |
| `ContainerImportLaws.FinishRun` | crates/achost-lxc-runtime/src/main.rs:939-939 | the guest network step as the program performs it is a run of the transition system |
| `ContainerImport.InstallStep` | crates/achost-lxc-runtime/src/main.rs:947-953 | the rename makes the finished container appear and changes nothing else |
| `ImportOutcome.InstalledIs` | crates/achost-lxc-runtime/src/main.rs:901-961 | whatever a run that completes went through, half-written files included: it installs exactly the extracted archive, the files of the guest step and the two texts |
| `ImportOutcome.PlainImport` | crates/achost-lxc-runtime/src/main.rs:901-961 | an archive whose entries fit, without links at the seven paths and with room for the guest's files, is installed by some run, and exactly this is installed |
| `ContainerImportLaws.GuestWriteFollowsLink` | crates/achost-lxc-runtime/src/main.rs:1902-1924 | with `etc` a link to a directory, the resolver file is written into that directory |
| `ContainerImportLaws.ExistingContainerModified` | crates/achost-lxc-runtime/src/main.rs:901-961 | a run of an import, of an archive with such a link, that changes a listed container |
| `CryptBase64.CryptB64` | crates/achost-lxc-runtime/src/main.rs:1783-1789 | the shifting loop appends the base-64 digits of the 24-bit group, least significant first |
| `CryptBase64.FromDigitsOfDigits` | crates/achost-lxc-runtime/src/main.rs:1783-1789 | digits of a value that fits give the value back, so no bit is lost |
| `CryptBase64.ShuffleIsBijective` | crates/achost-lxc-runtime/src/main.rs:1756-1779 | the index groups partition the first 63 bytes: group and place determine the byte and the other way round |
| `CryptBase64.Sha512CryptEncode` | crates/achost-lxc-runtime/src/main.rs:1756-1781 | the 22 lines, with their literal indices, compute the encoding |
| `CryptBase64.DecodeEncode` | crates/achost-lxc-runtime/src/main.rs:1756-1789 | a decoder recovers all 64 bytes from the 86 characters of every digest |
| `CryptBase64.EncodeDecode` | crates/achost-lxc-runtime/src/main.rs:1756-1789 | every text of 86 digits with the last below four is the encoding of its decoding, so the two are inverse bijections |
| `Sha512Crypt.BinaryIff` | crates/achost-lxc-runtime/src/main.rs:1687-1695 | the binary digits that step 11 runs through are the only ones of that value without a highest 0 |
| `Sha512Crypt.BlocksAreCycle` | crates/achost-lxc-runtime/src/main.rs:1736-1754 | the standard's full blocks and remainder are the sequence i -> digest[i mod 64] |
| `Sha512Crypt.UpdateRepeated` | crates/achost-lxc-runtime/src/main.rs:1736-1745 | the loop absorbs exactly that sequence |
| `Sha512Crypt.RepeatDigestToLen` | crates/achost-lxc-runtime/src/main.rs:1747-1754 | the other loop returns exactly that sequence |
| `Sha512Crypt.UpdateByLengthBits` | crates/achost-lxc-runtime/src/main.rs:1687-1695 | the halving loop absorbs digest or password for each binary digit of the length, lowest first |
| `Sha512Crypt.BitStepsInOrder` | crates/achost-lxc-runtime/src/main.rs:1687-1695 | one block for each digit, in order: the digest for 1, the password for 0 |
| `Sha512Crypt.FirstDigest` | crates/achost-lxc-runtime/src/main.rs:1678-1696 | the first digest is that of steps 1 to 12 |
| `Sha512Crypt.CycledSequence` | crates/achost-lxc-runtime/src/main.rs:1697-1708 | the two cycled sequences are those of steps 13 to 16 and 17 to 20 |
| `Sha512Crypt.Round` | crates/achost-lxc-runtime/src/main.rs:1709-1727 | one round absorbs what step 21 lists, in its order |
| `Sha512Crypt.RoundKinds` | crates/achost-lxc-runtime/src/main.rs:1709-1727 | the eight kinds of rounds by divisibility, each written out |
| `Sha512Crypt.Sha512Crypt` | crates/achost-lxc-runtime/src/main.rs:1675-1734 | for every password, salt and number of rounds the text holds the digest of steps 1 to 21 |
| `Sha512Crypt.WorkedExample` | crates/achost-lxc-runtime/src/main.rs:1675-1734 | two rounds for every password of two bytes and salt of one, written out in hashes |
| `Sha512Crypt.StandardIff` | crates/achost-lxc-runtime/src/main.rs:1675-1734 | the text is the standard's text exactly for salts of at most 16 bytes without a `$` |
| `Sha512Crypt.TextReadsBack` | crates/achost-lxc-runtime/src/main.rs:1729-1733 | a reader of the stored text recovers the salt and the digest |
| `Sha512Crypt.GenerateShadowSalt` | crates/achost-lxc-runtime/src/main.rs:1595-1604 | a generated salt has 16 base-64 digits, each a random byte modulo 64, and no `$` |
| `Sha512Crypt.PasswordHash` | crates/achost-lxc-runtime/src/main.rs:1536-1537 | a password change always stores the standard text |
| `Addresses.StableNameHash` | crates/achost-lxc-runtime/src/main.rs:1023-1030 | the loop is 32-bit FNV-1a with wrapping multiplication |
| `Addresses.SuffixCancels` | crates/achost-lxc-runtime/src/main.rs:1023-1030 | a common ending neither makes nor hides a collision of two names |
| `Addresses.OneByteApart` | crates/achost-lxc-runtime/src/main.rs:1023-1030 | names that differ in one byte only never share a hash |
| `Addresses.ContainerNetworkSettings` | crates/achost-lxc-runtime/src/main.rs:991-1010 | the octet arithmetic gives the address at the name's hash and the gateway of the base; no cast truncates |
| `Addresses.DefaultNetwork` | crates/achost-lxc-runtime/src/main.rs:991-996 | a subnet that cannot be read stands for 172.32.0.0/16 |
| `Addresses.AddressesCount` | crates/achost-lxc-runtime/src/main.rs:999-1000 | hashes count the addresses up: the last octet from 2 to 254, then the one before it from 1 to 253 |
| `Addresses.CollisionIff` | crates/achost-lxc-runtime/src/main.rs:991-1010 | two names get the same address exactly if their hashes agree modulo 64009 |
| `Addresses.AddressUsable` | crates/achost-lxc-runtime/src/main.rs:991-1010 | never the gateway; up to a prefix of 16 bits in the subnet and neither network nor broadcast address |
| `Addresses.InSubnetIff` | crates/achost-lxc-runtime/src/main.rs:991-1010 | all hashes give addresses in the subnet if and only if the prefix has at most 16 bits |
| `Addresses.NeverInSubnet` | crates/achost-lxc-runtime/src/main.rs:998-1000 | from 24 bits on, a base whose third octet is 0 or above 253 leaves every container outside |
| `Addresses.BridgeGatewayCidr` | crates/achost-runtime-core/src/main.rs:1059-1074 | the loop over the dotted parts gives the gateway and copies the prefix text |
| `Addresses.StrictIffPlain` | crates/achost-lxc-runtime/src/main.rs:1012-1021 | the strict address parser accepts exactly plain octets between dots, and reads what a plain number parser reads |
| `Addresses.PlainIffDecimal` | crates/achost-lxc-runtime/src/main.rs:1012-1015 | plain octets are the decimals of the numbers up to 255 |
| `Addresses.U8Reads` | crates/achost-runtime-core/src/main.rs:1065-1068 | the plain number parser also takes a plus sign and leading zeros |
| `Addresses.U8Refuses` | crates/achost-runtime-core/src/main.rs:1065-1068 | and nothing without digits or with other characters |
| `Addresses.GatewayOfAcceptedSubnet` | crates/achost-runtime-core/src/main.rs:1059-1074 | for every subnet text that the container side accepts, the bridge gets the same gateway and prefix |
| `Addresses.GatewaysAgreeIff` | crates/achost-lxc-runtime/src/main.rs:991-1021 | for the texts that the bridge side accepts: they agree exactly for plainly written octets or the default network |
| `TextLines.LinesOfUnlines` | crates/achost-lxc-runtime/src/main.rs:1391-1406 | lines that are written and read again lose one carriage return each and nothing else |
| `TextLines.JoinThenNewline` | crates/achost-lxc-runtime/src/main.rs:1402-1405 | joined lines with a newline at the end are the lines with a newline each; without lines, one newline |
| `TextLines.UnlinesInjective` | crates/achost-lxc-runtime/src/main.rs:1874-1890 | different lines make different texts |
| `LxcConfigText.LxcStartAutoValue` | crates/achost-lxc-runtime/src/main.rs:1362-1370 | the loop returns the last value that parses, or off |
| `LxcConfigText.ToggleWords` | crates/achost-lxc-runtime/src/main.rs:1362-1380 | the words that switch on and off, and that any other word leaves the line before it in force |
| `LxcConfigText.GetAfterSet` | crates/achost-lxc-runtime/src/main.rs:1362-1406 | reading autostart after setting it gives the set value, for every text |
| `LxcConfigText.OthersAfterSet` | crates/achost-lxc-runtime/src/main.rs:1391-1406 | all other lines stay, in order, each without a final carriage return |
| `LxcConfigText.SecondSetOverwritesIff` | crates/achost-lxc-runtime/src/main.rs:1391-1406 | a second change overwrites the first if and only if no kept line ends in a carriage return |
| `LxcConfigText.DoubledCarriageReturn` | crates/achost-lxc-runtime/src/main.rs:1391-1406 | a text for which it does not |
| `LxcConfigText.UpsertLxcConfigValue` | crates/achost-lxc-runtime/src/main.rs:1874-1890 | the pushing loop gives the kept lines and the new one |
| `LxcConfigText.WrittenReadsBack` | crates/achost-lxc-runtime/src/main.rs:1884-1888 | a written line sets exactly its key to exactly its value |
| `LxcConfigText.OtherValueAfterUpsert` | crates/achost-lxc-runtime/src/main.rs:1874-1890 | an upsert changes the value of no key that does not start with the upserted one |
| `LxcConfigText.NetworkReadsBack` | crates/achost-lxc-runtime/src/main.rs:1855-1872 | after the pair of upserts address and gateway are read back, every other value and autostart are as before |
| `LxcConfigText.NetworkRepairTwiceIff` | crates/achost-lxc-runtime/src/main.rs:1855-1872 | the pair is idempotent if and only if no kept line ends in two carriage returns |
| `LxcConfigText.OneSettingIff` | crates/achost-lxc-runtime/src/main.rs:1874-1890 | after an upsert one line sets the key if and only if every line that set it before had a blank behind the key |
| `ContainerFiles.EnsureContainerNetwork` | crates/achost-lxc-runtime/src/main.rs:1855-1873 | on any tree: read, both upserts, write, then the guest network step, up to the first failure |
| `ContainerFiles.RepairedConfig` | crates/achost-lxc-runtime/src/main.rs:1855-1900 | afterwards the file holds both values and every other setting as before, if the guest step aims at nothing that a look-up of the file meets |
| `ContainerFiles.PlainRepair` | crates/achost-lxc-runtime/src/main.rs:1855-1900 | without links in the container: the file holds the upserted text, and nothing outside its root changes otherwise |
| `ContainerFiles.PlainRepairExactly` | crates/achost-lxc-runtime/src/main.rs:1855-1900 | when it fails, and every file that it leaves |
| `LxcConfigText.RewriteLxcStartAuto` | crates/achost-lxc-runtime/src/main.rs:1391-1406 | filtering, pushing and joining gives every kept line and the new one with a newline each |
| `ContainerFiles.SetContainerAutostart` | crates/achost-lxc-runtime/src/main.rs:1382-1389 | on any tree: validation, read, rewriting and write, up to the first failure |
| `ContainerFiles.SwitchReadsBack` | crates/achost-lxc-runtime/src/main.rs:1362-1389 | it succeeds if and only if the container exists and its file can be read, else it changes nothing; the file then reads as set |
| `ContainerFiles.RewrittenReadsBack` | crates/achost-lxc-runtime/src/main.rs:1382-1389 | through whatever links: what can be read can be written, reads back as written, and no other node changes |
| `WireProtocol.SendClientRequest` | crates/achost-supervise/src/main.rs:259-279 | the client's writes are the encoding up to the first string that is too long, and it reports that |
| `WireProtocol.NumberLayout` | crates/achost-supervise/src/main.rs:141-170 | a number's bytes, lowest first on a little-endian host |
| `WireProtocol.Layout` | crates/achost-supervise/src/main.rs:259-279 | where a request has its name, its pid file, the number of its arguments and the arguments |
| `WireProtocol.ArgumentLayout` | crates/achost-supervise/src/main.rs:259-279 | each argument stands behind its own length |
| `WireProtocol.ReadArgv` | crates/achost-supervise/src/main.rs:362-371 | the loop pushing arguments reads exactly the announced number or refuses |
| `WireProtocol.HandleClient` | crates/achost-supervise/src/main.rs:336-388 | a child is forked exactly for an accepted request, with its arguments; which refusal is answered; what happens if the fork or the pid file fails |
| `WireProtocol.DecodeEncoded` | crates/achost-supervise/src/main.rs:141-170 | the server decodes exactly what the client encoded and leaves what follows |
| `WireProtocol.EncodeDecoded` | crates/achost-supervise/src/main.rs:336-371 | whatever is accepted is the encoding of a valid request and the unread rest |
| `WireProtocol.TruncatedIsRefused` | crates/achost-supervise/src/main.rs:336-371 | no proper prefix of a request is accepted |
| `WireProtocol.DecodeExtends` | crates/achost-supervise/src/main.rs:336-371 | more input behind an accepted request changes nothing about it |
| `WireProtocol.ForkedIffValid` | crates/achost-supervise/src/main.rs:259-371 | what a client sends for any request, over the limits or not, is accepted if and only if the request is valid |
| `MountFields.NoNewEscape` | crates/achost-docker-runtime/src/main.rs:1733-1739 | replacing the first escapes never makes a later one appear |
| `MountFields.ReplaceDecoded` | crates/achost-docker-runtime/src/main.rs:1733-1739 | one more replacement pass over a decoded text decodes one more escape |
| `MountFields.FourPassesAreOne` | crates/achost-docker-runtime/src/main.rs:1733-1739 | the four passes are a single left-to-right decoder, on every text |
| `MountFields.CodesAreOctal` | crates/achost-docker-runtime/src/main.rs:1733-1739 | the digits of each escape are the octal value of its character, and the four characters are those that the kernel escapes |
| `MountFields.DecodeEscaped` | crates/achost-docker-runtime/src/main.rs:1733-1739 | decoding undoes the escaping of every path, also of one that contains the text of an escape |
| `MountFields.RecordReadBackIff` | crates/achost-docker-runtime/src/main.rs:1619-1638 | a printed mount record is read back exactly if its path has no whitespace but blanks, tabs and newlines |
| `MountTeardown.PrefixMeansBelow` | crates/achost-docker-runtime/src/main.rs:1593-1600 | the text prefix test selects exactly the mounts strictly below the chroot; for the root, all |
| `MountTeardown.RenderedPath` | crates/achost-docker-runtime/src/main.rs:1593-1597 | the text of the root, and of a path with one more name |
| `MountTeardown.SortMountsDeepestFirst` | crates/achost-docker-runtime/src/main.rs:1647-1656 | the sort in place gives a permutation ordered deepest first |
| `MountTeardown.PrecedesIff` | crates/achost-docker-runtime/src/main.rs:1647-1656 | of two different mounts the deeper goes first, then the longer text, then the greater at the first difference |
| `MountTeardown.SortedOnce` | crates/achost-docker-runtime/src/main.rs:1647-1656 | so the sorted list is determined by the mounts alone |
| `MountTeardown.BelowComesFirst` | crates/achost-docker-runtime/src/main.rs:1647-1656 | in the sorted list every mount stands before all its ancestors |
| `MountTeardown.ChrootMounts` | crates/achost-docker-runtime/src/main.rs:1593-1603 | the selected mounts, each as often as it is mounted, deepest first |
| `MountTeardown.MountTable.UnmountPath` | crates/achost-docker-runtime/src/main.rs:1698-1707 | the plain unmount and its lazy fallback together remove the mount; lazy only if the plain one fails |
| `MountTeardown.Sweep` | crates/achost-docker-runtime/src/main.rs:1564-1572 | one sweep removes all mounts below the chroot, leaves the others in order, never tries a mount with a mounted child, and is lazy exactly for mounts in use |
| `MountTeardown.UnmountChroot` | crates/achost-docker-runtime/src/main.rs:1558-1582 | the whole teardown in closed form, including copies mounted at the chroot itself |
| `MountTeardown.CopiesLeft` | crates/achost-docker-runtime/src/main.rs:1574-1581 | of the copies mounted at the chroot itself at most four go, the others stay in order |
| `MountTeardown.DistinctTeardown` | crates/achost-docker-runtime/src/main.rs:1558-1582 | with distinct mount points exactly the mounts neither at nor below the chroot remain |
| `StopProcesses.GroupsAreSafe` | crates/achost-docker-runtime/src/main.rs:1709-1711 | a pid that is acted on never turns into a process group by the cast, though a pid file may name one that would |
| `StopProcesses.CastWraps` | crates/achost-docker-runtime/src/main.rs:1709-1711 | the cast is the signed 32-bit number of the same remainder |
| `StopProcesses.Host.StopPidFileAny` | crates/achost-docker-runtime/src/main.rs:1344-1384 | the named process is gone if it is ours, nothing else is touched, the pid file is removed, exactly the lost process got signals, and SIGKILL exactly if it does not exit within ten seconds of SIGTERM |
| `StopProcesses.Host.PidsFor` | crates/achost-docker-runtime/src/main.rs:1433-1470 | exactly the matching pids in ascending order, whatever order `/proc` is read in |
| `StopProcesses.Host.StopPidList` | crates/achost-docker-runtime/src/main.rs:1414-1431 | exactly the listed processes are gone; SIGKILL went exactly to those that do not exit within a second of SIGTERM |
| `StopProcesses.Host.StopOwned` | crates/achost-docker-runtime/src/main.rs:1404-1412 | exactly the matching processes are gone |
| `StopProcesses.RunStop` | crates/achost-docker-runtime/src/main.rs:1232-1264 | the table and the files are those of the eight steps in order, the processes that got a signal are exactly those that are gone, and none that exits within a second of SIGTERM got SIGKILL |
| `StopProcesses.RunExactly` | crates/achost-docker-runtime/src/main.rs:1238-1251 | any sequence of steps removes exactly the processes that some step aims at in the initial state |
| `StopOutcome.ArgsOfCmdLine` | crates/achost-docker-runtime/src/main.rs:1495-1504 | the arguments read from the kernel's NUL-separated text are those that are not empty |
| `StopOutcome.PlainPathsDiffer` | crates/achost-docker-runtime/src/main.rs:1472-1480 | absolute paths of plain names are the same exactly if they are the same text |
| `StopOutcome.SpellingDoesNotCount` | crates/achost-docker-runtime/src/main.rs:1472-1480 | repeated slashes, inner dots and a slash at the end do not count |
| `StopOutcome.FrontCounts` | crates/achost-docker-runtime/src/main.rs:1472-1480 | a slash or a dot at the front of a name does |
| `StopOutcome.PidTextRead` | crates/achost-docker-runtime/src/main.rs:1718-1724 | a pid file's number is read through blanks around it, exactly if it is a pid |
| `StopOutcome.StoppedIff` | crates/achost-docker-runtime/src/main.rs:1232-1264 | from link, command line and the texts of the pid files: a process is gone if and only if it goes by the daemon's name and runs its executable, runs the core with `net-watchdog` behind the first argument, or is named by a pid file whose executable it runs |
| `StopOutcome.OnlyOursAreStopped` | crates/achost-docker-runtime/src/main.rs:1472-1493 | a process whose link and first argument are none of our six executables is there afterwards as it was, whatever its further arguments |
| `StopProcesses.NothingOfOursRemains` | crates/achost-docker-runtime/src/main.rs:1232-1264 | afterwards a search for dockerd, containerd or the network watchdog finds nothing |
| `StopProcesses.DaemonSurvivesIff` | crates/achost-docker-runtime/src/main.rs:1433-1452 | for dockerd and for containerd: one that is ours outlives the stop exactly if it goes by another name and no other step aims at it |
| `StopProcesses.StopTwice` | crates/achost-docker-runtime/src/main.rs:1232-1264 | stopping twice is stopping once |
| `ConfigMerge.ReadConfigValues` | achost/config_merge.py:77-88 | the loop over lines keeps the last value of a symbol and the order of first mentions |
| `ConfigMerge.PythonCodes` | achost/config_merge.py:77-92 | the characters at which a line ends, and those that are stripped |
| `ConfigMerge.SettingLineRead` | achost/config_merge.py:91-99 | a line `CONFIG_X=v`, with blanks around it, gives the symbol and the value, further equals signs included |
| `ConfigMerge.UnsetLineRead` | achost/config_merge.py:91-99 | a line `# CONFIG_X is not set`, with blanks around it, gives the symbol and "not set" |
| `ConfigMerge.OtherLineRead` | achost/config_merge.py:91-99 | every line of neither form is no setting |
| `ConfigMerge.RenderConfig` | achost/config_merge.py:102-110 | the printed lines joined by newlines, with one at the end |
| `ConfigMerge.MergeConfigFiles` | achost/config_merge.py:24-74 | text, change log with the fragment of each change, fragment list and the four counts of the report; a missing file fails before anything is written |
| `ConfigMerge.LastWins` | achost/config_merge.py:40-49 | every symbol has the value of its last mention, or its old one, and old symbols keep their places |
| `ConfigMerge.ApplyTwice` | achost/config_merge.py:40-49 | merging the same fragments again changes nothing, even if they contradict each other |
| `ConfigMerge.LogReplays` | achost/config_merge.py:41-58 | replaying the change log on the base gives the merged values, where an absent symbol reads as "missing" |
| `ConfigMerge.ChangesNameTheirFragment` | achost/config_merge.py:41-58 | every logged change changes something, and names a fragment that gives the symbol this value |
| `ConfigMerge.AddedBalance` | achost/config_merge.py:66-71 | the count of added symbols, less the changes to the value "missing", is the growth in symbols with another value |
| `ConfigMerge.AddedIsAdded` | achost/config_merge.py:66-71 | it is the number of new symbols if nothing has the value "missing" |
| `ConfigMerge.MissingIsNotLogged` | achost/config_merge.py:43-58 | a new symbol with that value is in the output, but neither logged nor counted |
| `ConfigMerge.ParsedIsReadable` | achost/config_merge.py:91-99 | what the parser gives is always something that a line can carry |
| `ConfigMerge.ShownParsesIff` | achost/config_merge.py:91-110 | a printed setting is parsed back exactly if it is set or its name does not hold " is not set" |
| `ConfigMerge.ReadAfterRenderIff` | achost/config_merge.py:77-110 | reading what was rendered gives the values and their order back exactly under that condition |
| `ConfigMerge.IdentifiersReadBack` | achost/config_merge.py:91-110 | a symbol without blanks always meets it |
| `ConfigRemerge.RenderInjective` | achost/config_merge.py:102-110 | different tables are printed as different texts |
| `ConfigRemerge.ApplyOrder` | achost/config_merge.py:40-49 | new symbols come behind the old ones, in the order of their first mention |
| `ConfigRemerge.ReadValue` | achost/config_merge.py:77-110 | the value of every symbol that is read from a printed table whose lost settings come last |
| `ConfigRemerge.RemergeLeavesText` | achost/config_merge.py:24-110 | merging the same fragments into the output leaves its text as it is if and only if the settings that do not read back come last in the order of the fragments, and what is read in place of each is a symbol that is unset anyway or that the fragments set |
| `ConfigRemerge.RemergeChangesText` | achost/config_merge.py:24-110 | an input for every symbol where it does not |
| `ConfigRemerge.RestoredWithoutReadingBack` | achost/config_merge.py:24-110 | for every symbol a fragment that restores what is lost in between |

## Left out

Assumptions and omissions of the network part:

- `dry_run` is false. The cleanup of FORWARD ignores the flag (line 322), so a dry run is not a no-op and has no law of this kind.
- Commands that apply succeed: a failing `ip rule add`, an unreadable listing and a missing binary between two calls are not modelled. Sysctl values and log lines are left out.
- A rule is the list of tokens that the kernel prints for it, and the kernel prints a rule as it was given. Where `ip rule add` inserts among rules of the same priority is fixed to one choice; no result depends on it.
- The watchdog's pid file, its "already running" exit, its log lines and signal delivery are left out; time is counted in iterations.
- `NetWatchdogLaws.SelfStabilisation` assumes what its `Stable` predicate says: policy rules on, different priorities, an interval above zero, and bridge, subnet, uplink and iptables available.
- Creating the bridge (`ensure_bridge_ready`), detecting the uplink and reading subnets from command output are inputs of the model.

The container import:

- Tar and gzip formats, permissions, owners, times, extended attributes and devices are left out; an entry is its path, its kind and its data or link.
- A file entry for an existing file is taken to unlink it and create it exclusively; this is the behaviour of the archive library, which is not part of this model. A symlink with an empty text is refused by the kernel.
- Hard links are modelled as copies: a later write through one name is not seen through another. The extraction itself never writes through an existing file; a guest network file that shares its data with another name below the root changes that one too.
- The import is stated over transitions, not as a method, because it may be broken off at any moment; of its parts, the extraction and the guest network step are methods. What a broken-off entry leaves below the new root is arbitrary. Other processes do not change the tree meanwhile.
- Checking the asset's digest, JSON and the contents of the configuration and metadata files are inputs. Texts of files are taken to be valid UTF-8.

Passwords, addresses, texts:

- SHA-512 itself is a parameter, as are random bytes. Explicit round counts (`rounds=`) do not occur in the program.
- Rewriting `/etc/shadow` is left out.
- Names are byte strings; the two DNS servers are constants.
- What LXC itself does with a configuration text is not modelled; "the value of a key" is the last line that sets it.

The supervisor:

- Sockets, `fork`, `exec`, seccomp, `pivot_root`, signals and reaping children are left out but for their effect on the list of forked and terminated children.
- UTF-8 validity is a predicate parameter. A client's arguments number less than 2^32.

Docker stop:

- No process starts, changes its image or exits on its own during the stop, no pid is reused, and SIGKILL and reaping take effect at once. How long a process lives after SIGTERM is arbitrary.
- Command-line arguments that are not UTF-8 are dropped by the program; the model has only valid ones. Pid files are compared by the text of their paths.
- MountTeardown.MountTable.UnmountPath: a lazy unmount of a mounted path always succeeds in the model. Making the chroot's mounts private before the sweep (line 1562) changes no mount and is left out.
- A mount that hides the mounts below it, mounts that appear during the teardown, and the devices cgroup are left out. Octal escapes other than the four that the program knows (such as `\043`) are kept as they are, as the program does.
- The stop runs as root; for another user it ends at once. Starting the daemons, the stale rule cleanup in the stop command and its printed report are left out.

Kernel configuration merging:

- The labels of the fragments are inputs; resolving paths and the profile name in the report are left out.

Not modelled at all: the WebUI and its API, argument parsing and validators, package generation, kernel detection, profile tables, shell scripts, `kconfig_inject.py` and daemon start gating. They are finite lists, plumbing or smaller variants of what is here.
