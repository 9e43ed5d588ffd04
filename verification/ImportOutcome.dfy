/**
 What an import installs: exactly the extracted archive, the files of the guest network step and the two
 texts, however often it was writing when somebody looked; and when an archive can be installed at all.
 */
module ImportOutcome {
  import opened Addresses
  import opened ContainerImport
  import opened ContainerImportLaws
  import opened FileTree
  import opened GuestNetwork
  import opened GuestOutcome
  import opened Paths
  import opened RootfsExtract
  import opened RootfsLaws
  import opened RootfsSuccess
  import opened Wrappers

  /** The tree after the guest network step, and whether that succeeds. */
  function Guested(m: Import, t: Tree): (Tree, bool) {
    Finish(GuestFiles(m), MakeEtc, Filled(m, t).0)
  }

  function WithConfig(m: Import, t: Tree, text: string): Tree {
    t[Temp(m) + [CONFIG] := File(text)]
  }

  function WithMetadata(m: Import, t: Tree, text: string): Tree {
    t[Temp(m) + [METADATA] := File(text)]
  }

  /** All that is built, in its temporary directory. */
  function Built(m: Import, t: Tree): Tree {
    WithMetadata(m, WithConfig(m, Guested(m, t).0, m.config), m.metadata)
  }

  /** How much of it is there. */
  ghost predicate Content(m: Import, t0: Tree, s: State) {
    match s.phase
    case GuestNetwork(stage) => Filled(m, t0).1.Some? && Finish(GuestFiles(m), stage, s.t) == Guested(m, t0)
    case Configuring =>
      && Filled(m, t0).1.Some? && Guested(m, t0).1
      && (s.t == Guested(m, t0).0 || exists part :: s.t == WithConfig(m, Guested(m, t0).0, part))
    case Describing =>
      && Filled(m, t0).1.Some? && Guested(m, t0).1
      && var configured := WithConfig(m, Guested(m, t0).0, m.config);
      s.t == configured || exists part :: s.t == WithMetadata(m, configured, part)
    case Described => Filled(m, t0).1.Some? && Guested(m, t0).1 && s.t == Built(m, t0)
    case Installed =>
      Filled(m, t0).1.Some? && Guested(m, t0).1 && s.t == Renamed(Built(m, t0), Temp(m), Final(m))
    case _ => true
  }

  /** A guard that selects nothing: what holds of every import. */
  function Never(): NamePath -> bool {
    p => false
  }

  lemma NeverFits(m: Import, t: Tree)
    ensures FitGuard(m, t, Never()) && StaysOff(m, t, Never())
  {
    hide Filled, Extract, Targets;
  }

  /** A file half-written leads to the same end. */
  lemma SameEnd(g: Guest, stage: Stage, t: Tree, stage': Stage, t': Tree)
    requires WellFormed(t) && GuestNext(g, stage, t, stage', t') && stage != Done
    ensures Finish(g, stage', t') == Finish(g, stage, t)
  {
    hide WellFormed, WriteAt;
    if (t', Some(stage')) != Advance(g, stage, t) {
      var writing := WritingOf(g, stage).value;
      var at := WriteAt(t, writing.path).value;
      WriteAtFits(t, writing.path);
      assert exists part: string :: t' == t[at := File(part)];
      var part: string :| t' == t[at := File(part)];
      SameAfterWrite(t, at, part, writing.path);
      assert t'[at := File(writing.text)] == t[at := File(writing.text)];
    }
  }

  lemma ContentStart(m: Import, t0: Tree, s: State)
    requires Building(m, Never(), t0, s) && s.phase == Filling(|m.entries|)
    ensures Content(m, t0, State(s.t, GuestNetwork(MakeEtc)))
  {
    hide Extract, Fresh, Finish, GuestFiles, WellFormed, NoLinksIn, Agree, Rooted, SameOutside;
    assert m.entries[..|m.entries|] == m.entries;
  }

  lemma ContentNetworking(m: Import, t0: Tree, s: State, s': State)
    requires Ready(m, s.t) && Content(m, t0, s) && Next(m, s, s') && s.phase.GuestNetwork?
    ensures Content(m, t0, s')
  {
    hide GuestNext, WellFormed, GuestFiles, Filled, WithConfig, WithMetadata, Renamed, Finish, Guested, Built;
    DoneStays(GuestFiles(m), s.t, s');
    if s'.phase.GuestNetwork? && s.phase.stage != Done {
      SameEnd(GuestFiles(m), s.phase.stage, s.t, s'.phase.stage, s'.t);
    }
  }

  lemma DoneStays(g: Guest, t: Tree, s': State)
    ensures s'.phase.GuestNetwork? && GuestNext(g, Done, t, s'.phase.stage, s'.t) ==>
              s'.phase.stage == Done && s'.t == t
    ensures Finish(g, Done, t) == (t, true)
  {
  }

  /** Writing a file again overwrites what is there of it. */
  lemma ContentWriting(m: Import, t0: Tree, s: State, s': State)
    requires Ready(m, s.t) && Temp(m) in s.t && s.t[Temp(m)] == Dir && NoLinksIn(Temp(m), s.t)
    requires Content(m, t0, s) && Next(m, s, s') && s.phase in {Configuring, Describing}
    ensures Content(m, t0, s')
  {
    hide Finish, GuestFiles, WellFormed, NoLinksIn, Filled, WriteAt, Guested, Renamed;
    var name, text := if s.phase == Configuring then CONFIG else METADATA,
                      if s.phase == Configuring then m.config else m.metadata;
    var path := Temp(m) + [name];
    if s'.phase != Failing {
      FileStep(m, s.t, name, text);
      var base := if s.phase == Configuring then Guested(m, t0).0 else WithConfig(m, Guested(m, t0).0, m.config);
      OverWritten(base, s.t, path);
      if s'.phase == s.phase {
        var part: string :| s'.t == s.t[path := File(part)];
        assert s'.t == if s.phase == Configuring then WithConfig(m, base, part) else WithMetadata(m, base, part);
      }
    }
  }

  lemma OverWritten(base: Tree, t: Tree, path: NamePath)
    ensures t == base || (exists part: string :: t == base[path := File(part)]) ==>
              forall text: string :: t[path := File(text)] == base[path := File(text)]
  {
  }

  lemma ContentKept(m: Import, t0: Tree, s: State, s': State)
    requires Ready(m, t0) && Building(m, Never(), t0, s) && Content(m, t0, s) && Next(m, s, s')
    ensures Content(m, t0, s')
  {
    hide WellFormed, NoLinksIn, Agree, Rooted, SameOutside, Extract, Fresh, Finish, GuestFiles, WriteAt, Present;
    if s.phase.Filling? && s'.phase.GuestNetwork? {
      ContentStart(m, t0, s);
    } else if s.phase.GuestNetwork? {
      ContentNetworking(m, t0, s, s');
    } else if s.phase in {Configuring, Describing} {
      ContentWriting(m, t0, s, s');
    }
  }

  lemma {:induction false} ContentOfRun(m: Import, t: Tree, run: seq<State>, i: nat)
    requires Ready(m, t) && !Hidden(m.name) && IsRun(m, t, run) && i < |run|
    ensures Content(m, t, run[i])
  {
    hide Next, Content, Building, StaysOff, FitGuard, NewContainer;
    if i > 0 {
      NeverFits(m, t);
      ContentOfRun(m, t, run, i - 1);
      RunKeepsInvariant(m, Never(), t, run, i - 1);
      NothingAfterInstalled(m, run[i - 1], run[i]);
      ContentKept(m, t, run[i - 1], run[i]);
    } else {
      NothingYet(m, t);
    }
  }

  lemma NothingAfterInstalled(m: Import, s: State, s': State)
    requires Next(m, s, s')
    ensures s.phase != Installed
  {
  }

  lemma NothingYet(m: Import, t: Tree)
    ensures Content(m, t, State(t, Checking))
  {
  }

  /** Whatever a run that completes went through, it installs exactly this. */
  lemma InstalledIs(m: Import, t: Tree, run: seq<State>, i: nat)
    requires Ready(m, t) && !Hidden(m.name) && IsRun(m, t, run) && i < |run| && run[i].phase == Installed
    ensures Filled(m, t).1.Some? && Guested(m, t).1
    ensures run[i].t == Renamed(Built(m, t), Temp(m), Final(m))
    ensures HasFile(run[i].t, m.containers + [m.name, "config"], m.config)
    ensures HasFile(run[i].t, m.containers + [m.name, "achost-container.json"], m.metadata)
  {
    hide IsRun, Filled, Guested, Renamed, Built, StaysOff, FitGuard, WellFormed;
    ContentOfRun(m, t, run, i);
    NeverFits(m, t);
    RunKeepsInvariant(m, Never(), t, run, i);
    assert Final(m) + [CONFIG] == m.containers + [m.name, "config"];
    assert Final(m) + [METADATA] == m.containers + [m.name, "achost-container.json"];
  }

  // ---- An import that nothing stops ----

  /** The archive puts no link where the step would follow one. */
  ghost predicate NoLinkFollowed(entries: seq<Entry>) {
    forall i, text :: 0 <= i < |entries| && PlacesLink(entries, i, text) ==>
      SafeRelative(entries[i].path).value !in FollowedPaths()
  }

  lemma NothingFollowed(m: Import, t: Tree)
    requires Ready(m, t) && NoLinkFollowed(m.entries)
    ensures NothingToFollow(GuestFiles(m), Filled(m, t).0) && GuestReady(GuestFiles(m), Filled(m, t).0)
  {
    hide Extract, WellFormed, PlacesLink, FollowedPaths, SafeRelative, Fresh, GuestFiles;
    var root, now := Rootfs(m), Filled(m, t).0;
    GuestFilesOf(m);
    FreshReady(m, t);
    FilledReady(m, t);
    assert m.entries[..|m.entries|] == m.entries;
    LinksComeFromEntries(Fresh(m, t), root, m.entries, |m.entries|);
    forall p | p in FollowedPaths() && root + p in now ensures !now[root + p].Link? {
      FollowedAreBelow(root, p);
      NothingPlacedAt(m.entries, p);
    }
  }

  /**
   An archive whose entries fit one another, without links at the paths of the guest step and with room for
   its files, is installed by some run, and every run that completes installs exactly this.
   */
  lemma PlainImport(m: Import, t: Tree) returns (run: seq<State>)
    requires Ready(m, t) && !Hidden(m.name) && Final(m) !in t && Clearable(m, t)
    requires forall i :: 0 <= i < |m.entries| ==> EntryFits(m.entries, i)
    requires NoLinkFollowed(m.entries) && HasRoom(GuestFiles(m), Filled(m, t).0)
    ensures Filled(m, t).1 == Some(Placing(m.entries))
    ensures var g, filled := GuestFiles(m), Filled(m, t).0;
            Guested(m, t) == (WithNetwork(g, filled, WithNetplan(g, filled, WithResolv(g, filled))), true)
    ensures run != [] && IsRun(m, t, run)
    ensures run[|run| - 1] == State(Renamed(Built(m, t), Temp(m), Final(m)), Installed)
  {
    hide IsRun, Filled, Guested, Finish, Spares, GuestFiles, WellFormed, Renamed, EntryFits, HasRoom, Built, Clearable;
    hide NoLinkFollowed, Present, WithNetwork, WithNetplan, WithResolv;
    PlainParts(m, t);
    MissingNotPresent(m, t);
    GuestedIsFinish(m, t);
    run := InstallRun(m, t);
    InstalledIs(m, t, run, |run| - 1);
  }

  lemma GuestedIsFinish(m: Import, t: Tree)
    ensures Guested(m, t) == Finish(GuestFiles(m), MakeEtc, Filled(m, t).0)
  {
  }

  lemma PlainParts(m: Import, t: Tree)
    requires Ready(m, t) && NoLinkFollowed(m.entries) && HasRoom(GuestFiles(m), Filled(m, t).0)
    requires forall i :: 0 <= i < |m.entries| ==> EntryFits(m.entries, i)
    ensures Filled(m, t).1 == Some(Placing(m.entries))
    ensures var g, filled := GuestFiles(m), Filled(m, t).0;
            Guested(m, t) == (WithNetwork(g, filled, WithNetplan(g, filled, WithResolv(g, filled))), true)
    ensures Spares(GuestFiles(m), OutsideRootfs(m), MakeEtc, Filled(m, t).0)
  {
    hide Extract, Finish, Spares, GuestFiles, WellFormed, Fresh, EntryFits, HasRoom, Placing, Ready, GuestReady;
    hide NoLinkFollowed, NothingToFollow, WithNetwork, WithNetplan, WithResolv;
    ExtractedFully(m, t);
    NothingFollowed(m, t);
    PlainFinish(GuestFiles(m), Filled(m, t).0);
    GuestFilesOf(m);
    OutsideRootfsRooted(m, Filled(m, t).0);
    NothingOutsideRootfs(m);
    PlainSpares(GuestFiles(m), OutsideRootfs(m), MakeEtc, Filled(m, t).0);
  }

  lemma ExtractedFully(m: Import, t: Tree)
    requires Ready(m, t) && forall i :: 0 <= i < |m.entries| ==> EntryFits(m.entries, i)
    ensures Filled(m, t).1 == Some(Placing(m.entries))
  {
    hide Extract, WellFormed, Fresh, EntryFits, Placing;
    FreshReady(m, t);
    ExtractSucceedsIff(Fresh(m, t), Rootfs(m), m.entries);
    SuccessCounts(Fresh(m, t), Rootfs(m), m.entries);
  }

  lemma NothingOutsideRootfs(m: Import)
    ensures forall p :: Under(Rootfs(m), p) ==> !OutsideRootfs(m)(p)
  {
  }
}
