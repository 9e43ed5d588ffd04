/**
 What an import promises: what it leaves alone, exactly when; which containers a listing shows; and the
 runs in which less is true.
 */
module ContainerImportLaws {
  import opened Addresses
  import opened ContainerImport
  import opened FileTree
  import opened GuestNetwork
  import opened Paths
  import opened RootfsExtract
  import opened RootfsLaws
  import opened Wrappers

  // ---- Runs ----

  lemma FreshReady(m: Import, t: Tree)
    requires Ready(m, t)
    ensures Ready(m, Cleared(m, t)) && Temp(m) !in Cleared(m, t) && SameOutside(t, Cleared(m, t), Temp(m))
    ensures Rootfs(m) !in Cleared(m, t)[Temp(m) := Dir]
    ensures Fit(Fresh(m, t), Rootfs(m)) && SameOutside(t, Fresh(m, t), Temp(m))
    ensures forall p :: p in Fresh(m, t) ==> !Below(Rootfs(m), p)
  {
    var cleared := Cleared(m, t);
    ContainersOutsideTemp(m);
    UnderTemp(m, []);
    UnderTemp(m, [ROOTFS]);
    assert Temp(m) + [] == Temp(m);
    forall p | p in cleared && p != [] ensures Parent(p) in cleared && cleared[Parent(p)] == Dir {
      UnderParent(Temp(m), p);
    }
    DirFits(cleared, Temp(m));
    DirFits(cleared[Temp(m) := Dir], Rootfs(m));
    forall p | Below(Rootfs(m), p) ensures Under(Temp(m), p) && p != Temp(m) {
      assert p[..|Rootfs(m)|][..|Temp(m)|] == p[..|Temp(m)|];
    }
  }

  lemma Extend(m: Import, t: Tree, run: seq<State>, s: State)
    requires IsRun(m, t, run) && Next(m, run[|run| - 1], s)
    ensures IsRun(m, t, run + [s])
  {
    hide Next;
    var longer := run + [s];
    forall i | 0 <= i < |longer| - 1 ensures Next(m, longer[i], longer[i + 1]) {
      if i == |run| - 1 {
        assert longer[i + 1] == s;
      }
    }
  }

  lemma StartRun(m: Import, t: Tree) returns (run: seq<State>)
    requires Ready(m, t) && !Present(t, Final(m)) && Clearable(m, t)
    ensures run != [] && IsRun(m, t, run) && run[|run| - 1] == State(Fresh(m, t), Filling(0))
  {
    hide Present, IsRun, Clearable;
    FreshReady(m, t);
    run := [State(t, Checking)];
    assert IsRun(m, t, run) by {
      OneState(m, t);
    }
    var cleared := Cleared(m, t);
    run := ExtendBy(m, t, run, State(t, Clearing));
    run := ExtendBy(m, t, run, State(cleared, Clearing));
    run := ExtendBy(m, t, run, State(cleared[Temp(m) := Dir], Making));
    run := ExtendBy(m, t, run, State(Fresh(m, t), Filling(0)));
  }

  lemma OneState(m: Import, t: Tree)
    ensures IsRun(m, t, [State(t, Checking)])
  {
  }

  lemma ExtendBy(m: Import, t: Tree, run: seq<State>, s: State) returns (longer: seq<State>)
    requires run != [] && IsRun(m, t, run) && Next(m, run[|run| - 1], s)
    ensures longer != [] && IsRun(m, t, longer) && longer[|longer| - 1] == s
  {
    Extend(m, t, run, s);
    longer := run + [s];
  }

  /** A run up to any entry that the extraction reaches. */
  lemma {:induction false} FillRun(m: Import, t: Tree, n: nat) returns (run: seq<State>)
    requires Ready(m, t) && !Present(t, Final(m)) && Clearable(m, t) && n <= |m.entries|
    requires Extract(Fresh(m, t), Rootfs(m), m.entries[..n]).1.Some?
    ensures run != [] && IsRun(m, t, run)
    ensures run[|run| - 1] == State(Extract(Fresh(m, t), Rootfs(m), m.entries[..n]).0, Filling(n))
  {
    hide IsRun, Step, Present, Clearable;
    if n == 0 {
      run := StartRun(m, t);
    } else {
      assert m.entries[..n][..n - 1] == m.entries[..n - 1];
      run := FillRun(m, t, n - 1);
      run := ExtendBy(m, t, run, State(Extract(Fresh(m, t), Rootfs(m), m.entries[..n]).0, Filling(n)));
    }
  }

  lemma GuestStartRun(m: Import, t: Tree) returns (run: seq<State>)
    requires Ready(m, t) && !Present(t, Final(m)) && Clearable(m, t) && Filled(m, t).1.Some?
    ensures run != [] && IsRun(m, t, run)
    ensures run[|run| - 1] == State(Filled(m, t).0, GuestNetwork(MakeEtc))
  {
    hide IsRun, Extract, Present, Clearable;
    assert m.entries[..|m.entries|] == m.entries;
    run := FillRun(m, t, |m.entries|);
    run := ExtendBy(m, t, run, State(Filled(m, t).0, GuestNetwork(MakeEtc)));
  }

  /** The step as the program performs it, up to its end, is a run of the transition system. */
  lemma {:induction false} FinishRun(m: Import, t: Tree, run: seq<State>, stage: Stage) returns (longer: seq<State>)
    requires run != [] && IsRun(m, t, run) && run[|run| - 1].phase == GuestNetwork(stage)
    requires Finish(GuestFiles(m), stage, run[|run| - 1].t).1
    ensures longer != [] && IsRun(m, t, longer)
    ensures longer[|longer| - 1] == State(Finish(GuestFiles(m), stage, run[|run| - 1].t).0, GuestNetwork(Done))
    decreases Left(stage)
  {
    hide IsRun, Advance, PartWritten, GuestFiles;
    longer := run;
    if stage != Done {
      var (after, next) := Advance(GuestFiles(m), stage, run[|run| - 1].t);
      longer := ExtendBy(m, t, run, State(after, GuestNetwork(next.value)));
      longer := FinishRun(m, t, longer, next.value);
    }
  }

  lemma FilledReady(m: Import, t: Tree)
    requires Ready(m, t)
    ensures GuestReady(GuestFiles(m), Filled(m, t).0) && SameOutside(t, Filled(m, t).0, Temp(m))
  {
    hide Extract, WellFormed, GuestFiles, Fresh, SameOutside;
    GuestFilesOf(m);
    FreshReady(m, t);
    ExtractionConfined(Fresh(m, t), Rootfs(m), m.entries, 0);
    ConfinedIsOutside(Fresh(m, t), Filled(m, t).0, Rootfs(m));
    RootfsInTemp(m, Fresh(m, t), Filled(m, t).0);
    SameOutsideTwice(t, Fresh(m, t), Filled(m, t).0, Temp(m));
  }

  // ---- What an import leaves alone ----

  /** If something selected is a target, a run goes there. */
  lemma {:induction false} EscapeRun(m: Import, guard: NamePath -> bool, t: Tree, run: seq<State>, stage: Stage)
    returns (longer: seq<State>)
    requires run != [] && IsRun(m, t, run) && run[|run| - 1].phase == GuestNetwork(stage)
    requires var now := run[|run| - 1].t;
             && GuestReady(GuestFiles(m), now) && Agree(guard, t, now) && Rooted(guard, now)
             && !Spares(GuestFiles(m), guard, stage, now)
    ensures longer != [] && IsRun(m, t, longer) && !Untouched(m, guard, t, longer[|longer| - 1])
    decreases Left(stage)
  {
    hide IsRun, Spares, GuestNext, WellFormed, GuestFiles, Agree, Rooted, Untouched;
    var now, g := run[|run| - 1].t, GuestFiles(m);
    GuestFilesOf(m);
    var stage', t' := EscapeStep(g, guard, stage, now);
    longer := ExtendBy(m, t, run, State(t', GuestNetwork(stage')));
    AgreeTwice(guard, t, now, t');
    UntouchedWhileBuilding(m, guard, t, State(t', GuestNetwork(stage')));
    if Agree(guard, now, t') {
      GuestKeeps(g, stage, now, stage', t');
      StaysRooted(guard, now, t');
      longer := EscapeRun(m, guard, t, longer, stage');
    }
  }

  lemma UntouchedWhileBuilding(m: Import, guard: NamePath -> bool, t: Tree, s: State)
    requires s.phase != Installed
    ensures Untouched(m, guard, t, s) <==> Agree(guard, t, s.t)
  {
  }

  /**
   For everything outside the temporary directory: every moment of every run leaves it alone, up to the
   new container after the rename, if and only if `StaysOff`.
   */
  lemma ImportSparesIff(m: Import, t: Tree, guard: NamePath -> bool)
    requires Ready(m, t) && !Hidden(m.name) && FitGuard(m, t, guard)
    ensures (forall run: seq<State>, i: int :: IsRun(m, t, run) && 0 <= i < |run| ==>
               Untouched(m, guard, t, run[i])) <==>
            StaysOff(m, t, guard)
  {
    hide IsRun, Spares, Extract, Present, WellFormed, GuestFiles, Fresh, Clearable, FitGuard, Untouched, Invariant;
    if StaysOff(m, t, guard) {
      forall run: seq<State>, i: int | IsRun(m, t, run) && 0 <= i < |run| ensures Untouched(m, guard, t, run[i]) {
        RunKeepsInvariant(m, guard, t, run, i);
        InvariantIsUntouched(m, guard, t, run[i]);
      }
    } else {
      var run := GuestStartRun(m, t);
      FilledReady(m, t);
      AgreeOutside(m, guard, t, t, Filled(m, t).0);
      RootedOutside(m, guard, t, Filled(m, t).0);
      run := EscapeRun(m, guard, t, run, MakeEtc);
      assert !Untouched(m, guard, t, run[|run| - 1]);
    }
  }

  lemma InvariantIsUntouched(m: Import, guard: NamePath -> bool, t: Tree, s: State)
    requires Invariant(m, guard, t, s)
    ensures Untouched(m, guard, t, s)
  {
  }

  /** In particular all but the temporary directory. */
  lemma ImportConfinedIff(m: Import, t: Tree)
    requires Ready(m, t) && !Hidden(m.name)
    ensures (forall run: seq<State>, i: int :: IsRun(m, t, run) && 0 <= i < |run| ==>
               Untouched(m, OutsideTemp(m), t, run[i])) <==>
            StaysInside(m, t)
  {
    hide IsRun, Untouched, StaysOff;
    OutsideTempFits(m, t);
    ImportSparesIff(m, t, OutsideTemp(m));
  }

  /** What lies in a container that is listed. */
  function InListed(m: Import, t: Tree): NamePath -> bool {
    (p: NamePath) =>
      |p| > |m.containers| && p[..|m.containers|] == m.containers && Listed(t, m.containers, p[|m.containers|])
  }

  lemma InListedFits(m: Import, t: Tree)
    requires Ready(m, t)
    ensures FitGuard(m, t, InListed(m, t))
  {
    hide Listed, WellFormed;
    var guard := InListed(m, t);
    forall p: NamePath, name: string | guard(p + [name]) ensures guard(p) || (p in t && t[p] == Dir) {
      if |p| == |m.containers| {
        assert p == (p + [name])[..|m.containers|];
      } else {
        assert (p + [name])[..|m.containers|] == p[..|m.containers|];
      }
    }
    forall p | guard(p) ensures !Under(Temp(m), p) {
      var name := p[|m.containers|];
      ListedIsShown(t, m.containers, name);
      TempIsOther(m, name);
      assert p[..|m.containers| + 1] == m.containers + [name];
      assert Under(m.containers + [name], p);
    }
  }

  lemma ListedIsShown(t: Tree, containers: NamePath, name: string)
    ensures Listed(t, containers, name) ==> !Hidden(name) && ValidName(name) && containers + [name] in t
    ensures Listed(t, containers, name) ==> t[containers + [name]] == Dir
  {
  }

  lemma ListedPaths(m: Import, t: Tree, name: string, p: NamePath)
    requires Under(m.containers + [name], p)
    ensures InListed(m, t)(p) <==> Listed(t, m.containers, name)
  {
    hide Listed;
    assert p[..|m.containers| + 1] == m.containers + [name];
    assert p[|m.containers|] == (m.containers + [name])[|m.containers|] == name;
    assert p[..|m.containers|] == (m.containers + [name])[..|m.containers|];
  }

  /** An import never modifies a listed container, exactly if it gives up or writes, links resolved, in none. */
  lemma ListedSparedIff(m: Import, t: Tree)
    requires Ready(m, t) && !Hidden(m.name)
    ensures (forall run: seq<State>, i: int, name: string ::
               IsRun(m, t, run) && 0 <= i < |run| && Listed(t, m.containers, name) ==>
               SameUnder(t, run[i].t, m.containers + [name])) <==>
            StaysOff(m, t, InListed(m, t))
  {
    hide IsRun, StaysOff, Listed, Untouched, SameUnder, InListed, Present;
    var guard := InListed(m, t);
    InListedFits(m, t);
    ImportSparesIff(m, t, guard);
    if forall run: seq<State>, i: int :: IsRun(m, t, run) && 0 <= i < |run| ==> Untouched(m, guard, t, run[i]) {
      forall run: seq<State>, i: int, name: string | IsRun(m, t, run) && 0 <= i < |run| && Listed(t, m.containers, name)
        ensures SameUnder(t, run[i].t, m.containers + [name])
      {
        RunKeepsInvariant(m, guard, t, run, i);
        SpareIsSame(m, t, run[i], name);
      }
    } else {
      var run: seq<State>, i: int :| IsRun(m, t, run) && 0 <= i < |run| && !Untouched(m, guard, t, run[i]);
      var name := TouchedName(m, t, run[i]);
      assert !SameUnder(t, run[i].t, m.containers + [name]);
    }
  }

  lemma SpareIsSame(m: Import, t: Tree, s: State, name: string)
    requires Untouched(m, InListed(m, t), t, s) && Listed(t, m.containers, name)
    requires s.phase == Installed ==> !Present(t, Final(m))
    requires Ready(m, t)
    ensures SameUnder(t, s.t, m.containers + [name])
  {
    hide Listed, InListed, Present, WellFormed;
    ListedIsShown(t, m.containers, name);
    if s.phase == Installed {
      NotPresentNotDir(t, Final(m));
    }
    forall p | Under(m.containers + [name], p)
      ensures (p in t <==> p in s.t) && (p in t ==> t[p] == s.t[p])
    {
      ListedPaths(m, t, name, p);
      if Under(Final(m), p) {
        assert p[..|m.containers| + 1][|m.containers|] == m.name;
        assert p[..|m.containers| + 1] == m.containers + [name];
      }
    }
  }

  lemma NotPresentNotDir(t: Tree, path: NamePath)
    requires WellFormed(t) && !Present(t, path)
    ensures path in t ==> t[path] != Dir
  {
    if path in t && t[path] == Dir {
      RootIsPlain(t, path);
      ResolvePlain(t, path);
      assert false;
    }
  }

  lemma TouchedName(m: Import, t: Tree, s: State) returns (name: string)
    requires !Untouched(m, InListed(m, t), t, s)
    ensures Listed(t, m.containers, name) && !SameUnder(t, s.t, m.containers + [name])
  {
    hide Listed;
    var p :| InListed(m, t)(p) && !((p in t <==> p in s.t) && (p in t ==> t[p] == s.t[p]));
    name := p[|m.containers|];
    assert p[..|m.containers| + 1] == m.containers + [name];
    assert Under(m.containers + [name], p);
  }

  /** A stale file, or a link that leads nowhere, ends every run before anything is made. */
  lemma {:induction false} StaleStaysInTheWay(m: Import, t: Tree, run: seq<State>, i: nat)
    requires IsRun(m, t, run) && i < |run|
    requires Temp(m) in t && (t[Temp(m)].File? || (t[Temp(m)].Link? && !Present(t, Temp(m))))
    ensures run[i].phase in {Checking, Clearing, Failing}
    ensures run[i].phase != Failing ==> run[i].t == t
  {
    hide Present, WellFormed, SameOutside;
    if i > 0 {
      StaleStaysInTheWay(m, t, run, i - 1);
      assert Next(m, run[i - 1], run[i]);
    }
  }

  /** An import gets as far as the extraction exactly if the name is free and what is stale there can go. */
  lemma StartsIff(m: Import, t: Tree)
    requires Ready(m, t)
    ensures (exists run: seq<State>, i: int :: IsRun(m, t, run) && 0 <= i < |run| && run[i].phase == Filling(0)) <==>
            && !Present(t, Final(m))
            && (Temp(m) in t ==> !t[Temp(m)].File? && (t[Temp(m)].Link? ==> Present(t, Temp(m))))
  {
    hide IsRun, Present;
    var free := Temp(m) in t ==> !t[Temp(m)].File? && (t[Temp(m)].Link? ==> Present(t, Temp(m)));
    if !Present(t, Final(m)) && free {
      var run := StartRun(m, t);
      assert run[|run| - 1].phase == Filling(0);
    }
    if !free {
      forall run: seq<State>, i: int | IsRun(m, t, run) && 0 <= i < |run| ensures run[i].phase != Filling(0) {
        StaleStaysInTheWay(m, t, run, i);
      }
    }
    if Present(t, Final(m)) {
      forall run: seq<State>, i: int | IsRun(m, t, run) && 0 <= i < |run| ensures run[i].phase != Filling(0) {
        TakenNameFails(m, t, run, i);
      }
    }
  }

  lemma {:induction false} TakenNameFails(m: Import, t: Tree, run: seq<State>, i: nat)
    requires IsRun(m, t, run) && i < |run| && Present(t, Final(m))
    ensures run[i].phase in {Checking, Failing}
    ensures run[i].phase == Checking ==> run[i].t == t
  {
    hide Present, WellFormed, SameOutside;
    if i > 0 {
      TakenNameFails(m, t, run, i - 1);
      assert Next(m, run[i - 1], run[i]);
    }
  }

  // ---- Which containers are listed ----

  /** The walk looks only at selected paths. */
  predicate StaysOn(t: Tree, guard: NamePath -> bool, at: NamePath, path: seq<Component>, budget: nat)
    decreases budget, |path|
  {
    if path == [] || at !in t || t[at] != Dir then true
    else
      match path[0]
      case Root => StaysOn(t, guard, [], path[1..], budget)
      case Here => StaysOn(t, guard, at, path[1..], budget)
      case Up => StaysOn(t, guard, Parent(at), path[1..], budget)
      case Name(n) =>
        var p := at + [n];
        && guard(p)
        && (p in t ==>
              if t[p].Link? then budget > 0 ==> StaysOn(t, guard, at, t[p].target + path[1..], budget - 1)
              else StaysOn(t, guard, p, path[1..], budget))
  }

  /** Whatever lies above something selected is selected too. */
  ghost predicate Upwards(guard: NamePath -> bool) {
    guard([]) && forall p :: guard(p) ==> guard(Parent(p))
  }

  /** Such a walk ends alike in trees that agree there. */
  lemma {:induction false} SameWalk(
      t: Tree, u: Tree, guard: NamePath -> bool, at: NamePath, path: seq<Component>, budget: nat)
    requires Agree(guard, t, u) && Upwards(guard) && guard(at) && StaysOn(t, guard, at, path, budget)
    ensures Walk(t, at, path, budget) == Walk(u, at, path, budget)
    decreases budget, |path|
  {
    if path != [] && at in t && t[at] == Dir {
      match path[0]
      case Root => SameWalk(t, u, guard, [], path[1..], budget);
      case Here => SameWalk(t, u, guard, at, path[1..], budget);
      case Up => SameWalk(t, u, guard, Parent(at), path[1..], budget);
      case Name(n) =>
        var p := at + [n];
        if p in t && t[p].Link? {
          if budget > 0 {
            SameWalk(t, u, guard, at, t[p].target + path[1..], budget - 1);
          }
        } else if p in t {
          SameWalk(t, u, guard, p, path[1..], budget);
        }
    }
  }

  /** Looking up the two files of a container, links followed, meets only selected paths. */
  predicate OnItsOwn(m: Import, t: Tree, guard: NamePath -> bool, name: string) {
    && StaysOn(t, guard, [], Names(m.containers + [name, CONFIG]), MAX_LINKS)
    && StaysOn(t, guard, [], Names(m.containers + [name, METADATA]), MAX_LINKS)
  }

  lemma ListedSame(m: Import, t: Tree, u: Tree, guard: NamePath -> bool, name: string)
    requires Agree(guard, t, u) && Upwards(guard) && guard(m.containers + [name]) && OnItsOwn(m, t, guard, name)
    ensures Listed(t, m.containers, name) <==> Listed(u, m.containers, name)
  {
    SameWalk(t, u, guard, [], Names(m.containers + [name, CONFIG]), MAX_LINKS);
    SameWalk(t, u, guard, [], Names(m.containers + [name, METADATA]), MAX_LINKS);
  }

  /** What neither the temporary directory nor the new container holds. */
  function OutsideBoth(m: Import): NamePath -> bool {
    (p: NamePath) => !Under(Temp(m), p) && !Under(Final(m), p)
  }

  lemma GuardsGoUp(m: Import)
    ensures Upwards(OutsideTemp(m)) && Upwards(OutsideBoth(m))
  {
    forall p | !Under(Temp(m), p) ensures !Under(Temp(m), Parent(p)) {
      UnderParent(Temp(m), p);
    }
    forall p | !Under(Final(m), p) ensures !Under(Final(m), Parent(p)) {
      UnderParent(Final(m), p);
    }
  }

  lemma ContainerSelected(m: Import, name: string)
    requires !Hidden(name)
    ensures OutsideTemp(m)(m.containers + [name])
    ensures name != m.name ==> OutsideBoth(m)(m.containers + [name])
  {
    TempIsOther(m, name);
    assert (m.containers + [name])[|m.containers|] == name && Final(m)[|m.containers|] == m.name;
  }

  /**
   All or nothing, wherever the run stopped. Before the rename the listing shows what it showed at the
   start, as far as it does not look into the temporary directory through links; after it, also the new,
   complete container, as far as it does not look there either. What was listed is never modified.
   */
  lemma ImportAllOrNothing(m: Import, t: Tree, run: seq<State>, i: nat)
    requires Ready(m, t) && !Hidden(m.name) && ValidName(m.name)
    requires StaysInside(m, t) && IsRun(m, t, run) && i < |run|
    ensures
      var now, done := run[i].t, run[i].phase == Installed;
      && (forall name :: !done && OnItsOwn(m, t, OutsideTemp(m), name) ==>
                         (Listed(now, m.containers, name) <==> Listed(t, m.containers, name)))
      && (forall name :: done && name != m.name && OnItsOwn(m, t, OutsideBoth(m), name) ==>
                         (Listed(now, m.containers, name) <==> Listed(t, m.containers, name)))
      && (!Present(t, Final(m)) ==> (Listed(now, m.containers, m.name) <==> done))
      && (done ==> Final(m) !in t && NewContainer(m, now))
      && (forall name :: Listed(t, m.containers, name) ==> SameUnder(t, now, m.containers + [name]))
  {
    hide Next, Listed, StaysOff, OnItsOwn, Building, NewContainer, WellFormed, Present;
    var now, done := run[i].t, run[i].phase == Installed;
    OutsideTempFits(m, t);
    RunKeepsInvariant(m, OutsideTemp(m), t, run, i);
    InvariantIsUntouched(m, OutsideTemp(m), t, run[i]);
    ContainerSelected(m, m.name);
    forall name | OnItsOwn(m, t, OutsideTemp(m), name) && !done
      ensures Listed(now, m.containers, name) <==> Listed(t, m.containers, name)
    {
      ListedBefore(m, t, run[i], name);
    }
    forall name | OnItsOwn(m, t, OutsideBoth(m), name) && done && name != m.name
      ensures Listed(now, m.containers, name) <==> Listed(t, m.containers, name)
    {
      ListedAfter(m, t, run[i], name);
    }
    if !Present(t, Final(m)) {
      NewNameListed(m, t, run[i]);
    }
    forall name | Listed(t, m.containers, name) ensures SameUnder(t, now, m.containers + [name]) {
      OldContainerSame(m, t, run[i], name);
    }
  }

  lemma ListedBefore(m: Import, t: Tree, s: State, name: string)
    requires s.phase != Installed && Untouched(m, OutsideTemp(m), t, s) && OnItsOwn(m, t, OutsideTemp(m), name)
    ensures Listed(t, m.containers, name) <==> Listed(s.t, m.containers, name)
  {
    hide OnItsOwn, Present;
    UntouchedWhileBuilding(m, OutsideTemp(m), t, s);
    GuardsGoUp(m);
    if !Hidden(name) {
      ContainerSelected(m, name);
      ListedSame(m, t, s.t, OutsideTemp(m), name);
    }
  }

  lemma ListedAfter(m: Import, t: Tree, s: State, name: string)
    requires Untouched(m, OutsideTemp(m), t, s) && OnItsOwn(m, t, OutsideBoth(m), name) && name != m.name
    ensures Listed(t, m.containers, name) <==> Listed(s.t, m.containers, name)
  {
    hide OnItsOwn, Present;
    GuardsGoUp(m);
    assert Agree(OutsideBoth(m), t, s.t);
    if !Hidden(name) {
      ContainerSelected(m, name);
      ListedSame(m, t, s.t, OutsideBoth(m), name);
    }
  }

  lemma NewNameListed(m: Import, t: Tree, s: State)
    requires Ready(m, t) && !Hidden(m.name) && ValidName(m.name) && !Present(t, Final(m))
    requires Invariant(m, OutsideTemp(m), t, s)
    ensures Listed(s.t, m.containers, m.name) <==> s.phase == Installed
  {
    hide Present, Building, WellFormed;
    InvariantIsUntouched(m, OutsideTemp(m), t, s);
    ContainerSelected(m, m.name);
    if s.phase == Installed {
      assert Final(m) + [CONFIG] == m.containers + [m.name, CONFIG];
      FileIsPresent(s.t, Final(m) + [CONFIG]);
    } else {
      NotPresentNotDir(t, Final(m));
    }
  }

  lemma FileIsPresent(t: Tree, path: NamePath)
    requires WellFormed(t) && path != [] && path in t && !t[path].Link?
    ensures Present(t, path)
  {
    AboveIsDir(t, path);
    ResolvePlain(t, path);
  }

  lemma OldContainerSame(m: Import, t: Tree, s: State, name: string)
    requires Ready(m, t) && Untouched(m, OutsideTemp(m), t, s) && Listed(t, m.containers, name)
    requires s.phase == Installed ==> !Present(t, Final(m))
    ensures SameUnder(t, s.t, m.containers + [name])
  {
    hide Listed, Present, WellFormed;
    ListedIsShown(t, m.containers, name);
    TempIsOther(m, name);
    if s.phase == Installed {
      NotPresentNotDir(t, Final(m));
      assert name != m.name;
      forall p | Under(m.containers + [name], p) ensures !Under(Final(m), p) {
        assert p[..|m.containers| + 1][|m.containers|] == name;
      }
    }
  }

  // ---- Names without links ----

  /** Nothing at the container's path or its two files is a link. */
  predicate IsPlainContainer(m: Import, t: Tree, name: string) {
    var dir := m.containers + [name];
    && (dir in t ==> !t[dir].Link?)
    && (dir + [CONFIG] in t ==> !t[dir + [CONFIG]].Link?)
    && (dir + [METADATA] in t ==> !t[dir + [METADATA]].Link?)
  }

  lemma {:induction false} PlainStaysOn(
      t: Tree, guard: NamePath -> bool, at: NamePath, path: NamePath, budget: nat)
    requires forall i :: 0 < i <= |path| ==>
               guard(at + path[..i]) && (at + path[..i] in t ==> !t[at + path[..i]].Link?)
    ensures StaysOn(t, guard, at, Names(path), budget)
    decreases |path|
  {
    if path != [] {
      var p := at + [path[0]];
      assert p == at + path[..1];
      assert Names(path)[1..] == Names(path[1..]);
      forall i | 0 < i <= |path[1..]| ensures p + path[1..][..i] == at + path[..i + 1] {
      }
      PlainStaysOn(t, guard, p, path[1..], budget);
    }
  }

  lemma PlainFile(m: Import, t: Tree, guard: NamePath -> bool, name: string, file: string)
    requires Ready(m, t) && Upwards(guard) && guard(m.containers + [name, file])
    requires NoLinkOn(t, m.containers + [name, file])
    ensures StaysOn(t, guard, [], Names(m.containers + [name, file]), MAX_LINKS)
  {
    var path := m.containers + [name, file];
    forall i | 0 < i <= |path| ensures guard([] + path[..i]) && ([] + path[..i] in t ==> !t[[] + path[..i]].Link?) {
      NoLinkPrefixes(t, path, i);
      PrefixSelected(guard, path, i);
    }
    PlainStaysOn(t, guard, [], path, MAX_LINKS);
  }

  lemma {:induction false} PrefixSelected(guard: NamePath -> bool, path: NamePath, i: nat)
    requires Upwards(guard) && guard(path) && i <= |path|
    ensures guard([] + path[..i])
    decreases |path|
  {
    if i < |path| {
      PrefixSelected(guard, Parent(path), i);
      assert Parent(path)[..i] == path[..i];
    } else {
      assert [] + path[..i] == path;
    }
  }

  lemma PlainIsOnItsOwn(m: Import, t: Tree, guard: NamePath -> bool, name: string)
    requires Ready(m, t) && IsPlainContainer(m, t, name) && Upwards(guard)
    requires guard(m.containers + [name, CONFIG]) && guard(m.containers + [name, METADATA])
    ensures OnItsOwn(m, t, guard, name)
  {
    hide StaysOn, NoLinkOn, WellFormed;
    var dir := m.containers + [name];
    RootIsPlain(t, m.containers);
    PlainName(t, m.containers, name);
    PlainName(t, dir, CONFIG);
    PlainName(t, dir, METADATA);
    assert dir + [CONFIG] == m.containers + [name, CONFIG] && dir + [METADATA] == m.containers + [name, METADATA];
    PlainFile(m, t, guard, name, CONFIG);
    PlainFile(m, t, guard, name, METADATA);
  }

  /** Without links a name is listed if it was, or is that of the new container, and nothing else changes. */
  lemma PlainListing(m: Import, t: Tree, run: seq<State>, i: nat, name: string)
    requires Ready(m, t) && !Hidden(m.name) && ValidName(m.name)
    requires StaysInside(m, t) && IsRun(m, t, run) && i < |run| && IsPlainContainer(m, t, name)
    ensures Listed(run[i].t, m.containers, name) <==>
            Listed(t, m.containers, name) || (run[i].phase == Installed && name == m.name)
  {
    hide IsRun, StaysInside, Present, OnItsOwn, IsPlainContainer, WellFormed;
    ImportAllOrNothing(m, t, run, i);
    GuardsGoUp(m);
    if !Hidden(name) {
      FilesSelected(m, name);
      PlainIsOnItsOwn(m, t, OutsideTemp(m), name);
      if name != m.name {
        PlainIsOnItsOwn(m, t, OutsideBoth(m), name);
      } else if run[i].phase == Installed {
        InstalledWasFree(m, t, run, i);
      }
    }
  }

  lemma InstalledWasFree(m: Import, t: Tree, run: seq<State>, i: nat)
    requires Ready(m, t) && !Hidden(m.name) && StaysInside(m, t) && IsRun(m, t, run) && i < |run|
    requires run[i].phase == Installed
    ensures !Present(t, Final(m))
  {
    hide IsRun, StaysOff, Present;
    OutsideTempFits(m, t);
    RunKeepsInvariant(m, OutsideTemp(m), t, run, i);
  }

  lemma FilesSelected(m: Import, name: string)
    requires !Hidden(name)
    ensures OutsideTemp(m)(m.containers + [name, CONFIG]) && OutsideTemp(m)(m.containers + [name, METADATA])
    ensures name != m.name ==>
              OutsideBoth(m)(m.containers + [name, CONFIG]) && OutsideBoth(m)(m.containers + [name, METADATA])
  {
    TempIsOther(m, name);
    var dir, c, d := m.containers + [name], m.containers + [name, CONFIG], m.containers + [name, METADATA];
    assert c[..|dir|] == dir && d[..|dir|] == dir;
    assert c[|m.containers|] == name && d[|m.containers|] == name && Final(m)[|m.containers|] == m.name;
  }

  // ---- Tests on the archive ----

  /** An archive that puts no link where the step would follow one is imported all or nothing. */
  lemma ArchiveStaysInside(m: Import, t: Tree)
    requires Ready(m, t)
    requires forall i, text :: 0 <= i < |m.entries| && PlacesLink(m.entries, i, text) ==>
               SafeRelative(m.entries[i].path).value !in FollowedPaths()
    ensures StaysInside(m, t)
  {
    hide Extract, WellFormed, Spares, PlacesLink, FollowedPaths, SafeRelative, Fresh, GuestFiles;
    GuestFilesOf(m);
    var root, now := Rootfs(m), Filled(m, t).0;
    FreshReady(m, t);
    FilledReady(m, t);
    assert m.entries[..|m.entries|] == m.entries;
    LinksComeFromEntries(Fresh(m, t), root, m.entries, |m.entries|);
    forall p | p in FollowedPaths() && root + p in now ensures !now[root + p].Link? {
      FollowedAreBelow(root, p);
      NothingPlacedAt(m.entries, p);
    }
    OutsideTempFits(m, t);
    RootedOutside(m, OutsideTemp(m), t, now);
    forall p | Under(root, p) ensures !OutsideTemp(m)(p) {
      assert p[..|root|][..|Temp(m)|] == p[..|Temp(m)|];
    }
    PlainSpares(GuestFiles(m), OutsideTemp(m), MakeEtc, now);
  }

  lemma NothingPlacedAt(entries: seq<Entry>, p: NamePath)
    requires forall i, text :: 0 <= i < |entries| && PlacesLink(entries, i, text) ==>
               SafeRelative(entries[i].path).value != p
    ensures forall text :: !PlacedBefore(entries, |entries|, p, text)
  {
    hide PlacesLink, SafeRelative;
  }

  lemma FollowedAreBelow(root: NamePath, p: NamePath)
    requires p in FollowedPaths()
    ensures Below(root, root + p) && (root + p)[|root|..] == p
  {
  }

  // ---- An import that changes an existing container ----

  /** An archive of one entry: `etc` as an absolute link to a directory. */
  function EtcLinkTo(elsewhere: NamePath): seq<Entry> {
    [Entry([Name("etc")], SymlinkKind(Some([Root] + Names(elsewhere))))]
  }

  lemma EtcLinkExtracted(m: Import, t: Tree, elsewhere: NamePath)
    requires Ready(m, t) && m.entries == EtcLinkTo(elsewhere)
    ensures var root := Rootfs(m);
            Filled(m, t) == (Fresh(m, t)[root + ["etc"] := Link([Root] + Names(elsewhere))], Some(1))
  {
    hide WellFormed;
    var empty, root, link := Fresh(m, t), Rootfs(m), [Root] + Names(elsewhere);
    var etc := root + ["etc"];
    FreshReady(m, t);
    assert Below(root, etc) && Parent(etc) == root;
    NoFileAbove(empty, root);
    assert [Name("etc")][1..] == [] && OnlyNames([Name("etc")]) == ["etc"];
    assert SafeRelative([Name("etc")]) == Some(["etc"]);
    assert link[1..] == Names(elsewhere);
    WalkNames([], elsewhere);
    ExtractOne(empty, root, m.entries[0]);
    assert m.entries == [m.entries[0]];
    assert Step(empty, root, m.entries[0]) == (empty[etc := Link(link)], Placed);
  }

  lemma ExtractOne(t: Tree, root: NamePath, e: Entry)
    ensures var (after, status) := Step(t, root, e);
            status == Placed ==> Extract(t, root, [e]) == (after, Some(1))
  {
    hide Step;
    assert [e][..0] == [];
  }

  /** Such a link is followed. */
  lemma EtcLinkFollowed(g: Guest, t: Tree, elsewhere: NamePath)
    requires GuestReady(g, t) && elsewhere in t && t[elsewhere] == Dir
    requires Etc(g) in t && t[Etc(g)] == Link([Root] + Names(elsewhere))
    ensures Resolve(t, Etc(g)) == Found(elsewhere)
  {
    hide WellFormed;
    var root, link := g.root, [Root] + Names(elsewhere);
    assert link[1..] == Names(elsewhere);
    RootIsPlain(t, root);
    RootIsPlain(t, elsewhere);
    forall i | 0 <= i <= |root| ensures [] + root[..i] in t ==> !t[[] + root[..i]].Link? {
      NoLinkPrefixes(t, root, i);
    }
    WalkPlain(t, root, MAX_LINKS);
    WalkSplit(t, [], root, "etc", MAX_LINKS);
    WalkPlain(t, elsewhere, MAX_LINKS - 1);
    assert link + [Name("etc")][1..] == link;
    assert Walk(t, root, [Name("etc")], MAX_LINKS) == Walk(t, root, link, MAX_LINKS - 1);
    assert Walk(t, root, link, MAX_LINKS - 1) == Walk(t, [], Names(elsewhere), MAX_LINKS - 1);
  }

  /** Then the resolver file of the new container is written into that directory. */
  lemma GuestWriteFollowsLink(g: Guest, t: Tree, elsewhere: NamePath)
    requires GuestReady(g, t) && elsewhere in t && t[elsewhere] == Dir
    requires Etc(g) in t && t[Etc(g)] == Link([Root] + Names(elsewhere))
    ensures var at := elsewhere + ["resolv.conf"];
            (at in t ==> t[at].File?) ==> WriteAt(t, ResolvConf(g)) == Some(at)
  {
    hide WellFormed, Resolve;
    EtcLinkFollowed(g, t, elsewhere);
    if elsewhere + ["resolv.conf"] !in t || t[elsewhere + ["resolv.conf"]].File? {
      OpenBehind(t, Etc(g), elsewhere, "resolv.conf");
    }
  }

  lemma OpenBehind(t: Tree, dir: NamePath, at: NamePath, name: string)
    requires WellFormed(t) && Resolve(t, dir) == Found(at) && at in t && t[at] == Dir
    requires at + [name] in t ==> t[at + [name]].File?
    ensures WriteAt(t, dir + [name]) == Some(at + [name])
  {
    OpenIsWalk(t, [], Names(dir), MAX_LINKS);
    assert Names(dir + [name]) == Names(dir) + [Name(name)];
    var rest := OpenAppend(t, [], Names(dir), [Name(name)], MAX_LINKS);
    OpenName(t, at, name, rest);
  }

  /** The step up to the first change: a link is removed there, or a file begun. */
  lemma FirstChange(g: Guest, t: Tree, elsewhere: NamePath) returns (stage: Stage, t': Tree)
    requires GuestReady(g, t) && HasTexts(g) && elsewhere in t && t[elsewhere] == Dir
    requires Etc(g) in t && t[Etc(g)] == Link([Root] + Names(elsewhere))
    requires var at := elsewhere + ["resolv.conf"]; at in t ==> t[at] != Dir
    ensures Advance(g, MakeEtc, t) == (t, Some(DropLink))
    ensures var at := elsewhere + ["resolv.conf"]; at in t && at in t' ==> t[at] != t'[at]
    ensures var at := elsewhere + ["resolv.conf"]; at in t || at in t'
    ensures (stage == WriteResolv && (t', Some(stage)) == Advance(g, DropLink, t)) ||
            (stage == WriteResolv && (t, Some(stage)) == Advance(g, DropLink, t) && PartWritten(g, WriteResolv, t, t'))
  {
    hide Open, Resolve, MkdirAll, WellFormed;
    var at := elsewhere + ["resolv.conf"];
    EtcLinkFollowed(g, t, elsewhere);
    GuestWriteFollowsLink(g, t, elsewhere);
    EtcStage(g, t);
    assert Parent(ResolvConf(g)) == Etc(g);
    assert Locate(t, ResolvConf(g)) == Found(at);
    stage := WriteResolv;
    if at in t && t[at].Link? {
      t' := t - {at};
    } else {
      var part := if at in t && t[at] == File("") then g.resolv else "";
      t' := t[at := File(part)];
    }
  }

  lemma ElsewhereKept(m: Import, t: Tree, now: Tree, elsewhere: NamePath, at: NamePath)
    requires SameOutside(t, now, Temp(m)) && !Under(Temp(m), elsewhere) && !Under(Temp(m), at)
    ensures elsewhere in t ==> elsewhere in now && now[elsewhere] == t[elsewhere]
    ensures (at in t <==> at in now) && (at in t ==> now[at] == t[at])
  {
  }

  /** So a listed container is changed by importing another one. */
  lemma ExistingContainerModified(m: Import, t: Tree, name: string, elsewhere: NamePath) returns (run: seq<State>)
    requires Ready(m, t) && !Present(t, Final(m)) && Clearable(m, t) && Listed(t, m.containers, name)
    requires elsewhere in t && t[elsewhere] == Dir && Under(m.containers + [name], elsewhere)
    requires var at := elsewhere + ["resolv.conf"]; at in t ==> t[at] != Dir
    requires m.entries == EtcLinkTo(elsewhere)
    ensures run != [] && IsRun(m, t, run) && !SameUnder(t, run[|run| - 1].t, m.containers + [name])
  {
    hide IsRun, Present, WellFormed, Filled, Advance, PartWritten, GuestFiles, Fresh, SameOutside, Clearable;
    GuestFilesOf(m);
    var g, now, at := GuestFiles(m), Filled(m, t).0, elsewhere + ["resolv.conf"];
    EtcLinkExtracted(m, t, elsewhere);
    FilledReady(m, t);
    TempIsOther(m, name);
    assert Under(m.containers + [name], at) by {
      assert at[..|m.containers| + 1] == elsewhere[..|m.containers| + 1];
    }
    run := GuestStartRun(m, t);
    ElsewhereKept(m, t, now, elsewhere, at);
    var stage, t' := FirstChange(g, now, elsewhere);
    run := ExtendBy(m, t, run, State(now, GuestNetwork(DropLink)));
    if (t', Some(stage)) == Advance(g, DropLink, now) {
      run := ExtendBy(m, t, run, State(t', GuestNetwork(stage)));
    } else {
      run := ExtendBy(m, t, run, State(now, GuestNetwork(stage)));
      run := ExtendBy(m, t, run, State(t', GuestNetwork(stage)));
    }
  }

  // ---- An import that nothing stops, and a listing that follows a link into it ----

  function OutsideRootfs(m: Import): NamePath -> bool {
    (p: NamePath) => !Under(Rootfs(m), p)
  }

  lemma OutsideRootfsRooted(m: Import, t: Tree)
    ensures Rooted(OutsideRootfs(m), t)
  {
    forall p: NamePath, name: string | OutsideRootfs(m)(p + [name]) ensures OutsideRootfs(m)(p) {
      assert Parent(p + [name]) == p;
      UnderParent(Rootfs(m), p + [name]);
    }
  }

  /** The whole guest network step spares what none of its stages aims at. */
  lemma {:induction false} FinishSpares(g: Guest, guard: NamePath -> bool, stage: Stage, t: Tree)
    requires GuestReady(g, t) && Rooted(guard, t) && Spares(g, guard, stage, t) && Finish(g, stage, t).1
    ensures var after := Finish(g, stage, t).0;
            GuestReady(g, after) && Keeps(t, after) && Agree(guard, t, after)
    decreases Left(stage)
  {
    hide Advance, WellFormed, Spares, Rooted, Agree, PartWritten;
    if stage == Done {
      AgreeSame(guard, t);
    } else {
      var (after, next) := Advance(g, stage, t);
      GuestKeeps(g, stage, t, next.value, after);
      SparesKept(g, guard, stage, t, next.value, after);
      StaysRooted(guard, t, after);
      FinishSpares(g, guard, next.value, after);
      AgreeTwice(guard, t, after, Finish(g, stage, t).0);
    }
  }

  /** The tree when the guest network step is through, and it wrote below the new root only. */
  lemma GuestDone(m: Import, t: Tree)
    requires Ready(m, t) && Filled(m, t).1.Some? && Finish(GuestFiles(m), MakeEtc, Filled(m, t).0).1
    requires Spares(GuestFiles(m), OutsideRootfs(m), MakeEtc, Filled(m, t).0)
    ensures var u := Finish(GuestFiles(m), MakeEtc, Filled(m, t).0).0;
            && Ready(m, u) && Temp(m) in u && u[Temp(m)] == Dir && NoLinksIn(Temp(m), u)
            && Temp(m) + [CONFIG] !in u && Temp(m) + [METADATA] !in u
            && (Final(m) !in t && !Hidden(m.name) ==> Final(m) !in u)
  {
    hide Extract, Finish, Spares, GuestFiles, WellFormed, Fresh, Rooted, Agree, SameOutside, NoLinksIn, Keeps;
    var filled := Filled(m, t).0;
    var u := Finish(GuestFiles(m), MakeEtc, filled).0;
    GuestFilesOf(m);
    FilledReady(m, t);
    FilledOutside(m, t);
    OutsideRootfsRooted(m, filled);
    FinishSpares(GuestFiles(m), OutsideRootfs(m), MakeEtc, filled);
    AgreeTwice(OutsideRootfs(m), Fresh(m, t), filled, u);
    GuestDoneTree(m, t, u);
  }

  lemma FilledOutside(m: Import, t: Tree)
    requires Ready(m, t)
    ensures Rootfs(m) in Filled(m, t).0 && Filled(m, t).0[Rootfs(m)] == Dir
    ensures Agree(OutsideRootfs(m), Fresh(m, t), Filled(m, t).0)
  {
    hide Extract, WellFormed, Fresh;
    FreshReady(m, t);
    ExtractionConfined(Fresh(m, t), Rootfs(m), m.entries, 0);
  }

  lemma GuestDoneTree(m: Import, t: Tree, u: Tree)
    requires Ready(m, t) && WellFormed(u) && Agree(OutsideRootfs(m), Fresh(m, t), u)
    requires Rootfs(m) in u && u[Rootfs(m)] == Dir
    ensures Ready(m, u) && Temp(m) in u && u[Temp(m)] == Dir && NoLinksIn(Temp(m), u)
    ensures Temp(m) + [CONFIG] !in u && Temp(m) + [METADATA] !in u
    ensures Final(m) !in t && !Hidden(m.name) ==> Final(m) !in u
  {
    hide WellFormed, Fresh;
    FreshReady(m, t);
    ContainersOutsideTemp(m);
    OnlyRootfsInTemp(m, t);
    forall name | name != ROOTFS ensures Temp(m) + [name] !in u {
      assert (Temp(m) + [name])[|Temp(m)|] != Rootfs(m)[|Temp(m)|];
      assert OutsideRootfs(m)(Temp(m) + [name]);
    }
    assert OutsideRootfs(m)(m.containers);
    ParentIsDir(u, Rootfs(m));
    if !Hidden(m.name) {
      TempIsOther(m, m.name);
      assert OutsideRootfs(m)(Final(m)) by {
        FinalIsOther(m);
      }
    }
  }

  lemma ParentIsDir(t: Tree, path: NamePath)
    requires WellFormed(t) && path in t && path != []
    ensures Parent(path) in t && t[Parent(path)] == Dir
  {
  }

  lemma OnlyRootfsInTemp(m: Import, t: Tree)
    ensures forall name :: name != ROOTFS ==> Temp(m) + [name] !in Fresh(m, t)
  {
    forall name | name != ROOTFS ensures Temp(m) + [name] !in Fresh(m, t) {
      UnderTemp(m, [name]);
      assert (Temp(m) + [name])[|Temp(m)|] != Rootfs(m)[|Temp(m)|];
    }
  }

  /** An import of an extractable archive, whose guest network step succeeds below the new root, can complete. */
  lemma InstallRun(m: Import, t: Tree) returns (run: seq<State>)
    requires Ready(m, t) && !Hidden(m.name) && !Present(t, Final(m)) && Final(m) !in t && Clearable(m, t)
    requires Filled(m, t).1.Some? && Finish(GuestFiles(m), MakeEtc, Filled(m, t).0).1
    requires Spares(GuestFiles(m), OutsideRootfs(m), MakeEtc, Filled(m, t).0)
    ensures run != [] && IsRun(m, t, run) && run[|run| - 1].phase == Installed
  {
    hide IsRun, Present, Clearable, Extract, Finish, Spares, GuestFiles, WellFormed, WriteAt, Renamed, Fresh;
    var u := Finish(GuestFiles(m), MakeEtc, Filled(m, t).0).0;
    var config, metadata := Temp(m) + [CONFIG], Temp(m) + [METADATA];
    GuestDone(m, t);
    run := GuestStartRun(m, t);
    run := FinishRun(m, t, run, MakeEtc);
    run := ExtendBy(m, t, run, State(u, Configuring));
    NewFileInTemp(m, u, CONFIG, m.config);
    var v := u[config := File(m.config)];
    run := ExtendBy(m, t, run, State(v, Describing));
    assert config != metadata by {
      assert config[|Temp(m)|] != metadata[|Temp(m)|];
    }
    NewFileInTemp(m, v, METADATA, m.metadata);
    var w := v[metadata := File(m.metadata)];
    run := ExtendBy(m, t, run, State(w, Described));
    FinalIsNoFile(m);
    run := ExtendBy(m, t, run, State(Renamed(w, Temp(m), Final(m)), Installed));
  }

  lemma FinalIsNoFile(m: Import)
    ensures Final(m) != Temp(m) + [CONFIG] && Final(m) != Temp(m) + [METADATA]
  {
    assert |Final(m)| < |Temp(m) + [CONFIG]|;
  }

  lemma NewFileInTemp(m: Import, t: Tree, name: string, data: string)
    requires Ready(m, t) && Temp(m) in t && t[Temp(m)] == Dir && NoLinksIn(Temp(m), t) && Temp(m) + [name] !in t
    ensures WriteAt(t, Temp(m) + [name]) == Some(Temp(m) + [name])
    ensures var t' := t[Temp(m) + [name] := File(data)];
            Ready(m, t') && Temp(m) in t' && t'[Temp(m)] == Dir && NoLinksIn(Temp(m), t')
  {
    hide WellFormed;
    RootIsPlain(t, Temp(m));
    ResolvePlain(t, Temp(m));
    OpenBehind(t, Temp(m), Temp(m), name);
    FileStep(m, t, name, data);
  }

  /** An empty archive meets all that. */
  lemma EmptyArchive(m: Import, t: Tree)
    requires Ready(m, t) && m.entries == []
    ensures Filled(m, t) == (Fresh(m, t), Some(0))
    ensures Finish(GuestFiles(m), MakeEtc, Filled(m, t).0).1
    ensures Spares(GuestFiles(m), OutsideRootfs(m), MakeEtc, Filled(m, t).0)
    ensures StaysInside(m, t)
  {
    hide Finish, Spares, GuestFiles, WellFormed, Fresh, FollowedPaths;
    GuestFilesOf(m);
    FreshReady(m, t);
    var empty, g := Fresh(m, t), GuestFiles(m);
    EmptyRootFinishes(g, empty);
    OutsideRootfsRooted(m, empty);
    forall p | p in FollowedPaths() ensures g.root + p !in empty {
      FollowedAreBelow(g.root, p);
    }
    PlainSpares(g, OutsideRootfs(m), MakeEtc, empty);
    ArchiveStaysInside(m, t);
  }

  lemma EmptyRootFinishes(g: Guest, t: Tree)
    requires GuestReady(g, t) && forall p :: p in t ==> !Below(g.root, p)
    ensures Finish(g, MakeEtc, t).1
  {
    hide MkdirAll, Open, Resolve, WellFormed, NoLinkOn;
    var t1 := t[Etc(g) := Dir];
    EtcStage(g, t);
    assert Below(g.root, Etc(g));
    DirFits(t, Etc(g));
    EtcIsEmpty(g, t);
    var t2 := t1[ResolvConf(g) := File(g.resolv)];
    assert Advance(g, MakeEtc, t) == (t1, Some(DropLink));
    assert Advance(g, DropLink, t1) == (t1, Some(WriteResolv));
    assert Advance(g, WriteResolv, t1) == (t2, Some(LookNetplan));
    assert Advance(g, LookNetplan, t2) == (t2, Some(LookSystemd));
    assert Advance(g, LookSystemd, t2) == (t2, Some(Done));
    FinishStep(g, LookSystemd, t2);
    FinishStep(g, LookNetplan, t2);
    FinishStep(g, WriteResolv, t1);
    FinishStep(g, DropLink, t1);
    FinishStep(g, MakeEtc, t);
  }

  lemma FinishStep(g: Guest, stage: Stage, t: Tree)
    requires stage != Done && Advance(g, stage, t).1.Some?
    ensures var (after, next) := Advance(g, stage, t); Finish(g, stage, t) == Finish(g, next.value, after)
    ensures Finish(g, Done, Advance(g, stage, t).0).1
  {
    hide Advance;
  }

  lemma EtcIsEmpty(g: Guest, t: Tree)
    requires GuestReady(g, t) && forall p :: p in t ==> !Below(g.root, p)
    requires WellFormed(t[Etc(g) := Dir])
    ensures var t1 := t[Etc(g) := Dir];
            var t2 := t1[ResolvConf(g) := File(g.resolv)];
            && ResolvLink(g, t1).None? && WriteAt(t1, ResolvConf(g)) == Some(ResolvConf(g))
            && !Present(t2, Netplan(g)) && !Present(t2, Systemd(g))
  {
    hide WellFormed, NoLinkOn;
    var t1 := t[Etc(g) := Dir];
    var t2 := t1[ResolvConf(g) := File(g.resolv)];
    assert Below(g.root, ResolvConf(g)) && Below(g.root, Netplan(g)) && Below(g.root, Systemd(g));
    assert Parent(ResolvConf(g)) == Etc(g) && Parent(Netplan(g)) == Etc(g) && Parent(Systemd(g)) == Etc(g);
    assert |ResolvConf(g)| > |Etc(g)| && |Netplan(g)| > |Etc(g)| && |Systemd(g)| > |Etc(g)|;
    DirParentFound(t1, ResolvConf(g));
    RootIsPlain(t1, Etc(g));
    ResolvePlain(t1, Etc(g));
    OpenBehind(t1, Etc(g), Etc(g), "resolv.conf");
    FileWritten(t1, ResolvConf(g), g.resolv);
    assert Netplan(g)[|Etc(g)|] != ResolvConf(g)[|Etc(g)|] && Systemd(g)[|Etc(g)|] != ResolvConf(g)[|Etc(g)|];
    RootIsPlain(t2, Etc(g));
    PlainName(t2, Etc(g), "netplan");
    PlainName(t2, Etc(g), "systemd");
    ResolvePlain(t2, Netplan(g));
    ResolvePlain(t2, Systemd(g));
  }

  /** Following an absolute link finds its target, if that is there. */
  lemma LinkPresent(t: Tree, dir: NamePath, name: string, target: NamePath)
    requires WellFormed(t) && dir in t && t[dir] == Dir && NoLinkOn(t, target)
    requires dir + [name] in t && t[dir + [name]] == Link([Root] + Names(target))
    ensures Present(t, dir + [name]) <==> target in t
  {
    hide WellFormed;
    var link := [Root] + Names(target);
    assert link[1..] == Names(target);
    RootIsPlain(t, dir);
    forall i | 0 <= i <= |dir| ensures [] + dir[..i] in t ==> !t[[] + dir[..i]].Link? {
      NoLinkPrefixes(t, dir, i);
    }
    WalkPlain(t, dir, MAX_LINKS);
    WalkSplit(t, [], dir, name, MAX_LINKS);
    WalkPlain(t, target, MAX_LINKS - 1);
    assert link + [Name(name)][1..] == link;
    RootInTree(t);
    assert Walk(t, dir, [Name(name)], MAX_LINKS) == Walk(t, dir, link, MAX_LINKS - 1);
    assert Walk(t, dir, link, MAX_LINKS - 1) == Walk(t, [], Names(target), MAX_LINKS - 1);
  }

  lemma RootInTree(t: Tree)
    requires WellFormed(t)
    ensures [] in t && t[[]] == Dir
  {
  }

  /**
   A container whose configuration is a link into a container that is not there is not listed; importing
   that one, of however little, shows both.
   */
  lemma ListingFollowsLink(m: Import, t: Tree, other: string) returns (run: seq<State>)
    requires Ready(m, t) && !Hidden(m.name) && ValidName(m.name) && Clearable(m, t) && m.entries == []
    requires Final(m) !in t && !Hidden(other) && ValidName(other) && other != m.name
    requires var dir := m.containers + [other];
             && dir in t && t[dir] == Dir && dir + [METADATA] !in t
             && dir + [CONFIG] in t && t[dir + [CONFIG]] == Link([Root] + Names(Final(m) + [CONFIG]))
    ensures run != [] && IsRun(m, t, run) && run[|run| - 1].phase == Installed
    ensures !Listed(t, m.containers, other) && Listed(run[|run| - 1].t, m.containers, other)
  {
    hide IsRun, Present, Clearable, Filled, Finish, Spares, GuestFiles, WellFormed, StaysOff, NewContainer;
    hide Listed, Invariant, FitGuard, SameUnder, Untouched, Ready;
    MissingNotPresent(m, t);
    EmptyArchive(m, t);
    run := InstallRun(m, t);
    var i := |run| - 1;
    OutsideTempFits(m, t);
    RunKeepsInvariant(m, OutsideTemp(m), t, run, i);
    InstalledFacts(m, t, run[i]);
    OtherKept(m, t, run[i], other);
    OtherListing(m, t, run[i].t, other);
  }

  lemma InstalledFacts(m: Import, t: Tree, s: State)
    requires Invariant(m, OutsideTemp(m), t, s) && s.phase == Installed
    ensures NewContainer(m, s.t) && Untouched(m, OutsideTemp(m), t, s)
  {
  }

  lemma MissingNotPresent(m: Import, t: Tree)
    requires Ready(m, t) && Final(m) !in t
    ensures !Present(t, Final(m)) && NoLinkOn(t, Final(m)) && NoLinkOn(t, Final(m) + [CONFIG])
    ensures Final(m) + [CONFIG] !in t
  {
    RootIsPlain(t, m.containers);
    PlainName(t, m.containers, m.name);
    ResolvePlain(t, Final(m));
    assert Parent(Final(m) + [CONFIG]) == Final(m);
    PlainName(t, Final(m), CONFIG);
  }

  lemma OtherKept(m: Import, t: Tree, s: State, other: string)
    requires Untouched(m, OutsideTemp(m), t, s) && !Hidden(other) && other != m.name
    ensures SameUnder(t, s.t, m.containers + [other])
  {
    TempIsOther(m, other);
    forall p | Under(m.containers + [other], p) ensures !Under(Final(m), p) {
      assert p[..|m.containers| + 1][|m.containers|] == other;
      assert Final(m)[|m.containers|] == m.name;
    }
  }

  lemma OtherListing(m: Import, t: Tree, now: Tree, other: string)
    requires Ready(m, t) && Final(m) !in t && NewContainer(m, now) && SameUnder(t, now, m.containers + [other])
    requires !Hidden(other) && ValidName(other)
    requires var dir := m.containers + [other];
             && dir in t && t[dir] == Dir && dir + [METADATA] !in t
             && dir + [CONFIG] in t && t[dir + [CONFIG]] == Link([Root] + Names(Final(m) + [CONFIG]))
    ensures !Listed(t, m.containers, other) && Listed(now, m.containers, other)
  {
    hide Present, WellFormed, NoLinkOn;
    var dir, target := m.containers + [other], Final(m) + [CONFIG];
    assert dir + [CONFIG] == m.containers + [other, CONFIG] && dir + [METADATA] == m.containers + [other, METADATA];
    MissingNotPresent(m, t);
    LinkPresent(t, dir, CONFIG, target);
    NoMetadata(t, dir);
    assert Under(dir, dir) && Under(dir, dir + [CONFIG]);
    RootIsPlain(now, Final(m));
    PlainName(now, Final(m), CONFIG);
    LinkPresent(now, dir, CONFIG, target);
  }

  lemma NoMetadata(t: Tree, dir: NamePath)
    requires WellFormed(t) && dir in t && t[dir] == Dir && dir + [METADATA] !in t
    ensures !Present(t, dir + [METADATA])
  {
    RootIsPlain(t, dir);
    PlainName(t, dir, METADATA);
    ResolvePlain(t, dir + [METADATA]);
  }
}
