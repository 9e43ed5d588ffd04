/**
 What extraction promises over every list of entries, successful or not: where it writes, what it
 never overwrites, what a successful run has placed, and when every link stays inside the root.
 */
module RootfsLaws {
  import opened Wrappers
  import opened Paths
  import opened FileTree
  import opened RootfsExtract

  predicate Below(root: NamePath, p: NamePath) {
    |root| < |p| && p[..|root|] == root
  }

  /** The tree is fit for extraction: well-formed, with a directory at the root of the new system. */
  ghost predicate Fit(t: Tree, root: NamePath) {
    WellFormed(t) && root in t && t[root] == Dir
  }

  /** Nothing outside the root changed, no link was touched, and directories stayed directories. */
  ghost predicate Confined(before: Tree, after: Tree, root: NamePath) {
    && (forall p :: !Below(root, p) ==> (p in before <==> p in after))
    && (forall p :: p in before && p in after && !Below(root, p) ==> after[p] == before[p])
    && (forall p :: p in before && !before[p].File? ==> p in after && after[p] == before[p])
    && (forall p :: p in before ==> p in after)
  }

  lemma {:induction false} PrefixIn(t: Tree, p: NamePath, i: nat)
    requires WellFormed(t) && p in t && i <= |p|
    ensures p[..i] in t
    decreases |p|
  {
    if i < |p| {
      PrefixIn(t, Parent(p), i);
      assert Parent(p)[..i] == p[..i];
    } else {
      assert p[..i] == p;
    }
  }

  /** A path that is missing on the way to something below the root is itself below the root. */
  lemma NewDirIsBelow(t: Tree, root: NamePath, rest: NamePath, p: NamePath)
    requires Fit(t, root) && p <= root + rest && p !in t
    ensures Below(root, p)
  {
    var k := if |p| <= |root| then |p| else |root|;
    assert p[..k] == (root + rest)[..k] == root[..k];
    assert k == |p| ==> p[..k] == p;
    assert k == |root| ==> root[..k] == root;
    PrefixIn(t, root, k);
  }

  /** Besides new directories, only `target` changed, and there at most a file was replaced by a file. */
  ghost predicate Touches(before: Tree, after: Tree, root: NamePath, target: NamePath) {
    && (forall p :: p in before && p != target ==> p in after && after[p] == before[p])
    && (forall p :: p in after && p !in before && p != target ==> after[p] == Dir && Below(root, p))
    && (target in before ==>
          target in after && (after[target] == before[target] || (before[target].File? && after[target].File?)))
  }

  /** What making the parent directories does. */
  lemma PreparedTree(t: Tree, root: NamePath, relative: NamePath)
    requires Fit(t, root) && relative != [] && NoLinkOn(t, root + relative) && !FileOn(t, Parent(root + relative))
    ensures var target := root + relative;
            var prepared := WithDirs(t, Parent(target));
            && Fit(prepared, root) && Parent(target) in prepared && prepared[Parent(target)] == Dir
            && NoLinkOn(prepared, target)
            && (forall p :: p in t ==> p in prepared && prepared[p] == t[p])
            && (forall p :: p in prepared && p !in t ==> prepared[p] == Dir && Below(root, p))
  {
    hide WithDirs, NoLinkOn, FileOn;
    var target := root + relative;
    var prepared := WithDirs(t, Parent(target));
    assert Parent(target) == root + Parent(relative);
    ParentCrossesNoLink(t, target);
    DirsReady(t, target);
    WithDirsKeeps(t, Parent(target));
    forall p | p in prepared && p !in t ensures Below(root, p) {
      NewDirIsBelow(t, root, Parent(relative), p);
    }
  }

  lemma PlaceTouches(t: Tree, root: NamePath, relative: NamePath, kind: Kind)
    requires Fit(t, root) && relative != [] && NoLinkOn(t, root + relative)
    ensures Fit(Place(t, root, relative, kind).0, root)
    ensures Touches(t, Place(t, root, relative, kind).0, root, root + relative)
  {
    hide WithDirs, NewNode, KindRefused, FileOn, WellFormed;
    var target := root + relative;
    if !KindRefused(t, root, relative, kind) && !FileOn(t, Parent(target)) {
      var prepared := WithDirs(t, Parent(target));
      PreparedTree(t, root, relative);
      assert target in prepared ==> !prepared[target].Link?;
      NewNodeFits(prepared, root, relative, kind);
      if target in prepared {
        NewNodeReplaces(prepared, root, relative, kind);
      }
    }
  }

  lemma NewNodeReplaces(t: Tree, root: NamePath, relative: NamePath, kind: Kind)
    requires root + relative in t && !t[root + relative].Link?
    ensures var node, was := NewNode(t, root, relative, kind), t[root + relative];
            node.Some? ==> node.value == was || (node.value.File? && was.File?)
  {
  }

  lemma StepTouches(t: Tree, root: NamePath, e: Entry)
    requires Fit(t, root)
    ensures Fit(Step(t, root, e).0, root)
    ensures if Counts(e) then Touches(t, Step(t, root, e).0, root, Target(root, e)) else Step(t, root, e).0 == t
  {
    hide Place;
    if Counts(e) && NoLinkOn(t, Target(root, e)) {
      PlaceTouches(t, root, SafeRelative(e.path).value, e.kind);
    }
  }

  /** The entry names something below the root. */
  predicate Counts(e: Entry) {
    SafeRelative(e.path).Some? && SafeRelative(e.path).value != []
  }

  function Target(root: NamePath, e: Entry): (p: NamePath)
    requires Counts(e)
    ensures Below(root, p) && p[|root|..] == SafeRelative(e.path).value
  {
    root + SafeRelative(e.path).value
  }

  lemma StepConfined(t: Tree, root: NamePath, e: Entry)
    requires Fit(t, root)
    ensures Fit(Step(t, root, e).0, root) && Confined(t, Step(t, root, e).0, root)
  {
    hide Step;
    StepTouches(t, root, e);
  }

  lemma ConfinedTwice(a: Tree, b: Tree, c: Tree, root: NamePath)
    requires Confined(a, b, root) && Confined(b, c, root)
    ensures Confined(a, c, root)
  {
  }

  /**
   Extraction, over every entry list and however it ends: the tree stays well-formed (every node sits
   in directories, so links are leaves), paths outside the root are untouched, and every link or
   directory that was there, or was placed on the way, is still there unchanged.
   */
  lemma {:induction false} ExtractionConfined(t: Tree, root: NamePath, entries: seq<Entry>, i: nat)
    requires Fit(t, root) && i <= |entries|
    ensures
      var midway, after := Extract(t, root, entries[..i]).0, Extract(t, root, entries).0;
      && Fit(midway, root) && Fit(after, root)
      && Confined(t, midway, root) && Confined(midway, after, root) && Confined(t, after, root)
    decreases |entries|, i
  {
    hide Step, WellFormed, Confined;
    if entries == [] {
      assert entries[..i] == entries;
      ConfinedSame(t, root);
    } else {
      var n := |entries| - 1;
      var init := entries[..n];
      if i == |entries| {
        assert entries[..i] == entries;
        ExtractionConfined(t, root, init, 0);
        assert init[..0] == [];
      } else {
        assert init[..i] == entries[..i];
        ExtractionConfined(t, root, init, i);
      }
      var before, after := Extract(t, root, init).0, Extract(t, root, entries).0;
      StepConfined(before, root, entries[n]);
      ConfinedSame(before, root);
      ConfinedSame(after, root);
      ConfinedTwice(t, before, after, root);
      if i < |entries| {
        ConfinedTwice(Extract(t, root, entries[..i]).0, before, after, root);
      }
    }
  }

  lemma ConfinedSame(t: Tree, root: NamePath)
    ensures Confined(t, t, root)
  {
  }

  // ---- What a successful run has placed ----

  function Placing(entries: seq<Entry>): nat {
    if entries == [] then 0
    else Placing(entries[..|entries| - 1]) + if Counts(entries[|entries| - 1]) then 1 else 0
  }

  /** A successful run got past every entry. */
  lemma {:induction false} SuccessMeansAll(t: Tree, root: NamePath, entries: seq<Entry>, i: nat)
    requires i < |entries| && Extract(t, root, entries).1.Some?
    ensures Extract(t, root, entries[..i]).1.Some?
    ensures Step(Extract(t, root, entries[..i]).0, root, entries[i]) ==
            (Extract(t, root, entries[..i + 1]).0, if Counts(entries[i]) then Placed else Skipped)
    decreases |entries|
  {
    hide Place;
    var n := |entries| - 1;
    if i < n {
      assert entries[..n][..i] == entries[..i] && entries[..n][..i + 1] == entries[..i + 1];
      SuccessMeansAll(t, root, entries[..n], i);
    } else {
      assert entries[..i + 1] == entries;
      StatusFits(Extract(t, root, entries[..i]).0, root, entries[i]);
    }
  }

  lemma StatusFits(t: Tree, root: NamePath, e: Entry)
    ensures Step(t, root, e).1 != Failed ==> Step(t, root, e).1 == if Counts(e) then Placed else Skipped
  {
  }

  /** The count reported is the number of entries that name something below the root. */
  lemma {:induction false} SuccessCounts(t: Tree, root: NamePath, entries: seq<Entry>)
    requires Extract(t, root, entries).1.Some?
    ensures Extract(t, root, entries).1.value == Placing(entries)
  {
    hide Step;
    if entries != [] {
      var init, last := entries[..|entries| - 1], entries[|entries| - 1];
      SuccessCounts(t, root, init);
      StatusFits(Extract(t, root, init).0, root, last);
    }
  }

  /** No later entry names the same path. */
  predicate LastFor(entries: seq<Entry>, i: nat)
    requires i < |entries|
  {
    forall j :: i < j < |entries| ==> SafeRelative(entries[j].path) != SafeRelative(entries[i].path)
  }

  lemma TouchesElsewhere(before: Tree, after: Tree, root: NamePath, target: NamePath, p: NamePath)
    requires Touches(before, after, root, target) && p in before
    ensures p in after && (p != target || !before[p].File? ==> after[p] == before[p])
    ensures before[p].File? == after[p].File?
  {
  }

  /** What becomes of a node until the end: only a file can change, and only by an entry for its path. */
  lemma {:induction false} NodeStays(t: Tree, root: NamePath, entries: seq<Entry>, i: nat, p: NamePath)
    requires Fit(t, root) && i <= |entries| && p in Extract(t, root, entries[..i]).0
    ensures
      var node, after := Extract(t, root, entries[..i]).0[p], Extract(t, root, entries).0;
      && p in after
      && node.File? == after[p].File?
      && (!node.File? || (forall j :: i <= j < |entries| && Counts(entries[j]) ==> Target(root, entries[j]) != p)
          ==> after[p] == node)
    decreases |entries|
  {
    hide Step, WellFormed, Touches, Confined;
    if i == |entries| {
      assert entries[..i] == entries;
    } else {
      var n := |entries| - 1;
      var init := entries[..n];
      assert init[..i] == entries[..i];
      NodeStays(t, root, init, i, p);
      var before, after := Extract(t, root, init).0, Extract(t, root, entries).0;
      ExtractionConfined(t, root, init, 0);
      StepTouches(before, root, entries[n]);
      if Counts(entries[n]) && after != before {
        TouchesElsewhere(before, after, root, Target(root, entries[n]), p);
      }
    }
  }

  /** The path below the root that a hard link entry names. */
  function Source(root: NamePath, link: RawPath): NamePath
    requires NormalizeTarget([], link).Some?
  {
    root + NormalizeTarget([], link).value
  }

  /** The node an entry has just placed; for a hard link, the one that its source has. */
  lemma PlacedNode(t: Tree, root: NamePath, e: Entry)
    requires Fit(t, root) && Counts(e) && Step(t, root, e).1 == Placed
    ensures
      var target, after := Target(root, e), Step(t, root, e).0;
      && target in after
      && match e.kind
         case DirKind => after[target] == Dir
         case SymlinkKind(link) => link.Some? && after[target] == Link(link.value)
         case FileKind(data) => after[target] == File(data)
         case HardLinkKind(link) =>
           && link.Some? && NormalizeTarget([], link.value).Some?
           && var source := Source(root, link.value);
           && source in t && t[source] != Dir && after[target] == t[source]
         case OtherKind => false
  {
    hide WithDirs;
    DirsReady(t, Target(root, e));
    WithDirsKeeps(t, Parent(Target(root, e)));
  }

  lemma LastForTarget(root: NamePath, entries: seq<Entry>, i: nat, j: nat)
    requires i < j < |entries| && LastFor(entries, i) && Counts(entries[i]) && Counts(entries[j])
    ensures Target(root, entries[j]) != Target(root, entries[i])
  {
  }

  /**
   After a successful extraction every named entry is there: directories and links as given, whatever
   came later; a file with the data of the last entry for its path; a hard link with the node that its
   source had at its turn.
   */
  lemma SuccessPlaces(t: Tree, root: NamePath, entries: seq<Entry>, i: nat)
    requires Fit(t, root) && i < |entries| && Counts(entries[i])
    requires Extract(t, root, entries).1.Some?
    ensures
      var target, after := Target(root, entries[i]), Extract(t, root, entries).0;
      && target in after
      && match entries[i].kind
         case DirKind => after[target] == Dir
         case SymlinkKind(link) => link.Some? && after[target] == Link(link.value)
         case FileKind(data) => after[target].File? && (LastFor(entries, i) ==> after[target] == File(data))
         case HardLinkKind(link) =>
           var before := Extract(t, root, entries[..i]).0;
           && link.Some? && NormalizeTarget([], link.value).Some?
           && var source := Source(root, link.value);
           && source in before && before[source] != Dir && after[target].File? == before[source].File?
           && (before[source].Link? || LastFor(entries, i) ==> after[target] == before[source])
         case OtherKind => false
  {
    hide Extract, Step, WellFormed, LastFor, Target, Counts;
    var target := Target(root, entries[i]);
    SuccessMeansAll(t, root, entries, i);
    ExtractionConfined(t, root, entries, i);
    PlacedNode(Extract(t, root, entries[..i]).0, root, entries[i]);
    NodeStays(t, root, entries, i + 1, target);
    if LastFor(entries, i) {
      forall j | i + 1 <= j < |entries| && Counts(entries[j]) ensures Target(root, entries[j]) != target {
        LastForTarget(root, entries, i, j);
      }
    }
  }

  // ---- Where links point ----

  /** Read lexically from where it is, every link below the root points inside the root. */
  ghost predicate LinksInside(t: Tree, root: NamePath) {
    forall p :: p in t && Below(root, p) && t[p].Link? ==> PointsInside(p[|root|..], t[p].target)
  }

  predicate PointsInside(relative: NamePath, link: RawPath) {
    NormalizeTarget(Parent(relative), link).Some?
  }

  /** A hard link entry whose source is a link that would point outside from the entry's own place. */
  predicate CopiesLinkOut(t: Tree, root: NamePath, e: Entry) {
    && Counts(e)
    && e.kind.HardLinkKind? && e.kind.link.Some?
    && var source := NormalizeTarget([], e.kind.link.value);
    && source.Some? && root + source.value in t && t[root + source.value].Link?
    && !PointsInside(SafeRelative(e.path).value, t[root + source.value].target)
  }

  /** The link an entry has just placed points outside exactly if the entry copied it there. */
  lemma PlacedLink(t: Tree, root: NamePath, e: Entry)
    requires Fit(t, root) && Counts(e) && Step(t, root, e).1 == Placed
    ensures
      var target, after := Target(root, e), Step(t, root, e).0;
      && target in after
      && (after[target].Link? && !PointsInside(SafeRelative(e.path).value, after[target].target) <==>
          CopiesLinkOut(t, root, e))
  {
    var target := Target(root, e);
    DirsReady(t, target);
    WithDirsKeeps(t, Parent(target));
  }

  lemma LinksInsideAfter(before: Tree, after: Tree, root: NamePath, target: NamePath)
    requires LinksInside(before, root) && Touches(before, after, root, target) && Below(root, target)
    ensures LinksInside(after, root) <==>
            (target in after && after[target].Link? ==> PointsInside(target[|root|..], after[target].target))
  {
    hide PointsInside;
  }

  lemma StepLinks(t: Tree, root: NamePath, e: Entry)
    requires Fit(t, root) && LinksInside(t, root)
    ensures LinksInside(Step(t, root, e).0, root) <==> !(Step(t, root, e).1 == Placed && CopiesLinkOut(t, root, e))
  {
    hide LinksInside, Touches, WellFormed, PointsInside, Place;
    StepTouches(t, root, e);
    var after := Step(t, root, e).0;
    if Counts(e) {
      LinksInsideAfter(t, after, root, Target(root, e));
      if Step(t, root, e).1 == Placed {
        PlacedLink(t, root, e);
      } else {
        UnplacedAddsNoLink(t, root, e);
      }
    }
  }

  lemma UnplacedAddsNoLink(t: Tree, root: NamePath, e: Entry)
    requires Fit(t, root) && Counts(e) && Step(t, root, e).1 != Placed
    ensures var target, after := Target(root, e), Step(t, root, e).0;
            target in after && after[target].Link? ==> target in t && t[target] == after[target]
  {
    var target := Target(root, e);
    if NoLinkOn(t, target) && !FileOn(t, Parent(target)) {
      DirsReady(t, target);
      WithDirsKeeps(t, Parent(target));
    }
  }

  /** Entry `i` is reached and copies a link to a place from which it points outside. */
  predicate EscapesAt(t: Tree, root: NamePath, entries: seq<Entry>, i: nat)
    requires i < |entries|
  {
    var (before, count) := Extract(t, root, entries[..i]);
    && count.Some?
    && Step(before, root, entries[i]).1 == Placed
    && CopiesLinkOut(before, root, entries[i])
  }

  /**
   Every link points inside the root after extraction exactly when no hard link entry on the way
   copied a link to a place from which its text leads outside: that one branch checks the ancestors of
   the hard link's source but not the source itself.
   */
  lemma {:induction false} LinksStayInsideIff(t: Tree, root: NamePath, entries: seq<Entry>)
    requires Fit(t, root) && LinksInside(t, root)
    ensures LinksInside(Extract(t, root, entries).0, root) <==>
            forall i :: 0 <= i < |entries| ==> !EscapesAt(t, root, entries, i)
  {
    hide Step, LinksInside, WellFormed, Confined, CopiesLinkOut;
    if entries != [] {
      var n := |entries| - 1;
      var init := entries[..n];
      var before, after := Extract(t, root, init).0, Extract(t, root, entries).0;
      LinksStayInsideIff(t, root, init);
      ExtractionConfined(t, root, entries, n);
      forall i | 0 <= i < n ensures EscapesAt(t, root, entries, i) == EscapesAt(t, root, init, i) {
        assert init[..i] == entries[..i];
      }
      if LinksInside(before, root) {
        StepLinks(before, root, entries[n]);
        assert EscapesAt(t, root, entries, n) <==> !LinksInside(after, root);
      } else {
        LinksOutsideStay(before, after, root);
      }
    }
  }

  lemma LinksOutsideStay(before: Tree, after: Tree, root: NamePath)
    requires Confined(before, after, root) && !LinksInside(before, root)
    ensures !LinksInside(after, root)
  {
  }

  // ---- The same, read off the archive alone ----

  /** Entry `i` puts a link with this text in its place: a symlink its own, a hard link that of an earlier one. */
  predicate PlacesLink(entries: seq<Entry>, i: nat, text: RawPath)
    requires i < |entries|
    decreases i
  {
    && Counts(entries[i])
    && match entries[i].kind
       case SymlinkKind(link) => link == Some(text)
       case HardLinkKind(Some(link)) =>
         exists j :: 0 <= j < i && SafeRelative(entries[j].path) == NormalizeTarget([], link)
                     && PlacesLink(entries, j, text)
       case _ => false
  }

  predicate PlacedBefore(entries: seq<Entry>, n: nat, relative: NamePath, text: RawPath)
    requires n <= |entries|
  {
    exists j :: 0 <= j < n && SafeRelative(entries[j].path) == Some(relative) && PlacesLink(entries, j, text)
  }

  /** Every link below the root was placed by one of the first `n` entries. */
  ghost predicate LinksPlaced(t: Tree, root: NamePath, entries: seq<Entry>, n: nat)
    requires n <= |entries|
  {
    forall p :: p in t && Below(root, p) && t[p].Link? ==> PlacedBefore(entries, n, p[|root|..], t[p].target)
  }

  lemma NewLinkPlaced(t: Tree, root: NamePath, entries: seq<Entry>, n: nat)
    requires Fit(t, root) && n < |entries| && LinksPlaced(t, root, entries, n)
    requires Counts(entries[n]) && Step(t, root, entries[n]).1 == Placed
    ensures var target, after := Target(root, entries[n]), Step(t, root, entries[n]).0;
            target in after && after[target].Link? ==> PlacesLink(entries, n, after[target].target)
  {
    hide Step, WellFormed, PlacedBefore, NormalizeTarget;
    var e := entries[n];
    PlacedNode(t, root, e);
    if e.kind.HardLinkKind? && t[Source(root, e.kind.link.value)].Link? {
      var source := Source(root, e.kind.link.value);
      var relative := NormalizeTarget([], e.kind.link.value).value;
      assert relative == [] ==> source == root;
      assert Below(root, source) && source[|root|..] == relative;
      EarlierEntry(entries, n, relative, t[source].target);
    }
  }

  lemma EarlierEntry(entries: seq<Entry>, n: nat, relative: NamePath, text: RawPath)
    requires n <= |entries| && PlacedBefore(entries, n, relative, text)
    ensures exists j :: 0 <= j < n && SafeRelative(entries[j].path) == Some(relative) && PlacesLink(entries, j, text)
  {
  }

  /** However an extraction ends, all links below the root come from the archive. */
  lemma {:induction false} LinksComeFromEntries(t: Tree, root: NamePath, entries: seq<Entry>, n: nat)
    requires Fit(t, root) && n <= |entries|
    requires forall p :: p in t && Below(root, p) ==> !t[p].Link?
    ensures LinksPlaced(Extract(t, root, entries[..n]).0, root, entries, n)
  {
    hide Step, WellFormed, Confined, Touches, PlacesLink;
    if n > 0 {
      var before, e := Extract(t, root, entries[..n - 1]).0, entries[n - 1];
      assert entries[..n][..n - 1] == entries[..n - 1];
      LinksComeFromEntries(t, root, entries, n - 1);
      ExtractionConfined(t, root, entries, n - 1);
      PlacedLater(before, root, entries, n - 1);
      StepTouches(before, root, e);
      if Counts(e) {
        OnlyTargetIsNew(before, Step(before, root, e).0, root, entries, n, Target(root, e));
        if Step(before, root, e).1 == Placed {
          NewLinkPlaced(before, root, entries, n - 1);
        } else {
          UnplacedAddsNoLink(before, root, e);
        }
      }
    }
  }

  lemma PlacedLater(t: Tree, root: NamePath, entries: seq<Entry>, n: nat)
    requires n < |entries| && LinksPlaced(t, root, entries, n)
    ensures LinksPlaced(t, root, entries, n + 1)
  {
    hide PlacesLink;
  }

  lemma OnlyTargetIsNew(
      before: Tree, after: Tree, root: NamePath, entries: seq<Entry>, n: nat, target: NamePath)
    requires n <= |entries| && LinksPlaced(before, root, entries, n) && Touches(before, after, root, target)
    ensures (target in after && after[target].Link? && Below(root, target) ==>
               PlacedBefore(entries, n, target[|root|..], after[target].target))
            ==> LinksPlaced(after, root, entries, n)
  {
    hide PlacedBefore;
  }

  /** In a successful extraction, what an entry is said to place is there until the end. */
  lemma {:induction false} PlacedLinkIsThere(
      t: Tree, root: NamePath, entries: seq<Entry>, i: nat, text: RawPath, n: nat)
    requires Fit(t, root) && Extract(t, root, entries).1.Some?
    requires i < n <= |entries| && PlacesLink(entries, i, text)
    ensures var after, target := Extract(t, root, entries[..n]).0, Target(root, entries[i]);
            target in after && after[target] == Link(text)
    decreases i
  {
    hide Step, Extract, WellFormed, NormalizeTarget, SafeRelative;
    var e := entries[i];
    var before := Extract(t, root, entries[..i]).0;
    SuccessMeansAll(t, root, entries, i);
    ExtractionConfined(t, root, entries, i);
    PlacedNode(before, root, e);
    if e.kind.HardLinkKind? {
      var j :| 0 <= j < i && SafeRelative(entries[j].path) == NormalizeTarget([], e.kind.link.value)
               && PlacesLink(entries, j, text);
      PlacedLinkIsThere(t, root, entries, j, text, i);
    }
    assert entries[..n][..i + 1] == entries[..i + 1];
    NodeStays(t, root, entries[..n], i + 1, Target(root, e));
  }

  /**
   After a successful extraction into a root without links, every link points inside the root if and
   only if each link text of the archive does so from every place where the archive puts it.
   */
  lemma LinksInsideIff(t: Tree, root: NamePath, entries: seq<Entry>)
    requires Fit(t, root) && Extract(t, root, entries).1.Some?
    requires forall p :: p in t && Below(root, p) ==> !t[p].Link?
    ensures LinksInside(Extract(t, root, entries).0, root) <==>
            forall i, text :: 0 <= i < |entries| && PlacesLink(entries, i, text) ==>
              PointsInside(SafeRelative(entries[i].path).value, text)
  {
    hide Extract, WellFormed, PointsInside, PlacesLink, SafeRelative;
    var after := Extract(t, root, entries).0;
    assert entries[..|entries|] == entries;
    LinksComeFromEntries(t, root, entries, |entries|);
    forall i, text | 0 <= i < |entries| && PlacesLink(entries, i, text)
      ensures Counts(entries[i])
      ensures Target(root, entries[i]) in after && after[Target(root, entries[i])] == Link(text)
    {
      PlacingCounts(entries, i, text);
      PlacedLinkIsThere(t, root, entries, i, text, |entries|);
    }
    LinksInsideByPlace(after, root, entries);
  }

  /** The number of entries that the extraction gets past: all, or those before the one that fails. */
  function GotPast(t: Tree, root: NamePath, entries: seq<Entry>): (r: nat)
    ensures r <= |entries|
  {
    if entries == [] then 0
    else
      var init := entries[..|entries| - 1];
      var r := GotPast(t, root, init);
      if Extract(t, root, entries).1.Some? then r + 1 else r
  }

  lemma {:induction false} GotPastSucceeds(t: Tree, root: NamePath, entries: seq<Entry>)
    ensures Extract(t, root, entries[..GotPast(t, root, entries)]).1.Some?
    ensures GotPast(t, root, entries) == |entries| <==> Extract(t, root, entries).1.Some?
  {
    hide Step;
    if entries != [] {
      var n := |entries| - 1;
      GotPastSucceeds(t, root, entries[..n]);
      if Extract(t, root, entries).1.Some? {
        assert entries[..n + 1] == entries;
      } else {
        var r := GotPast(t, root, entries);
        assert entries[..n][..r] == entries[..r];
      }
    }
  }

  /** What fails adds no link and removes none. */
  lemma {:induction false} StoppedLinks(t: Tree, root: NamePath, entries: seq<Entry>)
    requires Fit(t, root)
    ensures LinksInside(Extract(t, root, entries).0, root) <==>
            LinksInside(Extract(t, root, entries[..GotPast(t, root, entries)]).0, root)
  {
    hide Step, LinksInside, WellFormed, Confined, CopiesLinkOut;
    GotPastSucceeds(t, root, entries);
    if Extract(t, root, entries).1.None? {
      var n, r := |entries| - 1, GotPast(t, root, entries);
      var before, after := Extract(t, root, entries[..n]).0, Extract(t, root, entries).0;
      StoppedLinks(t, root, entries[..n]);
      assert entries[..n][..r] == entries[..r];
      ExtractionConfined(t, root, entries, n);
      if LinksInside(before, root) {
        StepLinks(before, root, entries[n]);
      } else {
        LinksOutsideStay(before, after, root);
      }
    } else {
      assert entries[..|entries|] == entries;
    }
  }

  lemma {:induction false} PlacesLinkInPrefix(entries: seq<Entry>, n: nat, i: nat, text: RawPath)
    requires i < n <= |entries|
    ensures PlacesLink(entries[..n], i, text) <==> PlacesLink(entries, i, text)
    decreases i
  {
    forall j: nat | j < i ensures PlacesLink(entries[..n], j, text) <==> PlacesLink(entries, j, text) {
      PlacesLinkInPrefix(entries, n, j, text);
    }
  }

  /** The same for runs that fail: what counts is the archive up to the entry that fails. */
  lemma LinksInsideAnyway(t: Tree, root: NamePath, entries: seq<Entry>)
    requires Fit(t, root) && forall p :: p in t && Below(root, p) ==> !t[p].Link?
    ensures LinksInside(Extract(t, root, entries).0, root) <==>
            forall i, text :: 0 <= i < GotPast(t, root, entries) && PlacesLink(entries, i, text) ==>
              PointsInside(SafeRelative(entries[i].path).value, text)
  {
    hide Extract, WellFormed, PointsInside, PlacesLink, SafeRelative, LinksInside;
    var n := GotPast(t, root, entries);
    GotPastSucceeds(t, root, entries);
    StoppedLinks(t, root, entries);
    LinksInsideIff(t, root, entries[..n]);
    forall i: int, text | 0 <= i < n
      ensures PlacesLink(entries[..n], i, text) <==> PlacesLink(entries, i, text)
      ensures PlacesLink(entries, i, text) ==> Counts(entries[i])
    {
      PlacesLinkInPrefix(entries, n, i, text);
      if PlacesLink(entries, i, text) {
        PlacingCounts(entries, i, text);
      }
    }
  }

  lemma PlacingCounts(entries: seq<Entry>, i: nat, text: RawPath)
    requires i < |entries| && PlacesLink(entries, i, text)
    ensures Counts(entries[i])
  {
  }

  lemma LinksInsideByPlace(t: Tree, root: NamePath, entries: seq<Entry>)
    requires LinksPlaced(t, root, entries, |entries|)
    requires forall i, text :: 0 <= i < |entries| && PlacesLink(entries, i, text) ==>
               Counts(entries[i]) && Target(root, entries[i]) in t && t[Target(root, entries[i])] == Link(text)
    ensures LinksInside(t, root) <==>
            forall i, text :: 0 <= i < |entries| && PlacesLink(entries, i, text) ==>
              PointsInside(SafeRelative(entries[i].path).value, text)
  {
    hide PointsInside, PlacesLink, SafeRelative;
    if LinksInside(t, root) {
      forall i, text | 0 <= i < |entries| && PlacesLink(entries, i, text)
        ensures PointsInside(SafeRelative(entries[i].path).value, text)
      {
        var target := Target(root, entries[i]);
        assert Below(root, target) && t[target] == Link(text);
      }
    }
  }

  /** An archive in which no hard link names the path of a symlink entry cannot fail this way. */
  predicate NoHardLinkToSymlink(entries: seq<Entry>) {
    forall i, j :: 0 <= i < |entries| && 0 <= j < |entries| ==>
      entries[i].kind.HardLinkKind? && entries[i].kind.link.Some? && entries[j].kind.SymlinkKind? ==>
        NormalizeTarget([], entries[i].kind.link.value) != SafeRelative(entries[j].path)
  }

  lemma {:induction false} OnlySymlinksPlace(entries: seq<Entry>, i: nat, text: RawPath)
    requires i < |entries| && NoHardLinkToSymlink(entries) && PlacesLink(entries, i, text)
    ensures entries[i].kind.SymlinkKind?
    decreases i
  {
    hide NormalizeTarget, SafeRelative;
    if entries[i].kind.HardLinkKind? {
      var j :| 0 <= j < i && SafeRelative(entries[j].path) == NormalizeTarget([], entries[i].kind.link.value)
               && PlacesLink(entries, j, text);
      OnlySymlinksPlace(entries, j, text);
      assert false;
    }
  }

  lemma NothingCopiedOut(t: Tree, root: NamePath, entries: seq<Entry>, n: nat)
    requires Fit(t, root) && n < |entries| && LinksPlaced(t, root, entries, n) && NoHardLinkToSymlink(entries)
    ensures !CopiesLinkOut(t, root, entries[n])
  {
    hide PlacesLink, NormalizeTarget, SafeRelative, PointsInside, WellFormed;
    var e := entries[n];
    if CopiesLinkOut(t, root, e) {
      var relative := NormalizeTarget([], e.kind.link.value).value;
      var source := root + relative;
      assert relative == [] ==> source == root;
      assert Below(root, source) && source[|root|..] == relative;
      var j :| 0 <= j < n && SafeRelative(entries[j].path) == Some(relative)
               && PlacesLink(entries, j, t[source].target);
      OnlySymlinksPlace(entries, j, t[source].target);
      assert false;
    }
  }

  lemma NoHardLinkToSymlinkSuffices(t: Tree, root: NamePath, entries: seq<Entry>)
    requires Fit(t, root) && NoHardLinkToSymlink(entries)
    requires forall p :: p in t && Below(root, p) ==> !t[p].Link?
    ensures LinksInside(Extract(t, root, entries).0, root)
  {
    hide Step, WellFormed, Confined, NoHardLinkToSymlink, CopiesLinkOut, Extract, LinksPlaced;
    LinksStayInsideIff(t, root, entries);
    forall i | 0 <= i < |entries| ensures !EscapesAt(t, root, entries, i) {
      LinksComeFromEntries(t, root, entries, i);
      ExtractionConfined(t, root, entries, i);
      NothingCopiedOut(Extract(t, root, entries[..i]).0, root, entries, i);
    }
  }

  // ---- A concrete archive for which the branch does fail ----

  /** `l` under `a`, pointing one level up, and a hard link to it directly under the root. */
  const LINK_PATH: RawPath := [Name("a"), Name("l")]
  const LINK_TEXT: RawPath := [Up, Name("x")]
  const COPY_PATH: RawPath := [Name("h")]

  lemma PathsOfTheExample()
    ensures SafeRelative(LINK_PATH) == Some(["a", "l"]) && SafeRelative(COPY_PATH) == Some(["h"])
    ensures NormalizeTarget([], LINK_PATH) == Some(["a", "l"])
  {
    assert LINK_PATH[1..][1..] == [] && LINK_PATH[1..] == [Name("l")];
    assert OnlyNames([Name("l")]) == ["l"];
    assert OnlyNames(LINK_PATH) == ["a"] + ["l"] == ["a", "l"];
    assert COPY_PATH[1..] == [];
    assert OnlyNames(COPY_PATH) == ["h"];
    NormalizeTargetMeaning([], LINK_PATH);
    assert [] + ["a", "l"] == ["a", "l"];
  }

  lemma TextsOfTheExample()
    ensures PointsInside(["a", "l"], LINK_TEXT) && !PointsInside(["h"], LINK_TEXT)
  {
    var c := Candidate(["a"], LINK_TEXT);
    assert Names(["a"]) == [Name("a")];
    assert c == [Name("a"), Up, Name("x")];
    assert NormalizeFrom([], c) == NormalizeFrom([] + ["a"], c[1..]);
    assert [] + ["a"] == ["a"] && c[1..] == [Up, Name("x")];
    assert NormalizeFrom(["a"], [Up, Name("x")]) == NormalizeFrom(Parent(["a"]), [Up, Name("x")][1..]);
    assert [Up, Name("x")][1..] == [Name("x")] && Parent(["a"]) == [];
    assert NormalizeFrom([], [Name("x")]) == NormalizeFrom([] + ["x"], []);
    assert Parent(["a", "l"]) == ["a"] && Parent(["h"]) == [];
    assert Names([]) == [] && Candidate([], LINK_TEXT) == LINK_TEXT;
    assert NormalizeFrom([], LINK_TEXT) == None;
  }

  lemma NoFileAbove(t: Tree, root: NamePath)
    requires Fit(t, root)
    ensures !FileOn(t, root) && NoLinkOn(t, root)
  {
    if root != [] {
      AboveIsDir(t, root);
    }
  }

  lemma PlacesExampleLink(t: Tree, root: NamePath)
    requires Fit(t, root) && forall p :: p in t ==> !Below(root, p)
    ensures
      var relative := ["a", "l"];
      Place(t, root, relative, SymlinkKind(Some(LINK_TEXT))) ==
      (t[root + ["a"] := Dir][root + relative := Link(LINK_TEXT)], Placed)
    ensures NoLinkOn(t, root + ["a", "l"])
  {
    var a, l := root + ["a"], root + ["a", "l"];
    assert Below(root, a) && Below(root, l);
    assert Parent(l) == a && Parent(a) == root && a != l;
    NoFileAbove(t, root);
    TextsOfTheExample();
    assert WithDirs(t, a) == t[a := Dir];
  }

  lemma PlacesExampleCopy(t: Tree, root: NamePath)
    requires Fit(t, root) && root + ["a"] in t && t[root + ["a"]] == Dir
    requires root + ["a", "l"] in t && t[root + ["a", "l"]] == Link(LINK_TEXT) && root + ["h"] !in t
    ensures Place(t, root, ["h"], HardLinkKind(Some(LINK_PATH))) == (t[root + ["h"] := Link(LINK_TEXT)], Placed)
    ensures NoLinkOn(t, root + ["h"])
  {
    var a, h := root + ["a"], root + ["h"];
    assert Parent(a) == root && Parent(h) == root;
    NoFileAbove(t, root);
    PathsOfTheExample();
    assert root + Parent(["a", "l"]) == a by {
      assert Parent(["a", "l"]) == ["a"];
    }
    assert !LinkAbove(t, root, ["a", "l"]);
    assert WithDirs(t, root) == t;
  }

  lemma ExtractTwo(t: Tree, root: NamePath, first: Entry, second: Entry, once: Tree, twice: Tree)
    requires Step(t, root, first) == (once, Placed) && Step(once, root, second) == (twice, Placed)
    ensures Extract(t, root, [first, second]) == (twice, Some(2))
  {
    hide Step;
    assert [first, second][..1] == [first] && [first][..0] == [];
    assert Extract(t, root, [first]) == (once, Some(1));
  }

  /** The branch does fail: these two entries are both accepted, and leave a link that points outside. */
  lemma HardLinkedSymlinkPointsOutside(t: Tree, root: NamePath)
    requires Fit(t, root) && forall p :: p in t ==> !Below(root, p)
    ensures
      var entries := [Entry(LINK_PATH, SymlinkKind(Some(LINK_TEXT))), Entry(COPY_PATH, HardLinkKind(Some(LINK_PATH)))];
      Extract(t, root, entries).1 == Some(2) && !LinksInside(Extract(t, root, entries).0, root)
  {
    hide Place, PointsInside, SafeRelative, Extract;
    var first := Entry(LINK_PATH, SymlinkKind(Some(LINK_TEXT)));
    var second := Entry(COPY_PATH, HardLinkKind(Some(LINK_PATH)));
    PathsOfTheExample();
    TextsOfTheExample();
    var a, l, h := root + ["a"], root + ["a", "l"], root + ["h"];
    assert a[|root|] == "a" && h[|root|] == "h" && |l| > |h|;
    assert Below(root, h) && h[|root|..] == ["h"];
    PlacesExampleLink(t, root);
    var once := t[a := Dir][l := Link(LINK_TEXT)];
    assert Step(t, root, first) == (once, Placed);
    StepTouches(t, root, first);
    PlacesExampleCopy(once, root);
    var twice := once[h := Link(LINK_TEXT)];
    assert Step(once, root, second) == (twice, Placed);
    ExtractTwo(t, root, first, second, once, twice);
    assert h in twice && twice[h] == Link(LINK_TEXT);
  }
}
