/**
 When an extraction succeeds: for one entry on the tree that it meets, and for a whole archive on the
 archive alone, from what its earlier entries have put where.
 */
module RootfsSuccess {
  import opened FileTree
  import opened Paths
  import opened RootfsExtract
  import opened RootfsLaws
  import opened Wrappers

  // ---- One entry ----

  datatype Shape = Nothing | FileShape | DirShape | LinkShape

  function ShapeIn(t: Tree, p: NamePath): Shape {
    if p !in t then Nothing
    else
      match t[p]
      case File(_) => FileShape
      case Dir => DirShape
      case Link(_) => LinkShape
  }

  /** What an entry of each kind needs at its place, and a hard link at its source. */
  predicate KindFits(t: Tree, root: NamePath, relative: NamePath, kind: Kind) {
    var here := ShapeIn(t, root + relative);
    match kind
    case FileKind(_) => here == Nothing || here == FileShape
    case DirKind => here == Nothing || here == DirShape
    case SymlinkKind(link) =>
      here == Nothing && link.Some? && link.value != [] && NormalizeTarget(Parent(relative), link.value).Some?
    case HardLinkKind(link) =>
      && here == Nothing && link.Some? && NormalizeTarget([], link.value).Some?
      && var source := NormalizeTarget([], link.value).value;
      NoLinkOn(t, root + Parent(source)) && ShapeIn(t, root + source) in {FileShape, LinkShape}
    case OtherKind => false
  }

  /** An entry is placed exactly if its path crosses neither a link nor a file, and its kind fits. */
  lemma PlacedIff(t: Tree, root: NamePath, e: Entry)
    requires Fit(t, root) && Counts(e)
    ensures Step(t, root, e).1 == Placed <==>
            && NoLinkOn(t, Target(root, e)) && !FileOn(t, Parent(Target(root, e)))
            && KindFits(t, root, SafeRelative(e.path).value, e.kind)
  {
    hide WithDirs, NoLinkOn, FileOn;
    var relative, target := SafeRelative(e.path).value, Target(root, e);
    if NoLinkOn(t, target) && !FileOn(t, Parent(target)) {
      var prepared := WithDirs(t, Parent(target));
      PreparedTree(t, root, relative);
      WithDirsKeeps(t, Parent(target)) by {
        ParentCrossesNoLink(t, target);
      }
      LinkFreeHere(t, target);
    }
  }

  lemma LinkFreeHere(t: Tree, path: NamePath)
    requires NoLinkOn(t, path)
    ensures ShapeIn(t, path) != LinkShape
  {
  }

  /** Refused before anything is made: for its path, for a link or a file on the way, or for its kind or link text. */
  predicate RefusedAtOnce(t: Tree, root: NamePath, e: Entry) {
    || SafeRelative(e.path).None?
    || (Counts(e) && (|| !NoLinkOn(t, Target(root, e)) || FileOn(t, Parent(Target(root, e)))
                      || IsUnsafeKind(SafeRelative(e.path).value, e.kind)))
  }

  predicate IsUnsafeKind(relative: NamePath, kind: Kind) {
    match kind
    case SymlinkKind(link) => link.None? || NormalizeTarget(Parent(relative), link.value).None?
    case HardLinkKind(link) => link.None? || NormalizeTarget([], link.value).None?
    case OtherKind => true
    case _ => false
  }

  /** What an entry leaves that fails: nothing, or the directories above its place. */
  lemma FailureLeaves(t: Tree, root: NamePath, e: Entry)
    requires Fit(t, root) && Step(t, root, e).1 == Failed
    ensures RefusedAtOnce(t, root, e) ==> Step(t, root, e).0 == t
    ensures Step(t, root, e).0 == t || (Counts(e) && Step(t, root, e).0 == WithDirs(t, Parent(Target(root, e))))
  {
    hide WithDirs, NoLinkOn, FileOn, NewNode;
  }

  // ---- The archive alone ----

  /** What stands at a path after the first `n` entries: the first entry that reaches it decides. */
  function ShapeAt(entries: seq<Entry>, n: nat, p: NamePath): Shape
    requires n <= |entries|
    decreases n, 0
  {
    if n == 0 then if p == [] then DirShape else Nothing
    else
      var before := ShapeAt(entries, n - 1, p);
      var relative := SafeRelative(entries[n - 1].path);
      if before != Nothing || relative.None? then before
      else if relative.value == p then ShapeOf(entries, n - 1)
      else if p < relative.value then DirShape
      else Nothing
  }

  function ShapeOf(entries: seq<Entry>, i: nat): Shape
    requires i < |entries|
    decreases i, 1
  {
    match entries[i].kind
    case FileKind(_) => FileShape
    case DirKind => DirShape
    case SymlinkKind(_) => LinkShape
    case HardLinkKind(link) =>
      if link.Some? && NormalizeTarget([], link.value).Some?
      then ShapeAt(entries, i, NormalizeTarget([], link.value).value)
      else Nothing
    case OtherKind => Nothing
  }

  /** The entry names the root, or a path below directories at which its kind fits what stands there. */
  predicate EntryFits(entries: seq<Entry>, i: nat)
    requires i < |entries|
  {
    var relative := SafeRelative(entries[i].path);
    && relative.Some?
    && (relative.value == [] ||
        (&& DirsOn(entries, i, relative.value, |relative.value| - 1)
         && KindFitsArchive(entries, i, relative.value)))
  }

  predicate KindFitsArchive(entries: seq<Entry>, i: nat, relative: NamePath)
    requires i < |entries|
  {
    var here := ShapeAt(entries, i, relative);
    match entries[i].kind
    case FileKind(_) => here == Nothing || here == FileShape
    case DirKind => here == Nothing || here == DirShape
    case SymlinkKind(link) =>
      here == Nothing && link.Some? && link.value != [] && NormalizeTarget(Parent(relative), link.value).Some?
    case HardLinkKind(link) =>
      && here == Nothing && link.Some? && NormalizeTarget([], link.value).Some?
      && var source := NormalizeTarget([], link.value).value;
      && (source == [] || NoLinksOn(entries, i, source, |source| - 1))
      && ShapeAt(entries, i, source) in {FileShape, LinkShape}
    case OtherKind => false
  }

  /** The tree below the root is as the archive says. */
  ghost predicate Mirrors(t: Tree, root: NamePath, entries: seq<Entry>, n: nat)
    requires n <= |entries|
  {
    forall p :: ShapeIn(t, root + p) == ShapeAt(entries, n, p)
  }

  /** Nothing but directories stands on the first `m` names of the path; or at least no link. */
  predicate DirsOn(entries: seq<Entry>, n: nat, path: NamePath, m: nat)
    requires n <= |entries| && m <= |path|
  {
    forall k :: 0 < k <= m ==> ShapeAt(entries, n, path[..k]) in {Nothing, DirShape}
  }

  predicate NoLinksOn(entries: seq<Entry>, n: nat, path: NamePath, m: nat)
    requires n <= |entries| && m <= |path|
  {
    forall k :: 0 < k <= m ==> ShapeAt(entries, n, path[..k]) != LinkShape
  }

  lemma {:induction false} WayByPrefix(
      t: Tree, root: NamePath, entries: seq<Entry>, n: nat, path: NamePath, m: nat)
    requires Fit(t, root) && n <= |entries| && m <= |path| && Mirrors(t, root, entries, n)
    ensures NoLinkOn(t, root + path[..m]) <==> NoLinksOn(entries, n, path, m)
    ensures NoLinkOn(t, root + path[..m]) && !FileOn(t, root + path[..m]) <==> DirsOn(entries, n, path, m)
  {
    hide ShapeAt, ShapeIn, WellFormed, NoLinkOn, FileOn, DirsOn, NoLinksOn;
    AndOneMore(entries, n, path, m);
    if m == 0 {
      assert root + path[..0] == root;
      NoFileAbove(t, root);
    } else {
      WayByPrefix(t, root, entries, n, path, m - 1);
      assert Parent(root + path[..m]) == root + path[..m - 1];
      assert ShapeIn(t, root + path[..m]) == ShapeAt(entries, n, path[..m]);
      OneMore(t, root + path[..m]);
    }
  }

  lemma OneMore(t: Tree, path: NamePath)
    requires path != []
    ensures NoLinkOn(t, path) <==> NoLinkOn(t, Parent(path)) && ShapeIn(t, path) != LinkShape
    ensures FileOn(t, path) <==> FileOn(t, Parent(path)) || ShapeIn(t, path) == FileShape
  {
  }

  lemma AndOneMore(entries: seq<Entry>, n: nat, path: NamePath, m: nat)
    requires n <= |entries| && m <= |path|
    ensures DirsOn(entries, n, path, m) <==>
            m == 0 || (DirsOn(entries, n, path, m - 1) && ShapeAt(entries, n, path[..m]) in {Nothing, DirShape})
    ensures NoLinksOn(entries, n, path, m) <==>
            m == 0 || (NoLinksOn(entries, n, path, m - 1) && ShapeAt(entries, n, path[..m]) != LinkShape)
  {
    hide ShapeAt;
  }

  lemma WayFits(t: Tree, root: NamePath, entries: seq<Entry>, n: nat, path: NamePath)
    requires Fit(t, root) && n <= |entries| && Mirrors(t, root, entries, n) && path != []
    ensures NoLinkOn(t, root + path) && !FileOn(t, root + Parent(path)) <==>
            DirsOn(entries, n, path, |path| - 1) && ShapeAt(entries, n, path) != LinkShape
    ensures NoLinkOn(t, root + Parent(path)) <==> NoLinksOn(entries, n, path, |path| - 1)
  {
    hide ShapeAt, WellFormed, DirsOn, NoLinksOn;
    var m := |path| - 1;
    WayByPrefix(t, root, entries, n, path, m);
    assert path[..m] == Parent(path) && Parent(root + path) == root + Parent(path);
    assert ShapeIn(t, root + path) == ShapeAt(entries, n, path);
  }

  /** So the archive decides about the entry. */
  lemma EntryDecides(t: Tree, root: NamePath, entries: seq<Entry>, i: nat)
    requires Fit(t, root) && i < |entries| && Mirrors(t, root, entries, i)
    ensures Step(t, root, entries[i]).1 != Failed <==> EntryFits(entries, i)
  {
    hide ShapeAt, ShapeIn, WellFormed, NoLinkOn, FileOn, Place, NormalizeTarget, DirsOn, NoLinksOn;
    var e := entries[i];
    StatusFits(t, root, e);
    if Counts(e) {
      var relative := SafeRelative(e.path).value;
      PlacedIff(t, root, e);
      WayFits(t, root, entries, i, relative);
      assert Parent(Target(root, e)) == root + Parent(relative);
      KindDecides(t, root, entries, i, relative);
    }
  }

  lemma KindDecides(t: Tree, root: NamePath, entries: seq<Entry>, i: nat, relative: NamePath)
    requires Fit(t, root) && i < |entries| && Mirrors(t, root, entries, i)
    ensures KindFits(t, root, relative, entries[i].kind) <==> KindFitsArchive(entries, i, relative)
    ensures KindFitsArchive(entries, i, relative) ==> ShapeAt(entries, i, relative) != LinkShape
  {
    hide ShapeAt, ShapeIn, WellFormed, NoLinkOn, FileOn, NormalizeTarget, DirsOn, NoLinksOn;
    var kind := entries[i].kind;
    if kind.HardLinkKind? && kind.link.Some? && NormalizeTarget([], kind.link.value).Some? {
      var source := NormalizeTarget([], kind.link.value).value;
      if source != [] {
        WayFits(t, root, entries, i, source);
      } else {
        RootShape(t, root);
      }
    }
  }

  lemma RootShape(t: Tree, root: NamePath)
    requires Fit(t, root)
    ensures ShapeIn(t, root + []) == DirShape
  {
    assert root + [] == root;
  }

  lemma PreparedShape(t: Tree, root: NamePath, relative: NamePath, p: NamePath)
    requires Fit(t, root) && relative != [] && NoLinkOn(t, root + relative) && !FileOn(t, Parent(root + relative))
    ensures ShapeIn(WithDirs(t, Parent(root + relative)), root + p) ==
            if ShapeIn(t, root + p) == Nothing && p < relative then DirShape else ShapeIn(t, root + p)
  {
    hide WithDirs, NoLinkOn, FileOn, WellFormed;
    var above := Parent(root + relative);
    var prepared := WithDirs(t, above);
    PreparedTree(t, root, relative);
    ParentCrossesNoLink(t, root + relative);
    WithDirsKeeps(t, above);
    PrefixOfParent(root, relative, p);
    if p < relative {
      assert above[..|root + p|] == root + p;
      PrefixIn(prepared, above, |root + p|);
    }
  }

  lemma PrefixOfParent(root: NamePath, relative: NamePath, p: NamePath)
    requires relative != []
    ensures root + p <= Parent(root + relative) <==> p < relative
  {
    assert Parent(root + relative) == root + Parent(relative);
    if p < relative {
      assert p == Parent(relative)[..|p|];
      assert root + p == (root + Parent(relative))[..|root + p|];
    }
    if root + p <= root + Parent(relative) {
      assert (root + Parent(relative))[..|root + p|][|root|..] == p;
      assert Parent(relative)[..|p|] == p;
    }
  }

  /** Where the nodes are after an entry has been placed. */
  lemma ShapeAfter(t: Tree, root: NamePath, e: Entry, p: NamePath)
    requires Fit(t, root) && Counts(e) && Step(t, root, e).1 == Placed && p != SafeRelative(e.path).value
    ensures ShapeIn(Step(t, root, e).0, root + p) ==
            if ShapeIn(t, root + p) == Nothing && p < SafeRelative(e.path).value then DirShape
            else ShapeIn(t, root + p)
  {
    hide WithDirs, NoLinkOn, FileOn, NewNode, KindRefused, WellFormed;
    PreparedShape(t, root, SafeRelative(e.path).value, p);
    assert root + p != Target(root, e) by {
      assert (root + p)[|root|..] == p;
    }
  }

  lemma ShapePlaced(t: Tree, root: NamePath, e: Entry)
    requires Fit(t, root) && Counts(e) && Step(t, root, e).1 == Placed
    ensures ShapeIn(Step(t, root, e).0, Target(root, e)) ==
            match e.kind
            case FileKind(_) => FileShape
            case DirKind => DirShape
            case SymlinkKind(_) => LinkShape
            case HardLinkKind(link) =>
              if link.Some? && NormalizeTarget([], link.value).Some?
              then ShapeIn(t, root + NormalizeTarget([], link.value).value) else Nothing
            case OtherKind => Nothing
    ensures ShapeIn(t, Target(root, e)) != Nothing ==>
              ShapeIn(Step(t, root, e).0, Target(root, e)) == ShapeIn(t, Target(root, e))
  {
    hide Step, WellFormed, NormalizeTarget, Touches;
    PlacedNode(t, root, e);
    PlacedIff(t, root, e);
  }

  lemma MirrorsGrow(t: Tree, root: NamePath, entries: seq<Entry>, i: nat)
    requires Fit(t, root) && i < |entries| && Mirrors(t, root, entries, i)
    requires Step(t, root, entries[i]).1 != Failed
    ensures Mirrors(Step(t, root, entries[i]).0, root, entries, i + 1)
  {
    hide ShapeIn, WellFormed, Place, NormalizeTarget;
    var e := entries[i];
    StatusFits(t, root, e);
    RootShape(t, root);
    if Counts(e) {
      var relative := SafeRelative(e.path).value;
      ShapePlaced(t, root, e);
      forall p ensures ShapeIn(Step(t, root, e).0, root + p) == ShapeAt(entries, i + 1, p) {
        assert ShapeIn(t, root + p) == ShapeAt(entries, i, p);
        if p != relative {
          ShapeAfter(t, root, e, p);
        }
      }
    }
  }

  lemma {:induction false} Mirrored(t: Tree, root: NamePath, entries: seq<Entry>, n: nat)
    requires Fit(t, root) && n <= |entries| && forall p :: p in t ==> !Below(root, p)
    ensures Extract(t, root, entries[..n]).1.Some? <==> forall i :: 0 <= i < n ==> EntryFits(entries, i)
    ensures Extract(t, root, entries[..n]).1.Some? ==> Mirrors(Extract(t, root, entries[..n]).0, root, entries, n)
  {
    hide Step, WellFormed, EntryFits, Mirrors;
    if n == 0 {
      MirrorsEmpty(t, root, entries);
    } else {
      var before := Extract(t, root, entries[..n - 1]).0;
      assert entries[..n][..n - 1] == entries[..n - 1];
      Mirrored(t, root, entries, n - 1);
      if Extract(t, root, entries[..n - 1]).1.Some? {
        ExtractionConfined(t, root, entries, n - 1);
        EntryDecides(before, root, entries, n - 1);
        if EntryFits(entries, n - 1) {
          MirrorsGrow(before, root, entries, n - 1);
        }
      }
    }
  }

  lemma MirrorsEmpty(t: Tree, root: NamePath, entries: seq<Entry>)
    requires Fit(t, root) && forall p :: p in t ==> !Below(root, p)
    ensures Mirrors(t, root, entries, 0)
  {
    RootShape(t, root);
    forall p | p != [] ensures root + p !in t {
      assert Below(root, root + p);
    }
  }

  /** An archive can be extracted into an empty root exactly if each entry fits those before it. */
  lemma ExtractSucceedsIff(t: Tree, root: NamePath, entries: seq<Entry>)
    requires Fit(t, root) && forall p :: p in t ==> !Below(root, p)
    ensures Extract(t, root, entries).1.Some? <==> forall i :: 0 <= i < |entries| ==> EntryFits(entries, i)
    ensures Extract(t, root, entries).1.Some? ==>
              forall p :: ShapeIn(Extract(t, root, entries).0, root + p) == ShapeAt(entries, |entries|, p)
  {
    hide EntryFits, Extract, ShapeAt, ShapeIn;
    assert entries[..|entries|] == entries;
    Mirrored(t, root, entries, |entries|);
  }
}
