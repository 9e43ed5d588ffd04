/**
 Extraction of a root file system: the entries of an archive are checked lexically and against links
 already placed, and then created through system calls that do follow links.
 */
module RootfsExtract {
  import opened Wrappers
  import opened Paths
  import opened FileTree

  datatype Kind =
    | FileKind(data: string)
    | DirKind
    | SymlinkKind(link: Option<RawPath>)
    | HardLinkKind(link: Option<RawPath>)
    | OtherKind

  datatype Entry = Entry(path: RawPath, kind: Kind)

  datatype Status = Placed | Skipped | Failed

  // ---- The extraction without any path resolution ----

  /** `t` with every missing directory on the way to `path`, itself included. */
  function WithDirs(t: Tree, path: NamePath): Tree
    decreases |path|
  {
    if path in t || path == [] then t else WithDirs(t, Parent(path))[path := Dir]
  }

  /** The node an entry puts at its path, if the tree and the entry allow it. */
  function NewNode(t: Tree, root: NamePath, relative: NamePath, kind: Kind): Option<Node> {
    var target := root + relative;
    match kind
    case FileKind(data) => if target in t && t[target] == Dir then None else Some(File(data))
    case DirKind => if target in t && t[target] != Dir then None else Some(Dir)
    case SymlinkKind(Some(link)) => if target in t || link == [] then None else Some(Link(link))
    case HardLinkKind(Some(link)) =>
      var source := NormalizeTarget([], link);
      if source.None? || root + source.value !in t || t[root + source.value] == Dir || target in t then None
      else Some(t[root + source.value])
    case _ => None
  }

  predicate LinkAbove(t: Tree, root: NamePath, relative: NamePath) {
    !NoLinkOn(t, root + Parent(relative))
  }

  /** What a link entry is refused for before anything is created. */
  predicate KindRefused(t: Tree, root: NamePath, relative: NamePath, kind: Kind) {
    match kind
    case SymlinkKind(link) => link.None? || NormalizeTarget(Parent(relative), link.value).None?
    case HardLinkKind(link) =>
      || link.None?
      || NormalizeTarget([], link.value).None?
      || LinkAbove(t, root, NormalizeTarget([], link.value).value)
    case OtherKind => true
    case _ => false
  }

  /** Placing an entry whose own path crosses no link. */
  function Place(t: Tree, root: NamePath, relative: NamePath, kind: Kind): (Tree, Status) {
    var target := root + relative;
    if KindRefused(t, root, relative, kind) || FileOn(t, Parent(target)) then (t, Failed)
    else
      var prepared := WithDirs(t, Parent(target));
      var node := NewNode(prepared, root, relative, kind);
      if node.None? then (prepared, Failed) else (prepared[target := node.value], Placed)
  }

  /** One entry: the tree afterwards and what became of the entry. */
  function Step(t: Tree, root: NamePath, e: Entry): (Tree, Status) {
    var safe := SafeRelative(e.path);
    if safe.None? then (t, Failed)
    else if safe.value == [] then (t, Skipped)
    else if !NoLinkOn(t, root + safe.value) then (t, Failed)
    else Place(t, root, safe.value, e.kind)
  }

  /** All entries up to the first failure; the count is that of the placed ones. */
  function Extract(t: Tree, root: NamePath, entries: seq<Entry>): (Tree, Option<nat>) {
    if entries == [] then (t, Some(0))
    else
      var n := |entries| - 1;
      var (before, count) := Extract(t, root, entries[..n]);
      if count.None? then (before, None)
      else
        var (after, status) := Step(before, root, entries[n]);
        (after, match status case Placed => Some(count.value + 1) case Skipped => count case Failed => None)
  }

  // ---- System calls on paths that cross no link: they act on the path that was named ----

  method PlainLstat(fs: FileSystem, path: NamePath) returns (node: Option<Node>)
    requires WellFormed(fs.nodes) && path != [] && NoLinkOn(fs.nodes, Parent(path))
    ensures node == if path in fs.nodes then Some(fs.nodes[path]) else None
  {
    LstatPlain(fs.nodes, path);
    var r := fs.SymlinkMetadata(path);
    node := if r.Ok? then Some(r.value) else None;
  }

  method PlainIsDir(fs: FileSystem, path: NamePath) returns (b: bool)
    requires WellFormed(fs.nodes) && NoLinkOn(fs.nodes, path)
    ensures b == (path in fs.nodes && fs.nodes[path] == Dir)
  {
    ResolvePlain(fs.nodes, path);
    b := fs.IsDir(path);
  }

  method PlainCreate(fs: FileSystem, path: NamePath, node: Node) returns (ok: bool)
    requires WellFormed(fs.nodes) && path != [] && Parent(path) in fs.nodes && fs.nodes[Parent(path)] == Dir
    modifies fs
    ensures ok == (path !in old(fs.nodes))
    ensures fs.nodes == if ok then old(fs.nodes)[path := node] else old(fs.nodes)
  {
    DirParentFound(fs.nodes, path);
    var r := fs.Create(path, node);
    ok := r.Ok?;
  }

  method PlainHardLink(fs: FileSystem, source: NamePath, path: NamePath) returns (ok: bool)
    requires WellFormed(fs.nodes) && path != [] && Parent(path) in fs.nodes && fs.nodes[Parent(path)] == Dir
    requires source != [] ==> NoLinkOn(fs.nodes, Parent(source))
    modifies fs
    ensures ok == (source in old(fs.nodes) && old(fs.nodes)[source] != Dir && path !in old(fs.nodes))
    ensures fs.nodes == if ok then old(fs.nodes)[path := old(fs.nodes)[source]] else old(fs.nodes)
  {
    DirParentFound(fs.nodes, path);
    if source != [] {
      LstatPlain(fs.nodes, source);
    }
    var r := fs.HardLink(source, path);
    ok := r.Ok?;
  }

  // ---- The program ----

  /** `has_symlink_ancestor`: an `lstat` of every path between the root and the parent. */
  method HasSymlinkAncestor(fs: FileSystem, root: NamePath, relative: NamePath) returns (b: bool)
    requires WellFormed(fs.nodes) && root in fs.nodes && fs.nodes[root] == Dir
    ensures b == LinkAbove(fs.nodes, root, relative)
  {
    hide WellFormed, Locate;
    var parent := Parent(relative);
    var whole := root + parent;
    RootIsPlain(fs.nodes, root);
    assert whole[..|root|] == root;
    for i := |root| to |whole|
      invariant NoLinkOn(fs.nodes, whole[..i])
    {
      var current := whole[..i + 1];
      assert Parent(current) == whole[..i];
      OneMoreName(fs.nodes, current);
      var node := PlainLstat(fs, current);
      if node.Some? && node.value.Link? {
        LinkStays(fs.nodes, whole, i + 1);
        return true;
      }
    }
    assert whole[..|whole|] == whole;
    b := false;
  }

  lemma OneMoreName(t: Tree, path: NamePath)
    requires path != [] && NoLinkOn(t, Parent(path))
    ensures NoLinkOn(t, path) <==> path !in t || !t[path].Link?
  {
  }

  lemma RootIsPlain(t: Tree, root: NamePath)
    requires WellFormed(t) && root in t && !t[root].Link?
    ensures NoLinkOn(t, root)
  {
    if root != [] {
      AboveIsDir(t, root);
    }
  }

  /** Without links above, `lstat` answers for the path that was named. */
  lemma LstatPlain(t: Tree, path: NamePath)
    requires WellFormed(t) && path != [] && NoLinkOn(t, Parent(path))
    ensures var l := Locate(t, path); l.Found? && l.at in t <==> path in t
    ensures path in t ==> Locate(t, path) == Found(path)
  {
    LocatePlain(t, path);
    if path in t {
      AboveIsDir(t, path);
    }
  }

  /** A link on the way to a prefix is a link on the way to the whole. */
  lemma {:induction false} LinkStays(t: Tree, path: NamePath, i: nat)
    requires i <= |path| && !NoLinkOn(t, path[..i])
    ensures !NoLinkOn(t, path)
    decreases |path|
  {
    if i < |path| {
      assert Parent(path)[..i] == path[..i];
      LinkStays(t, Parent(path), i);
    } else {
      assert path[..i] == path;
    }
  }

  /** The tree after `fs::create_dir_all`, and whether it succeeds. */
  function MkdirAll(t: Tree, path: NamePath): (Tree, bool)
    decreases |path|
  {
    if path == [] then (t, true)
    else if Locate(t, path) != Missing then Mkdir(t, path)
    else
      var (above, ok) := MkdirAll(t, Parent(path));
      if ok then Mkdir(above, path) else (above, false)
  }

  /** One directory, or one that is already there. */
  function Mkdir(t: Tree, path: NamePath): (Tree, bool)
    requires path != []
  {
    var l := Locate(t, path);
    if l.Found? && l.at !in t then (t[l.at := Dir], true) else (t, IsDirectory(t, path))
  }

  /** `fs::create_dir_all`: try the path, on a missing parent make that first. */
  method CreateDirAll(fs: FileSystem, path: NamePath) returns (ok: bool)
    modifies fs
    ensures (fs.nodes, ok) == MkdirAll(old(fs.nodes), path)
    decreases |path|
  {
    if path == [] {
      return true;
    }
    var made := fs.Create(path, Dir);
    if made.Ok? {
      return true;
    }
    if made.error != NoEntry {
      ok := fs.IsDir(path);
      return;
    }
    ok := CreateDirAll(fs, Parent(path));
    if !ok {
      return;
    }
    made := fs.Create(path, Dir);
    if made.Ok? {
      return true;
    }
    ok := fs.IsDir(path);
  }

  /** On a path without links it makes exactly the missing directories, or changes nothing. */
  lemma {:induction false} MkdirAllPlain(t: Tree, path: NamePath)
    requires WellFormed(t) && NoLinkOn(t, path)
    ensures MkdirAll(t, path) == if FileOn(t, path) then (t, false) else (WithDirs(t, path), true)
    decreases |path|
  {
    if path != [] {
      LocatePlain(t, path);
      ResolvePlain(t, path);
      if path in t {
        AboveIsDir(t, path);
      } else if Parent(path) in t {
        WithDirsParent(t, path);
      } else if !FileOn(t, Parent(path)) {
        MkdirAllPlain(t, Parent(path));
        WithDirsKeeps(t, Parent(path));
        MissingHasNoFile(t, path);
        NoLinkWithDirs(t, Parent(path), Parent(path));
        NoFileWithDirs(t, Parent(path), Parent(path));
        LocatePlain(WithDirs(t, Parent(path)), path);
      }
    }
  }

  /** `entry.unpack` of a regular file: create it exclusively, replacing a file that is in the way. */
  method UnpackFile(fs: FileSystem, path: NamePath, data: string) returns (ok: bool)
    requires WellFormed(fs.nodes) && path != [] && NoLinkOn(fs.nodes, path)
    requires Parent(path) in fs.nodes && fs.nodes[Parent(path)] == Dir
    modifies fs
    ensures ok == !(path in old(fs.nodes) && old(fs.nodes)[path] == Dir)
    ensures fs.nodes == if ok then old(fs.nodes)[path := File(data)] else old(fs.nodes)
  {
    ghost var t := fs.nodes;
    ok := PlainCreate(fs, path, File(data));
    if ok {
      return;
    }
    DirParentFound(t, path);
    var removed := fs.RemoveFile(path);
    if removed.Err? {
      return false;
    }
    assert fs.nodes == t - {path};
    RemovalKeepsShape(t, path);
    ok := PlainCreate(fs, path, File(data));
    assert (t - {path})[path := File(data)] == t[path := File(data)];
  }

  /** Below a directory that is there, calls act on the very path that was named. */
  lemma DirParentFound(t: Tree, path: NamePath)
    requires WellFormed(t) && path != [] && Parent(path) in t && t[Parent(path)] == Dir
    ensures Locate(t, path) == Found(path)
  {
    RootIsPlain(t, Parent(path));
    if Parent(path) != [] {
      AboveIsDir(t, Parent(path));
    }
    LocatePlain(t, path);
  }

  /** `extract_tar_stream` */
  method ExtractTarStream(fs: FileSystem, root: NamePath, entries: seq<Entry>) returns (count: Option<nat>)
    requires WellFormed(fs.nodes) && root in fs.nodes && fs.nodes[root] == Dir
    modifies fs
    ensures (fs.nodes, count) == Extract(old(fs.nodes), root, entries)
  {
    hide Step, Place, WellFormed;
    ghost var t := fs.nodes;
    count := Some(0);
    for i := 0 to |entries|
      invariant count.Some? && (fs.nodes, count) == Extract(t, root, entries[..i])
      invariant WellFormed(fs.nodes) && root in fs.nodes && fs.nodes[root] == Dir
    {
      assert entries[..i + 1][..i] == entries[..i];
      ghost var before := fs.nodes;
      var status := ExtractEntry(fs, root, entries[i]);
      StepKeepsShape(before, root, entries[i]);
      match status {
        case Placed => count := Some(count.value + 1);
        case Skipped =>
        case Failed =>
          ExtractStops(t, root, entries, i + 1);
          return None;
      }
    }
    assert entries[..|entries|] == entries;
  }

  lemma {:induction false} ExtractStops(t: Tree, root: NamePath, entries: seq<Entry>, i: nat)
    requires i <= |entries| && Extract(t, root, entries[..i]).1.None?
    ensures Extract(t, root, entries) == Extract(t, root, entries[..i])
    decreases |entries|
  {
    if i == |entries| {
      assert entries[..i] == entries;
    } else {
      var init := entries[..|entries| - 1];
      assert init[..i] == entries[..i];
      ExtractStops(t, root, init, i);
      assert entries != [];
    }
  }

  /** An entry may be placed: the root is there and the entry's path crosses no link. */
  ghost predicate MayPlace(t: Tree, root: NamePath, relative: NamePath) {
    && WellFormed(t) && root in t && t[root] == Dir
    && relative != [] && NoLinkOn(t, root + relative)
  }

  method PlaceFile(fs: FileSystem, root: NamePath, relative: NamePath, data: string) returns (status: Status)
    requires MayPlace(fs.nodes, root, relative)
    modifies fs
    ensures (fs.nodes, status) == Place(old(fs.nodes), root, relative, FileKind(data))
  {
    ghost var t := fs.nodes;
    var target := root + relative;
    ParentCrossesNoLink(t, target);
    MkdirAllPlain(t, Parent(target));
    var ready := CreateDirAll(fs, Parent(target));
    if !ready {
      return Failed;
    }
    DirsReady(t, target);
    var done := UnpackFile(fs, target, data);
    status := if done then Placed else Failed;
  }

  /** `entry.unpack` of a directory: one that is already there will do. */
  method PlaceDir(fs: FileSystem, root: NamePath, relative: NamePath) returns (status: Status)
    requires MayPlace(fs.nodes, root, relative)
    modifies fs
    ensures (fs.nodes, status) == Place(old(fs.nodes), root, relative, DirKind)
  {
    ghost var t := fs.nodes;
    var target := root + relative;
    ParentCrossesNoLink(t, target);
    MkdirAllPlain(t, Parent(target));
    var ready := CreateDirAll(fs, Parent(target));
    if !ready {
      return Failed;
    }
    DirsReady(t, target);
    ghost var prepared := fs.nodes;
    var made := PlainCreate(fs, target, Dir);
    if made {
      return Placed;
    }
    var there := PlainIsDir(fs, target);
    status := if there then Placed else Failed;
    assert target in prepared && prepared[target] == Dir ==> prepared[target := Dir] == prepared;
  }

  method PlaceSymlink(fs: FileSystem, root: NamePath, relative: NamePath, link: Option<RawPath>)
    returns (status: Status)
    requires MayPlace(fs.nodes, root, relative)
    modifies fs
    ensures (fs.nodes, status) == Place(old(fs.nodes), root, relative, SymlinkKind(link))
  {
    ghost var t := fs.nodes;
    var target := root + relative;
    if link.None? {
      return Failed;
    }
    var resolved := NormalizeLinkTarget(Parent(relative), link.value);
    if resolved.None? {
      return Failed;
    }
    ParentCrossesNoLink(t, target);
    MkdirAllPlain(t, Parent(target));
    var ready := CreateDirAll(fs, Parent(target));
    if !ready {
      return Failed;
    }
    DirsReady(t, target);
    if link.value == [] {
      return Failed;  // symlink("") is refused by the kernel
    }
    var made := PlainCreate(fs, target, Link(link.value));
    status := if made then Placed else Failed;
  }

  method PlaceHardLink(fs: FileSystem, root: NamePath, relative: NamePath, link: Option<RawPath>)
    returns (status: Status)
    requires MayPlace(fs.nodes, root, relative)
    modifies fs
    ensures (fs.nodes, status) == Place(old(fs.nodes), root, relative, HardLinkKind(link))
  {
    ghost var t := fs.nodes;
    var target := root + relative;
    if link.None? {
      return Failed;
    }
    var resolved := NormalizeLinkTarget([], link.value);
    if resolved.None? {
      return Failed;
    }
    var crosses := HasSymlinkAncestor(fs, root, resolved.value);
    if crosses {
      return Failed;
    }
    ParentCrossesNoLink(t, target);
    MkdirAllPlain(t, Parent(target));
    var ready := CreateDirAll(fs, Parent(target));
    if !ready {
      return Failed;
    }
    DirsReady(t, target);
    SourceReady(t, target, root, resolved.value);
    var made := PlainHardLink(fs, root + resolved.value, target);
    status := if made then Placed else Failed;
  }

  lemma ParentCrossesNoLink(t: Tree, path: NamePath)
    requires path != [] && NoLinkOn(t, path)
    ensures NoLinkOn(t, Parent(path))
  {
  }

  /** The body of the loop. */
  method ExtractEntry(fs: FileSystem, root: NamePath, e: Entry) returns (status: Status)
    requires WellFormed(fs.nodes) && root in fs.nodes && fs.nodes[root] == Dir
    modifies fs
    ensures (fs.nodes, status) == Step(old(fs.nodes), root, e)
  {
    var safe := SafeRelativePath(e.path);
    if safe.None? {
      return Failed;
    }
    var relative := safe.value;
    if relative == [] {
      return Skipped;
    }
    var target := root + relative;
    assert Parent(target) == root + Parent(relative);
    var crosses := HasSymlinkAncestor(fs, root, relative);
    if crosses {
      return Failed;
    }
    var node := PlainLstat(fs, target);
    if node.Some? && node.value.Link? {
      return Failed;
    }
    match e.kind {
      case FileKind(data) => status := PlaceFile(fs, root, relative, data);
      case DirKind => status := PlaceDir(fs, root, relative);
      case SymlinkKind(link) => status := PlaceSymlink(fs, root, relative, link);
      case HardLinkKind(link) => status := PlaceHardLink(fs, root, relative, link);
      case OtherKind => status := Failed;
    }
  }

  // ---- Facts about the prepared tree ----

  lemma {:induction false} WithDirsKeeps(t: Tree, path: NamePath)
    requires WellFormed(t) && !FileOn(t, path) && NoLinkOn(t, path)
    ensures var made := WithDirs(t, path);
            && WellFormed(made) && path in made && made[path] == Dir
            && (forall p :: p in t ==> p in made && made[p] == t[p])
            && (forall p :: p in made && p !in t ==> made[p] == Dir && p <= path)
    decreases |path|
  {
    if path !in t && path != [] {
      WithDirsKeeps(t, Parent(path));
    }
  }

  lemma WithDirsParent(t: Tree, path: NamePath)
    requires path != [] && path !in t && Parent(path) in t
    ensures WithDirs(t, path) == t[path := Dir]
  {
  }

  /** A walk that ends in a missing directory met no file. */
  lemma MissingHasNoFile(t: Tree, path: NamePath)
    requires WellFormed(t) && path != [] && !FileOn(t, Parent(path)) && Parent(path) !in t
    ensures path !in t && !FileOn(t, path)
  {
  }

  lemma {:induction false} NoLinkWithDirs(t: Tree, dirs: NamePath, path: NamePath)
    requires WellFormed(t) && !FileOn(t, dirs) && NoLinkOn(t, dirs) && NoLinkOn(t, path)
    ensures NoLinkOn(WithDirs(t, dirs), path)
    decreases |path|
  {
    WithDirsKeeps(t, dirs);
    if path != [] {
      NoLinkWithDirs(t, dirs, Parent(path));
    }
  }

  lemma {:induction false} NoFileWithDirs(t: Tree, dirs: NamePath, path: NamePath)
    requires WellFormed(t) && !FileOn(t, dirs) && NoLinkOn(t, dirs) && !FileOn(t, path)
    ensures !FileOn(WithDirs(t, dirs), path)
    decreases |path|
  {
    WithDirsKeeps(t, dirs);
    if path != [] {
      NoFileWithDirs(t, dirs, Parent(path));
    }
  }

  /** Once the parent directories are made, the entry's own path is still free of links. */
  lemma DirsReady(t: Tree, target: NamePath)
    requires WellFormed(t) && target != [] && NoLinkOn(t, target) && !FileOn(t, Parent(target))
    ensures var made := WithDirs(t, Parent(target));
            WellFormed(made) && Parent(target) in made && made[Parent(target)] == Dir && NoLinkOn(made, target)
  {
    WithDirsKeeps(t, Parent(target));
    NoLinkWithDirs(t, Parent(target), target);
  }

  /** The source of a hard link crosses no link above it in the prepared tree either. */
  lemma SourceReady(t: Tree, target: NamePath, root: NamePath, source: NamePath)
    requires WellFormed(t) && target != [] && NoLinkOn(t, target) && !FileOn(t, Parent(target))
    requires root in t && t[root] == Dir && !LinkAbove(t, root, source)
    ensures var made := WithDirs(t, Parent(target));
            root + source != [] ==> NoLinkOn(made, Parent(root + source))
  {
    WithDirsKeeps(t, Parent(target));
    if root + source != [] {
      if source == [] {
        assert root + source == root;
        AboveIsDir(t, root);
      } else {
        assert Parent(root + source) == root + Parent(source);
      }
      NoLinkWithDirs(t, Parent(target), Parent(root + source));
    }
  }

  lemma RemovalKeepsShape(t: Tree, path: NamePath)
    requires WellFormed(t) && path in t && path != [] && t[path] != Dir
    ensures WellFormed(t - {path}) && Parent(path) in t - {path} && (t - {path})[Parent(path)] == Dir
  {
  }

  /** An entry leaves the tree well-formed, with the root in place. */
  lemma StepKeepsShape(t: Tree, root: NamePath, e: Entry)
    requires WellFormed(t) && root in t && t[root] == Dir
    ensures var after := Step(t, root, e).0; WellFormed(after) && root in after && after[root] == Dir
  {
    var safe := SafeRelative(e.path);
    if safe.Some? && safe.value != [] {
      var target := root + safe.value;
      if NoLinkOn(t, target) && !FileOn(t, Parent(target)) {
        DirsReady(t, target);
        WithDirsKeeps(t, Parent(target));
        NewNodeFits(WithDirs(t, Parent(target)), root, safe.value, e.kind);
      }
    }
  }

  lemma NewNodeFits(t: Tree, root: NamePath, relative: NamePath, kind: Kind)
    requires WellFormed(t) && root in t && t[root] == Dir && relative != []
    requires Parent(root + relative) in t && t[Parent(root + relative)] == Dir
    ensures var node := NewNode(t, root, relative, kind);
            node.Some? ==> WellFormed(t[root + relative := node.value])
    ensures var node := NewNode(t, root, relative, kind);
            node.Some? && root + relative in t && t[root + relative] == Dir ==> node.value == Dir
  {
    var target, node := root + relative, NewNode(t, root, relative, kind);
    if node.Some? {
      var after := t[target := node.value];
      forall p | p in after && p != [] ensures Parent(p) in after && after[Parent(p)] == Dir {
        if p != target {
          assert p in t;
        }
      }
    }
  }
}
