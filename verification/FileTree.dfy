/**
 A file tree and the system calls the import code makes on it. Every call walks its path the way the
 kernel does: directory by directory, following symbolic links, so that a write can in principle land
 anywhere.
 */
module FileTree {
  import opened Wrappers
  import opened Paths

  datatype Node = Dir | File(data: string) | Link(target: RawPath)

  /** The nodes by absolute path. */
  type Tree = map<NamePath, Node>

  /** The root is a directory and every node sits in a directory. */
  ghost predicate WellFormed(t: Tree) {
    && [] in t && t[[]] == Dir
    && forall p :: p in t && p != [] ==> Parent(p) in t && t[Parent(p)] == Dir
  }

  // ---- Path resolution ----

  datatype Lookup = Found(at: NamePath) | Missing | NotDir | TooManyLinks

  /** The kernel's limit on links followed in one walk. */
  const MAX_LINKS: nat := 40

  /** Walks `path` from the directory `at`, following every link met, the last component included. */
  function Walk(t: Tree, at: NamePath, path: seq<Component>, budget: nat): Lookup
    decreases budget, |path|
  {
    if path == [] then Found(at)
    else if at !in t || t[at] != Dir then NotDir
    else
      match path[0]
      case Root => Walk(t, [], path[1..], budget)
      case Here => Walk(t, at, path[1..], budget)
      case Up => Walk(t, Parent(at), path[1..], budget)
      case Name(n) =>
        var p := at + [n];
        if p !in t then Missing
        else if t[p].Link? then
          if budget == 0 then TooManyLinks else Walk(t, at, t[p].target + path[1..], budget - 1)
        else Walk(t, p, path[1..], budget)
  }

  function Resolve(t: Tree, path: NamePath): Lookup {
    Walk(t, [], Names(path), MAX_LINKS)
  }

  /** Where a call that does not follow the last component acts: in the resolved parent directory. */
  function Locate(t: Tree, path: NamePath): Lookup
    requires path != []
  {
    match Resolve(t, Parent(path))
    case Found(dir) => if dir in t && t[dir] == Dir then Found(dir + [path[|path| - 1]]) else NotDir
    case other => other
  }

  /**
   Where `open` with O_CREAT acts: like a walk, but a missing last name is found too, even if links lead
   to it.
   */
  function OpenFrom(t: Tree, at: NamePath, path: seq<Component>, budget: nat): Lookup
    decreases budget, |path|
  {
    if path == [] then Found(at)
    else if at !in t || t[at] != Dir then NotDir
    else
      match path[0]
      case Root => OpenFrom(t, [], path[1..], budget)
      case Here => OpenFrom(t, at, path[1..], budget)
      case Up => OpenFrom(t, Parent(at), path[1..], budget)
      case Name(n) =>
        var p := at + [n];
        if p !in t then if |path| == 1 then Found(p) else Missing
        else if t[p].Link? then
          if budget == 0 then TooManyLinks else OpenFrom(t, at, t[p].target + path[1..], budget - 1)
        else OpenFrom(t, p, path[1..], budget)
  }

  function Open(t: Tree, path: NamePath): Lookup {
    OpenFrom(t, [], Names(path), MAX_LINKS)
  }

  /** The file that a write to `path` creates or overwrites. */
  function WriteAt(t: Tree, path: NamePath): Option<NamePath> {
    match Open(t, path)
    case Found(at) => if at in t && !t[at].File? then None else Some(at)
    case _ => None
  }

  predicate Present(t: Tree, path: NamePath) {
    Resolve(t, path).Found?
  }

  predicate IsDirectory(t: Tree, path: NamePath) {
    var l := Resolve(t, path);
    l.Found? && l.at in t && t[l.at] == Dir
  }

  /** The text of the file that `path` leads to, links followed. */
  function FileText(t: Tree, path: NamePath): Option<string> {
    match Resolve(t, path)
    case Found(at) => if at in t && t[at].File? then Some(t[at].data) else None
    case _ => None
  }

  // ---- Parts of the tree ----

  predicate Under(top: NamePath, p: NamePath) {
    |top| <= |p| && p[..|top|] == top
  }

  /** The two trees agree outside `top`. */
  ghost predicate SameOutside(a: Tree, b: Tree, top: NamePath) {
    forall p :: !Under(top, p) ==> (p in a <==> p in b) && (p in a ==> a[p] == b[p])
  }

  /** The two trees agree at the paths that `guard` selects. */
  ghost predicate Agree(guard: NamePath -> bool, a: Tree, b: Tree) {
    forall p :: guard(p) ==> (p in a <==> p in b) && (p in a ==> a[p] == b[p])
  }

  // ---- Calls ----

  datatype Errno = NoEntry | NotADirectory | Exists | IsADirectory | Loop | NotPermitted

  function Failure(l: Lookup): Errno
    requires !l.Found?
  {
    match l
    case Missing => NoEntry
    case NotDir => NotADirectory
    case TooManyLinks => Loop
  }

  class FileSystem {
    var nodes: Tree

    constructor (t: Tree)
      ensures nodes == t
    {
      nodes := t;
    }

    /** `lstat` */
    method SymlinkMetadata(path: NamePath) returns (r: Result<Node, Errno>)
      requires path != []
      ensures var l := Locate(nodes, path);
              r == if !l.Found? then Err(Failure(l)) else if l.at in nodes then Ok(nodes[l.at]) else Err(NoEntry)
    {
      var l := Locate(nodes, path);
      if !l.Found? {
        return Err(Failure(l));
      }
      r := if l.at in nodes then Ok(nodes[l.at]) else Err(NoEntry);
    }

    /** `is_dir`, which follows links. */
    method IsDir(path: NamePath) returns (b: bool)
      ensures b == IsDirectory(nodes, path)
    {
      var l := Resolve(nodes, path);
      b := l.Found? && l.at in nodes && nodes[l.at] == Dir;
    }

    /** `exists`, which follows links too. */
    method PathExists(path: NamePath) returns (b: bool)
      ensures b == Present(nodes, path)
    {
      b := Resolve(nodes, path).Found?;
    }

    /** `fs::write`: create or truncate through whatever links are there, then write. */
    method ReadToString(path: NamePath) returns (text: Option<string>)
      ensures text == FileText(nodes, path)
    {
      var l := Resolve(nodes, path);
      if !l.Found? || l.at !in nodes || !nodes[l.at].File? {
        return None;
      }
      text := Some(nodes[l.at].data);
    }

    method WriteFile(path: NamePath, data: string) returns (ok: bool)
      modifies this
      ensures var at := WriteAt(old(nodes), path);
              ok == at.Some? && nodes == if ok then old(nodes)[at.value := File(data)] else old(nodes)
    {
      var l := Open(nodes, path);
      if !l.Found? || (l.at in nodes && !nodes[l.at].File?) {
        return false;
      }
      nodes := nodes[l.at := File("")];
      nodes := nodes[l.at := File(data)];
      ok := true;
    }

    /** Creates a node that must not exist: `mkdir`, `open` with O_EXCL, `symlink`. */
    method Create(path: NamePath, node: Node) returns (r: Result<(), Errno>)
      requires path != []
      modifies this
      ensures var l := Locate(old(nodes), path);
              if !l.Found? then r == Err(Failure(l)) && nodes == old(nodes)
              else if l.at in old(nodes) then r == Err(Exists) && nodes == old(nodes)
              else r == Ok(()) && nodes == old(nodes)[l.at := node]
    {
      var l := Locate(nodes, path);
      if !l.Found? {
        return Err(Failure(l));
      }
      if l.at in nodes {
        return Err(Exists);
      }
      nodes := nodes[l.at := node];
      r := Ok(());
    }

    /** `unlink` */
    method RemoveFile(path: NamePath) returns (r: Result<(), Errno>)
      requires path != []
      modifies this
      ensures var l := Locate(old(nodes), path);
              if !l.Found? then r == Err(Failure(l)) && nodes == old(nodes)
              else if l.at !in old(nodes) then r == Err(NoEntry) && nodes == old(nodes)
              else if old(nodes)[l.at] == Dir then r == Err(IsADirectory) && nodes == old(nodes)
              else r == Ok(()) && nodes == old(nodes) - {l.at}
    {
      var l := Locate(nodes, path);
      if !l.Found? {
        return Err(Failure(l));
      }
      if l.at !in nodes {
        return Err(NoEntry);
      }
      if nodes[l.at] == Dir {
        return Err(IsADirectory);
      }
      nodes := nodes - {l.at};
      r := Ok(());
    }

    /** `linkat` without following: the new name gets the node of the old one, also if that is a link. */
    method HardLink(source: NamePath, path: NamePath) returns (r: Result<(), Errno>)
      requires path != []
      modifies this
      ensures
        var from := if source == [] then Found([]) else Locate(old(nodes), source);
        var l := Locate(old(nodes), path);
        if !from.Found? then r == Err(Failure(from)) && nodes == old(nodes)
        else if from.at !in old(nodes) then r == Err(NoEntry) && nodes == old(nodes)
        else if old(nodes)[from.at] == Dir then r == Err(NotPermitted) && nodes == old(nodes)
        else if !l.Found? then r == Err(Failure(l)) && nodes == old(nodes)
        else if l.at in old(nodes) then r == Err(Exists) && nodes == old(nodes)
        else r == Ok(()) && nodes == old(nodes)[l.at := old(nodes)[from.at]]
    {
      var from := if source == [] then Found([]) else Locate(nodes, source);
      var l := Locate(nodes, path);
      if !from.Found? {
        return Err(Failure(from));
      }
      if from.at !in nodes {
        return Err(NoEntry);
      }
      if nodes[from.at] == Dir {
        return Err(NotPermitted);
      }
      if !l.Found? {
        return Err(Failure(l));
      }
      if l.at in nodes {
        return Err(Exists);
      }
      nodes := nodes[l.at := nodes[from.at]];
      r := Ok(());
    }
  }

  // ---- Plain paths: no link on the way ----

  /** No node on the way to `path` (itself included) is a link. */
  predicate NoLinkOn(t: Tree, path: NamePath)
    decreases |path|
  {
    && (path in t ==> !t[path].Link?)
    && (path == [] || NoLinkOn(t, Parent(path)))
  }

  /** Some node on the way to `path` (itself included) is a file. */
  predicate FileOn(t: Tree, path: NamePath)
    decreases |path|
  {
    || (path in t && t[path].File?)
    || (path != [] && FileOn(t, Parent(path)))
  }

  /** In a well-formed tree everything above a node is a directory. */
  lemma {:induction false} AboveIsDir(t: Tree, path: NamePath)
    requires WellFormed(t) && path in t && path != []
    ensures NoLinkOn(t, Parent(path)) && !FileOn(t, Parent(path))
    decreases |path|
  {
    if Parent(path) != [] {
      AboveIsDir(t, Parent(path));
    }
  }

  /** A walk along names is a walk to the parent and one more step, if no link is on the way. */
  lemma {:induction false} WalkSplit(t: Tree, at: NamePath, path: NamePath, last: string, budget: nat)
    requires forall i :: 0 <= i <= |path| && at + path[..i] in t ==> !t[at + path[..i]].Link?
    ensures
      var above := Walk(t, at, Names(path), budget);
      Walk(t, at, Names(path + [last]), budget) ==
      match above
      case Found(p) => Walk(t, p, [Name(last)], budget)
      case other => other
    ensures Walk(t, at, Names(path), budget).Found? ==> Walk(t, at, Names(path), budget).at == at + path
    decreases |path|
  {
    if path == [] {
      assert at + path == at;
      assert Names(path + [last]) == [Name(last)];
    } else {
      var p := at + [path[0]];
      assert p == at + path[..1];
      assert Names(path)[1..] == Names(path[1..]);
      assert (path + [last])[1..] == path[1..] + [last];
      assert Names(path + [last])[1..] == Names(path[1..] + [last]);
      forall i | 0 <= i <= |path[1..]| ensures p + path[1..][..i] == at + path[..i + 1] {
      }
      if p in t {
        WalkSplit(t, p, path[1..], last, budget);
      }
      assert p + path[1..] == at + path;
    }
  }

  lemma {:induction false} NoLinkPrefixes(t: Tree, path: NamePath, i: nat)
    requires NoLinkOn(t, path) && i <= |path|
    ensures [] + path[..i] in t ==> !t[[] + path[..i]].Link?
    decreases |path|
  {
    if i < |path| {
      NoLinkPrefixes(t, Parent(path), i);
      assert Parent(path)[..i] == path[..i];
    } else {
      assert [] + path[..i] == path;
    }
  }

  /** Without links on the way, a walk finds exactly the path that was named. */
  lemma {:induction false} WalkPlain(t: Tree, path: NamePath, budget: nat)
    requires WellFormed(t) && NoLinkOn(t, path)
    ensures Walk(t, [], Names(path), budget) ==
            if path in t then Found(path) else if path != [] && FileOn(t, Parent(path)) then NotDir else Missing
    decreases |path|
  {
    if path == [] {
      assert Names(path) == [];
    } else {
      var above, last := Parent(path), path[|path| - 1];
      assert above + [last] == path;
      WalkPlain(t, above, budget);
      forall i | 0 <= i <= |above| ensures [] + above[..i] in t ==> !t[[] + above[..i]].Link? {
        NoLinkPrefixes(t, above, i);
      }
      WalkSplit(t, [], above, last, budget);
      if path in t {
        AboveIsDir(t, path);
      } else if above in t {
        LastStep(t, above, last, budget);
        if above != [] {
          AboveIsDir(t, above);
        }
      }
    }
  }

  lemma LastStep(t: Tree, at: NamePath, last: string, budget: nat)
    requires at + [last] !in t && at in t
    ensures Walk(t, at, [Name(last)], budget) == if t[at] == Dir then Missing else NotDir
  {
  }

  lemma ResolvePlain(t: Tree, path: NamePath)
    requires WellFormed(t) && NoLinkOn(t, path)
    ensures Resolve(t, path) ==
            if path in t then Found(path) else if path != [] && FileOn(t, Parent(path)) then NotDir else Missing
  {
    WalkPlain(t, path, MAX_LINKS);
  }

  lemma LocatePlain(t: Tree, path: NamePath)
    requires WellFormed(t) && path != [] && NoLinkOn(t, Parent(path))
    ensures Locate(t, path) ==
            if FileOn(t, Parent(path)) then NotDir else if Parent(path) in t then Found(path) else Missing
  {
    ResolvePlain(t, Parent(path));
    assert Parent(path) + [path[|path| - 1]] == path;
    if Parent(path) in t && Parent(path) != [] {
      AboveIsDir(t, Parent(path));
    }
  }

  // ---- Writes: any path, links included ----

  /** Opening finds what a walk finds, and besides that only names that are free. */
  lemma {:induction false} OpenIsWalk(t: Tree, at: NamePath, path: seq<Component>, budget: nat)
    requires WellFormed(t) && at in t
    ensures var w, o := Walk(t, at, path, budget), OpenFrom(t, at, path, budget);
            && (w.Found? <==> o.Found? && o.at in t)
            && (w.Found? ==> w == o)
    decreases budget, |path|
  {
    if path != [] && t[at] == Dir {
      match path[0]
      case Root => OpenIsWalk(t, [], path[1..], budget);
      case Here => OpenIsWalk(t, at, path[1..], budget);
      case Up => OpenIsWalk(t, Parent(at), path[1..], budget);
      case Name(n) =>
        var p := at + [n];
        if p in t && t[p].Link? {
          if budget > 0 {
            OpenIsWalk(t, at, t[p].target + path[1..], budget - 1);
          }
        } else if p in t {
          OpenIsWalk(t, p, path[1..], budget);
        }
    }
  }

  /** A new or overwritten file leads no other write elsewhere. */
  lemma {:induction false} OpenAfterWrite(
      t: Tree, at: NamePath, path: seq<Component>, budget: nat, w: NamePath, data: string)
    requires w in t ==> t[w].File?
    ensures var before, after := OpenFrom(t, at, path, budget), OpenFrom(t[w := File(data)], at, path, budget);
            before.Found? == after.Found? && (before.Found? ==> before == after)
    decreases budget, |path|
  {
    if path != [] && at in t && t[at] == Dir {
      match path[0]
      case Root => OpenAfterWrite(t, [], path[1..], budget, w, data);
      case Here => OpenAfterWrite(t, at, path[1..], budget, w, data);
      case Up => OpenAfterWrite(t, Parent(at), path[1..], budget, w, data);
      case Name(n) =>
        var p := at + [n];
        if p in t && t[p].Link? {
          if budget > 0 {
            OpenAfterWrite(t, at, t[p].target + path[1..], budget - 1, w, data);
          }
        } else if p in t || p == w {
          OpenAfterWrite(t, p, path[1..], budget, w, data);
        }
    }
  }

  /** Who opens a longer path goes through the directory that its beginning names. */
  lemma {:induction false} OpenSplit(t: Tree, at: NamePath, p: seq<Component>, q: seq<Component>, budget: nat)
    returns (mid: NamePath, rest: nat)
    requires q != [] && OpenFrom(t, at, p + q, budget).Found?
    ensures OpenFrom(t, at, p, budget) == Found(mid) && mid in t && t[mid] == Dir
    ensures OpenFrom(t, mid, q, rest) == OpenFrom(t, at, p + q, budget)
    decreases budget, |p|
  {
    if p == [] {
      assert p + q == q;
      return at, budget;
    }
    assert (p + q)[1..] == p[1..] + q;
    match p[0]
    case Root => mid, rest := OpenSplit(t, [], p[1..], q, budget);
    case Here => mid, rest := OpenSplit(t, at, p[1..], q, budget);
    case Up => mid, rest := OpenSplit(t, Parent(at), p[1..], q, budget);
    case Name(n) =>
      var next := at + [n];
      if t[next].Link? {
        var target := t[next].target;
        assert target + (p[1..] + q) == (target + p[1..]) + q;
        mid, rest := OpenSplit(t, at, target + p[1..], q, budget - 1);
      } else {
        mid, rest := OpenSplit(t, next, p[1..], q, budget);
      }
  }

  /** And behind that directory the rest is opened, with whatever budget is left. */
  lemma {:induction false} OpenAppend(t: Tree, at: NamePath, p: seq<Component>, q: seq<Component>, budget: nat)
    returns (rest: nat)
    requires OpenFrom(t, at, p, budget).Found? && OpenFrom(t, at, p, budget).at in t
    ensures OpenFrom(t, at, p + q, budget) == OpenFrom(t, OpenFrom(t, at, p, budget).at, q, rest)
    decreases budget, |p|
  {
    if p == [] {
      assert p + q == q;
      return budget;
    }
    assert (p + q)[1..] == p[1..] + q;
    match p[0]
    case Root => rest := OpenAppend(t, [], p[1..], q, budget);
    case Here => rest := OpenAppend(t, at, p[1..], q, budget);
    case Up => rest := OpenAppend(t, Parent(at), p[1..], q, budget);
    case Name(n) =>
      var next := at + [n];
      if t[next].Link? {
        var target := t[next].target;
        assert target + (p[1..] + q) == (target + p[1..]) + q;
        rest := OpenAppend(t, at, target + p[1..], q, budget - 1);
      } else {
        rest := OpenAppend(t, next, p[1..], q, budget);
      }
  }

  /** What is found stays found when the tree grows. */
  lemma {:induction false} OpenGrows(t: Tree, u: Tree, at: NamePath, path: seq<Component>, budget: nat)
    requires forall p :: p in t ==> p in u && u[p] == t[p]
    requires OpenFrom(t, at, path, budget).Found? && OpenFrom(t, at, path, budget).at in t
    ensures OpenFrom(u, at, path, budget) == OpenFrom(t, at, path, budget)
    decreases budget, |path|
  {
    if path != [] {
      match path[0]
      case Root => OpenGrows(t, u, [], path[1..], budget);
      case Here => OpenGrows(t, u, at, path[1..], budget);
      case Up => OpenGrows(t, u, Parent(at), path[1..], budget);
      case Name(n) =>
        var p := at + [n];
        if t[p].Link? {
          OpenGrows(t, u, at, t[p].target + path[1..], budget - 1);
        } else {
          OpenGrows(t, u, p, path[1..], budget);
        }
    }
  }

  lemma RootAndParent(t: Tree, at: NamePath)
    requires WellFormed(t) && at in t
    ensures [] in t && Parent(at) in t
  {
  }

  /** A free name that is opened lies in a directory. */
  lemma {:induction false} OpenParent(t: Tree, at: NamePath, path: seq<Component>, budget: nat)
    requires WellFormed(t) && at in t
    requires OpenFrom(t, at, path, budget).Found? && OpenFrom(t, at, path, budget).at !in t
    ensures var w := OpenFrom(t, at, path, budget).at; w != [] && Parent(w) in t && t[Parent(w)] == Dir
    decreases budget, |path|
  {
    hide WellFormed;
    RootAndParent(t, at);
    if path != [] {
      match path[0]
      case Root => OpenParent(t, [], path[1..], budget);
      case Here => OpenParent(t, at, path[1..], budget);
      case Up => OpenParent(t, Parent(at), path[1..], budget);
      case Name(n) =>
        var p := at + [n];
        assert Parent(p) == at;
        if p in t && t[p].Link? {
          OpenParent(t, at, t[p].target + path[1..], budget - 1);
        } else if p in t {
          OpenParent(t, p, path[1..], budget);
        }
    }
  }

  /** A path without links on it, itself included, is opened where it says. */
  lemma OpenPlain(t: Tree, path: NamePath)
    requires WellFormed(t) && NoLinkOn(t, path)
    ensures Open(t, path).Found? ==> Open(t, path) == Found(path)
  {
    if path != [] && Open(t, path).Found? {
      var above, last := Parent(path), path[|path| - 1];
      assert above + [last] == path;
      assert Names(path) == Names(above) + [Name(last)];
      var mid, rest := OpenSplit(t, [], Names(above), [Name(last)], MAX_LINKS);
      OpenIsWalk(t, [], Names(above), MAX_LINKS);
      ResolvePlain(t, above);
      assert mid == above;
      OpenName(t, above, last, rest);
    }
  }

  lemma OpenName(t: Tree, at: NamePath, last: string, budget: nat)
    requires at in t && t[at] == Dir && (at + [last] in t ==> !t[at + [last]].Link?)
    ensures OpenFrom(t, at, [Name(last)], budget) == Found(at + [last])
  {
    if at + [last] in t {
      assert OpenFrom(t, at + [last], [Name(last)][1..], budget) == Found(at + [last]);
    }
  }
}
