/**
 Paths as the import code sees them: lists of components, normalised without looking at the file
 system.
 */
module Paths {
  import opened Wrappers

  /** A component of a path, as `Path::components` yields it on Unix. */
  datatype Component = Root | Here | Up | Name(name: string)

  /** A path that may still contain special components; `Root` can only come first. */
  type RawPath = p: seq<Component> | forall i :: 0 < i < |p| ==> p[i] != Root

  /** A path of ordinary names only. */
  type NamePath = seq<string>

  function Names(p: NamePath): (r: RawPath)
    ensures |r| == |p| && forall i :: 0 <= i < |p| ==> r[i] == Name(p[i])
  {
    seq(|p|, i requires 0 <= i < |p| => Name(p[i]))
  }

  function Parent(p: NamePath): NamePath {
    if p == [] then [] else p[..|p| - 1]
  }

  // ---- Specifications ----

  /** Walking the components from a stack of names; a step above the start is refused. */
  function NormalizeFrom(stack: NamePath, p: seq<Component>): Option<NamePath>
    decreases |p|
  {
    if p == [] then Some(stack)
    else
      match p[0]
      case Here => NormalizeFrom(stack, p[1..])
      case Name(n) => NormalizeFrom(stack + [n], p[1..])
      case Up => if stack == [] then None else NormalizeFrom(Parent(stack), p[1..])
      case Root => None
  }

  predicate IsAbsolute(p: RawPath) {
    p != [] && p[0] == Root
  }

  /** What `normalize_link_target` walks: the target below its root, or the target behind the parent. */
  function Candidate(parent: NamePath, target: RawPath): RawPath {
    if IsAbsolute(target) then target[1..] else
      assert target != [] ==> target[0] != Root;
      Names(parent) + target
  }

  function NormalizeTarget(parent: NamePath, target: RawPath): Option<NamePath> {
    NormalizeFrom([], Candidate(parent, target))
  }

  function SafeRelative(p: RawPath): Option<NamePath> {
    if exists i :: 0 <= i < |p| && (p[i] == Root || p[i] == Up) then None
    else Some(OnlyNames(p))
  }

  /** The names of a path, in order. */
  function OnlyNames(p: seq<Component>): NamePath {
    if p == [] then [] else (if p[0].Name? then [p[0].name] else []) + OnlyNames(p[1..])
  }

  // ---- The loops ----

  /** `safe_relative_path` */
  method SafeRelativePath(p: RawPath) returns (r: Option<NamePath>)
    ensures r == SafeRelative(p)
  {
    var relative: NamePath := [];
    for i := 0 to |p|
      invariant forall j :: 0 <= j < i ==> p[j] != Root && p[j] != Up
      invariant relative == OnlyNames(p[..i])
    {
      OnlyNamesSnoc(p, i);
      match p[i] {
        case Here =>
        case Name(n) => relative := relative + [n];
        case _ => return None;
      }
    }
    assert p[..|p|] == p;
    r := Some(relative);
  }

  lemma {:induction false} OnlyNamesConcat(p: seq<Component>, q: seq<Component>)
    ensures OnlyNames(p + q) == OnlyNames(p) + OnlyNames(q)
  {
    if p == [] {
      assert p + q == q;
    } else {
      assert (p + q)[1..] == p[1..] + q;
      OnlyNamesConcat(p[1..], q);
    }
  }

  lemma OnlyNamesSnoc(p: seq<Component>, i: nat)
    requires i < |p|
    ensures OnlyNames(p[..i + 1]) == OnlyNames(p[..i]) + if p[i].Name? then [p[i].name] else []
  {
    assert p[..i + 1] == p[..i] + [p[i]];
    OnlyNamesConcat(p[..i], [p[i]]);
  }

  /** `normalize_link_target`: push names, pop for every `..`, give up when nothing is left to pop. */
  method NormalizeLinkTarget(parent: NamePath, target: RawPath) returns (r: Option<NamePath>)
    ensures r == NormalizeTarget(parent, target)
  {
    var candidate: RawPath := Candidate(parent, target);
    var normalized: NamePath := [];
    for i := 0 to |candidate|
      invariant NormalizeFrom([], candidate) == NormalizeFrom(normalized, candidate[i..])
    {
      match candidate[i] {
        case Here =>
        case Name(n) => normalized := normalized + [n];
        case Up =>
          if normalized == [] {
            return None;
          }
          normalized := normalized[..|normalized| - 1];
        case Root => return None;
      }
    }
    r := Some(normalized);
  }

  // ---- Meaning ----

  /** Names minus `..` components. */
  function Balance(p: seq<Component>): int {
    if p == [] then 0
    else Balance(p[..|p| - 1]) + match p[|p| - 1] case Name(_) => 1 case Up => -1 case _ => 0
  }

  lemma {:induction false} BalanceTail(p: seq<Component>, i: nat)
    requires 1 <= i <= |p|
    ensures Balance(p[..i]) == Balance(p[..1]) + Balance(p[1..][..i - 1])
  {
    if i > 1 {
      BalanceTail(p, i - 1);
      assert p[..i][..i - 1] == p[..i - 1];
      assert p[1..][..i - 1][..i - 2] == p[1..][..i - 2];
    }
  }

  /** The walk is refused exactly when some prefix climbs above the start; else its depth is the balance. */
  lemma {:induction false} WalkRefused(stack: NamePath, p: seq<Component>)
    requires Root !in p
    ensures NormalizeFrom(stack, p).None? <==> exists i :: 0 <= i <= |p| && |stack| + Balance(p[..i]) < 0
    ensures NormalizeFrom(stack, p).Some? ==> |NormalizeFrom(stack, p).value| == |stack| + Balance(p)
    decreases |p|
  {
    if p == [] {
      assert p[..0] == p;
    } else {
      var next := match p[0] case Name(n) => stack + [n] case Up => Parent(stack) case _ => stack;
      assert Balance(p[..1]) == match p[0] case Name(_) => 1 case Up => -1 case _ => 0 by {
        assert p[..1][..0] == [];
      }
      WalkRefused(next, p[1..]);
      assert p[..|p|] == p && p[1..][..|p| - 1] == p[1..];
      BalanceTail(p, |p|);
      forall i | 0 <= i < |p|
        ensures Balance(p[..i + 1]) == Balance(p[..1]) + Balance(p[1..][..i])
      {
        BalanceTail(p, i + 1);
      }
      if stack != [] || p[0] != Up {
        assert |next| == |stack| + Balance(p[..1]);
        if i :| 0 <= i <= |p[1..]| && |next| + Balance(p[1..][..i]) < 0 {
          assert |stack| + Balance(p[..i + 1]) < 0;
        }
        if i :| 0 <= i <= |p| && |stack| + Balance(p[..i]) < 0 {
          assert p[..0] == [];
          assert |next| + Balance(p[1..][..i - 1]) < 0;
        }
      } else {
        assert |stack| + Balance(p[..1]) < 0;
      }
    }
  }

  lemma {:induction false} WalkNames(stack: NamePath, p: NamePath)
    ensures NormalizeFrom(stack, Names(p)) == Some(stack + p)
    decreases |p|
  {
    if p == [] {
      assert stack + p == stack;
    } else {
      assert Names(p)[1..] == Names(p[1..]);
      WalkNames(stack + [p[0]], p[1..]);
      assert stack + [p[0]] + p[1..] == stack + p;
    }
  }

  lemma {:induction false} WalkSafe(stack: NamePath, p: seq<Component>)
    requires forall i :: 0 <= i < |p| ==> p[i] != Root && p[i] != Up
    ensures NormalizeFrom(stack, p) == Some(stack + OnlyNames(p))
    decreases |p|
  {
    if p == [] {
      assert stack + OnlyNames(p) == stack;
    } else if p[0].Name? {
      WalkSafe(stack + [p[0].name], p[1..]);
      assert stack + [p[0].name] + OnlyNames(p[1..]) == stack + OnlyNames(p);
    } else {
      assert p[0] == Here;
      WalkSafe(stack, p[1..]);
      assert OnlyNames(p) == OnlyNames(p[1..]);
    }
  }

  /**
   What `normalize_link_target` promises: it refuses exactly the targets some prefix of which climbs
   above the root, counting the parent's names; an accepted result has the remaining depth, consists of
   names and normalises to itself, and on a safe relative path it agrees with `safe_relative_path`.
   */
  lemma NormalizeTargetMeaning(parent: NamePath, target: RawPath)
    ensures
      var candidate, r := Candidate(parent, target), NormalizeTarget(parent, target);
      && (r.None? <==> exists i :: 0 <= i <= |candidate| && Balance(candidate[..i]) < 0)
      && (r.Some? ==> |r.value| == Balance(candidate) && NormalizeTarget([], Names(r.value)) == r)
      && (SafeRelative(target).Some? ==>
            r == Some(parent + SafeRelative(target).value) && NormalizeTarget([], target) == SafeRelative(target))
  {
    var candidate, r := Candidate(parent, target), NormalizeTarget(parent, target);
    assert Root !in candidate;
    WalkRefused([], candidate);
    if r.Some? {
      assert !IsAbsolute(Names(r.value));
      assert Candidate([], Names(r.value)) == Names(r.value);
      WalkNames([], r.value);
      assert [] + r.value == r.value;
    }
    if SafeRelative(target).Some? {
      SafeTarget(parent, target);
      SafeTarget([], target);
      assert [] + SafeRelative(target).value == SafeRelative(target).value;
    }
  }

  lemma SafeTarget(parent: NamePath, target: RawPath)
    requires SafeRelative(target).Some?
    ensures NormalizeTarget(parent, target) == Some(parent + SafeRelative(target).value)
  {
    var candidate := Candidate(parent, target);
    assert !IsAbsolute(target) && candidate == Names(parent) + target;
    forall i | 0 <= i < |candidate| ensures candidate[i] != Root && candidate[i] != Up {
      assert candidate[i] == if i < |parent| then Name(parent[i]) else target[i - |parent|];
    }
    WalkSafe([], candidate);
    OnlyNamesConcat(Names(parent), target);
    OnlyNamesOfNames(parent);
    assert [] + OnlyNames(candidate) == parent + OnlyNames(target);
  }

  lemma {:induction false} OnlyNamesOfNames(p: NamePath)
    ensures OnlyNames(Names(p)) == p
  {
    if p != [] {
      assert Names(p)[1..] == Names(p[1..]);
      OnlyNamesOfNames(p[1..]);
    }
  }
}
