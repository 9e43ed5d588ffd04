/**
 Unmounting everything below the chroot of the runtime: the mounts are collected by a text prefix,
 sorted deepest first in place, and unmounted in one sweep.
 */
module MountTeardown {
  import opened Sequences
  import opened Text

  type Segment = s: string | s != "" && '/' !in s witness "x"

  /** An absolute path as its components below the root. */
  type MountPath = seq<Segment>

  // ---- Paths as text ----

  function Joined(p: MountPath): string {
    if p == [] then "" else "/" + p[0] + Joined(p[1..])
  }

  function Render(p: MountPath): string {
    if p == [] then "/" else Joined(p)
  }

  /** The text a mount must start with to be torn down: the chroot without trailing slashes, and one slash. */
  function Prefix(chroot: MountPath): string {
    Joined(chroot) + "/"
  }

  lemma JoinedHead(p: MountPath)
    ensures p != [] ==> Joined(p) != "" && Joined(p)[0] == '/' && Joined(p)[1..] == p[0] + Joined(p[1..])
  {
  }

  function BeforeSlash(s: string): (n: nat)
    ensures n <= |s|
  {
    if s == "" || s[0] == '/' then 0 else 1 + BeforeSlash(s[1..])
  }

  lemma {:induction false} BeforeSlashOf(a: string, x: string)
    requires '/' !in a && (x == "" || x[0] == '/')
    ensures BeforeSlash(a + x) == |a|
  {
    if a == "" {
      assert a + x == x;
    } else {
      assert (a + x)[0] == a[0] && (a + x)[1..] == a[1..] + x && a[0] in a;
      BeforeSlashOf(a[1..], x);
    }
  }

  lemma {:induction false} BeforeSlashPrefix(s: string, t: string)
    requires s <= t && BeforeSlash(s) < |s|
    ensures BeforeSlash(t) == BeforeSlash(s)
  {
    if s[0] != '/' {
      assert s[1..] <= t[1..];
      BeforeSlashPrefix(s[1..], t[1..]);
    }
  }

  /** A segment is delimited by the next slash. */
  lemma SegmentSplit(a: Segment, b: Segment, x: string, y: string)
    requires x != "" && x[0] == '/'
    requires y == "" || y[0] == '/'
    ensures a + x <= b + y <==> a == b && x <= y
  {
    BeforeSlashOf(a, x);
    BeforeSlashOf(b, y);
    if a + x <= b + y {
      BeforeSlashPrefix(a + x, b + y);
      assert (a + x)[..|a|] == a && (b + y)[..|b|] == b;
      assert (a + x)[|a|..] == x && (b + y)[|b|..] == y;
    }
    if a == b && x <= y {
      assert b + y == a + x + y[|x|..];
    }
  }

  /** The text of one path starts like that of another and a slash exactly below it. */
  lemma {:induction false} TextBelow(chroot: MountPath, p: MountPath)
    ensures Joined(chroot) + "/" <= Joined(p) <==> chroot < p || (chroot == [] && p != [])
  {
    if chroot == [] {
      JoinedHead(p);
    } else if p != [] {
      var x, y := Joined(chroot[1..]) + "/", Joined(p[1..]);
      JoinedHead(chroot[1..]);
      JoinedHead(p[1..]);
      assert Joined(chroot) + "/" == "/" + (chroot[0] + x) && Joined(p) == "/" + (p[0] + y);
      SlashDropped(chroot[0] + x, p[0] + y);
      SegmentSplit(chroot[0], p[0], x, y);
      TextBelow(chroot[1..], p[1..]);
      assert chroot < p <==> chroot[0] == p[0] && chroot[1..] < p[1..];
    }
  }

  lemma SlashDropped(s: string, t: string)
    ensures "/" + s <= "/" + t <==> s <= t
  {
    assert ("/" + s)[1..] == s && ("/" + t)[1..] == t;
    if "/" + s <= "/" + t {
      assert t[..|s|] == ("/" + t)[..|s| + 1][1..] == s;
    }
    if s <= t {
      assert "/" + t == "/" + s + t[|s|..];
    }
  }

  /** The text test selects exactly the paths strictly below the chroot; for the root, all of them. */
  lemma PrefixMeansBelow(chroot: MountPath, p: MountPath)
    ensures StartsWith(Render(p), Prefix(chroot)) <==> chroot < p || chroot == []
  {
    TextBelow(chroot, p);
    if chroot != [] {
      JoinedHead(chroot);
      assert |Prefix(chroot)| > 1;
    }
  }

  // ---- Deepest first ----

  function LexLeq(s: string, t: string): bool {
    s == "" || (t != "" && (s[0] < t[0] || (s[0] == t[0] && LexLeq(s[1..], t[1..]))))
  }

  lemma {:induction false} LexTotal(s: string, t: string)
    ensures LexLeq(s, t) || LexLeq(t, s)
  {
    if s != "" && t != "" && s[0] == t[0] {
      LexTotal(s[1..], t[1..]);
    }
  }

  lemma {:induction false} LexTransitive(s: string, t: string, u: string)
    requires LexLeq(s, t) && LexLeq(t, u)
    ensures LexLeq(s, u)
  {
    if s != "" && s[0] == t[0] == u[0] {
      LexTransitive(s[1..], t[1..], u[1..]);
    }
  }

  /**
   The comparator of `sort_mounts_deepest_first`: more components first, then longer text, then
   greater text. The root directory counts as a component of every path, so it can be left out.
   */
  predicate MayPrecede(p: MountPath, q: MountPath) {
    || |p| > |q|
    || (|p| == |q| && (|| |Render(p)| > |Render(q)|
                       || (|Render(p)| == |Render(q)| && LexLeq(Render(q), Render(p)))))
  }

  lemma PrecedesTotal(p: MountPath, q: MountPath)
    ensures MayPrecede(p, q) || MayPrecede(q, p)
  {
    LexTotal(Render(p), Render(q));
  }

  lemma PrecedesTransitive(p: MountPath, q: MountPath, r: MountPath)
    requires MayPrecede(p, q) && MayPrecede(q, r)
    ensures MayPrecede(p, r)
  {
    if LexLeq(Render(r), Render(q)) && LexLeq(Render(q), Render(p)) {
      LexTransitive(Render(r), Render(q), Render(p));
    }
  }

  predicate DeepestFirst(s: seq<MountPath>) {
    forall i, j :: 0 <= i < j < |s| ==> MayPrecede(s[i], s[j])
  }

  /** Texts are compared at the first place where they differ. */
  lemma {:induction false} LexAtFirstDifference(s: string, t: string)
    ensures LexLeq(s, t) <==> s <= t || exists k :: 0 <= k < |s| && k < |t| && s[..k] == t[..k] && s[k] < t[k]
  {
    if s != "" && t != "" && s[0] == t[0] {
      LexAtFirstDifference(s[1..], t[1..]);
      assert s == [s[0]] + s[1..] && t == [t[0]] + t[1..];
      if k :| 0 <= k < |s| - 1 && k < |t| - 1 && s[1..][..k] == t[1..][..k] && s[1..][k] < t[1..][k] {
        assert s[..k + 1] == [s[0]] + s[1..][..k] && t[..k + 1] == [t[0]] + t[1..][..k];
        assert s[k + 1] < t[k + 1];
      }
      if k :| 0 <= k < |s| && k < |t| && s[..k] == t[..k] && s[k] < t[k] {
        assert s[1..][..k - 1] == s[..k][1..] && t[1..][..k - 1] == t[..k][1..];
        assert s[1..][k - 1] < t[1..][k - 1];
      }
    } else if s != "" && t != "" {
      assert s[..0] == t[..0];
      if k :| 0 <= k < |s| && k < |t| && s[..k] == t[..k] && s[k] < t[k] {
        if k > 0 {
          assert s[0] == s[..k][0] == t[..k][0] == t[0];
        }
      }
    }
  }

  lemma {:induction false} LexBothWays(s: string, t: string)
    requires LexLeq(s, t) && LexLeq(t, s)
    ensures s == t
  {
    if s != "" {
      LexBothWays(s[1..], t[1..]);
      assert s == [s[0]] + s[1..] && t == [t[0]] + t[1..];
    }
  }

  /** Different paths have different texts. */
  lemma {:induction false} JoinedInjective(p: MountPath, q: MountPath)
    ensures Joined(p) == Joined(q) <==> p == q
    decreases |p|
  {
    JoinedHead(p);
    JoinedHead(q);
    if p != [] && q != [] && Joined(p) == Joined(q) {
      SegmentSame(p[0], q[0], Joined(p[1..]), Joined(q[1..]));
      JoinedInjective(p[1..], q[1..]);
      assert p == [p[0]] + p[1..] && q == [q[0]] + q[1..];
    }
  }

  lemma SegmentSame(a: Segment, b: Segment, x: string, y: string)
    requires (x == "" || x[0] == '/') && (y == "" || y[0] == '/') && a + x == b + y
    ensures a == b && x == y
  {
    BeforeSlashOf(a, x);
    BeforeSlashOf(b, y);
    assert (a + x)[..|a|] == a && (b + y)[..|b|] == b;
    assert (a + x)[|a|..] == x && (b + y)[|b|..] == y;
  }

  /** The root is one slash, and every other path a slash before each of its names. */
  lemma RenderedPath(p: MountPath, name: Segment)
    ensures Render([]) == "/" && Render(p + [name]) == (if p == [] then "" else Render(p)) + "/" + name
  {
    JoinedSnoc(p, name);
  }

  lemma {:induction false} JoinedSnoc(p: MountPath, name: Segment)
    ensures Joined(p + [name]) == Joined(p) + "/" + name
  {
    if p == [] {
      assert Joined([name]) == "/" + name + "";
    } else {
      assert (p + [name])[1..] == p[1..] + [name];
      JoinedSnoc(p[1..], name);
    }
  }

  lemma PrecedesBothWays(p: MountPath, q: MountPath)
    requires MayPrecede(p, q) && MayPrecede(q, p)
    ensures p == q
  {
    LexBothWays(Render(p), Render(q));
    JoinedInjective(p, q);
  }

  /** The order is fixed: of two different mounts the deeper, then the longer, then the later text goes first. */
  lemma PrecedesIff(p: MountPath, q: MountPath)
    requires p != q
    ensures var s, t := Render(p), Render(q);
            MayPrecede(p, q) <==>
            || |p| > |q|
            || (|p| == |q| && |s| > |t|)
            || (|p| == |q| && |s| == |t| && exists k :: 0 <= k < |s| && s[..k] == t[..k] && s[k] > t[k])
  {
    var s, t := Render(p), Render(q);
    LexAtFirstDifference(t, s);
    JoinedInjective(p, q);
    assert |s| == |t| ==> s[..|t|] == s;
  }

  /** So the sorted list is determined by the mounts alone. */
  lemma {:induction false} SortedOnce(a: seq<MountPath>, b: seq<MountPath>)
    requires DeepestFirst(a) && DeepestFirst(b) && multiset(a) == multiset(b)
    ensures a == b
    decreases |a|
  {
    assert |multiset(a)| == |a| && |multiset(b)| == |b|;
    if a != [] {
      assert a == [a[0]] + a[1..] && b == [b[0]] + b[1..];
      FirstIsLeast(a, b);
      FirstIsLeast(b, a);
      PrecedesBothWays(a[0], b[0]);
      assert multiset(a[1..]) == multiset(a) - multiset{a[0]};
      assert multiset(b[1..]) == multiset(b) - multiset{b[0]};
      SortedOnce(a[1..], b[1..]);
    }
  }

  lemma FirstIsLeast(a: seq<MountPath>, b: seq<MountPath>)
    requires DeepestFirst(a) && multiset(a) == multiset(b) && a != [] && b != []
    ensures MayPrecede(a[0], b[0])
  {
    assert b[0] in multiset(b);
    assert b[0] in multiset(a);
    PrecedesTotal(a[0], a[0]);
  }

  /** Swapping neighbours, as one step of the sort. */
  method Swap(a: array<MountPath>, i: nat)
    requires 0 < i < a.Length
    modifies a
    ensures a[..] == old(a[..])[i - 1 := old(a[i])][i := old(a[i - 1])]
    ensures multiset(a[..]) == multiset(old(a[..]))
  {
    a[i - 1], a[i] := a[i], a[i - 1];
  }

  /** Sorted, but that the element at `hole` may still have to move towards the front. */
  predicate SortedButFor(s: seq<MountPath>, n: nat, hole: nat)
    requires n <= |s|
  {
    forall i, j :: 0 <= i < j < n && j != hole ==> MayPrecede(s[i], s[j])
  }

  lemma SwapKeepsSorted(s: seq<MountPath>, n: nat, hole: nat)
    requires 0 < hole < n <= |s| && SortedButFor(s, n, hole)
    requires forall j :: hole < j < n ==> MayPrecede(s[hole], s[j])
    requires !MayPrecede(s[hole - 1], s[hole])
    ensures var t := s[hole - 1 := s[hole]][hole := s[hole - 1]];
            SortedButFor(t, n, hole - 1) && forall j :: hole - 1 < j < n ==> MayPrecede(t[hole - 1], t[j])
  {
    hide MayPrecede;
    PrecedesTotal(s[hole - 1], s[hole]);
  }

  /** `sort_mounts_deepest_first`, in place. */
  method SortMountsDeepestFirst(a: array<MountPath>)
    modifies a
    ensures DeepestFirst(a[..])
    ensures multiset(a[..]) == multiset(old(a[..]))
  {
    hide MayPrecede;
    for n := 0 to a.Length
      invariant SortedButFor(a[..], n, n)
      invariant multiset(a[..]) == multiset(old(a[..]))
    {
      var hole := n;
      while hole > 0 && !MayPrecede(a[hole - 1], a[hole])
        invariant hole <= n
        invariant SortedButFor(a[..], n + 1, hole)
        invariant forall j :: hole < j < n + 1 ==> MayPrecede(a[..][hole], a[..][j])
        invariant multiset(a[..]) == multiset(old(a[..]))
      {
        SwapKeepsSorted(a[..], n + 1, hole);
        Swap(a, hole);
        hole := hole - 1;
      }
      HoleFilled(a[..], n + 1, hole);
    }
  }

  lemma HoleFilled(s: seq<MountPath>, n: nat, hole: nat)
    requires hole < n <= |s| && SortedButFor(s, n, hole)
    requires forall j :: hole < j < n ==> MayPrecede(s[hole], s[j])
    requires hole > 0 ==> MayPrecede(s[hole - 1], s[hole])
    ensures SortedButFor(s, n, n)
  {
    hide MayPrecede;
    forall i | 0 <= i < hole ensures MayPrecede(s[i], s[hole]) {
      if i < hole - 1 {
        PrecedesTransitive(s[i], s[hole - 1], s[hole]);
      }
    }
  }

  /** In the sorted list everything below a mount stands before it. */
  lemma BelowComesFirst(s: seq<MountPath>, i: nat, j: nat)
    requires DeepestFirst(s) && i < |s| && j < |s| && s[i] < s[j]
    ensures j < i
  {
  }

  // ---- The kernel's mounts ----

  /** Selected for the teardown of a chroot: strictly below it, or anything if the chroot is the root. */
  function Selected(chroot: MountPath): MountPath -> bool {
    p => chroot < p || chroot == []
  }

  function NotSelected(chroot: MountPath): MountPath -> bool {
    p => !(chroot < p || chroot == [])
  }

  function NotBelow(chroot: MountPath): MountPath -> bool {
    p => !(chroot < p)
  }

  /** `list` without the last occurrence of `p`: of mounts stacked on a directory the topmost goes. */
  function RemoveLast(list: seq<MountPath>, p: MountPath): seq<MountPath> {
    if list == [] then []
    else
      var n := |list| - 1;
      if list[n] == p then list[..n] else RemoveLast(list[..n], p) + [list[n]]
  }

  /** One attempt to unmount: where, whether something was mounted below it then, and whether it had to be lazy. */
  datatype Attempt = Attempt(path: MountPath, childMounted: bool, isLazy: bool)

  predicate HasChild(mounts: seq<MountPath>, p: MountPath) {
    exists m :: m in mounts && p < m
  }

  /** An attempt that met no mounted child, and was lazy only because the mount was in use. */
  predicate IsOrderly(a: Attempt, busy: set<MountPath>) {
    !a.childMounted && (a.isLazy <==> a.path in busy)
  }

  class MountTable {
    var mounts: seq<MountPath>
    var busy: set<MountPath>   // mounts with open files, which only a lazy unmount removes
    var attempts: seq<Attempt>

    constructor (mounts: seq<MountPath>, busy: set<MountPath>)
      ensures this.mounts == mounts && this.busy == busy && attempts == []
    {
      this.mounts, this.busy, attempts := mounts, busy, [];
    }

    /** `umount2` without flags: refused for a mount that is in use or has mounts below it. */
    method Umount(p: MountPath) returns (ok: bool)
      modifies this`mounts
      ensures ok == (p in old(mounts) && p !in busy && forall m :: m in old(mounts) ==> !(p < m))
      ensures mounts == if ok then RemoveLast(old(mounts), p) else old(mounts)
    {
      ok := p in mounts && p !in busy && forall m :: m in mounts ==> !(p < m);
      if ok {
        mounts := RemoveLast(mounts, p);
      }
    }

    /** `umount2` with MNT_DETACH: takes everything mounted below along. */
    method Detach(p: MountPath) returns (ok: bool)
      modifies this`mounts
      ensures ok == (p in old(mounts))
      ensures mounts == if ok then RemoveLast(Filter(old(mounts), NotBelow(p)), p) else old(mounts)
    {
      ok := p in mounts;
      if ok {
        mounts := RemoveLast(Filter(mounts, NotBelow(p)), p);
      }
    }

    /** `unmount_path` */
    method UnmountPath(p: MountPath) returns (ok: bool)
      modifies this`mounts, this`attempts
      ensures var plain := p in old(mounts) && p !in busy && !HasChild(old(mounts), p);
              attempts == old(attempts) + [Attempt(p, HasChild(old(mounts), p), !plain)]
      ensures ok == (p in old(mounts))
      ensures ok && (forall m :: m in old(mounts) ==> !(p < m)) ==> mounts == RemoveLast(old(mounts), p)
      ensures ok ==> mounts == RemoveLast(Filter(old(mounts), NotBelow(p)), p)
      ensures !ok ==> mounts == old(mounts)
    {
      var before := mounts;
      ok := Umount(p);
      attempts := attempts + [Attempt(p, HasChild(before, p), !ok)];
      if forall m :: m in before ==> !(p < m) {
        FilterAll(before, NotBelow(p));
      }
      if !ok {
        ok := Detach(p);
      }
    }
  }

  /** `chroot_mounts`: the mounts selected by the text prefix, deepest first. */
  method ChrootMounts(table: MountTable, chroot: MountPath) returns (selected: array<MountPath>)
    ensures fresh(selected)
    ensures DeepestFirst(selected[..])
    ensures multiset(selected[..]) == multiset(Filter(table.mounts, Selected(chroot)))
  {
    var list: seq<MountPath> := [];
    for i := 0 to |table.mounts|
      invariant list == Filter(table.mounts[..i], Selected(chroot))
    {
      PrefixMeansBelow(chroot, table.mounts[i]);
      FilterSnoc(table.mounts, i, Selected(chroot));
      if StartsWith(Render(table.mounts[i]), Prefix(chroot)) {
        list := list + [table.mounts[i]];
      }
    }
    assert table.mounts[..|table.mounts|] == table.mounts;
    selected := new MountPath[|list|](i requires 0 <= i < |list| => list[i]);
    assert selected[..] == list;
    SortMountsDeepestFirst(selected);
  }

  // ---- The sweep ----

  lemma {:induction false} RemoveLastUnseen(list: seq<MountPath>, p: MountPath, q: MountPath -> bool)
    requires !q(p)
    ensures Filter(RemoveLast(list, p), q) == Filter(list, q)
  {
    if list != [] {
      var n := |list| - 1;
      assert list == list[..n] + [list[n]];
      FilterConcat(list[..n], [list[n]], q);
      if list[n] != p {
        RemoveLastUnseen(list[..n], p, q);
        FilterConcat(RemoveLast(list[..n], p), [list[n]], q);
      }
    }
  }

  lemma {:induction false} RemoveLastSeen(list: seq<MountPath>, p: MountPath, q: MountPath -> bool)
    requires q(p) && p in list
    ensures multiset(Filter(list, q)) == multiset(Filter(RemoveLast(list, p), q)) + multiset{p}
  {
    var n := |list| - 1;
    var init := list[..n];
    assert list == init + [list[n]];
    FilterConcat(init, [list[n]], q);
    var last := Filter([list[n]], q);
    assert last == if q(list[n]) then [list[n]] else [];
    if list[n] != p {
      RemoveLastSeen(init, p, q);
      FilterConcat(RemoveLast(init, p), [list[n]], q);
      Regroup(multiset(Filter(RemoveLast(init, p), q)), multiset{p}, multiset(last));
    }
  }

  lemma Regroup(a: multiset<MountPath>, b: multiset<MountPath>, c: multiset<MountPath>)
    ensures (a + b) + c == (a + c) + b
  {
  }

  lemma Cancel(a: multiset<MountPath>, b: multiset<MountPath>, c: multiset<MountPath>)
    requires a + c == b + c
    ensures a == b
  {
    assert a == (a + c) - c && b == (b + c) - c;
  }

  /** What is left to do after `k` steps of the sweep. */
  ghost predicate SweptTo(now: seq<MountPath>, start: seq<MountPath>, chroot: MountPath, list: seq<MountPath>, k: nat)
    requires k <= |list|
  {
    && Filter(now, NotSelected(chroot)) == Filter(start, NotSelected(chroot))
    && multiset(Filter(now, Selected(chroot))) == multiset(list[k..])
  }

  /** At its turn a mount is there and nothing is mounted below it. */
  lemma TurnIsFree(now: seq<MountPath>, start: seq<MountPath>, chroot: MountPath, list: seq<MountPath>, k: nat)
    requires k < |list| && DeepestFirst(list) && SweptTo(now, start, chroot, list, k)
    requires forall p :: p in list ==> Selected(chroot)(p)
    ensures list[k] in now && forall m :: m in now ==> !(list[k] < m)
  {
    hide MayPrecede;
    assert list[k] in list[k..] && list[k] in multiset(list[k..]);
    assert list[k] in Filter(now, Selected(chroot));
    forall m | m in now ensures !(list[k] < m) {
      if list[k] < m {
        assert Selected(chroot)(list[k]) && Selected(chroot)(m);
        assert m in Filter(now, Selected(chroot));
        assert m in multiset(list[k..]);
        var j :| 0 <= j < |list[k..]| && list[k..][j] == m;
        BelowComesFirst(list, k, k + j);
      }
    }
  }

  lemma HeadOut(list: seq<MountPath>, k: nat)
    requires k < |list|
    ensures multiset(list[k..]) == multiset(list[k + 1..]) + multiset{list[k]}
  {
    assert list[k..] == [list[k]] + list[k + 1..];
  }

  lemma SweepStep(now: seq<MountPath>, start: seq<MountPath>, chroot: MountPath, list: seq<MountPath>, k: nat)
    requires k < |list| && SweptTo(now, start, chroot, list, k) && list[k] in now && Selected(chroot)(list[k])
    ensures SweptTo(RemoveLast(now, list[k]), start, chroot, list, k + 1)
  {
    hide Filter, RemoveLast;
    assert !NotSelected(chroot)(list[k]);
    RemoveLastUnseen(now, list[k], NotSelected(chroot));
    RemoveLastSeen(now, list[k], Selected(chroot));
    HeadOut(list, k);
    Cancel(multiset(Filter(RemoveLast(now, list[k]), Selected(chroot))), multiset(list[k + 1..]), multiset{list[k]});
  }

  lemma SweepDone(now: seq<MountPath>, start: seq<MountPath>, chroot: MountPath, list: seq<MountPath>)
    requires SweptTo(now, start, chroot, list, |list|)
    ensures now == Filter(start, NotSelected(chroot))
  {
    assert list[|list|..] == [];
    var left := Filter(now, Selected(chroot));
    assert |left| == |multiset(left)| == 0;
    assert forall m :: m in now ==> NotSelected(chroot)(m) by {
      assert forall m :: m in now && Selected(chroot)(m) ==> m in left;
    }
    FilterAll(now, NotSelected(chroot));
  }

  /** One pass of `unmount_chroot` over the sorted mounts. */
  method Sweep(table: MountTable, chroot: MountPath) returns (count: nat)
    modifies table`mounts, table`attempts
    ensures table.mounts == Filter(old(table.mounts), NotSelected(chroot))
    ensures old(table.attempts) <= table.attempts
    ensures forall i :: |old(table.attempts)| <= i < |table.attempts| ==>
              IsOrderly(table.attempts[i], table.busy) && table.attempts[i].path in old(table.mounts) &&
              Selected(chroot)(table.attempts[i].path)
    ensures count == |Filter(old(table.mounts), Selected(chroot))|
  {
    hide MayPrecede, RemoveLast, Filter, SweptTo, Selected, NotSelected;
    ghost var start := table.mounts;
    var list := ChrootMounts(table, chroot);
    count := list.Length;
    SelectedList(start, chroot, list[..]);
    for k := 0 to list.Length
      invariant SweptTo(table.mounts, start, chroot, list[..], k)
      invariant DeepestFirst(list[..]) && forall p :: p in list[..] ==> Selected(chroot)(p) && p in start
      invariant old(table.attempts) <= table.attempts
      invariant forall i :: |old(table.attempts)| <= i < |table.attempts| ==>
                  IsOrderly(table.attempts[i], table.busy) && table.attempts[i].path in start &&
                  Selected(chroot)(table.attempts[i].path)
    {
      TurnIsFree(table.mounts, start, chroot, list[..], k);
      assert list[k] == list[..][k];
      SweepStep(table.mounts, start, chroot, list[..], k);
      assert list[..][k] in list[..];
      var _ := table.UnmountPath(list[k]);
    }
    SweepDone(table.mounts, start, chroot, list[..]);
  }

  lemma SelectedList(start: seq<MountPath>, chroot: MountPath, list: seq<MountPath>)
    requires multiset(list) == multiset(Filter(start, Selected(chroot)))
    ensures SweptTo(start, start, chroot, list, 0)
    ensures |list| == |Filter(start, Selected(chroot))|
    ensures forall p :: p in list ==> Selected(chroot)(p) && p in start
  {
    assert list[0..] == list;
    assert |list| == |multiset(list)|;
    forall p | p in list ensures Selected(chroot)(p) && p in start {
      assert p in multiset(list);
      assert p in Filter(start, Selected(chroot));
    }
  }

  /** `list` without its last `n` copies of `p`, as far as there are so many. */
  function DropCopies(list: seq<MountPath>, p: MountPath, n: nat): seq<MountPath>
    decreases n
  {
    if n == 0 || p !in list then list else DropCopies(RemoveLast(list, p), p, n - 1)
  }

  /**
   `unmount_chroot`: one sweep takes everything selected away, later rounds find nothing, and then the
   chroot itself goes, up to four times; no attempt meets a mount that still has a mounted child, and only
   mounts in use are unmounted lazily.
   */
  method UnmountChroot(table: MountTable, useChroot: bool, procMounts: bool, chroot: MountPath)
    modifies table`mounts, table`attempts
    ensures table.mounts == if useChroot && procMounts
                            then DropCopies(Filter(old(table.mounts), NotSelected(chroot)), chroot, 4)
                            else old(table.mounts)
    ensures old(table.attempts) <= table.attempts
    ensures forall i :: |old(table.attempts)| <= i < |table.attempts| ==> IsOrderly(table.attempts[i], table.busy)
  {
    hide Filter, RemoveLast;
    if !useChroot || !procMounts {
      return;
    }
    ghost var start := table.mounts;
    ghost var left := Filter(start, NotSelected(chroot));
    for round := 0 to 8
      invariant table.mounts == if round == 0 then start else left
      invariant old(table.attempts) <= table.attempts
      invariant forall i :: |old(table.attempts)| <= i < |table.attempts| ==> IsOrderly(table.attempts[i], table.busy)
    {
      SweptTwice(start, chroot);
      var count := Sweep(table, chroot);
      if count == 0 {
        break;
      }
    }
    SweptTwice(start, chroot);
    for round := 0 to 4
      invariant DropCopies(left, chroot, 4) == DropCopies(table.mounts, chroot, 4 - round)
      invariant forall m :: m in table.mounts ==> !(chroot < m)
      invariant old(table.attempts) <= table.attempts
      invariant forall i :: |old(table.attempts)| <= i < |table.attempts| ==> IsOrderly(table.attempts[i], table.busy)
    {
      if chroot !in table.mounts {
        break;
      }
      RemovedOnly(table.mounts, chroot);
      var ok := table.UnmountPath(chroot);
      if !ok {
        break;
      }
    }
  }

  lemma SweptTwice(start: seq<MountPath>, chroot: MountPath)
    ensures var left := Filter(start, NotSelected(chroot));
            && Filter(left, NotSelected(chroot)) == left
            && forall m :: m in left ==> !(chroot < m)
  {
    var left := Filter(start, NotSelected(chroot));
    assert forall m :: m in left ==> NotSelected(chroot)(m);
    FilterAll(left, NotSelected(chroot));
  }

  lemma {:induction false} RemovedOnly(list: seq<MountPath>, p: MountPath)
    ensures forall m :: m in RemoveLast(list, p) ==> m in list
  {
    if list != [] {
      RemovedOnly(list[..|list| - 1], p);
    }
  }

  /** Of the copies mounted at one path the topmost `n` go, or all; other mounts keep their order. */
  lemma {:induction false} CopiesLeft(list: seq<MountPath>, p: MountPath, n: nat)
    ensures var left, copies := DropCopies(list, p, n), multiset(list)[p];
            && multiset(left)[p] == (if copies <= n then 0 else copies - n)
            && Filter(left, IsOther(p)) == Filter(list, IsOther(p))
    decreases n
  {
    hide Filter, RemoveLast;
    if n > 0 && p in list {
      RemovedOne(list, p);
      CopiesLeft(RemoveLast(list, p), p, n - 1);
    }
  }

  function IsOther(p: MountPath): MountPath -> bool {
    m => m != p
  }

  lemma {:induction false} RemovedOne(list: seq<MountPath>, p: MountPath)
    requires p in list
    ensures multiset(RemoveLast(list, p))[p] == multiset(list)[p] - 1
    ensures Filter(RemoveLast(list, p), IsOther(p)) == Filter(list, IsOther(p))
  {
    hide Filter;
    var n := |list| - 1;
    assert list == list[..n] + [list[n]];
    FilterSnoc(list, n, IsOther(p));
    assert list[..n + 1] == list;
    if list[n] != p {
      RemovedOne(list[..n], p);
      FilterConcat(RemoveLast(list[..n], p), [list[n]], IsOther(p));
      FilterAll([list[n]], IsOther(p));
    } else {
      assert Filter(list[..n], IsOther(p)) + [] == Filter(list[..n], IsOther(p));
    }
  }

  predicate Distinct(list: seq<MountPath>) {
    forall i, j :: 0 <= i < j < |list| ==> list[i] != list[j]
  }

  function NotAtOrBelow(chroot: MountPath): MountPath -> bool {
    p => !(chroot <= p)
  }

  /** With distinct mount points the teardown leaves exactly the mounts that are neither at nor below the chroot. */
  lemma DistinctTeardown(mounts: seq<MountPath>, chroot: MountPath)
    requires Distinct(mounts) && chroot != []
    ensures DropCopies(Filter(mounts, NotSelected(chroot)), chroot, 4) == Filter(mounts, NotAtOrBelow(chroot))
  {
    var left := Filter(mounts, NotSelected(chroot));
    var isNot := (p: MountPath) => p != chroot;
    FilterDistinct(mounts, NotSelected(chroot));
    FilterTwice(mounts, NotSelected(chroot), isNot, NotAtOrBelow(chroot));
    OneCopy(left, chroot, isNot);
  }

  lemma {:induction false} FilterDistinct(list: seq<MountPath>, q: MountPath -> bool)
    requires Distinct(list)
    ensures Distinct(Filter(list, q))
  {
    if list != [] {
      FilterDistinct(list[1..], q);
      assert list[0] !in list[1..];
      assert list[0] !in Filter(list[1..], q);
    }
  }

  lemma OneCopy(list: seq<MountPath>, p: MountPath, isNot: MountPath -> bool)
    requires Distinct(list) && forall m :: isNot(m) <==> m != p
    ensures DropCopies(list, p, 4) == Filter(list, isNot)
  {
    RemoveOnlyCopy(list, p, isNot);
    if p in list {
      assert DropCopies(list, p, 4) == DropCopies(RemoveLast(list, p), p, 3);
    } else {
      FilterAll(list, isNot);
    }
  }

  lemma {:induction false} RemoveOnlyCopy(list: seq<MountPath>, p: MountPath, isNot: MountPath -> bool)
    requires Distinct(list) && forall m :: isNot(m) <==> m != p
    ensures RemoveLast(list, p) == Filter(list, isNot) && p !in RemoveLast(list, p)
  {
    hide Filter;
    NothingFiltered(isNot);
    if list != [] {
      var n := |list| - 1;
      FilterSnoc(list, n, isNot);
      assert list[..n + 1] == list;
      if list[n] == p {
        assert p !in list[..n];
        FilterAll(list[..n], isNot);
        assert list[..n] + [] == list[..n];
      } else {
        RemoveOnlyCopy(list[..n], p, isNot);
      }
    }
  }

  lemma NothingFiltered(keep: MountPath -> bool)
    ensures Filter([], keep) == []
  {
  }
}
