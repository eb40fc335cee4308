/** The sizes of directories: calculate_node_size adds up the texts of the files below a node. */
module Sizes {
  import opened Wrappers
  import opened Forests
  import opened Model
  import opened PathMaps
  import opened Reloads
  import opened Agreement
  import opened Handlers
  import Loads
  import Content
  import Ical
  import Paths

  ghost function Below(up: Up, n: Id): set<Id> {
    set m | m in up && Above(up, n, m)
  }

  /** Children have smaller subtrees, which is why the recursion ends. */
  lemma ChildBelow(f: Forest, n: Id, c: Id)
    requires WellLinked(f) && Acyclic(f.parent) && n in f.kids && c in f.kids[n]
    ensures c in f.parent && f.parent[c] == Some(n) && Below(f.parent, c) < Below(f.parent, n)
  {
    forall m | m in Below(f.parent, c)
      ensures m in Below(f.parent, n)
    {
      AboveParent(f.parent, n, c);
      assert Climb(f.parent, n, 0) == Some(n);
      AboveTransitive(f.parent, n, c, m);
    }
    ParentNotBelow(f.parent, c);
    assert Climb(f.parent, n, 0) == Some(n);
    assert n in Below(f.parent, n) && n !in Below(f.parent, c);
  }

  function TextSize(disk: Disk, n: Id): nat {
    if n.File? && n.vdir in disk then |Content.Text(disk[n.vdir])| else 0
  }

  ghost predicate Shown(s: State, n: Id) {
    n in s.forest.parent && n in s.forest.kids && Readable(s, n)
  }

  lemma ChildShown(s: State, n: Id, i: nat)
    requires Inv(s) && n in s.forest.kids && i < |s.forest.kids[n]|
    ensures Shown(s, s.forest.kids[n][i])
  {
    assert s.forest.kids[n][i] in s.forest.kids[n];
  }

  /** calculate_node_size */
  ghost function NodeSize(s: State, n: Id): nat
    requires Inv(s) && Shown(s, n)
    decreases Below(s.forest.parent, n), |s.forest.kids[n]| + 1
  {
    if !NodeIsDirectory(s, n) then TextSize(s.disk, n) else KidsSize(s, n, |s.forest.kids[n]|)
  }

  /** The loop over the first `i` children. */
  ghost function KidsSize(s: State, n: Id, i: nat): nat
    requires Inv(s) && Shown(s, n) && i <= |s.forest.kids[n]|
    decreases Below(s.forest.parent, n), i
  {
    if i == 0 then 0
    else
      ChildShown(s, n, i - 1);
      ChildBelow(s.forest, n, s.forest.kids[n][i - 1]);
      KidsSize(s, n, i - 1) + NodeSize(s, s.forest.kids[n][i - 1])
  }

  // ----- what it means -----

  ghost predicate IsFile(s: State, m: Id) {
    Shown(s, m) && !NodeIsDirectory(s, m)
  }

  /** The files at or below `n`. */
  ghost function FilesBelow(s: State, n: Id): set<Id> {
    set m | m in Below(s.forest.parent, n) && IsFile(s, m)
  }

  ghost function Total(disk: Disk, ids: set<Id>): nat
    decreases |ids|
  {
    if ids == {} then 0
    else
      var i :| i in ids;
      TextSize(disk, i) + Total(disk, ids - {i})
  }

  lemma {:induction false} TotalWithout(disk: Disk, ids: set<Id>, i: Id)
    requires i in ids
    ensures Total(disk, ids) == TextSize(disk, i) + Total(disk, ids - {i})
    decreases |ids|
  {
    var j :| j in ids && Total(disk, ids) == TextSize(disk, j) + Total(disk, ids - {j});
    if j != i {
      TotalWithout(disk, ids - {j}, i);
      assert ids - {j} - {i} == ids - {i} - {j};
      TotalWithout(disk, ids - {i}, j);
    }
  }

  lemma {:induction false} TotalUnion(disk: Disk, a: set<Id>, b: set<Id>)
    requires a !! b
    ensures Total(disk, a + b) == Total(disk, a) + Total(disk, b)
    decreases |a|
  {
    if a == {} {
      assert a + b == b;
    } else {
      var i :| i in a;
      TotalWithout(disk, a, i);
      TotalWithout(disk, a + b, i);
      assert a + b - {i} == (a - {i}) + b;
      TotalUnion(disk, a - {i}, b);
    }
  }

  /** Two ancestors of one node lie on one climb. */
  lemma AncestorsComparable(up: Up, a: Id, b: Id, n: Id)
    requires Above(up, a, n) && Above(up, b, n)
    ensures Above(up, a, b) || Above(up, b, a)
  {
    var j: nat :| Climb(up, n, j) == Some(a);
    var k: nat :| Climb(up, n, k) == Some(b);
    if j <= k {
      ClimbAdd(up, n, j, k - j);
      assert Climb(up, a, k - j) == Some(b);
    } else {
      ClimbAdd(up, n, k, j - k);
      assert Climb(up, b, j - k) == Some(a);
    }
  }

  /** Two children of one node have nothing below them in common. */
  lemma SiblingsApart(up: Up, a: Id, b: Id, m: Id)
    requires Acyclic(up) && a in up && b in up && a != b && up[a].Some? && up[a] == up[b]
    ensures !(Above(up, a, m) && Above(up, b, m))
  {
    if Above(up, a, m) && Above(up, b, m) {
      AncestorsComparable(up, a, b, m);
      AboveParent(up, a, b);
      AboveParent(up, b, a);
      ParentNotBelow(up, a);
      ParentNotBelow(up, b);
    }
  }

  /** The files below the first `i` children. */
  ghost function KidsFiles(s: State, n: Id, i: nat): set<Id>
    requires n in s.forest.kids && i <= |s.forest.kids[n]|
  {
    if i == 0 then {} else KidsFiles(s, n, i - 1) + FilesBelow(s, s.forest.kids[n][i - 1])
  }

  lemma {:induction false} InKidsFiles(s: State, n: Id, i: nat, m: Id)
    requires n in s.forest.kids && i <= |s.forest.kids[n]|
    ensures m in KidsFiles(s, n, i) <==> exists j :: 0 <= j < i && m in FilesBelow(s, s.forest.kids[n][j])
  {
    if i > 0 {
      InKidsFiles(s, n, i - 1, m);
    }
  }

  lemma KidsFilesApart(s: State, n: Id, i: nat)
    requires Inv(s) && n in s.forest.kids && i < |s.forest.kids[n]|
    ensures KidsFiles(s, n, i) !! FilesBelow(s, s.forest.kids[n][i])
  {
    var kids, up := s.forest.kids[n], s.forest.parent;
    forall m | m in KidsFiles(s, n, i)
      ensures m !in FilesBelow(s, kids[i])
    {
      InKidsFiles(s, n, i, m);
      var j :| 0 <= j < i && m in FilesBelow(s, kids[j]);
      assert kids[j] in kids && kids[i] in kids && kids[j] != kids[i];
      SiblingsApart(up, kids[j], kids[i], m);
    }
  }

  /** The files below a directory are those below its children. */
  lemma DirectoryFiles(s: State, n: Id)
    requires Inv(s) && Shown(s, n) && NodeIsDirectory(s, n)
    ensures FilesBelow(s, n) == KidsFiles(s, n, |s.forest.kids[n]|)
  {
    var kids, up := s.forest.kids[n], s.forest.parent;
    forall m
      ensures m in FilesBelow(s, n) <==> m in KidsFiles(s, n, |kids|)
    {
      InKidsFiles(s, n, |kids|, m);
      if m in FilesBelow(s, n) {
        BelowSomeChild(s.forest, n, m);
      }
      if m in KidsFiles(s, n, |kids|) {
        var j :| 0 <= j < |kids| && m in FilesBelow(s, kids[j]);
        assert kids[j] in kids;
        ChildBelow(s.forest, n, kids[j]);
      }
    }
  }

  /** A climb that reaches `n` passes through one of its children. */
  lemma BelowSomeChild(f: Forest, n: Id, m: Id)
    requires WellLinked(f) && n in f.kids && Above(f.parent, n, m) && m != n
    ensures exists j :: 0 <= j < |f.kids[n]| && Above(f.parent, f.kids[n][j], m)
  {
    var k: nat :| Climb(f.parent, m, k) == Some(n);
    BelowSomeChildAt(f, n, m, k);
  }

  lemma {:induction false} BelowSomeChildAt(f: Forest, n: Id, m: Id, k: nat)
    requires WellLinked(f) && n in f.kids && Climb(f.parent, m, k) == Some(n) && m != n
    ensures exists j :: 0 <= j < |f.kids[n]| && Above(f.parent, f.kids[n][j], m)
    decreases k
  {
    var q := f.parent[m].value;
    if q == n {
      assert m in f.kids[n];
      var j :| 0 <= j < |f.kids[n]| && f.kids[n][j] == m;
      assert Climb(f.parent, m, 0) == Some(m);
    } else {
      BelowSomeChildAt(f, n, q, k - 1);
      var j :| 0 <= j < |f.kids[n]| && Above(f.parent, f.kids[n][j], q);
      AboveParent(f.parent, f.kids[n][j], m);
    }
  }

  /** The size of a node is the total length of the texts of the files at or below it. */
  lemma {:induction false} NodeSizeIsTotal(s: State, n: Id)
    requires Inv(s) && Shown(s, n)
    ensures NodeSize(s, n) == Total(s.disk, FilesBelow(s, n))
    decreases Below(s.forest.parent, n), |s.forest.kids[n]| + 1
  {
    hide Below, FilesBelow, WellLinked, SiblingsDistinct, Acyclic, AttachedOnDisk;
    if NodeIsDirectory(s, n) {
      DirectoryFiles(s, n);
      KidsSizeIsTotal(s, n, |s.forest.kids[n]|);
    } else {
      FileAlone(s, n);
      TotalWithout(s.disk, {n}, n);
      assert {n} - {n} == {};
    }
  }

  lemma FileAlone(s: State, n: Id)
    requires Inv(s) && Shown(s, n) && !NodeIsDirectory(s, n)
    ensures FilesBelow(s, n) == {n}
  {
    assert Climb(s.forest.parent, n, 0) == Some(n);
    forall m | m in FilesBelow(s, n) && m != n
      ensures false
    {
      BelowSomeChild(s.forest, n, m);
    }
  }

  lemma {:induction false} KidsSizeIsTotal(s: State, n: Id, i: nat)
    requires Inv(s) && Shown(s, n) && i <= |s.forest.kids[n]|
    ensures KidsSize(s, n, i) == Total(s.disk, KidsFiles(s, n, i))
    decreases Below(s.forest.parent, n), i
  {
    hide Below, FilesBelow, NodeIsDirectory, WellLinked, SiblingsDistinct, Acyclic, AttachedOnDisk;
    if i > 0 {
      var c := s.forest.kids[n][i - 1];
      ChildShown(s, n, i - 1);
      ChildBelow(s.forest, n, c);
      KidsSizeIsTotal(s, n, i - 1);
      NodeSizeIsTotal(s, c);
      KidsFilesApart(s, n, i - 1);
      TotalUnion(s.disk, KidsFiles(s, n, i - 1), FilesBelow(s, c));
    }
  }

  // ----- moving a subtree -----

  lemma {:induction false} StillBelow(up: Up, c: Id, q: Option<Id>, m: Id, k: nat)
    requires Climb(up, m, k) == Some(c)
    ensures Above(up[c := q], c, m)
    decreases k
  {
    if m == c {
      assert Climb(up[c := q], m, 0) == Some(c);
    } else {
      StillBelow(up, c, q, up[m].value, k - 1);
      AboveParent(up[c := q], c, m);
    }
  }

  lemma StillAbove(up: Up, c: Id, q: Option<Id>, a: Id, m: Id)
    requires !Above(up, c, m)
    ensures Above(up[c := q], a, m) <==> Above(up, a, m)
  {
    if Above(up, a, m) {
      var k: nat :| Climb(up, m, k) == Some(a);
      ClimbAvoiding(up, c, q, m, k);
    }
    if Above(up[c := q], a, m) {
      var k: nat :| Climb(up[c := q], m, k) == Some(a);
      ClimbAvoiding(up, c, q, m, k);
    }
  }

  /** What hangs in the tree still hangs in it after `c` has moved to `p`. */
  lemma StillReachable(up: Up, c: Id, p: Id, m: Id)
    requires c in up && Above(up, Root, m) && Above(up, Root, p) && !Above(up, c, p)
    ensures Above(up[c := Some(p)], Root, m)
  {
    var moved := up[c := Some(p)];
    if Above(up, c, m) {
      var k: nat :| Climb(up, m, k) == Some(c);
      StillBelow(up, c, Some(p), m, k);
      StillAbove(up, c, Some(p), Root, p);
      AboveParent(moved, Root, c);
      AboveTransitive(moved, Root, c, m);
    } else {
      StillAbove(up, c, Some(p), Root, m);
    }
  }

  lemma SameReachable(up: Up, c: Id, p: Id, m: Id)
    requires Acyclic(up) && c in up && up[c].Some? && Above(up, Root, p) && Above(up, Root, c) && c != Root
             && !Above(up, c, p)
    ensures Above(up[c := Some(p)], Root, m) <==> Above(up, Root, m)
  {
    var moved, q := up[c := Some(p)], up[c].value;
    ParentNotBelow(up, c);
    AboveParent(up, Root, c);
    if Above(up, Root, m) {
      StillReachable(up, c, p, m);
    }
    if Above(moved, Root, m) {
      StillAbove(up, c, Some(p), c, q);
      StillAbove(up, c, Some(p), Root, q);
      StillReachable(moved, c, q, m);
      assert moved[c := Some(q)] == up;
    }
  }

  /** Both vdirs hold the same texts and the same directory marks. */
  ghost predicate SameTexts(a: Disk, b: Disk) {
    && a.Keys == b.Keys
    && (forall v :: v in a ==>
          TextSize(a, File(v)) == TextSize(b, File(v)) && (Ical.IsDirectory(a[v]) <==> Ical.IsDirectory(b[v])))
  }

  lemma {:induction false} SameTotal(a: Disk, b: Disk, ids: set<Id>)
    requires forall i :: i in ids ==> TextSize(a, i) == TextSize(b, i)
    ensures Total(a, ids) == Total(b, ids)
    decreases |ids|
  {
    if ids != {} {
      var i :| i in ids;
      TotalWithout(a, ids, i);
      TotalWithout(b, ids, i);
      SameTotal(a, b, ids - {i});
    }
  }

  /** `t` is `s` with `c` moved from `q` to `p`; names and files may change, texts and directory marks may not. */
  ghost predicate Moved(s: State, t: State, c: Id, q: Id, p: Id) {
    && Inv(s) && Inv(t) && SameTexts(s.disk, t.disk)
    && c in s.forest.parent && c != Root && s.forest.parent[c] == Some(q) && Above(s.forest.parent, Root, c)
    && p in s.forest.kids && Above(s.forest.parent, Root, p) && !Above(s.forest.parent, c, p)
    && t.forest.parent == Move(s.forest, p, c).parent && t.forest.kids == Move(s.forest, p, c).kids
  }

  lemma MovedKids(f: Forest, c: Id, q: Id, p: Id)
    requires WellLinked(f) && c in f.parent && f.parent[c] == Some(q) && p in f.kids
    ensures Move(f, p, c).parent == f.parent[c := Some(p)] && Move(f, p, c).kids.Keys == f.kids.Keys
    ensures Move(f, p, c).kids[p] != [] && q in f.kids && f.kids[q] != []
    ensures forall m :: m in f.kids && m != p && m != q ==> Move(f, p, c).kids[m] == f.kids[m]
  {
    assert c in f.kids[q];
    DetachLinked(f, c);
  }

  lemma MovedShape(s: State, t: State, c: Id, q: Id, p: Id)
    requires Moved(s, t, c, q, p)
    ensures t.forest.parent == s.forest.parent[c := Some(p)] && q in s.forest.parent
    ensures !IsFile(t, p) && !IsFile(s, q)
    ensures forall m :: m != p && m != q ==> (IsFile(s, m) <==> IsFile(t, m))
  {
    hide Climb, Acyclic, SiblingsDistinct, Move, KidsPointBack, KidsOnce;
    MovedKids(s.forest, c, q, p);
  }

  ghost function FileSize(s: State, m: Id): nat {
    if IsFile(s, m) then TextSize(s.disk, m) else 0
  }

  lemma TotalsDiffer(disk: Disk, before: set<Id>, after: set<Id>, p: Id, q: Id)
    requires after - {q} == before - {p}
    ensures Total(disk, after) + (if p in before then TextSize(disk, p) else 0)
         == Total(disk, before) + (if q in after then TextSize(disk, q) else 0)
  {
    if p in before {
      TotalWithout(disk, before, p);
    } else {
      assert before - {p} == before;
    }
    if q in after {
      TotalWithout(disk, after, q);
    } else {
      assert after - {q} == after;
    }
  }

  lemma MovedFiles(s: State, t: State, c: Id, q: Id, p: Id)
    requires Moved(s, t, c, q, p)
    ensures FilesBelow(t, Root) - {q} == FilesBelow(s, Root) - {p}
    ensures p in FilesBelow(s, Root) <==> IsFile(s, p)
    ensures q in FilesBelow(t, Root) <==> IsFile(t, q)
  {
    hide IsFile, Move, WellLinked, SiblingsDistinct, Acyclic, Above;
    MovedShape(s, t, c, q, p);
    FilesAreShown(s);
    FilesAreShown(t);
    RootOnly(s.forest);
    AboveParent(s.forest.parent, Root, c);
    forall m
      ensures Above(t.forest.parent, Root, m) <==> Above(s.forest.parent, Root, m)
    {
      SameReachable(s.forest.parent, c, p, m);
    }
  }

  lemma FilesAreShown(s: State)
    ensures forall m :: IsFile(s, m) ==> m in s.forest.parent
  {
  }

  lemma RootOnly(f: Forest)
    requires WellLinked(f)
    ensures Root in f.parent && f.parent[Root] == None && Root in f.kids && f.kids.Keys == f.parent.Keys
  {
  }

  /** A move changes the size of the whole tree only by the new parent ceasing to be a file
      and by the old parent becoming one. */
  lemma MoveAccounting(s: State, t: State, c: Id, q: Id, p: Id)
    requires Moved(s, t, c, q, p)
    ensures Shown(s, Root) && Shown(t, Root)
    ensures NodeSize(t, Root) + FileSize(s, p) == NodeSize(s, Root) + FileSize(t, q)
  {
    hide IsFile, Move, WellLinked, SiblingsDistinct, Acyclic, Above, FilesBelow, NodeSize;
    RootOnly(s.forest);
    RootOnly(t.forest);
    NodeSizeIsTotal(s, Root);
    NodeSizeIsTotal(t, Root);
    SameSizes(s.disk, t.disk);
    SameTotal(s.disk, t.disk, FilesBelow(t, Root));
    MovedFiles(s, t, c, q, p);
    TotalsDiffer(s.disk, FilesBelow(s, Root), FilesBelow(t, Root), p, q);
  }

  lemma SameSizes(a: Disk, b: Disk)
    requires SameTexts(a, b)
    ensures forall n :: TextSize(a, n) == TextSize(b, n)
  {
  }

  /** Every node with children is marked as a directory in its file. */
  ghost predicate Marked(s: State) {
    forall n :: n in s.forest.kids && s.forest.kids[n] != [] && n.File? && n.vdir in s.disk ==>
          Ical.IsDirectory(s.disk[n.vdir])
  }

  /** Between directories a move conserves the size of the whole tree when every node with children is marked. */
  lemma MoveConservesSize(s: State, t: State, c: Id, q: Id, p: Id)
    requires Moved(s, t, c, q, p) && Marked(s) && !IsFile(s, p)
    ensures NodeSize(t, Root) == NodeSize(s, Root)
  {
    MoveAccounting(s, t, c, q, p);
    MovedShape(s, t, c, q, p);
    MovedKids(s.forest, c, q, p);
  }

  // ----- the handlers -----

  lemma RenamedFileKeepsText(s: State, n: Id, from: Id, to: Id, name: string)
    requires n.File? && n.vdir in s.disk && Readable(s, from) && Readable(s, to)
    ensures Content.Text(RenamedFile(s, n, from, to, name)) == Content.Text(s.disk[n.vdir])
  {
    hide Ical.SetX, Ical.WithParent, Ical.WithoutParent, Paths.WithoutFileExtension;
  }

  lemma FoundIsReachable(s: State, path: string)
    requires Inv(s) && GetNode(s, path).Some?
    ensures Above(s.forest.parent, Root, GetNode(s, path).value)
  {
    hide WellLinked, SiblingsDistinct, Acyclic, Lookup;
    LookupIffNamed(s.forest, GetNode(s, path).value, Paths.Split(path));
    NamedIsReachable(s.forest, GetNode(s, path).value, Paths.Split(path));
  }

  lemma MovedByRename(s: State, t: State, n: Id, from: Id, to: Id, name: string)
    requires Inv(s) && Inv(t) && NodeMoved(s, t, n, from, to, name) && Ical.UniqueX(s.disk[n.vdir].xprops)
    requires n != Root && Above(s.forest.parent, Root, n) && Above(s.forest.parent, Root, to)
             && !Above(s.forest.parent, n, to)
    ensures Moved(s, t, n, from, to)
  {
    hide Climb, SiblingsDistinct, Acyclic, KidsPointBack, ParentsPointBack, KidsOnce, RenamedFile, Ical.Decode,
         Ical.UniqueX,
         Ical.IsDirectory, Ical.RenameSafe;
    RenamedFileKeepsText(s, n, from, to, name);
    RenamedDecodes(s, n, from, to, name);
  }

  /** A rename that overwrites nothing conserves the size of the whole tree. */
  lemma RenameConservesSize(s: State, src: string, dst: string, t: State)
    requires Inv(s) && Clean(s) && RenameAllowed(s, src, dst) && IntoDirectory(s, dst) && GetNode(s, dst) == None
    requires Rename(s, src, dst) == (t, OK)
    ensures Inv(t) && NodeSize(t, Root) == NodeSize(s, Root)
  {
    hide WellLinked, SiblingsDistinct, Acyclic, Lookup, DoRename, NodeMoved, NodeSize, Moved, Marked;
    RenameOkHasTarget(s, src, dst, t);
    var n, p := GetNode(s, src).value, GetNode(s, Paths.GetParentPath(dst).value).value;
    DoRenameMoves(s, src, dst, t, n, p);
    FoundIsReachable(s, src);
    FoundIsReachable(s, Paths.GetParentPath(dst).value);
    assert CleanFile(s, n.vdir);
    MovedByRename(s, t, n, s.forest.parent[n].value, p, Paths.GetFilename(dst));
    TargetMarked(s, dst, p);
    CleanIsMarked(s);
    MoveConservesSize(s, t, n, s.forest.parent[n].value, p);
  }

  lemma CleanIsMarked(s: State)
    requires Clean(s)
    ensures Marked(s)
  {
    forall n | n in s.forest.kids && s.forest.kids[n] != [] && n.File? && n.vdir in s.disk
      ensures Ical.IsDirectory(s.disk[n.vdir])
    {
      assert CleanFile(s, n.vdir);
    }
  }

  lemma {:induction false} ClimbWithout(f: Forest, e: Id, m: Id, k: nat)
    requires WellLinked(f) && e in f.kids && f.kids[e] == [] && m != e
    ensures Climb(f.parent - {e}, m, k) == Climb(f.parent, m, k)
    decreases k
  {
    if k > 0 && m in f.parent && f.parent[m].Some? {
      assert m in f.kids[f.parent[m].value];
      ClimbWithout(f, e, f.parent[m].value, k - 1);
    }
  }

  lemma DeletedFiles(s: State, e: Id)
    requires Inv(s) && Leaf(s, e) && e.File? && Inv(Delete(s, e))
    ensures var q := s.forest.parent[e].value;
            && FilesBelow(Delete(s, e), Root) - {q} == FilesBelow(s, Root) - {e}
            && (q in FilesBelow(Delete(s, e), Root) ==> IsFile(Delete(s, e), q))
            && (Above(s.forest.parent, Root, q) && IsFile(Delete(s, e), q) ==> q in FilesBelow(Delete(s, e), Root))
  {
    hide Acyclic, SiblingsDistinct, KidsOnce, KidsPointBack;
    var t, q := Delete(s, e), s.forest.parent[e].value;
    assert e in s.forest.kids[q];
    assert t.forest.parent == s.forest.parent - {e};
    forall m | m != e
      ensures Above(t.forest.parent, Root, m) <==> Above(s.forest.parent, Root, m)
    {
      if Above(s.forest.parent, Root, m) {
        var k: nat :| Climb(s.forest.parent, m, k) == Some(Root);
        ClimbWithout(s.forest, e, m, k);
      }
      if Above(t.forest.parent, Root, m) {
        var k: nat :| Climb(t.forest.parent, m, k) == Some(Root);
        ClimbWithout(s.forest, e, m, k);
      }
    }
  }

  /** Deleting a leaf takes its text out of the size of the whole tree; the old parent may become a file again. */
  lemma DeleteAccounting(s: State, e: Id)
    requires Inv(s) && Leaf(s, e) && e.File? && Above(s.forest.parent, Root, e)
    ensures Inv(Delete(s, e))
    ensures NodeSize(Delete(s, e), Root) + FileSize(s, e)
         == NodeSize(s, Root) + FileSize(Delete(s, e), s.forest.parent[e].value)
  {
    hide IsFile, WellLinked, SiblingsDistinct, Acyclic, Above, FilesBelow, NodeSize, Delete;
    DeleteInv(s, e);
    var t, q := Delete(s, e), s.forest.parent[e].value;
    RootOnly(s.forest);
    RootOnly(t.forest);
    NodeSizeIsTotal(s, Root);
    NodeSizeIsTotal(t, Root);
    AboveParent(s.forest.parent, Root, e);
    DeletedFiles(s, e);
    DeletedSizes(s, e);
    SameTotal(s.disk, t.disk, FilesBelow(t, Root));
    TotalsDiffer(s.disk, FilesBelow(s, Root), FilesBelow(t, Root), e, q);
  }

  lemma DeletedSizes(s: State, e: Id)
    requires Inv(s) && Leaf(s, e) && e.File? && Inv(Delete(s, e)) && Above(s.forest.parent, Root, e)
    ensures forall m :: m in FilesBelow(Delete(s, e), Root) ==> TextSize(Delete(s, e).disk, m) == TextSize(s.disk, m)
    ensures e in FilesBelow(s, Root) <==> IsFile(s, e)
    ensures IsFile(Delete(s, e), s.forest.parent[e].value) ==>
              TextSize(Delete(s, e).disk, s.forest.parent[e].value) == TextSize(s.disk, s.forest.parent[e].value)
  {
    hide WellLinked, SiblingsDistinct, Acyclic, Above;
  }

  /** A rename conserves the size of the whole tree, less the text of the file it overwrites. */
  lemma RenameSize(s: State, src: string, dst: string, t: State)
    requires Agreeing(s) && RenameAllowed(s, src, dst) && IntoDirectory(s, dst) && Rename(s, src, dst) == (t, OK)
    ensures Inv(t)
    ensures NodeSize(t, Root) + (match GetNode(s, dst) case None => 0 case Some(e) => FileSize(s, e))
            == NodeSize(s, Root)
  {
    hide WellLinked, SiblingsDistinct, Acyclic, Lookup, DoRename, NodeSize, FileSize, Loads.AgreesAt, CleanFile;
    RenameOkHasTarget(s, src, dst, t);
    match GetNode(s, dst)
    case None => RenameConservesSize(s, src, dst, t);
    case Some(e) =>
      FoundLeaf(s, dst);
      FoundIsReachable(s, dst);
      DeleteAccounting(s, e);
      DeleteAgrees(s, e);
      RenameStillAllowed(s, src, dst, e);
      DeletePaths(s, e, dst);
      StillIntoDirectory(s, e, dst);
      RenameConservesSize(Delete(s, e), src, dst, t);
      ParentStaysDirectory(s, e);
  }

  lemma StillIntoDirectory(s: State, e: Id, dst: string)
    requires Inv(s) && Clean(s) && '/' in dst && IntoDirectory(s, dst) && Leaf(s, e) && e.File? && Inv(Delete(s, e))
    requires GetNode(Delete(s, e), Paths.GetParentPath(dst).value) == GetNode(s, Paths.GetParentPath(dst).value)
    ensures IntoDirectory(Delete(s, e), dst)
  {
    hide WellLinked, SiblingsDistinct, Acyclic, Lookup;
    var p := GetNode(s, Paths.GetParentPath(dst).value);
    if p.Some? {
      TargetMarked(s, dst, p.value);
    }
  }

  lemma ParentStaysDirectory(s: State, e: Id)
    requires Inv(s) && Clean(s) && Leaf(s, e) && e.File? && Inv(Delete(s, e))
    ensures FileSize(Delete(s, e), s.forest.parent[e].value) == 0
  {
    hide SiblingsDistinct, Acyclic;
    ParentHasKid(s.forest, e);
    CleanIsMarked(s);
  }
}
