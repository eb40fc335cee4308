/** What each handler keeps, and what it does to the paths of all nodes. */
module Handlers {
  import opened Wrappers
  import opened Forests
  import opened PathMaps
  import opened FreeNames
  import opened Loads
  import opened Model
  import opened Seqs
  import Ical
  import Paths

  // ----- creating -----

  lemma {:induction false} ClimbMeetsParent(f: Forest, c: Id, n: Id, k: nat)
    requires WellLinked(f) && n != c && Climb(f.parent, n, k) == Some(c)
    ensures c in f.kids && f.kids[c] != []
    decreases k
  {
    if f.parent[n].value == c {
      ParentHasKid(f, n);
    } else {
      ClimbMeetsParent(f, c, f.parent[n].value, k - 1);
    }
  }

  lemma ChildlessAboveNothing(f: Forest, c: Id, n: Id)
    requires WellLinked(f) && n != c && c in f.kids && f.kids[c] == []
    ensures !Above(f.parent, c, n)
  {
    if Above(f.parent, c, n) {
      var k: nat :| Climb(f.parent, n, k) == Some(c);
      ClimbMeetsParent(f, c, n, k);
    }
  }

  lemma {:induction false} SpawnNamed(f: Forest, i: Id, name: string, n: Id, path: seq<string>)
    requires WellLinked(f) && i !in f.parent && i != Root
    ensures NamedBy(Spawn(f, i, name), n, path) <==> NamedBy(f, n, path)
    decreases |path|
  {
    if path != [] && n in f.parent && f.parent[n].Some? {
      SpawnNamed(f, i, name, f.parent[n].value, path[..|path| - 1]);
    }
  }

  /** A node that hangs nowhere is on no path. */
  lemma SpawnPaths(f: Forest, i: Id, name: string)
    requires WellLinked(f) && SiblingsDistinct(f) && i !in f.parent && i != Root
    ensures WellLinked(Spawn(f, i, name))
    ensures forall q :: Lookup(Spawn(f, i, name), Root, q) == Lookup(f, Root, q)
  {
    SpawnLinked(f, i, name);
    forall q
      ensures Lookup(Spawn(f, i, name), Root, q) == Lookup(f, Root, q)
    {
      forall n
        ensures NamedBy(Spawn(f, i, name), n, q) <==> NamedBy(f, n, q)
      {
        SpawnNamed(f, i, name, n, q);
      }
      SameLookup(Spawn(f, i, name), q, f, q);
    }
  }

  /** A path that leads nowhere although its directory exists ends in a name that is free there. */
  lemma MissingPathIsFree(s: State, path: string, p: Id)
    requires Inv(s) && '/' in path && GetNode(s, path) == None
    requires GetNode(s, Paths.GetParentPath(path).value) == Some(p)
    ensures Paths.GetFilename(path) != ""
    ensures Paths.Split(path) == Paths.Split(Paths.GetParentPath(path).value) + [Paths.GetFilename(path)]
    ensures NameFree(s.forest, p, Paths.GetFilename(path))
    ensures NamedBy(s.forest, p, Paths.Split(Paths.GetParentPath(path).value))
  {
    hide KidsPointBack, ParentsPointBack, KidsOnce, SiblingsDistinct, Acyclic, Lookup, Paths.Split,
         Paths.GetFilename;
    var dir, name := Paths.Split(Paths.GetParentPath(path).value), Paths.GetFilename(path);
    Paths.SplitParentAndFilename(path);
    LookupIffNamed(s.forest, p, dir);
    assert dir + [] == dir;
    assert (dir + [name])[..|dir|] == dir;
    forall c | c in s.forest.parent && s.forest.parent[c] == Some(p)
      ensures s.forest.name[c] != name
    {
      LookupIffNamed(s.forest, c, dir + [name]);
    }
  }

  ghost predicate SamePaths(s: State, t: State)
    requires Inv(s) && Inv(t)
  {
    forall q :: Lookup(t.forest, Root, q) == Lookup(s.forest, Root, q)
  }

  lemma AppendInv(s: State, p: Id, n: Id, c: Ical.Component)
    requires Inv(s) && p in s.forest.parent && n in s.forest.parent && n.File? && p != n
    requires s.forest.parent[n] == None && s.forest.kids[n] == [] && NameFree(s.forest, p, s.forest.name[n])
    ensures Inv(s.(forest := Append(s.forest, p, n), disk := s.disk[n.vdir := c]))
  {
    AppendLinked(s.forest, p, n);
    AppendSiblings(s.forest, p, n);
    ChildlessAboveNothing(s.forest, n, p);
    ReparentAcyclic(s.forest.parent, n, Some(p));
  }

  lemma LeafAttached(f: Forest, p: Id, n: Id, name: string)
    requires WellLinked(f) && SiblingsDistinct(f) && n !in f.parent && n != Root && p in f.parent
    requires WellLinked(Append(Spawn(f, n, name), p, n)) && SiblingsDistinct(Append(Spawn(f, n, name), p, n))
    ensures LeafAdded(f, Append(Spawn(f, n, name), p, n), n, p, name)
  {
  }

  /** `t` has one path more than `s`, leading to `n`. */
  ghost predicate PathAdded(s: State, t: State, path: seq<string>, n: Id)
    requires Inv(s) && Inv(t)
  {
    && Lookup(s.forest, Root, path) == None
    && forall q :: Lookup(t.forest, Root, q) == if q == path then Some(n) else Lookup(s.forest, Root, q)
  }

  lemma InsertInv(s: State, path: string, n: Id, p: Id, c: Ical.Component)
    requires Inv(s) && n !in s.forest.parent && n.File? && '/' in path
    requires GetNode(s, path) == None && GetNode(s, Paths.GetParentPath(path).value) == Some(p)
    ensures Inv(s.(forest := Append(Spawn(s.forest, n, Paths.GetFilename(path)), p, n), disk := s.disk[n.vdir := c]))
  {
    hide Lookup, SiblingsDistinct, Acyclic, KidsOnce, KidsPointBack, ParentsPointBack, NameFree, Append, Paths.Split;
    var name := Paths.GetFilename(path);
    SpawnInv(s, n, name);
    SpawnPaths(s.forest, n, name);
    MissingPathIsFree(s.(forest := Spawn(s.forest, n, name)), path, p);
    AppendInv(s.(forest := Spawn(s.forest, n, name)), p, n, c);
  }

  lemma InsertEffect(s: State, path: string, n: Id, p: Id, c: Ical.Component)
    requires Inv(s) && n !in s.forest.parent && n.File? && '/' in path
    requires GetNode(s, path) == None && GetNode(s, Paths.GetParentPath(path).value) == Some(p)
    ensures var t := s.(forest := Append(Spawn(s.forest, n, Paths.GetFilename(path)), p, n),
            disk := s.disk[n.vdir := c]);
            Inv(t) && PathAdded(s, t, Paths.Split(path), n)
  {
    hide Lookup, WellLinked, SiblingsDistinct, Acyclic, NameFree, LeafAdded, Append, Spawn, Paths.Split,
         AttachedOnDisk;
    var name, dir := Paths.GetFilename(path), Paths.GetParentPath(path).value;
    InsertInv(s, path, n, p, c);
    MissingPathIsFree(s, path, p);
    LeafAttached(s.forest, p, n, name);
    LeafRefinesPaths(s.forest, Append(Spawn(s.forest, n, name), p, n), n, p, name, Paths.Split(dir));
  }

  lemma SpawnFinds(s: State, i: Id, name: string, path: string)
    requires Inv(s) && i !in s.forest.parent && i != Root
    ensures Inv(s.(forest := Spawn(s.forest, i, name)))
    ensures GetNode(s.(forest := Spawn(s.forest, i, name)), path) == GetNode(s, path)
  {
    hide Lookup, WellLinked, SiblingsDistinct, Acyclic;
    SpawnInv(s, i, name);
    SpawnPaths(s.forest, i, name);
  }

  /** Creating keeps the invariant. On success exactly one path is added; on an error no path and no file changes. */
  lemma CreateEffect(s: State, path: string, uid: string, etype: EntryType, t: State, status: Status)
    requires Inv(s) && FreshUid(s, uid) && Create(s, path, uid, etype) == (t, status)
    ensures Inv(t)
    ensures status == OK ==> PathAdded(s, t, Paths.Split(path), IdOfUid(uid))
    ensures status != OK ==> SamePaths(s, t) && t.disk == s.disk
  {
    hide Lookup, WellLinked, SiblingsDistinct, Acyclic, AttachedOnDisk, Paths.Split, PathAdded, NodeIsDirectory,
         NewComponent, Ical.Written, WithParentLink, Append, GetNode, Paths.GetFilename, Paths.GetParentPath;
    if status !in {EPERM, EEXIST, EINVAL} {
      var name, n, dir := Paths.GetFilename(path), IdOfUid(uid), Paths.GetParentPath(path).value;
      SpawnInv(s, n, name);
      SpawnFinds(s, n, name, dir);
      SpawnPaths(s.forest, n, name);
      var s1 := s.(forest := Spawn(s.forest, n, name));
      if status == OK {
        InsertEffect(s, path, n, GetNode(s1, dir).value, t.disk[n.vdir]);
      }
    }
  }

  // ----- renaming -----

  lemma RenamedRelations(c: Ical.Component, name: string)
    ensures Ical.Renamed(c, name).related == c.related
  {
    hide Ical.SetX, Ical.IsDirectory, Paths.WithoutFileExtension, Paths.GetFileExtension;
  }

  /** A component with one parent link, to the directory the node is in, or with none at the top: after a rename
      into a directory its file has one parent link, to that directory, and all other relations in their order. */
  lemma RenameKeepsSingleLink(s: State, n: Id, from: Id, to: Id, name: string)
    requires n.File? && n.vdir in s.disk && Readable(s, from) && Readable(s, to) && to != Root
    requires Ical.ParentUids(s.disk[n.vdir].related) == if from == Root then [] else [s.disk[from.vdir].uid]
    ensures Ical.ParentUids(RenamedFile(s, n, from, to, name).related) == [s.disk[to.vdir].uid]
    ensures Ical.GetParentUid(RenamedFile(s, n, from, to, name)) == Some(s.disk[to.vdir].uid)
    ensures Ical.OtherRelations(RenamedFile(s, n, from, to, name).related)
            == Ical.OtherRelations(s.disk[n.vdir].related)
  {
    hide Ical.Renamed, Ical.ParentUids, Ical.OtherRelations, Ical.FirstParent, Ical.WithParent, Ical.WithoutParent;
    RenamedRelations(s.disk[n.vdir], name);
    if from == Root {
      Ical.FirstParentLink(s.disk[n.vdir].related, s.disk[to.vdir].uid);
    } else {
      Ical.SingleParentLink(s.disk[n.vdir].related, s.disk[from.vdir].uid, s.disk[to.vdir].uid);
    }
  }

  /** Taking a renamed node out of the tree restores distinct names, whatever its new name is. */
  lemma RenamedDetached(f: Forest, c: Id, name: string)
    requires WellLinked(f) && SiblingsDistinct(f) && c in f.parent && c != Root
    ensures WellLinked(SetName(f, c, name))
    ensures var h := Detach(SetName(f, c, name), c);
            && WellLinked(h) && SiblingsDistinct(h)
            && h.parent == f.parent[c := None] && h.name == f.name[c := name]
  {
    hide KidsPointBack, ParentsPointBack, KidsOnce;
    SetNameLinked(f, c, name);
    DetachLinked(SetName(f, c, name), c);
    FewerSiblings(f, Detach(SetName(f, c, name), c), c);
  }

  /** The links of a forest in which `c` was renamed and moved under `p`, where no other child has the name. */
  lemma MoveLinked(f: Forest, c: Id, p: Id, name: string)
    requires WellLinked(f) && SiblingsDistinct(f) && c in f.parent && c != Root && p in f.parent
    requires NameFree(f, p, name)
    ensures WellLinked(SetName(f, c, name))
    ensures WellLinked(Move(SetName(f, c, name), p, c)) && SiblingsDistinct(Move(SetName(f, c, name), p, c))
    ensures Rehung(f, Move(SetName(f, c, name), p, c), c, p, name)
  {
    hide KidsPointBack, ParentsPointBack, KidsOnce, SiblingsDistinct;
    RenamedDetached(f, c, name);
    var h := Detach(SetName(f, c, name), c);
    AppendLinked(h, p, c);
    AppendSiblings(h, p, c);
  }

  /** The effect of a rename on all paths: the subtree at `src` is afterwards at `dst`, nothing is left at or
      below `src`, and paths that extend neither are as before. */
  ghost predicate PathsMoved(s: State, t: State, src: seq<string>, dst: seq<string>)
    requires Inv(s) && Inv(t)
  {
    && !(src <= dst) && !(dst <= src)
    && (forall x :: Lookup(t.forest, Root, dst + x) == Lookup(s.forest, Root, src + x))
    && (forall x :: Lookup(t.forest, Root, src + x) == None)
    && (forall q :: !(src <= q) && !(dst <= q) ==> Lookup(t.forest, Root, q) == Lookup(s.forest, Root, q))
  }

  lemma MovePaths(s: State, t: State, c: Id, src: string, p: Id, dst: string)
    requires Inv(s) && Inv(t) && '/' in dst && c != Root
    requires GetNode(s, src) == Some(c) && GetNode(s, dst) == None
    requires GetNode(s, Paths.GetParentPath(dst).value) == Some(p) && !Above(s.forest.parent, c, p)
    requires Rehung(s.forest, t.forest, c, p, Paths.GetFilename(dst))
    ensures PathsMoved(s, t, Paths.Split(src), Paths.Split(dst))
  {
    hide Lookup, SiblingsDistinct, Acyclic, WellLinked, Rehung, NameFree, Paths.Split, NamedBy, Above, AttachedOnDisk;
    var name, dir := Paths.GetFilename(dst), Paths.Split(Paths.GetParentPath(dst).value);
    MissingPathIsFree(s, dst, p);
    LookupIffNamed(s.forest, c, Paths.Split(src));
    MoveIncomparable(s.forest, t.forest, c, Paths.Split(src), p, dir, name);
    MoveRefinesPaths(s.forest, t.forest, c, Paths.Split(src), p, dir, name);
  }

  lemma DoRenameInv(s: State, src: string, dst: string, t: State)
    requires Inv(s) && RenameAllowed(s, src, dst) && GetNode(s, dst) == None
    requires DoRename(s, src, dst) == (t, OK)
    ensures Inv(t)
    ensures Rehung(s.forest, t.forest, GetNode(s, src).value,
                   GetNode(s, Paths.GetParentPath(dst).value).value, Paths.GetFilename(dst))
  {
    hide Lookup, SiblingsDistinct, Acyclic, NameFree, KidsPointBack, ParentsPointBack, KidsOnce;
    var p := GetNode(s, Paths.GetParentPath(dst).value).value;
    var c := GetNode(s, src).value;
    MissingPathIsFree(s, dst, p);
    MoveLinked(s.forest, c, p, Paths.GetFilename(dst));
    ReparentAcyclic(s.forest.parent, c, Some(p));
  }

  lemma DoRenameEffect(s: State, src: string, dst: string, t: State, status: Status)
    requires Inv(s) && RenameAllowed(s, src, dst) && GetNode(s, dst) == None
    requires DoRename(s, src, dst) == (t, status)
    ensures Inv(t)
    ensures status == OK ==> PathsMoved(s, t, Paths.Split(src), Paths.Split(dst))
    ensures status != OK ==> t == s
  {
    if status == OK {
      DoRenameInv(s, src, dst, t);
      MovePaths(s, t, GetNode(s, src).value, src, GetNode(s, Paths.GetParentPath(dst).value).value, dst);
    }
  }

  lemma {:induction false} ClimbInSmaller(up: Up, smaller: Up, n: Id, k: nat)
    requires forall m :: m in smaller ==> m in up && smaller[m] == up[m]
    requires Climb(smaller, n, k).Some?
    ensures Climb(up, n, k) == Climb(smaller, n, k)
    decreases k
  {
    if k > 0 {
      ClimbInSmaller(up, smaller, smaller[n].value, k - 1);
    }
  }

  /** Deleting the node at the target of a rename leaves the rename allowed. */
  lemma RenameStillAllowed(s: State, src: string, dst: string, e: Id)
    requires Inv(s) && RenameAllowed(s, src, dst) && GetNode(s, dst) == Some(e) && Leaf(s, e)
    ensures Inv(Delete(s, e)) && RenameAllowed(Delete(s, e), src, dst)
    ensures GetNode(Delete(s, e), Paths.GetParentPath(dst).value) == GetNode(s, Paths.GetParentPath(dst).value)
  {
    DeletePaths(s, e, dst);
    var t := Delete(s, e);
    var dir := Paths.GetParentPath(dst).value;
    Paths.SplitParentAndFilename(dst);
    var p := GetNode(s, dir);
    assert GetNode(t, dir) == p && GetNode(t, src) == GetNode(s, src);
    if p.Some? && Above(t.forest.parent, GetNode(s, src).value, p.value) {
      var k: nat :| Climb(t.forest.parent, p.value, k) == Some(GetNode(s, src).value);
      ClimbInSmaller(s.forest.parent, t.forest.parent, p.value, k);
    }
  }

  /** An occupied path has a directory. */
  lemma FoundHasDirectory(s: State, path: string)
    requires Inv(s) && '/' in path && Paths.GetFilename(path) != "" && GetNode(s, path).Some?
    ensures GetNode(s, Paths.GetParentPath(path).value).Some?
  {
    Paths.SplitParentAndFilename(path);
    LookupAppend(s.forest, Root, Paths.Split(Paths.GetParentPath(path).value), [Paths.GetFilename(path)]);
  }

  /** Renaming keeps the invariant and moves exactly the paths below the source; on an error nothing changes. */
  lemma RenameEffect(s: State, src: string, dst: string, t: State, status: Status)
    requires Inv(s) && RenameAllowed(s, src, dst) && Rename(s, src, dst) == (t, status)
    ensures Inv(t)
    ensures status == OK ==> PathsMoved(s, t, Paths.Split(src), Paths.Split(dst))
    ensures status != OK ==> t == s
  {
    hide Lookup, SiblingsDistinct, Acyclic, WellLinked, PathsMoved;
    match GetNode(s, dst)
    case None => DoRenameEffect(s, src, dst, t, status);
    case Some(e) =>
      FoundHasDirectory(s, dst);
      FoundLeaf(s, dst);
      if s.forest.kids[e] == [] {
        RenameStillAllowed(s, src, dst, e);
        DeletePaths(s, e, dst);
        DoRenameEffect(Delete(s, e), src, dst, t, status);
        assert status == OK;
        PathsMovedAfterDelete(s, Delete(s, e), t, Paths.Split(src), Paths.Split(dst));
      }
  }

  /** A rename writes the file of the moved node, removes the file of an overwritten one, and touches no other. */
  lemma RenameFiles(s: State, src: string, dst: string, t: State)
    requires Inv(s) && RenameAllowed(s, src, dst) && Rename(s, src, dst) == (t, OK)
    ensures var gone := match GetNode(s, dst) case None => {} case Some(e) => {e};
            && (forall v :: v in t.disk <==> v in s.disk && File(v) !in gone)
            && (forall v :: v in t.disk && File(v) != GetNode(s, src).value ==> t.disk[v] == s.disk[v])
  {
    hide SiblingsDistinct, Acyclic, WellLinked, Lookup, RenamedFile, Move, SetName;
    match GetNode(s, dst)
    case None =>
    case Some(e) =>
      FoundHasDirectory(s, dst);
      FoundLeaf(s, dst);
      RenameStillAllowed(s, src, dst, e);
      DeletePaths(s, e, dst);
  }

  lemma PathsMovedAfterDelete(s: State, m: State, t: State, src: seq<string>, dst: seq<string>)
    requires Inv(s) && Inv(m) && Inv(t) && PathsMoved(m, t, src, dst)
    requires forall q :: Lookup(m.forest, Root, q) == if q == dst then None else Lookup(s.forest, Root, q)
    ensures PathsMoved(s, t, src, dst)
  {
    forall x
      ensures Lookup(t.forest, Root, dst + x) == Lookup(s.forest, Root, src + x)
    {
      assert src <= src + x;
    }
  }

  // ----- deleting -----

  /** Deleting keeps the invariant and removes exactly one path. */
  lemma DeleteEffect(s: State, path: string, n: Id)
    requires Inv(s) && GetNode(s, path) == Some(n) && n != Root && s.forest.kids[n] == []
    ensures Leaf(s, n) && Inv(Delete(s, n)) && PathAdded(Delete(s, n), s, Paths.Split(path), n)
  {
    FoundLeaf(s, path);
    DeletePaths(s, n, path);
  }

  /** A node counts as a directory if it is the root, has children, or has a directory's file. */
  lemma NodeIsDirectoryMeans(s: State, n: Id)
    requires Readable(s, n) && n in s.forest.kids
    ensures NodeIsDirectory(s, n) <==> n == Root || s.forest.kids[n] != [] || Ical.DirectoryFile(s.disk[n.vdir])
  {
    if n != Root {
      Ical.IsDirectoryMeans(s.disk[n.vdir]);
    }
  }

  /** fuse_unlink removes exactly one path, and only of a node that is neither the root nor the parent of others and
      whose file is no directory's. */
  lemma UnlinkEffect(s: State, path: string, t: State, status: Status)
    requires Inv(s) && Unlink(s, path) == (t, status)
    ensures Inv(t)
    ensures status == ENOENT <==> GetNode(s, path) == None
    ensures status == OK <==> GetNode(s, path).Some? && GetNode(s, path).value != Root
                              && s.forest.kids[GetNode(s, path).value] == []
                              && !Ical.DirectoryFile(s.disk[GetNode(s, path).value.vdir])
    ensures status in {OK, ENOENT, EISDIR}
    ensures status == OK ==> PathAdded(t, s, Paths.Split(path), GetNode(s, path).value)
    ensures status == OK ==> GetNode(s, path).value.File? && t.disk == s.disk - {GetNode(s, path).value.vdir}
    ensures status != OK ==> t == s
  {
    hide Lookup, SiblingsDistinct, Acyclic, WellLinked, PathAdded, Ical.DirectoryFile;
    if GetNode(s, path).Some? {
      FoundIsDirectory(s, path);
    }
    if status == OK {
      DeleteEffect(s, path, GetNode(s, path).value);
    }
  }

  lemma FoundIsDirectory(s: State, path: string)
    requires Inv(s) && GetNode(s, path).Some?
    ensures var n := GetNode(s, path).value;
            && n in s.forest.kids
            && (NodeIsDirectory(s, n) <==> n == Root || s.forest.kids[n] != [] || Ical.DirectoryFile(s.disk[n.vdir]))
  {
    NodeIsDirectoryMeans(s, GetNode(s, path).value);
  }

  /** fuse_rmdir removes exactly one path, and only of a node without children whose file is a directory's. */
  lemma RmdirEffect(s: State, path: string, t: State, status: Status)
    requires Inv(s) && GetNode(s, path) != Some(Root) && Rmdir(s, path) == (t, status)
    ensures Inv(t)
    ensures status == ENOENT <==> GetNode(s, path) == None
    ensures status == ENOTEMPTY <==> GetNode(s, path).Some? && s.forest.kids[GetNode(s, path).value] != []
    ensures status == OK <==> GetNode(s, path).Some? && s.forest.kids[GetNode(s, path).value] == []
                              && Ical.DirectoryFile(s.disk[GetNode(s, path).value.vdir])
    ensures status in {OK, ENOENT, ENOTDIR, ENOTEMPTY}
    ensures status == OK ==> PathAdded(t, s, Paths.Split(path), GetNode(s, path).value)
    ensures status == OK ==> GetNode(s, path).value.File? && t.disk == s.disk - {GetNode(s, path).value.vdir}
    ensures status != OK ==> t == s
  {
    hide Lookup, SiblingsDistinct, Acyclic, WellLinked, PathAdded, Ical.DirectoryFile;
    if GetNode(s, path).Some? {
      FoundIsDirectory(s, path);
    }
    if status == OK {
      DeleteEffect(s, path, GetNode(s, path).value);
    }
  }

  // ----- changes from outside -----

  /** Taking an upserted node out of the tree leaves distinct names, whatever name it was given. */
  lemma UpsertDetached(f: Forest, n: Id, name: string)
    requires WellLinked(f) && SiblingsDistinct(f) && n != Root
    ensures WellLinked(Upsert(f, n, name)) && n in Upsert(f, n, name).parent
    ensures WellLinked(Detach(Upsert(f, n, name), n)) && SiblingsDistinct(Detach(Upsert(f, n, name), n))
    ensures Detach(Upsert(f, n, name), n).parent == f.parent[n := None]
    ensures Detach(Upsert(f, n, name), n).name == f.name[n := name]
  {
    hide KidsPointBack, ParentsPointBack, KidsOnce;
    UpsertLinked(f, n, name);
    DetachLinked(Upsert(f, n, name), n);
    FewerSiblings(f, Detach(Upsert(f, n, name), n), n);
  }

  /** upsert followed by move: distinct names are restored from the state in which only the name was changed. */
  lemma UpsertMoveLinked(f: Forest, n: Id, name: string, p: Id)
    requires WellLinked(f) && SiblingsDistinct(f) && n != Root && p in f.parent
    ensures WellLinked(Upsert(f, n, name)) && n in Upsert(f, n, name).parent && p in Upsert(f, n, name).kids
    ensures var g := MoveFuseNode(Upsert(f, n, name), p, n);
            && WellLinked(g) && SiblingsDistinct(g) && g.parent == f.parent[n := Some(p)]
            && forall m :: m in f.name && m != n ==> g.name[m] == f.name[m]
  {
    hide WellLinked, SiblingsDistinct, Upsert, Detach, AddFuseChild, KidsNamed;
    var h := Detach(Upsert(f, n, name), n);
    UpsertDetached(f, n, name);
    LinkedKeys(Upsert(f, n, name));
    LinkedKeys(h);
    UpsertKeeps(f, n, name);
    KidsAreNamed(h, p);
    AddDetached(f, h, AddFuseChild(h, p, n), p, n, name);
  }

  lemma AddDetached(f: Forest, h: Forest, g: Forest, p: Id, n: Id, name: string)
    requires WellLinked(h) && SiblingsDistinct(h) && h.parent == f.parent[n := None] && h.name == f.name[n := name]
    requires p in h.kids && n in h.parent && n in h.name && n != Root && KidsNamed(h, p) && g == AddFuseChild(h, p, n)
    ensures WellLinked(g) && SiblingsDistinct(g) && g.parent == f.parent[n := Some(p)]
    ensures forall m :: m in f.name && m != n ==> m in g.name && g.name[m] == f.name[m]
  {
    hide WellLinked, SiblingsDistinct, AddFuseChild, KidsNamed;
    AddFuseChildLinked(h, p, n);
    assert f.parent[n := None][n := Some(p)] == f.parent[n := Some(p)];
    NamesKept(f, h, g, n, name);
  }

  lemma NamesKept(f: Forest, h: Forest, g: Forest, n: Id, name: string)
    requires h.name == f.name[n := name]
    requires forall m :: m in h.name && m != n ==> m in g.name && g.name[m] == h.name[m]
    ensures forall m :: m in f.name && m != n ==> m in g.name && g.name[m] == f.name[m]
  {
  }

  lemma LinkedKeys(f: Forest)
    requires WellLinked(f)
    ensures forall i :: i in f.parent <==> i in f.kids
    ensures forall i :: i in f.parent <==> i in f.name
  {
  }

  lemma UpsertKeeps(f: Forest, n: Id, name: string)
    requires WellLinked(f)
    ensures forall m :: m in f.parent ==> m in Upsert(f, n, name).parent
  {
  }

  lemma ReparentOrAddAcyclic(up: Up, n: Id, p: Id)
    requires Acyclic(up) && p in up && p != n && !Above(up, n, p)
    ensures Acyclic(up[n := Some(p)])
  {
    if n in up {
      ReparentAcyclic(up, n, Some(p));
    } else {
      SpawnAcyclic(up, n);
      var grown := up[n := None];
      if Above(grown, n, p) {
        var k: nat :| Climb(grown, p, k) == Some(n);
        ClimbAvoiding(up, n, None, p, k);
      }
      ReparentAcyclic(grown, n, Some(p));
      assert grown[n := Some(p)] == up[n := Some(p)];
    }
  }

  /** Where a vdir update puts the node of the changed file. */
  ghost function UpdateParent(s: State, v: string): Id
    requires v in s.disk
  {
    match Ical.GetParentUid(s.disk[v]) case None => Root case Some(uid) => IdOfUid(uid)
  }

  /** A vdir update keeps the invariant; only the changed node moves or is renamed, and it ends up under the
      parent its file names with the decoded name or the first free variant of it. */
  lemma VdirUpdateEffect(s: State, v: string, t: State, status: Status)
    requires Inv(s) && UpdateAllowed(s, v) && VdirUpdate(s, v) == (t, status)
    ensures Inv(t)
    ensures status == OK <==> v in s.disk && Ical.Decode(s.disk[v], s.ext).Some?
    ensures status != OK ==> status == EIO && t == s
    ensures status == OK ==> t.forest.parent == s.forest.parent[File(v) := Some(UpdateParent(s, v))]
    ensures status == OK ==> forall m :: m in s.forest.name && m != File(v) ==> t.forest.name[m] == s.forest.name[m]
    ensures status == OK ==> FirstFreeBeside(s.forest, UpdateParent(s, v), File(v),
                                             Ical.Decode(s.disk[v], s.ext).value, t.forest.name[File(v)])
  {
    hide WellLinked, SiblingsDistinct, Acyclic;
    if status == OK {
      var name, n, p := Ical.Decode(s.disk[v], s.ext).value, File(v), UpdateParent(s, v);
      RootIsNode(s.forest);
      UpsertMoveLinked(s.forest, n, name, p);
      RootNotBelow(s.forest, n);
      ReparentOrAddAcyclic(s.forest.parent, n, p);
      MovedName(s.forest, n, name, p);
    }
  }

  lemma RootIsNode(f: Forest)
    requires WellLinked(f)
    ensures Root in f.parent && f.parent[Root] == None
  {
  }

  lemma RootNotBelow(f: Forest, n: Id)
    requires WellLinked(f) && n != Root
    ensures !Above(f.parent, n, Root)
  {
    forall k: nat
      ensures Climb(f.parent, Root, k) != Some(n)
    {
      assert k > 0 ==> Climb(f.parent, Root, k) == None;
    }
  }

  /** Another child of `p` than `n` is called `name`. */
  ghost predicate TakenBeside(f: Forest, p: Id, n: Id, name: string)
    requires f.name.Keys == f.parent.Keys
  {
    exists m :: m in f.parent && m != n && f.parent[m] == Some(p) && f.name[m] == name
  }

  /** `found` is the first of f, f.1, f.2, ... that no child of `p` other than `n` is called. */
  ghost predicate FirstFreeBeside(f: Forest, p: Id, n: Id, filename: string, found: string)
    requires f.name.Keys == f.parent.Keys
  {
    !TakenBeside(f, p, n, found)
    && exists k :: 0 <= k && found == Candidate(filename, k)
                   && forall j :: 0 <= j < k ==> TakenBeside(f, p, n, Candidate(filename, j))
  }

  lemma NamesBeside(f: Forest, h: Forest, p: Id, n: Id, name: string)
    requires f.name.Keys == f.parent.Keys && WellLinked(h) && p in h.kids && KidsNamed(h, p)
    requires h.parent == f.parent[n := None] && forall m :: m in f.name && m != n ==>
             m in h.name && h.name[m] == f.name[m]
    ensures name in NamesOf(h, h.kids[p]) <==> TakenBeside(f, p, n, name)
  {
    hide KidsOnce;
    var names := NamesOf(h, h.kids[p]);
    if name in names {
      var i :| 0 <= i < |names| && names[i] == name;
      var m := h.kids[p][i];
      assert m in h.kids[p];
      assert m in f.parent && m != n && f.parent[m] == Some(p) && f.name[m] == name;
    }
    if TakenBeside(f, p, n, name) {
      var m :| m in f.parent && m != n && f.parent[m] == Some(p) && f.name[m] == name;
      assert h.parent[m] == Some(p);
      var i :| 0 <= i < |h.kids[p]| && h.kids[p][i] == m;
      assert names[i] == name;
    }
  }

  lemma MovedName(f: Forest, n: Id, name: string, p: Id)
    requires WellLinked(f) && SiblingsDistinct(f) && n != Root && p in f.parent
    requires WellLinked(Upsert(f, n, name)) && n in Upsert(f, n, name).parent && p in Upsert(f, n, name).kids
    ensures FirstFreeBeside(f, p, n, name, MoveFuseNode(Upsert(f, n, name), p, n).name[n])
  {
    hide KidsPointBack, ParentsPointBack, KidsOnce, SiblingsDistinct;
    UpsertDetached(f, n, name);
    var h := Detach(Upsert(f, n, name), n);
    KidsAreNamed(h, p);
    var taken := NamesOf(h, h.kids[p]);
    var found := FreeName(taken, name);
    assert MoveFuseNode(Upsert(f, n, name), p, n).name[n] == found;
    var k :| 0 <= k <= |taken| && found == Candidate(name, k)
             && forall j :: 0 <= j < k ==> Candidate(name, j) in taken;
    NamesBeside(f, h, p, n, found);
    forall j | 0 <= j < k
      ensures TakenBeside(f, p, n, Candidate(name, j))
    {
      NamesBeside(f, h, p, n, Candidate(name, j));
    }
  }

  lemma {:induction false} NamedBySame(f: Forest, g: Forest, n: Id, path: seq<string>)
    requires f.parent == g.parent && f.name == g.name
    ensures NamedBy(f, n, path) <==> NamedBy(g, n, path)
    decreases |path|
  {
    if path != [] && n in f.parent && f.parent[n].Some? {
      NamedBySame(f, g, f.parent[n].value, path[..|path| - 1]);
    }
  }

  /** The order of children does not matter for any path. */
  lemma SameTreeSamePaths(f: Forest, g: Forest)
    requires WellLinked(f) && SiblingsDistinct(f) && WellLinked(g) && SiblingsDistinct(g)
    requires f.parent == g.parent && f.name == g.name
    ensures forall q :: Lookup(f, Root, q) == Lookup(g, Root, q)
  {
    forall q
      ensures Lookup(f, Root, q) == Lookup(g, Root, q)
    {
      forall n
        ensures NamedBy(f, n, q) <==> NamedBy(g, n, q)
      {
        NamedBySame(f, g, n, q);
      }
      SameLookup(f, q, g, q);
    }
  }

  lemma AgreedParent(s: State, v: string)
    requires WellLinked(s.forest) && v in s.disk && AgreesAt(s, v) && UpdateAllowed(s, v)
    ensures s.forest.parent[File(v)] == Some(UpdateParent(s, v))
  {
  }

  /** A notification about a file that says nothing new changes no name, no parent and no path;
      the node only becomes the last child of its parent. */
  lemma VdirUpdateStutters(s: State, v: string, t: State, status: Status)
    requires Inv(s) && UpdateAllowed(s, v) && v in s.disk && AgreesAt(s, v) && VdirUpdate(s, v) == (t, status)
    ensures status == OK && Inv(t) && t.ext == s.ext
    ensures t.forest.parent == s.forest.parent && t.forest.name == s.forest.name && SamePaths(s, t)
    ensures t.forest.kids == s.forest.kids[UpdateParent(s, v)
                               := Without(s.forest.kids[UpdateParent(s, v)], File(v)) + [File(v)]]
    ensures UpdateParent(s, v) == Root || Ical.IsDirectory(s.disk[UpdateParent(s, v).vdir]) ==> t.disk == s.disk
  {
    hide Lookup, Acyclic;
    AgreedParent(s, v);
    VdirUpdateEffect(s, v, t, status);
    StutterForest(s, v);
    SameTreeSamePaths(s.forest, t.forest);
  }

  lemma StutterForest(s: State, v: string)
    requires Inv(s) && UpdateAllowed(s, v) && v in s.disk && AgreesAt(s, v)
    ensures VdirUpdate(s, v).1 == OK
    ensures var f, t, n, p := s.forest, VdirUpdate(s, v).0.forest, File(v), UpdateParent(s, v);
            && p in f.kids && t.name == f.name && t.parent == f.parent
            && t.kids == f.kids[p := Without(f.kids[p], n) + [n]]
  {
    hide Acyclic;
    AgreedParent(s, v);
    var f, n, p := s.forest, File(v), UpdateParent(s, v);
    var name := f.name[n];
    assert Upsert(f, n, name) == f;
    DetachLinked(f, n);
    var h := Detach(f, n);
    assert NameFree(h, p, name) by {
      forall c | c in h.parent && h.parent[c] == Some(p)
        ensures h.name[c] != name
      {
        assert Siblings(f, c, n);
      }
    }
    FreeNameKept(h, p, n);
    assert MoveFuseNode(f, p, n) == Append(h, p, n);
  }
}
