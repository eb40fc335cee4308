/** Which handler calls keep memory and vdir in agreement, and runs made of them. */
module Agreement {
  import opened Wrappers
  import opened Seqs
  import opened Forests
  import opened PathMaps
  import opened Model
  import opened Handlers
  import opened Runs
  import opened Loads
  import opened Reloads
  import Content
  import Ical
  import Paths

  /** The tree and the files agree one by one, and the files are as the handlers leave them. */
  ghost predicate Agreeing(s: State) {
    Inv(s) && NodesOnDisk(s) && Clean(s) && forall v :: v in s.disk ==> AgreesAt(s, v)
  }

  lemma AgreeingReloads(s: State)
    requires Agreeing(s)
    ensures ReloadAgrees(s)
  {
    DiskAgreesIffEachFile(s);
    ReloadIffDiskAgrees(s);
  }

  /** A file whose node keeps its name and its parent goes on agreeing. */
  lemma StillAgrees(s: State, t: State, v: string)
    requires v in s.disk && AgreesAt(s, v) && CleanFile(s, v)
    requires v in t.disk && t.disk[v] == s.disk[v] && t.ext == s.ext
    requires File(v) in t.forest.parent && t.forest.parent[File(v)] == s.forest.parent[File(v)]
    requires File(v) in t.forest.name && t.forest.name[File(v)] == s.forest.name[File(v)]
    requires s.forest.parent[File(v)].value in t.forest.parent
    requires File(v) in t.forest.kids && t.forest.kids[File(v)] != [] ==> Ical.IsDirectory(s.disk[v])
    ensures AgreesAt(t, v) && CleanFile(t, v)
  {
  }

  lemma ParentIsNode(f: Forest, n: Id)
    requires WellLinked(f) && n in f.parent && f.parent[n].Some?
    ensures f.parent[n].value in f.parent && f.parent[n].value in f.kids && n in f.kids[f.parent[n].value]
    ensures n in f.kids && n in f.name
  {
  }

  // ----- creating -----

  /** The parent link written for a new node. */
  lemma NewLink(s: State, c: Ical.Component, p: Id)
    requires Clean(s) && Readable(s, p) && c.related == []
    ensures var d := Ical.Written(WithParentLink(s, c, p));
            && |Ical.ParentUids(d.related)| <= 1
            && match Ical.GetParentUid(d) case None => p == Root case Some(uid) => p == IdOfUid(uid)
  {
    if p != Root {
      assert CleanFile(s, p.vdir);
      Ical.FirstParentLink([], s.disk[p.vdir].uid);
    }
  }

  lemma NewDecodes(s: State, uid: string, name: string, etype: EntryType, p: Id)
    requires Readable(s, p) && '/' !in name && name != ""
    ensures var d := Ical.Written(WithParentLink(s, NewComponent(uid, name, etype), p));
            && (Ical.Decode(d, s.ext) == Some(name) <==> etype.EntryDirectory? || Ical.Storable(name))
            && (etype.EntryFile? && !Ical.Storable(name) ==> Ical.Unrecoverable(Ical.Decode(d, s.ext), name))
            && d.uid == uid && Ical.UniqueX(d.xprops)
  {
    var c := NewComponent(uid, name, etype);
    if etype.EntryDirectory? {
      Ical.NewDirectoryRoundTrip(uid, name, s.ext);
    } else {
      Ical.NewEntryRoundTrip(uid, name, s.ext);
    }
    if p != Root {
      Ical.RelinkedDecodes(c, None, s.disk[p.vdir].uid, s.ext);
    }
  }

  /** The state after a successful creation. */
  ghost predicate LeafWritten(s: State, t: State, n: Id, p: Id, name: string, c: Ical.Component) {
    && n.File? && n !in s.forest.parent && n.vdir !in s.disk && p in s.forest.kids && Readable(s, p)
    && t == State(Append(Spawn(s.forest, n, name), p, n),
          s.disk[n.vdir := Ical.Written(WithParentLink(s, c, p))], s.ext)
  }

  lemma LeafWrittenAgrees(s: State, t: State, p: Id, name: string, uid: string, etype: EntryType)
    requires Agreeing(s) && '/' !in name && name != ""
    requires LeafWritten(s, t, IdOfUid(uid), p, name, NewComponent(uid, name, etype)) && NodeIsDirectory(s, p)
    ensures NodesOnDisk(t) && Clean(t)
    ensures (forall v :: v in t.disk ==> AgreesAt(t, v)) <==> etype.EntryDirectory? || Ical.Storable(name)
    ensures etype.EntryFile? && !Ical.Storable(name) ==> Astray(t, VdirName(uid))
  {
    hide WellLinked, SiblingsDistinct, Acyclic, AgreesAt, CleanFile, NewComponent, WithParentLink, Ical.Written,
         Ical.Storable,
         NodeIsDirectory;
    NewFileAgrees(s, t, p, name, uid, etype);
    forall v | v in s.disk
      ensures AgreesAt(t, v) && CleanFile(t, v)
    {
      OldFileAgrees(s, t, p, name, uid, etype, v);
    }
  }

  lemma NewFileAgrees(s: State, t: State, p: Id, name: string, uid: string, etype: EntryType)
    requires Agreeing(s) && '/' !in name && name != ""
    requires LeafWritten(s, t, IdOfUid(uid), p, name, NewComponent(uid, name, etype))
    ensures CleanFile(t, VdirName(uid))
    ensures AgreesAt(t, VdirName(uid)) <==> etype.EntryDirectory? || Ical.Storable(name)
    ensures etype.EntryFile? && !Ical.Storable(name) ==> Astray(t, VdirName(uid))
  {
    hide WellLinked, SiblingsDistinct, Acyclic, Ical.Decode, Ical.UniqueX, Ical.IsDirectory, Ical.Storable;
    assert NewComponent(uid, name, etype).related == [];
    NewLink(s, NewComponent(uid, name, etype), p);
    NewDecodes(s, uid, name, etype, p);
  }

  lemma OldFileAgrees(s: State, t: State, p: Id, name: string, uid: string, etype: EntryType, v: string)
    requires Agreeing(s) && v in s.disk
    requires LeafWritten(s, t, IdOfUid(uid), p, name, NewComponent(uid, name, etype)) && NodeIsDirectory(s, p)
    ensures v in t.disk && AgreesAt(t, v) && CleanFile(t, v)
  {
    hide WellLinked, SiblingsDistinct, Acyclic, Ical.Decode, Ical.UniqueX, Ical.IsDirectory, Ical.Written,
         NewComponent, WithParentLink;
    assert p != Root ==> CleanFile(s, p.vdir) && Ical.IsDirectory(s.disk[p.vdir]);
    assert AgreesAt(s, v) && CleanFile(s, v);
    ParentIsNode(s.forest, File(v));
    StillAgrees(s, t, v);
  }

  /** A creation that finds no directory leaves its node behind, attached to nothing, and no load rebuilds it. */
  lemma FailedCreateLeavesNode(s: State, path: string, uid: string, etype: EntryType)
    requires Agreeing(s) && FreshUid(s, uid) && !TurnedDown(s, path) && !HasDirectory(s, path)
    ensures Create(s, path, uid, etype).0 == s.(forest := Spawn(s.forest, IdOfUid(uid), Paths.GetFilename(path)))
    ensures Inv(Create(s, path, uid, etype).0) && NoLoadRebuilds(Create(s, path, uid, etype).0)
  {
    hide Lookup, WellLinked, SiblingsDistinct, Acyclic, NoLoadRebuilds, DiskAgrees, AgreesAt, CleanFile;
    var (t, status) := Create(s, path, uid, etype);
    SpawnInv(s, IdOfUid(uid), Paths.GetFilename(path));
    SpawnPaths(s.forest, IdOfUid(uid), Paths.GetFilename(path));
    CreateStatus(s, path, uid, etype, status);
    LeftBehind(s, t, IdOfUid(uid), Paths.GetFilename(path));
  }

  /** What a successful creation leaves behind: one more leaf and its file. */
  lemma CreateWrites(s: State, path: string, uid: string, etype: EntryType, t: State)
    requires Inv(s) && FreshUid(s, uid) && Create(s, path, uid, etype) == (t, OK)
    ensures '/' in path && Paths.GetFilename(path) != "" && GetNode(s, Paths.GetParentPath(path).value).Some?
    ensures NodeIsDirectory(s, GetNode(s, Paths.GetParentPath(path).value).value)
    ensures LeafWritten(s, t, IdOfUid(uid), GetNode(s, Paths.GetParentPath(path).value).value, Paths.GetFilename(path),
                        NewComponent(uid, Paths.GetFilename(path), etype))
  {
    hide Lookup, WellLinked, SiblingsDistinct, Acyclic;
    var name, n := Paths.GetFilename(path), IdOfUid(uid);
    var s1 := s.(forest := Spawn(s.forest, n, name));
    SpawnInv(s, n, name);
    var p := GetNode(s1, Paths.GetParentPath(path).value).value;
    SpawnPaths(s.forest, n, name);
    MissingPathIsFree(s, path, p);
    CreatedLeaf(s, path, uid, etype, t, p);
  }

  /** Creating keeps the agreement exactly when no node is left behind and a file's name survives being stored. */
  lemma CreateAgrees(s: State, path: string, uid: string, etype: EntryType, t: State, status: Status)
    requires Agreeing(s) && FreshUid(s, uid) && Create(s, path, uid, etype) == (t, status)
    ensures Inv(t) && Clean(t)
    ensures DiskAgrees(t) <==> CreateFaithful(s, path, etype)
    ensures DiskAgrees(t) ==> Agreeing(t)
    ensures !CreateFaithful(s, path, etype) ==> NoLoadRebuilds(t)
  {
    hide Lookup, WellLinked, SiblingsDistinct, Acyclic, DiskAgrees, AgreesAt, CleanFile, TurnedDown, HasDirectory,
         LeafWritten, Astray, NoLoadRebuilds;
    CreateEffect(s, path, uid, etype, t, status);
    CreateStatus(s, path, uid, etype, status);
    if status == OK {
      CreateWrites(s, path, uid, etype, t);
      LeafWrittenAgrees(s, t, GetNode(s, Paths.GetParentPath(path).value).value, Paths.GetFilename(path), uid, etype);
      DiskAgreesIffEachFile(t);
      if !CreateFaithful(s, path, etype) {
        AstrayIsNeverRebuilt(t, VdirName(uid));
      }
    } else if status in {ENOENT, ENOTDIR} {
      LeftBehind(s, t, IdOfUid(uid), Paths.GetFilename(path));
    } else {
      DiskAgreesIffEachFile(s);
    }
  }

  /** A creation the handler turns down before it makes a node. */
  ghost predicate TurnedDown(s: State, path: string)
    requires Inv(s)
  {
    Paths.PathIsHidden(path) || GetNode(s, path).Some? || path == "" || path[0] != '/'
  }

  ghost predicate HasDirectory(s: State, path: string)
    requires Inv(s) && '/' in path
  {
    var p := GetNode(s, Paths.GetParentPath(path).value);
    p.Some? && NodeIsDirectory(s, p.value)
  }

  /** What decides beforehand whether a creation leaves memory and vdir in agreement: unless it is turned down,
      its directory must be there and a file's name must survive being stored. */
  ghost predicate CreateFaithful(s: State, path: string, etype: EntryType)
    requires Inv(s)
  {
    TurnedDown(s, path) || (HasDirectory(s, path) && (etype.EntryDirectory? || Ical.Storable(Paths.GetFilename(path))))
  }

  /** The outcome of a creation. */
  lemma CreateStatus(s: State, path: string, uid: string, etype: EntryType, status: Status)
    requires Inv(s) && FreshUid(s, uid) && Create(s, path, uid, etype).1 == status
    ensures status in {EPERM, EEXIST, EINVAL} <==> TurnedDown(s, path)
    ensures status == OK <==> !TurnedDown(s, path) && HasDirectory(s, path)
    ensures status in {EPERM, EEXIST, EINVAL, ENOENT, ENOTDIR, OK}
    ensures status == EPERM <==> path != "" && path[0] == '.'
    ensures status == EEXIST <==> GetNode(s, path).Some? && (path != "" ==> path[0] != '.')
    ensures status == ENOENT <==> !TurnedDown(s, path) && GetNode(s, Paths.GetParentPath(path).value) == None
  {
    hide Lookup, WellLinked, SiblingsDistinct, Acyclic;
    if !TurnedDown(s, path) {
      SpawnInv(s, IdOfUid(uid), Paths.GetFilename(path));
      SpawnPaths(s.forest, IdOfUid(uid), Paths.GetFilename(path));
    }
  }

  lemma CreatedLeaf(s: State, path: string, uid: string, etype: EntryType, t: State, p: Id)
    requires Inv(s) && FreshUid(s, uid) && Create(s, path, uid, etype) == (t, OK)
    requires Inv(s.(forest := Spawn(s.forest, IdOfUid(uid), Paths.GetFilename(path))))
    requires GetNode(s.(forest := Spawn(s.forest, IdOfUid(uid), Paths.GetFilename(path))),
                     Paths.GetParentPath(path).value) == Some(p)
    requires GetNode(s, Paths.GetParentPath(path).value) == Some(p)
    ensures LeafWritten(s, t, IdOfUid(uid), p, Paths.GetFilename(path),
            NewComponent(uid, Paths.GetFilename(path), etype))
    ensures NodeIsDirectory(s, p)
  {
    hide Lookup, WellLinked, SiblingsDistinct, Acyclic, AttachedOnDisk, Append, NewComponent, Ical.Written,
         Paths.Split;
  }

  /** A node without a file is something no load rebuilds. */
  lemma LeftBehind(s: State, t: State, n: Id, name: string)
    requires Agreeing(s) && n.File? && n !in s.forest.parent && n.vdir !in s.disk
    requires t == s.(forest := Spawn(s.forest, n, name))
    ensures Clean(t) && !DiskAgrees(t) && NoLoadRebuilds(t)
  {
    hide WellLinked, SiblingsDistinct, Acyclic, NoLoadRebuilds;
    UnreadableIsNeverRebuilt(t, n);
    forall v | v in t.disk
      ensures CleanFile(t, v)
    {
      assert CleanFile(s, v);
    }
    DiskParentsNodes(t.disk, t.ext);
    assert n in t.forest.parent && n !in DiskParents(t.disk, t.ext);
  }

  // ----- deleting -----

  /** Deleting a leaf always keeps the agreement. */
  lemma DeleteAgrees(s: State, n: Id)
    requires Agreeing(s) && Leaf(s, n) && n.File?
    ensures Agreeing(Delete(s, n))
  {
    hide WellLinked, SiblingsDistinct, Acyclic, Ical.Decode, Ical.UniqueX, Ical.IsDirectory;
    DeleteInv(s, n);
    var t := Delete(s, n);
    forall v | v in t.disk
      ensures AgreesAt(t, v) && CleanFile(t, v)
    {
      assert AgreesAt(s, v) && CleanFile(s, v);
      ParentIsNode(s.forest, File(v));
      DeleteKeepsNode(s.forest, n, File(v));
      StillAgrees(s, t, v);
    }
  }

  lemma DeleteKeepsNode(f: Forest, n: Id, m: Id)
    requires WellLinked(f) && n in f.parent && n != Root && n in f.kids && f.kids[n] == []
    requires m in f.parent && m != n && f.parent[m].Some?
    ensures var g := Drop(Detach(f, n), n);
            && m in g.parent && g.parent[m] == f.parent[m] && g.parent[m].value in g.parent
            && m in g.name && g.name[m] == f.name[m]
            && m in g.kids && (g.kids[m] != [] ==> f.kids[m] != [])
  {
    ParentHasKid(f, m);
  }

  // ----- renaming -----

  /** The parent link in the file of a renamed node: a move to the root leaves the old one in place. */
  lemma RenamedLink(s: State, n: Id, from: Id, to: Id, name: string)
    requires Clean(s) && n.File? && n.vdir in s.disk && Readable(s, from) && Readable(s, to)
    requires AgreesAt(s, n.vdir) && s.forest.parent[n] == Some(from)
    ensures var d := RenamedFile(s, n, from, to, name);
            && |Ical.ParentUids(d.related)| <= 1
            && match Ical.GetParentUid(d)
               case None => from == Root && to == Root
               case Some(uid) => IdOfUid(uid) == if to == Root then from else to
  {
    hide Ical.Decode, Ical.UniqueX, Ical.IsDirectory;
    assert CleanFile(s, n.vdir);
    var c := s.disk[n.vdir];
    Ical.RenamedKeeps(c, name);
    Ical.FirstParentIsHead(c.related);
    if to != Root {
      assert CleanFile(s, to.vdir);
      if from == Root {
        Ical.FirstParentLink(c.related, s.disk[to.vdir].uid);
      } else {
        assert CleanFile(s, from.vdir);
        SameVdirSameUid(s.disk[from.vdir].uid, Ical.GetParentUid(c).value);
        Ical.SingleParentLink(c.related, s.disk[from.vdir].uid, s.disk[to.vdir].uid);
      }
    }
  }

  lemma SameVdirSameUid(a: string, b: string)
    requires VdirName(a) == VdirName(b)
    ensures a == b
  {
    assert a == VdirName(a)[..|VdirName(a)| - 4] && b == VdirName(b)[..|VdirName(b)| - 4];
  }

  lemma RenamedDecodes(s: State, n: Id, from: Id, to: Id, name: string)
    requires n.File? && n.vdir in s.disk && Readable(s, from) && Readable(s, to)
    requires Ical.UniqueX(s.disk[n.vdir].xprops) && '/' !in name
    ensures var d := RenamedFile(s, n, from, to, name);
            && (Ical.Decode(d, s.ext) == Some(name) <==> Ical.RenameSafe(s.disk[n.vdir], name, s.ext))
            && (!Ical.RenameSafe(s.disk[n.vdir], name, s.ext) ==> Ical.Unrecoverable(Ical.Decode(d, s.ext), name))
            && (Ical.IsDirectory(d) <==> Ical.IsDirectory(s.disk[n.vdir]))
            && d.uid == s.disk[n.vdir].uid && Ical.UniqueX(d.xprops)
  {
    var c := Ical.Renamed(s.disk[n.vdir], name);
    Ical.RenamedKeeps(s.disk[n.vdir], name);
    Ical.RenamedRoundTrip(s.disk[n.vdir], name, s.ext);
    hide Ical.Decode, Ical.UniqueX, Ical.IsDirectory, Ical.RenameSafe, Ical.Renamed;
    if to != Root {
      Ical.RelinkedDecodes(c, if from == Root then None else Some(s.disk[from.vdir].uid), s.disk[to.vdir].uid, s.ext);
    }
  }

  /** Moving a node gives no other node than its new parent a first child. */
  lemma MoveKids(f: Forest, n: Id, p: Id, name: string, m: Id)
    requires WellLinked(f) && n in f.parent && n != Root && p in f.parent && m in f.kids
    requires WellLinked(SetName(f, n, name))
    ensures var g := Move(SetName(f, n, name), p, n);
            m in g.kids && (g.kids[m] != [] ==> m == p || f.kids[m] != [])
  {
    hide KidsPointBack, KidsOnce;
  }

  /** What decides whether a move under the given name and parent leaves memory and vdir in agreement. */
  ghost predicate MoveFaithful(s: State, n: Id, from: Id, to: Id, name: string)
    requires n.File? && n.vdir in s.disk
  {
    Ical.RenameSafe(s.disk[n.vdir], name, s.ext) && (to == Root ==> from == Root)
  }

  /** The state after a node was moved and its file rewritten. */
  ghost predicate NodeMoved(s: State, t: State, n: Id, from: Id, to: Id, name: string)
    requires WellLinked(s.forest)
  {
    && n.File? && n in s.forest.parent && n.vdir in s.disk && to in s.forest.parent && Readable(s, from)
          && Readable(s, to)
    && s.forest.parent[n] == Some(from) && n != to && '/' !in name
    && WellLinked(SetName(s.forest, n, name)) && Rehung(s.forest, t.forest, n, to, name)
    && t == State(Move(SetName(s.forest, n, name), to, n), s.disk[n.vdir := RenamedFile(s, n, from, to, name)], s.ext)
  }

  lemma NodeMovedAgrees(s: State, t: State, n: Id, from: Id, to: Id, name: string)
    requires Agreeing(s) && NodeMoved(s, t, n, from, to, name)
    requires to == Root || Ical.IsDirectory(s.disk[to.vdir])
    ensures NodesOnDisk(t) && Clean(t)
    ensures (forall v :: v in t.disk ==> AgreesAt(t, v)) <==> MoveFaithful(s, n, from, to, name)
    ensures !MoveFaithful(s, n, from, to, name) ==> Astray(t, n.vdir)
  {
    hide WellLinked, SiblingsDistinct, Acyclic, AgreesAt, CleanFile, MoveFaithful, RenamedFile, Move, SetName, Astray;
    MovedFileAgrees(s, t, n, from, to, name);
    forall v | v in s.disk && v != n.vdir
      ensures AgreesAt(t, v) && CleanFile(t, v)
    {
      UnmovedFileAgrees(s, t, n, from, to, name, v);
    }
  }

  lemma KeptDirectory(s: State, t: State, n: Id, from: Id, to: Id, name: string, v: string)
    requires Agreeing(s) && NodeMoved(s, t, n, from, to, name) && v in s.disk
    requires to == Root || Ical.IsDirectory(s.disk[to.vdir])
    ensures File(v) in s.forest.kids && File(v) in t.forest.kids
    ensures t.forest.kids[File(v)] != [] ==> Ical.IsDirectory(s.disk[v])
  {
    hide WellLinked, SiblingsDistinct, Acyclic, Ical.Decode, Ical.UniqueX, Ical.IsDirectory, Ical.RenameSafe,
         RenamedFile, Move, SetName;
    assert CleanFile(s, v);
    ParentIsNode(s.forest, File(v));
    MoveKids(s.forest, n, to, name, File(v));
  }

  lemma UnmovedFileAgrees(s: State, t: State, n: Id, from: Id, to: Id, name: string, v: string)
    requires Agreeing(s) && NodeMoved(s, t, n, from, to, name) && v in s.disk && v != n.vdir
    requires to == Root || Ical.IsDirectory(s.disk[to.vdir])
    ensures v in t.disk && AgreesAt(t, v) && CleanFile(t, v)
  {
    hide WellLinked, SiblingsDistinct, Acyclic, Ical.Decode, Ical.UniqueX, Ical.IsDirectory, RenamedFile, Move,
         SetName;
    assert AgreesAt(s, v) && CleanFile(s, v);
    KeptDirectory(s, t, n, from, to, name, v);
    ParentIsNode(s.forest, File(v));
    StillAgrees(s, t, v);
  }

  lemma MovedFileAgrees(s: State, t: State, n: Id, from: Id, to: Id, name: string)
    requires Agreeing(s) && NodeMoved(s, t, n, from, to, name)
    requires to == Root || Ical.IsDirectory(s.disk[to.vdir])
    ensures n.vdir in t.disk && CleanFile(t, n.vdir)
    ensures AgreesAt(t, n.vdir) <==> MoveFaithful(s, n, from, to, name)
    ensures !MoveFaithful(s, n, from, to, name) ==> Astray(t, n.vdir)
  {
    hide WellLinked, SiblingsDistinct, Acyclic, Ical.Decode, Ical.UniqueX, Ical.IsDirectory, Ical.RenameSafe,
         RenamedFile, Move, SetName;
    assert AgreesAt(s, n.vdir) && CleanFile(s, n.vdir);
    KeptDirectory(s, t, n, from, to, name, n.vdir);
    ParentIsNode(s.forest, n);
    RenamedLink(s, n, from, to, name);
    RenamedDecodes(s, n, from, to, name);
  }

  /** The kernel renames into directories only. */
  ghost predicate IntoDirectory(s: State, dst: string)
    requires Inv(s) && '/' in dst
  {
    var p := GetNode(s, Paths.GetParentPath(dst).value);
    p.Some? ==> NodeIsDirectory(s, p.value)
  }

  /** What decides beforehand whether a rename leaves memory and vdir in agreement: unless it is refused, the name
      must survive being stored, and the node must not move from a directory to the root, because that move does
      not write its file. */
  ghost predicate RenameFaithful(s: State, src: string, dst: string)
    requires Inv(s) && RenameAllowed(s, src, dst)
  {
    var n, p := GetNode(s, src).value, GetNode(s, Paths.GetParentPath(dst).value);
    RenameRefused(s, dst) || MoveFaithful(s, n, s.forest.parent[n].value, p.value, Paths.GetFilename(dst))
  }

  ghost predicate RenameRefused(s: State, dst: string)
    requires Inv(s) && '/' in dst
  {
    || GetNode(s, Paths.GetParentPath(dst).value).None?
    || (GetNode(s, dst).Some? && s.forest.kids[GetNode(s, dst).value] != [])
  }

  /** The outcome of a rename. */
  lemma RenameStatus(s: State, src: string, dst: string, status: Status)
    requires Inv(s) && RenameAllowed(s, src, dst) && Rename(s, src, dst).1 == status
    ensures status == OK <==> !RenameRefused(s, dst)
    ensures status == EINVAL <==> GetNode(s, Paths.GetParentPath(dst).value) == None
    ensures status == ENOTEMPTY <==> GetNode(s, dst).Some? && s.forest.kids[GetNode(s, dst).value] != []
    ensures status in {OK, EINVAL, ENOTEMPTY}
  {
    hide SiblingsDistinct, Acyclic, WellLinked, Lookup;
    match GetNode(s, dst)
    case None =>
    case Some(e) =>
      FoundHasDirectory(s, dst);
      FoundLeaf(s, dst);
      if s.forest.kids[e] == [] {
        RenameStillAllowed(s, src, dst, e);
        DeletePaths(s, e, dst);
      }
  }

  lemma DoRenameMoves(s: State, src: string, dst: string, t: State, n: Id, p: Id)
    requires Inv(s) && RenameAllowed(s, src, dst) && GetNode(s, dst) == None && DoRename(s, src, dst) == (t, OK)
    requires GetNode(s, src) == Some(n) && GetNode(s, Paths.GetParentPath(dst).value) == Some(p)
    ensures Inv(t) && s.forest.parent[n].Some?
    ensures NodeMoved(s, t, n, s.forest.parent[n].value, p, Paths.GetFilename(dst))
  {
    hide SiblingsDistinct, Acyclic, KidsPointBack, ParentsPointBack, KidsOnce, NameFree, Lookup, RenamedFile, Move;
    DoRenameInv(s, src, dst, t);
    ParentReadable(s, n);
    SetNameLinked(s.forest, n, Paths.GetFilename(dst));
    assert n != p by {
      assert Climb(s.forest.parent, p, 0) == Some(p);
    }
  }

  lemma DoRenameAgrees(s: State, src: string, dst: string, t: State, n: Id, p: Id)
    requires Agreeing(s) && RenameAllowed(s, src, dst) && GetNode(s, dst) == None && DoRename(s, src, dst) == (t, OK)
    requires GetNode(s, src) == Some(n) && GetNode(s, Paths.GetParentPath(dst).value) == Some(p)
    requires p == Root || Ical.IsDirectory(s.disk[p.vdir])
    ensures Inv(t) && Clean(t)
    ensures DiskAgrees(t) <==> MoveFaithful(s, n, s.forest.parent[n].value, p, Paths.GetFilename(dst))
    ensures DiskAgrees(t) ==> Agreeing(t)
    ensures !MoveFaithful(s, n, s.forest.parent[n].value, p, Paths.GetFilename(dst)) ==> NoLoadRebuilds(t)
  {
    hide SiblingsDistinct, Acyclic, WellLinked, Lookup, DoRename, RenameAllowed, NodeMoved, AgreesAt, CleanFile,
         MoveFaithful, DiskAgrees, Astray, NoLoadRebuilds;
    DoRenameMoves(s, src, dst, t, n, p);
    NodeMovedAgrees(s, t, n, s.forest.parent[n].value, p, Paths.GetFilename(dst));
    DiskAgreesIffEachFile(t);
    if !MoveFaithful(s, n, s.forest.parent[n].value, p, Paths.GetFilename(dst)) {
      AstrayIsNeverRebuilt(t, n.vdir);
    }
  }

  lemma TargetMarked(s: State, dst: string, p: Id)
    requires Inv(s) && Clean(s) && '/' in dst && IntoDirectory(s, dst)
    requires GetNode(s, Paths.GetParentPath(dst).value) == Some(p)
    ensures p == Root || Ical.IsDirectory(s.disk[p.vdir])
  {
    if p != Root {
      assert CleanFile(s, p.vdir);
    }
  }

  /** Renaming keeps the agreement exactly when it is faithful. */
  lemma RenameAgrees(s: State, src: string, dst: string, t: State, status: Status)
    requires Agreeing(s) && RenameAllowed(s, src, dst) && IntoDirectory(s, dst) && Rename(s, src, dst) == (t, status)
    ensures Inv(t) && Clean(t)
    ensures DiskAgrees(t) <==> RenameFaithful(s, src, dst)
    ensures DiskAgrees(t) ==> Agreeing(t)
    ensures !RenameFaithful(s, src, dst) ==> NoLoadRebuilds(t)
  {
    hide SiblingsDistinct, Acyclic, WellLinked, Lookup, AgreesAt, CleanFile, MoveFaithful, DiskAgrees, DoRename,
         IntoDirectory, NoLoadRebuilds;
    RenameEffect(s, src, dst, t, status);
    RenameStatus(s, src, dst, status);
    DiskAgreesIffEachFile(s);
    if status == OK {
      var n := GetNode(s, src).value;
      RenameOkHasTarget(s, src, dst, t);
      var p := GetNode(s, Paths.GetParentPath(dst).value).value;
      TargetMarked(s, dst, p);
      match GetNode(s, dst)
      case None => DoRenameAgrees(s, src, dst, t, n, p);
      case Some(e) =>
        FoundLeaf(s, dst);
        DeleteAgrees(s, e);
        RenameStillAllowed(s, src, dst, e);
        DeletePaths(s, e, dst);
        DoRenameAgrees(Delete(s, e), src, dst, t, n, p);
        SameDecision(s, e, n, p, Paths.GetFilename(dst));
    }
  }

  lemma SameDecision(s: State, e: Id, n: Id, p: Id, name: string)
    requires Agreeing(s) && Leaf(s, e) && e.File? && n.File? && n != e && n in s.forest.parent
             && s.forest.parent[n].Some?
    requires n.vdir in s.disk
    ensures n in Delete(s, e).forest.parent && Delete(s, e).forest.parent[n] == s.forest.parent[n]
    ensures n.vdir in Delete(s, e).disk
    ensures MoveFaithful(Delete(s, e), n, s.forest.parent[n].value, p, name)
       <==> MoveFaithful(s, n, s.forest.parent[n].value, p, name)
  {
    hide Ical.RenameSafe, SiblingsDistinct, Acyclic;
    DeleteKeepsNode(s.forest, e, n);
  }

  lemma RenameOkHasTarget(s: State, src: string, dst: string, t: State)
    requires Inv(s) && RenameAllowed(s, src, dst) && Rename(s, src, dst) == (t, OK)
    ensures GetNode(s, Paths.GetParentPath(dst).value).Some?
    ensures GetNode(s, dst).None? ==> DoRename(s, src, dst) == (t, OK)
    ensures GetNode(s, dst).Some? ==> s.forest.kids[GetNode(s, dst).value] == []
    ensures GetNode(s, dst).Some? ==> Inv(Delete(s, GetNode(s, dst).value))
                                      && GetNode(Delete(s, GetNode(s, dst).value), src) == GetNode(s, src)
                                      && DoRename(Delete(s, GetNode(s, dst).value), src, dst) == (t, OK)
  {
    hide SiblingsDistinct, Acyclic, WellLinked, Lookup;
    match GetNode(s, dst)
    case None =>
    case Some(e) =>
      FoundHasDirectory(s, dst);
      FoundLeaf(s, dst);
      RenameStillAllowed(s, src, dst, e);
      DeletePaths(s, e, dst);
  }

  // ----- writing -----

  lemma TextKeepsRest(c: Ical.Component, buf: string, offset: nat, ext: string)
    ensures var d := Content.WrittenText(c, buf, offset);
            && Ical.Decode(d, ext) == Ical.Decode(c, ext) && Ical.IsDirectory(d) == Ical.IsDirectory(c)
            && d.uid == c.uid && d.summary == c.summary && d.xprops == c.xprops && d.related == c.related
  {
  }

  lemma WriteAgrees(s: State, path: string, buf: string, offset: nat)
    requires Agreeing(s) && GetNode(s, path) != Some(Root)
    ensures Agreeing(Write(s, path, buf, offset).0)
  {
    hide SiblingsDistinct, Acyclic, WellLinked, Lookup, Content.WrittenText, Ical.Decode, Ical.IsDirectory,
         Ical.UniqueX;
    var t := Write(s, path, buf, offset).0;
    forall v | v in t.disk
      ensures AgreesAt(t, v) && CleanFile(t, v)
    {
      assert AgreesAt(s, v) && CleanFile(s, v);
      TextKeepsRest(s.disk[v], buf, offset, s.ext);
    }
  }

  // ----- notifications about the file system's own writes -----

  lemma OwnParent(s: State, v: string)
    requires Agreeing(s) && v in s.disk
    ensures AgreesAt(s, v) && s.forest.parent[File(v)] == Some(UpdateParent(s, v))
            && UpdateParent(s, v) in s.forest.parent
    ensures var p := UpdateParent(s, v); p == Root || (p.vdir in s.disk && Ical.IsDirectory(s.disk[p.vdir]))
  {
    hide Acyclic, SiblingsDistinct, KidsOnce, KidsPointBack, Ical.Decode, Ical.UniqueX, Ical.IsDirectory;
    assert AgreesAt(s, v) && CleanFile(s, v);
    ParentIsNode(s.forest, File(v));
    var p := UpdateParent(s, v);
    if p != Root {
      assert CleanFile(s, p.vdir);
    }
  }

  lemma AgreedNode(s: State, v: string)
    requires v in s.disk && AgreesAt(s, v)
    ensures File(v) in s.forest.parent && File(v) in s.forest.name
  {
  }

  /** A notification about a file the file system wrote itself meets the code's unchecked assumptions. */
  lemma NotificationAllowed(s: State, v: string)
    requires Agreeing(s) && v in s.disk
    ensures UpdateAllowed(s, v)
  {
    hide WellLinked, SiblingsDistinct, AgreesAt, CleanFile, Ical.IsDirectory, Ical.Decode, Ical.GetParentUid;
    OwnParent(s, v);
    AgreedNode(s, v);
    ParentNotBelow(s.forest.parent, File(v));
    assert Climb(s.forest.parent, File(v), 0) == Some(File(v));
  }

  /** Such a notification keeps memory and vdir in agreement. */
  lemma NotificationAgrees(s: State, v: string, t: State, status: Status)
    requires Agreeing(s) && v in s.disk && UpdateAllowed(s, v) && VdirUpdate(s, v) == (t, status)
    ensures Agreeing(t)
  {
    hide WellLinked, SiblingsDistinct, Acyclic, AgreesAt, CleanFile, VdirUpdate, UpdateAllowed, Lookup;
    OwnParent(s, v);
    AgreedNode(s, v);
    VdirUpdateStutters(s, v, t, status);
    InvForest(s);
    forall w | w in t.disk
      ensures AgreesAt(t, w) && CleanFile(t, w)
    {
      StillAgreesAt(s, t, v, w);
    }
  }

  lemma StillAgreesAt(s: State, t: State, v: string, w: string)
    requires Agreeing(s) && v in s.disk && w in s.disk
    requires File(v) in s.forest.parent && s.forest.parent[File(v)] == Some(UpdateParent(s, v))
    requires t.disk == s.disk && t.ext == s.ext && t.forest.parent == s.forest.parent && t.forest.name == s.forest.name
    requires UpdateParent(s, v) in s.forest.kids
    requires t.forest.kids == s.forest.kids[UpdateParent(s, v)
                                 := Without(s.forest.kids[UpdateParent(s, v)], File(v)) + [File(v)]]
    ensures AgreesAt(t, w) && CleanFile(t, w)
  {
    hide Acyclic, SiblingsDistinct, KidsOnce, KidsPointBack, Ical.Decode, Ical.UniqueX, Ical.IsDirectory;
    assert AgreesAt(s, w) && CleanFile(s, w);
    ParentIsNode(s.forest, File(v));
    ParentIsNode(s.forest, File(w));
    StillAgrees(s, t, w);
  }

  // ----- all steps -----

  /** The steps a mounted file system makes itself, as the kernel asks for them, and the notifications
      about the files it has written. */
  ghost predicate OwnStep(s: State, step: Step)
    requires Inv(s)
  {
    && Allowed(s, step)
    && (step.RenameStep? ==> IntoDirectory(s, step.dst))
    && (step.VdirStep? ==> step.vdir in s.disk && step.component == s.disk[step.vdir])
  }

  ghost predicate Faithful(s: State, step: Step)
    requires Inv(s) && OwnStep(s, step)
  {
    match step
    case CreateStep(path, uid, etype) => CreateFaithful(s, path, etype)
    case RenameStep(src, dst) => RenameFaithful(s, src, dst)
    case _ => true
  }

  /** After a faithful step from an agreeing state every load rebuilds the tree, and the state agrees again;
      after any other step no load does. */
  lemma StepReloads(s: State, step: Step)
    requires Agreeing(s) && Inv(s) && OwnStep(s, step)
    ensures Inv(Apply(s, step))
    ensures ReloadAgrees(Apply(s, step)) <==> Faithful(s, step)
    ensures Faithful(s, step) ==> Agreeing(Apply(s, step))
    ensures !Faithful(s, step) ==> NoLoadRebuilds(Apply(s, step))
  {
    hide NoLoadRebuilds, SiblingsDistinct, Acyclic, WellLinked, Lookup, AgreesAt, CleanFile, DiskAgrees,
         ReloadAgrees, Agreeing,
         NodesOnDisk,
         AttachedOnDisk, Clean, CreateFaithful, RenameFaithful;
    AgreeingInv(s);
    StepKeepsInv(s, step);
    var t := Apply(s, step);
    InvForest(t);
    ReloadIffDiskAgrees(t);
    match step
    case CreateStep(path, uid, etype) =>
      CreateAgrees(s, path, uid, etype, t, Create(s, path, uid, etype).1);
    case RenameStep(src, dst) =>
      RenameAgrees(s, src, dst, t, Rename(s, src, dst).1);
    case UnlinkStep(path) =>
      UnlinkAgrees(s, path);
    case RmdirStep(path) =>
      RmdirAgrees(s, path);
    case WriteStep(path, buf, offset) =>
      WriteAgrees(s, path, buf, offset);
      AgreeingReloads(t);
    case VdirStep(v, c) =>
      assert Edited(s, v, c) == s;
      CleanHasIcs(s, v);
      NotificationAgrees(s, v, t, VdirUpdate(s, v).1);
      AgreeingReloads(t);
  }

  lemma CleanHasIcs(s: State, v: string)
    requires Agreeing(s) && v in s.disk
    ensures HasIcs(v)
  {
    assert CleanFile(s, v);
    VdirNameHasIcs(s.disk[v].uid);
  }

  lemma AgreeingInv(s: State)
    requires Agreeing(s)
    ensures Inv(s)
  {
  }

  lemma InvForest(s: State)
    requires Inv(s)
    ensures WellLinked(s.forest) && SiblingsDistinct(s.forest)
  {
  }

  lemma UnlinkAgrees(s: State, path: string)
    requires Agreeing(s)
    ensures Agreeing(Unlink(s, path).0) && ReloadAgrees(Unlink(s, path).0)
  {
    hide SiblingsDistinct, Acyclic, WellLinked, Lookup, AgreesAt, CleanFile, ReloadAgrees;
    FoundLeaf(s, path);
    if Unlink(s, path).1 == OK {
      DeleteAgrees(s, GetNode(s, path).value);
    }
    AgreeingReloads(Unlink(s, path).0);
  }

  lemma RmdirAgrees(s: State, path: string)
    requires Agreeing(s) && GetNode(s, path) != Some(Root)
    ensures Agreeing(Rmdir(s, path).0) && ReloadAgrees(Rmdir(s, path).0)
  {
    hide SiblingsDistinct, Acyclic, WellLinked, Lookup, AgreesAt, CleanFile, ReloadAgrees;
    FoundLeaf(s, path);
    if Rmdir(s, path).1 == OK {
      DeleteAgrees(s, GetNode(s, path).value);
    }
    AgreeingReloads(Rmdir(s, path).0);
  }

  /** Every step is one of the file system's own and faithful. */
  ghost predicate FaithfulRun(s: State, steps: seq<Step>)
    requires Inv(s)
    decreases |steps|
  {
    steps == [] || (
      OwnStep(s, steps[0]) && Faithful(s, steps[0]) &&
      (StepKeepsInv(s, steps[0]); FaithfulRun(Apply(s, steps[0]), steps[1..])))
  }

  lemma {:induction false} FaithfulRunAgrees(s: State, steps: seq<Step>)
    requires Agreeing(s) && FaithfulRun(s, steps)
    ensures AllowedRun(s, steps) && Agreeing(Run(s, steps))
    decreases |steps|
  {
    hide SiblingsDistinct, Acyclic, WellLinked, Lookup, AgreesAt, CleanFile, ReloadAgrees, NodesOnDisk,
         AttachedOnDisk, Clean,
         Faithful, Apply, Allowed;
    if steps != [] {
      StepReloads(s, steps[0]);
      FaithfulRunAgrees(Apply(s, steps[0]), steps[1..]);
    }
  }

  lemma EmptyAgrees(ext: string)
    ensures Agreeing(State(EMPTY, map[], ext))
  {
    EmptyInv(map[], ext);
  }

  /** From an empty vdir, after every run of faithful steps, every load of the files rebuilds the tree in memory. */
  lemma RunReloads(ext: string, steps: seq<Step>)
    requires Inv(State(EMPTY, map[], ext)) && FaithfulRun(State(EMPTY, map[], ext), steps)
    ensures AllowedRun(State(EMPTY, map[], ext), steps)
    ensures ReloadAgrees(Run(State(EMPTY, map[], ext), steps))
  {
    hide ReloadAgrees, Agreeing;
    EmptyAgrees(ext);
    FaithfulRunAgrees(State(EMPTY, map[], ext), steps);
    AgreeingReloads(Run(State(EMPTY, map[], ext), steps));
  }
}
