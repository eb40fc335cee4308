/**
 The state behind the file system and its handlers as functions.
 A state is the note tree together with the vdir: a map from file names to
 components. Each handler runs under one lock, so it is one step.
 */
module Model {
  import opened Wrappers
  import opened Forests
  import opened PathMaps
  import opened FreeNames
  import Content
  import Ical
  import Paths

  datatype Status = OK | EPERM | ENOENT | EIO | EEXIST | ENOTDIR | EISDIR | EINVAL | ENOTEMPTY | ENONET

  type Disk = map<string, Ical.Component>

  /** `ext` is the default extension of the mount option. */
  datatype State = State(forest: Forest, disk: Disk, ext: string)

  /** Files in the vdir are called uid.ics. */
  function VdirName(uid: string): string {
    uid + ".ics"
  }

  function IdOfUid(uid: string): Id {
    File(VdirName(uid))
  }

  // ----- the invariant of every run -----

  /** Every node that hangs in the tree has its file. */
  ghost predicate AttachedOnDisk(s: State) {
    forall n :: n in s.forest.parent && s.forest.parent[n].Some? ==> n.File? && n.vdir in s.disk
  }

  ghost predicate Inv(s: State) {
    WellLinked(s.forest) && SiblingsDistinct(s.forest) && Acyclic(s.forest.parent) && AttachedOnDisk(s)
  }

  // ----- finding nodes -----

  predicate Readable(s: State, n: Id) {
    n == Root || (n.File? && n.vdir in s.disk)
  }

  lemma {:induction false} LookupAttached(f: Forest, n: Id, segments: seq<string>)
    requires WellLinked(f) && n in f.kids && Lookup(f, n, segments).Some?
    ensures var m := Lookup(f, n, segments).value;
            m in f.parent && (m == n || f.parent[m].Some?)
    decreases |segments|
  {
    if segments != [] {
      KidsAreNodes(f, n);
      LookupAttached(f, ChildNamed(f, f.kids[n], segments[0]).value, segments[1..]);
    }
  }

  /** get_node_by_path */
  function GetNode(s: State, path: string): (r: Option<Id>)
    requires Inv(s)
    ensures r.Some? ==> r.value in s.forest.parent && Readable(s, r.value)
    ensures r.Some? && r.value != Root ==> s.forest.parent[r.value].Some?
  {
    var r := Lookup(s.forest, Root, Paths.Split(path));
    if r.Some? then LookupAttached(s.forest, Root, Paths.Split(path)); r else r
  }

  predicate NodeIsDirectory(s: State, n: Id)
    requires Readable(s, n) && n in s.forest.kids
  {
    n == Root || s.forest.kids[n] != [] || Ical.IsDirectory(s.disk[n.vdir])
  }

  // ----- creating -----

  /** A uid that no node and no file has yet. */
  ghost predicate FreshUid(s: State, uid: string) {
    IdOfUid(uid) !in s.forest.parent && VdirName(uid) !in s.disk
  }

  lemma SpawnInv(s: State, i: Id, name: string)
    requires Inv(s) && i !in s.forest.parent
    ensures Inv(s.(forest := Spawn(s.forest, i, name)))
  {
    SpawnLinked(s.forest, i, name);
    SpawnAcyclic(s.forest.parent, i);
  }

  function WithParentLink(s: State, c: Ical.Component, p: Id): Ical.Component
    requires Readable(s, p)
  {
    if p == Root then c else c.(related := Ical.WithParent(c.related, s.disk[p.vdir].uid))
  }

  /** insert_fuse_node_to_path: on an error the new node stays behind, attached to nothing. */
  function InsertNode(s: State, path: string, n: Id, c: Ical.Component): (State, Status)
    requires Inv(s) && '/' in path && n.File?
  {
    match GetNode(s, Paths.GetParentPath(path).value)
    case None => (s, ENOENT)
    case Some(p) =>
      if !NodeIsDirectory(s, p) then (s, ENOTDIR)
      else
        (s.(forest := Append(s.forest, p, n),
            disk := s.disk[n.vdir := Ical.Written(WithParentLink(s, c, p))]), OK)
  }

  datatype EntryType = EntryDirectory | EntryFile

  function NewComponent(uid: string, name: string, etype: EntryType): Ical.Component {
    if etype.EntryDirectory? then Ical.NewDirectory(uid, name) else Ical.NewEntry(uid, name)
  }

  /** create_entry_from_fuse */
  function CreateEntry(s: State, path: string, uid: string, etype: EntryType): (State, Status)
    requires Inv(s) && FreshUid(s, uid)
  {
    if path == "" || path[0] != '/' then (s, EINVAL)
    else
      var name := Paths.GetFilename(path);
      SpawnInv(s, IdOfUid(uid), name);
      InsertNode(s.(forest := Spawn(s.forest, IdOfUid(uid), name)), path, IdOfUid(uid), NewComponent(uid, name, etype))
  }

  /** fuse_create and fuse_mkdir */
  function Create(s: State, path: string, uid: string, etype: EntryType): (State, Status)
    requires Inv(s) && FreshUid(s, uid)
  {
    if Paths.PathIsHidden(path) then (s, EPERM)
    else if GetNode(s, path).Some? then (s, EEXIST)
    else CreateEntry(s, path, uid, etype)
  }

  // ----- deleting -----

  /** A node that can be deleted: in the tree, not the root, without children. */
  ghost predicate Leaf(s: State, n: Id) {
    n in s.forest.parent && s.forest.parent[n].Some? && n in s.forest.kids && s.forest.kids[n] == []
  }

  /** delete_vdir_entry */
  function Delete(s: State, n: Id): State
    requires WellLinked(s.forest) && Leaf(s, n) && n.File?
  {
    s.(forest := Drop(Detach(s.forest, n), n), disk := s.disk - {n.vdir})
  }

  /** fuse_unlink */
  function Unlink(s: State, path: string): (State, Status)
    requires Inv(s)
  {
    match GetNode(s, path)
    case None => (s, ENOENT)
    case Some(n) => if NodeIsDirectory(s, n) then (s, EISDIR) else (Delete(s, n), OK)
  }

  /** fuse_rmdir; the root of a mount is never removed. */
  function Rmdir(s: State, path: string): (State, Status)
    requires Inv(s) && GetNode(s, path) != Some(Root)
  {
    match GetNode(s, path)
    case None => (s, ENOENT)
    case Some(n) =>
      if !NodeIsDirectory(s, n) then (s, ENOTDIR)
      else if s.forest.kids[n] != [] then (s, ENOTEMPTY)
      else (Delete(s, n), OK)
  }

  // ----- renaming -----

  /** What the kernel has checked before it asks for a rename: the source exists and is not the root,
      the target is another path and not the root, and its directory is not inside the source. */
  ghost predicate RenameAllowed(s: State, src: string, dst: string)
    requires Inv(s)
  {
    && GetNode(s, src).Some? && GetNode(s, src).value != Root
    && '/' in dst && Paths.GetFilename(dst) != ""
    && GetNode(s, dst) != GetNode(s, src) && GetNode(s, dst) != Some(Root)
    && var p := GetNode(s, Paths.GetParentPath(dst).value);
       p.Some? ==> !Above(s.forest.parent, GetNode(s, src).value, p.value)
  }

  /** The component of the renamed node once the link to its old parent is gone; only in memory so far. */
  function Unlinked(s: State, c: Ical.Component, p: Id): Ical.Component
    requires Readable(s, p)
  {
    if p == Root then c else c.(related := Ical.WithoutParent(c.related, s.disk[p.vdir].uid))
  }

  /** What the vdir file of the renamed node holds at the end: a move to the root writes no relation. */
  function RenamedFile(s: State, n: Id, from: Id, to: Id, name: string): Ical.Component
    requires n.File? && n.vdir in s.disk && Readable(s, from) && Readable(s, to)
  {
    var c := Ical.Renamed(s.disk[n.vdir], name);
    if to == Root then c else Ical.Written(WithParentLink(s, Unlinked(s, c, from), to))
  }

  lemma ParentReadable(s: State, n: Id)
    requires Inv(s) && n in s.forest.parent && s.forest.parent[n].Some?
    requires exists path :: GetNode(s, path) == Some(n)
    ensures Readable(s, s.forest.parent[n].value)
  {
    var path :| GetNode(s, path) == Some(n);
    var segments := Paths.Split(path);
    LookupIffNamed(s.forest, n, segments);
    var p := s.forest.parent[n].value;
    LookupIffNamed(s.forest, p, segments[..|segments| - 1]);
    LookupAttached(s.forest, Root, segments[..|segments| - 1]);
  }

  /** do_agenda_rename */
  function DoRename(s: State, src: string, dst: string): (State, Status)
    requires Inv(s) && '/' in dst
    requires GetNode(s, src).Some? && GetNode(s, src).value != Root
  {
    match GetNode(s, Paths.GetParentPath(dst).value)
    case None => (s, EINVAL)
    case Some(p) =>
      var n := GetNode(s, src).value;
      var name := Paths.GetFilename(dst);
      ParentReadable(s, n);
      SetNameLinked(s.forest, n, name);
      (s.(forest := Move(SetName(s.forest, n, name), p, n),
          disk := s.disk[n.vdir := RenamedFile(s, n, s.forest.parent[n].value, p, name)]), OK)
  }

  lemma ParentHasKid(f: Forest, n: Id)
    requires WellLinked(f) && n in f.parent && f.parent[n].Some?
    ensures f.parent[n].value in f.kids && f.kids[f.parent[n].value] != []
  {
    assert n in f.kids[f.parent[n].value];
  }

  lemma DeleteInv(s: State, n: Id)
    requires Inv(s) && Leaf(s, n) && n.File?
    ensures Inv(Delete(s, n))
    ensures LeafAdded(Delete(s, n).forest, s.forest, n, s.forest.parent[n].value, s.forest.name[n])
  {
    hide Acyclic;
    var f := s.forest;
    var p := f.parent[n].value;
    DetachLinked(f, n);
    var g := Detach(f, n);
    ParentHasKid(f, n);
    assert g.kids[n] == [];
    DropLinked(g, n);
    ReparentAcyclic(f.parent, n, None);
    DropAcyclic(f.parent[n := None], n);
    forall m | m in f.parent && m != n
      ensures f.parent[m] != Some(n)
    {
      if f.parent[m].Some? {
        ParentHasKid(f, m);
      }
    }
  }

  /** Deleting the leaf at one path leaves every other path as it was. */
  lemma DeletePaths(s: State, n: Id, path: string)
    requires Inv(s) && Leaf(s, n) && n.File? && GetNode(s, path) == Some(n)
    ensures Inv(Delete(s, n)) && GetNode(Delete(s, n), path) == None
    ensures forall q :: Lookup(Delete(s, n).forest, Root, q)
                        == if q == Paths.Split(path) then None else Lookup(s.forest, Root, q)
  {
    hide WellLinked, SiblingsDistinct, Acyclic, Lookup, LeafAdded, Delete, Paths.Split;
    DeleteInv(s, n);
    var segments := Paths.Split(path);
    LookupIffNamed(s.forest, n, segments);
    var p, name := s.forest.parent[n].value, s.forest.name[n];
    var dir := segments[..|segments| - 1];
    assert dir + [name] == segments;
    ParentHasKid(s.forest, n);
    LeafNamed(Delete(s, n).forest, s.forest, n, p, name, p, dir);
    LeafRefinesPaths(Delete(s, n).forest, s.forest, n, p, name, dir);
  }

  lemma FoundLeaf(s: State, path: string)
    requires Inv(s)
    ensures var n := GetNode(s, path);
            n.Some? && n.value != Root && s.forest.kids[n.value] == [] ==> Leaf(s, n.value)
  {
  }

  /** fuse_rename: a childless node at the target is deleted first. */
  function Rename(s: State, src: string, dst: string): (State, Status)
    requires Inv(s) && RenameAllowed(s, src, dst)
  {
    match GetNode(s, dst)
    case None => DoRename(s, src, dst)
    case Some(e) =>
      if s.forest.kids[e] != [] then (s, ENOTEMPTY)
      else
        DeletePaths(s, e, dst);
        DoRename(Delete(s, e), src, dst)
  }

  // ----- changes made to the vdir from outside -----

  /** upsert_fuse_node */
  function Upsert(f: Forest, n: Id, name: string): Forest {
    if n in f.parent then SetName(f, n, name) else Spawn(f, n, name)
  }

  /** Marks the component as a directory and writes it, unless it already is one. */
  function MarkOnDisk(disk: Disk, v: string): Disk
    requires v in disk
  {
    if Ical.IsDirectory(disk[v]) then disk else disk[v := Ical.Written(Ical.MarkAsDirectory(disk[v]))]
  }

  lemma UpsertLinked(f: Forest, n: Id, name: string)
    requires WellLinked(f) && n != Root
    ensures WellLinked(Upsert(f, n, name)) && n in Upsert(f, n, name).parent
    ensures Upsert(f, n, name).parent == if n in f.parent then f.parent else f.parent[n := None]
  {
    if n in f.parent {
      SetNameLinked(f, n, name);
    } else {
      SpawnLinked(f, n, name);
    }
  }

  /** What the code relies on when the changed file names a parent: the parent is indexed, has its file,
      and is not the changed node or below it. */
  ghost predicate UpdateAllowed(s: State, v: string)
    requires WellLinked(s.forest)
  {
    v in s.disk && Ical.Decode(s.disk[v], s.ext).Some? && Ical.GetParentUid(s.disk[v]).Some? ==>
      var p := IdOfUid(Ical.GetParentUid(s.disk[v]).value);
      p in s.forest.parent && p.vdir in s.disk && p != File(v) && !Above(s.forest.parent, File(v), p)
  }

  /** update_or_create_fuse_entry_from_vdir for the vdir file `v` */
  function VdirUpdate(s: State, v: string): (State, Status)
    requires WellLinked(s.forest) && UpdateAllowed(s, v)
  {
    if v !in s.disk then (s, EIO)
    else
      match Ical.Decode(s.disk[v], s.ext)
      case None => (s, EIO)
      case Some(name) =>
        UpsertLinked(s.forest, File(v), name);
        var f := Upsert(s.forest, File(v), name);
        match Ical.GetParentUid(s.disk[v])
        case None => (s.(forest := MoveFuseNode(f, Root, File(v))), OK)
        case Some(uid) =>
          (s.(forest := MoveFuseNode(f, IdOfUid(uid), File(v)), disk := MarkOnDisk(s.disk, VdirName(uid))), OK)
  }

  // ----- writing -----

  /** fuse_write; the root has no text. The source reports a missing node as ENONET. */
  function Write(s: State, path: string, buf: string, offset: nat): (State, Status)
    requires Inv(s) && GetNode(s, path) != Some(Root)
  {
    if Paths.PathIsHidden(path) then (s, EPERM)
    else
      match GetNode(s, path)
      case None => (s, ENONET)
      case Some(n) => (s.(disk := s.disk[n.vdir := Content.WrittenText(s.disk[n.vdir], buf, offset)]), OK)
  }
}
