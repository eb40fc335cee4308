/**
 What the handlers, a notification and a load leave in the vdir files, and the
 names a load gives, told property by property.
 */
module FileContents {
  import opened Wrappers
  import opened Seqs
  import opened Forests
  import opened PathMaps
  import opened FreeNames
  import opened Model
  import opened Handlers
  import opened Loads
  import opened Reloads
  import opened Runs
  import opened Agreement
  import opened ForeignFiles
  import Content
  import Ical
  import Paths
  import Sizes

  // ----- creating -----

  /** A new node is the last child of its directory and has no children. */
  lemma CreateOrder(s: State, path: string, uid: string, etype: EntryType, t: State)
    requires Inv(s) && FreshUid(s, uid) && Create(s, path, uid, etype) == (t, OK)
    ensures '/' in path && GetNode(s, Paths.GetParentPath(path).value).Some?
    ensures var p, n := GetNode(s, Paths.GetParentPath(path).value).value, File(uid + ".ics");
            && p in s.forest.kids && n !in s.forest.kids
            && t.forest.kids == s.forest.kids[p := s.forest.kids[p] + [n]][n := []]
            && t.forest.parent == s.forest.parent[n := Some(p)]
            && t.forest.name == s.forest.name[n := Paths.GetFilename(path)]
  {
    hide SiblingsDistinct, Acyclic, KidsPointBack, ParentsPointBack, KidsOnce, GetNode, Create, NewComponent,
         NodeIsDirectory, Ical.Written, WithParentLink, AttachedOnDisk, Paths.GetFilename, Paths.GetParentPath,
         RootOnTop;
    CreateWrites(s, path, uid, etype, t);
  }

  /** The parent links of a new file in the directory `p`. */
  ghost function LinkTo(s: State, p: Id): seq<Ical.Relation>
    requires Readable(s, p)
  {
    if p == Root then [] else [Ical.Relation(Some(Ical.Parent), s.disk[p.vdir].uid)]
  }

  lemma NewFileLinked(s: State, c: Ical.Component, p: Id)
    requires Readable(s, p) && c.related == [] && (c.description.Some? ==> c.description.value == "")
    ensures Ical.Written(WithParentLink(s, c, p)) == Ical.Component(c.uid, c.summary, None, c.xprops, LinkTo(s, p))
  {
    if p != Root {
      assert [] + LinkTo(s, p) == LinkTo(s, p);
    }
  }

  /** The vdir file of a new directory. */
  lemma CreatedDirectory(s: State, path: string, uid: string, t: State)
    requires Inv(s) && FreshUid(s, uid) && Create(s, path, uid, EntryDirectory) == (t, OK)
    ensures '/' in path && GetNode(s, Paths.GetParentPath(path).value).Some?
    ensures t.disk == s.disk[uid + ".ics" := Ical.Component(uid, Some(Paths.GetFilename(path)), None,
                        [Ical.XProp("X-CALDAVFS-ISDIRECTORY", "YES")],
                        LinkTo(s, GetNode(s, Paths.GetParentPath(path).value).value))]
  {
    hide Inv, GetNode, Create, Ical.NewDirectory, NodeIsDirectory, Ical.Written, WithParentLink, LinkTo;
    CreateWrites(s, path, uid, EntryDirectory, t);
    Ical.NewDirectoryMeans(uid, Paths.GetFilename(path));
    NewFileLinked(s, Ical.NewDirectory(uid, Paths.GetFilename(path)),
                  GetNode(s, Paths.GetParentPath(path).value).value);
  }

  /** The vdir file of a new note: its name is cut at the last dot into a summary and an extension. */
  lemma CreatedFile(s: State, path: string, uid: string, t: State, base: string, ext: string)
    requires Inv(s) && FreshUid(s, uid) && Create(s, path, uid, EntryFile) == (t, OK)
    requires '.' !in ext && Paths.GetFilename(path) == base + "." + ext
    ensures '/' in path && GetNode(s, Paths.GetParentPath(path).value).Some?
    ensures t.disk == s.disk[uid + ".ics" := Ical.Component(uid, if base == "" then None else Some(base), None,
                        [Ical.XProp("X-CALDAVFS-FILEEXT", if ext == "" then "." else ext)],
                        LinkTo(s, GetNode(s, Paths.GetParentPath(path).value).value))]
  {
    hide Inv, GetNode, Create, Ical.NewEntry, NodeIsDirectory, Ical.Written, WithParentLink, LinkTo;
    CreateWrites(s, path, uid, EntryFile, t);
    NoSlashIn(base, ext);
    Ical.NewEntryMeans(uid, base, ext);
    NewFileLinked(s, Ical.NewEntry(uid, base + "." + ext), GetNode(s, Paths.GetParentPath(path).value).value);
  }

  lemma NoSlashIn(base: string, ext: string)
    requires '/' !in base + "." + ext
    ensures '/' !in base && '/' !in ext
  {
    assert forall i :: 0 <= i < |base| ==> base[i] == (base + "." + ext)[i];
    assert forall i :: 0 <= i < |ext| ==> ext[i] == (base + "." + ext)[|base| + 1 + i];
  }

  /** The vdir file of a new note without extension. */
  lemma CreatedPlainFile(s: State, path: string, uid: string, t: State)
    requires Inv(s) && FreshUid(s, uid) && Create(s, path, uid, EntryFile) == (t, OK)
    requires '.' !in Paths.GetFilename(path)
    ensures '/' in path && GetNode(s, Paths.GetParentPath(path).value).Some?
    ensures t.disk == s.disk[uid + ".ics" := Ical.Component(uid, Some(Paths.GetFilename(path)), None,
                        [Ical.XProp("X-CALDAVFS-FILEEXT", ".")],
                        LinkTo(s, GetNode(s, Paths.GetParentPath(path).value).value))]
  {
    hide Inv, GetNode, Create, Ical.NewEntry, NodeIsDirectory, Ical.Written, WithParentLink, LinkTo;
    CreateWrites(s, path, uid, EntryFile, t);
    Ical.NewEntryMeans(uid, Paths.GetFilename(path), "");
    NewFileLinked(s, Ical.NewEntry(uid, Paths.GetFilename(path)), GetNode(s, Paths.GetParentPath(path).value).value);
  }

  /** The new file is empty. */
  lemma CreatedFileIsEmpty(s: State, path: string, uid: string, t: State)
    requires Inv(s) && FreshUid(s, uid) && Create(s, path, uid, EntryFile) == (t, OK)
    ensures Sizes.TextSize(t.disk, File(uid + ".ics")) == 0
  {
    hide Inv, GetNode, Create, NodeIsDirectory, NewComponent, Ical.Written, LeafWritten;
    CreateWrites(s, path, uid, EntryFile, t);
    NewFileHasNoText(s, t, GetNode(s, Paths.GetParentPath(path).value).value, Paths.GetFilename(path), uid);
  }

  lemma NewFileHasNoText(s: State, t: State, p: Id, name: string, uid: string)
    requires LeafWritten(s, t, IdOfUid(uid), p, name, NewComponent(uid, name, EntryFile))
    ensures Sizes.TextSize(t.disk, File(uid + ".ics")) == 0
  {
    hide Ical.SetX, Append, Spawn, Paths.GetFileExtension, Paths.WithoutFileExtension;
    assert t.disk[uid + ".ics"].description == None;
  }

  // ----- renaming -----

  /** What a rename does to the properties of the file: the first extension property is replaced if the new name
      has a dot, and no other property, uid or text changes. */
  ghost predicate RenamedTo(c: Ical.Component, d: Ical.Component, name: string) {
    && d.uid == c.uid && Content.Text(d) == Content.Text(c)
    && (forall key :: key != "X-CALDAVFS-FILEEXT" ==> Ical.GetX(d.xprops, key) == Ical.GetX(c.xprops, key))
    && ('.' !in name ==> d.xprops == c.xprops && d.summary == if name == "" then None else Some(name))
    && (forall base, ext :: name == base + "." + ext && '.' !in ext ==>
          && Ical.Replaced(c.xprops, d.xprops, "X-CALDAVFS-FILEEXT", if ext == "" then "." else ext)
          && d.summary == if Ical.DirectoryFile(c) then Some(name) else if base == "" then None else Some(base))
  }

  lemma RenamedIsRenamed(c: Ical.Component, name: string)
    requires '/' !in name
    ensures RenamedTo(c, Ical.Renamed(c, name), name) && Ical.Renamed(c, name).related == c.related
  {
    hide Ical.Renamed, Ical.Replaced, Ical.DirectoryFile, Ical.GetX;
    if '.' !in name {
      Ical.RenamedWithoutDot(c, name);
    } else {
      var i := Paths.LastIndex(name, '.').value;
      assert name == name[..i] + "." + name[i + 1..];
      Ical.RenamedMeans(c, name[..i], name[i + 1..]);
    }
    forall base, ext | name == base + "." + ext && '.' !in ext
      ensures var d := Ical.Renamed(c, name);
              && Ical.Replaced(c.xprops, d.xprops, "X-CALDAVFS-FILEEXT", if ext == "" then "." else ext)
              && d.summary == if Ical.DirectoryFile(c) then Some(name) else if base == "" then None else Some(base)
    {
      NoSlashIn(base, ext);
      Ical.RenamedMeans(c, base, ext);
    }
  }

  /** The parent links and the other relations after a rename: a move into a directory drops the links to the old
      parent and appends one to the new; a move to the top leaves all of them. */
  ghost predicate Relinked(s: State, c: Ical.Component, d: Ical.Component, from: Id, to: Id)
    requires Readable(s, from) && Readable(s, to)
  {
    && Ical.OtherRelations(d.related) == Ical.OtherRelations(c.related)
    && (to == Root ==> d.related == c.related)
    && (to != Root && from == Root ==>
          Ical.ParentUids(d.related) == Ical.ParentUids(c.related) + [s.disk[to.vdir].uid])
    && (to != Root && from != Root ==>
          Ical.ParentUids(d.related)
            == Ical.Except(Ical.ParentUids(c.related), s.disk[from.vdir].uid) + [s.disk[to.vdir].uid])
  }

  lemma WrittenKeeps(c: Ical.Component, e: Ical.Component, related: seq<Ical.Relation>, name: string)
    requires RenamedTo(c, e, name)
    ensures RenamedTo(c, Ical.Written(e.(related := related)), name)
    ensures Ical.Written(e.(related := related)).related == related
  {
    hide Ical.Replaced, Ical.DirectoryFile, Ical.GetX;
  }

  lemma RenamedFileMeans(s: State, n: Id, from: Id, to: Id, name: string)
    requires n.File? && n.vdir in s.disk && Readable(s, from) && Readable(s, to) && '/' !in name
    ensures RenamedTo(s.disk[n.vdir], RenamedFile(s, n, from, to, name), name)
    ensures Relinked(s, s.disk[n.vdir], RenamedFile(s, n, from, to, name), from, to)
  {
    hide RenamedTo, Ical.Written, Ical.Renamed, Ical.ParentUids, Ical.OtherRelations, Ical.WithParent,
         Ical.WithoutParent;
    var c := s.disk[n.vdir];
    var e := Ical.Renamed(c, name);
    RenamedIsRenamed(c, name);
    if to != Root {
      if from == Root {
        Ical.AppendParent(c.related, s.disk[to.vdir].uid);
      } else {
        Ical.RelinkParent(c.related, s.disk[from.vdir].uid, s.disk[to.vdir].uid);
      }
      WrittenKeeps(c, e, WithParentLink(s, Unlinked(s, e, from), to).related, name);
    }
  }

  lemma MovedContents(s: State, t: State, n: Id, from: Id, to: Id, name: string)
    requires WellLinked(s.forest) && NodeMoved(s, t, n, from, to, name)
    ensures n.File? && n.vdir in s.disk && n.vdir in t.disk && Readable(s, from) && Readable(s, to)
    ensures RenamedTo(s.disk[n.vdir], t.disk[n.vdir], name)
    ensures Relinked(s, s.disk[n.vdir], t.disk[n.vdir], from, to)
  {
    hide WellLinked, Move, SetName, RenamedTo, Relinked, RenamedFile, Rehung;
    RenamedFileMeans(s, n, from, to, name);
  }

  /** After a rename the file of the node has its old uid, text, X- properties and relations but for the extension,
      the summary and the link to the directory it is now in. */
  lemma RenameContents(s: State, src: string, dst: string, t: State)
    requires Inv(s) && RenameAllowed(s, src, dst) && Rename(s, src, dst) == (t, OK)
    ensures GetNode(s, Paths.GetParentPath(dst).value).Some?
    ensures var n, to := GetNode(s, src).value, GetNode(s, Paths.GetParentPath(dst).value).value;
            && n.File? && n.vdir in s.disk && n.vdir in t.disk && s.forest.parent[n].Some?
            && Readable(s, s.forest.parent[n].value)
            && RenamedTo(s.disk[n.vdir], t.disk[n.vdir], Paths.GetFilename(dst))
            && Relinked(s, s.disk[n.vdir], t.disk[n.vdir], s.forest.parent[n].value, to)
  {
    hide SiblingsDistinct, Acyclic, WellLinked, Lookup, DoRename, NodeMoved, RenamedTo, Relinked, Rename,
         Paths.GetFilename, Paths.GetParentPath;
    var n, name := GetNode(s, src).value, Paths.GetFilename(dst);
    RenameOkHasTarget(s, src, dst, t);
    var to := GetNode(s, Paths.GetParentPath(dst).value).value;
    match GetNode(s, dst)
    case None =>
      DoRenameMoves(s, src, dst, t, n, to);
      MovedContents(s, t, n, s.forest.parent[n].value, to, name);
    case Some(e) =>
      FoundLeaf(s, dst);
      RenameStillAllowed(s, src, dst, e);
      DeletePaths(s, e, dst);
      DoRenameMoves(Delete(s, e), src, dst, t, n, to);
      DeletedBefore(s, e, n);
      MovedContents(Delete(s, e), t, n, s.forest.parent[n].value, to, name);
      RelinkedSame(Delete(s, e), s, s.disk[n.vdir], t.disk[n.vdir], s.forest.parent[n].value, to);
  }

  lemma DeletedBefore(s: State, e: Id, n: Id)
    requires Inv(s) && Leaf(s, e) && e.File? && n != e && n in s.forest.parent && s.forest.parent[n].Some?
    ensures n in Delete(s, e).forest.parent && Delete(s, e).forest.parent[n] == s.forest.parent[n]
    ensures forall v :: v in Delete(s, e).disk ==> v in s.disk && Delete(s, e).disk[v] == s.disk[v]
  {
    hide SiblingsDistinct, Acyclic;
    DeleteKeepsNode(s.forest, e, n);
  }

  lemma RelinkedSame(s: State, t: State, c: Ical.Component, d: Ical.Component, from: Id, to: Id)
    requires Readable(s, from) && Readable(s, to) && Relinked(s, c, d, from, to)
    requires forall v :: v in s.disk ==> v in t.disk && t.disk[v] == s.disk[v]
    ensures Readable(t, from) && Readable(t, to) && Relinked(t, c, d, from, to)
  {
  }

  /** The order of children after a rename: the node is the last child of its directory, its old siblings and all
      other children keep their order. */
  lemma RenameOrder(s: State, src: string, dst: string, t: State, before: seq<Id>, after: seq<Id>)
    requires Inv(s) && RenameAllowed(s, src, dst) && Rename(s, src, dst) == (t, OK) && GetNode(s, dst) == None
    requires s.forest.parent[GetNode(s, src).value].Some?
    requires s.forest.parent[GetNode(s, src).value].value in s.forest.kids
    requires s.forest.kids[s.forest.parent[GetNode(s, src).value].value] == before + [GetNode(s, src).value] + after
    ensures GetNode(s, Paths.GetParentPath(dst).value).Some?
    ensures var n, to := GetNode(s, src).value, GetNode(s, Paths.GetParentPath(dst).value).value;
            var from := s.forest.parent[n].value;
            && to in s.forest.kids
            && t.forest.kids == if from == to then s.forest.kids[to := before + after + [n]]
                                else s.forest.kids[from := before + after][to := s.forest.kids[to] + [n]]
  {
    hide SiblingsDistinct, Acyclic, KidsPointBack, ParentsPointBack, KidsOnce, Lookup, DoRename, Move, SetName,
         RenamedFile, Paths.GetFilename, Paths.GetParentPath;
    var n, name := GetNode(s, src).value, Paths.GetFilename(dst);
    RenameOkHasTarget(s, src, dst, t);
    var to := GetNode(s, Paths.GetParentPath(dst).value).value;
    DoRenameMoves(s, src, dst, t, n, to);
    NamedOnly(s.forest, n, name);
    MoveOrder(SetName(s.forest, n, name), to, n, before, after);
  }

  lemma NamedOnly(f: Forest, n: Id, name: string)
    ensures SetName(f, n, name).kids == f.kids && SetName(f, n, name).parent == f.parent
  {
  }

  // ----- writing -----

  /** The outcome of a write: a C string is cut at the offset and extended by the buffer, and nothing else in the file,
      no other file and no node changes. */
  lemma WriteOutcome(s: State, path: string, buf: string, offset: nat, t: State, status: Status)
    requires Inv(s) && GetNode(s, path) != Some(Root) && Write(s, path, buf, offset) == (t, status)
    ensures status == EPERM <==> path != "" && path[0] == '.'
    ensures status == ENONET <==> (path != "" ==> path[0] != '.') && GetNode(s, path) == None
    ensures status in {OK, EPERM, ENONET} && t.forest == s.forest && t.disk.Keys == s.disk.Keys
    ensures forall v :: v in s.disk && (status != OK || GetNode(s, path) != Some(File(v))) ==> t.disk[v] == s.disk[v]
    ensures status == OK ==>
              var v := GetNode(s, path).value.vdir;
              && v in s.disk && v in t.disk
              && t.disk[v] == s.disk[v].(description := t.disk[v].description)
              && ('\0' !in Content.Text(s.disk[v]) && '\0' !in buf ==>
                    Content.Text(t.disk[v])
                      == (if offset <= |Content.Text(s.disk[v])| then Content.Text(s.disk[v])[..offset]
                          else Content.Text(s.disk[v])) + buf)
  {
    hide WellLinked, SiblingsDistinct, Acyclic, Lookup, Content.WrittenText, Content.Text;
    if status == OK {
      var c := s.disk[GetNode(s, path).value.vdir];
      TextWritten(c, buf, offset);
    }
  }

  lemma TextWritten(c: Ical.Component, buf: string, offset: nat)
    ensures var d := Content.WrittenText(c, buf, offset);
            && d == c.(description := d.description)
            && ('\0' !in Content.Text(c) && '\0' !in buf ==>
                  Content.Text(d)
                    == (if offset <= |Content.Text(c)| then Content.Text(c)[..offset] else Content.Text(c)) + buf)
  {
    assert Content.Text(c)[..|Content.Text(c)|] == Content.Text(c);
  }

  // ----- directory marks -----

  /** A mark leaves the uid, the summary, the text, the relations and all other X- properties alone. */
  ghost predicate MarkedFrom(c: Ical.Component, d: Ical.Component) {
    && d.uid == c.uid && d.summary == c.summary && Content.Text(d) == Content.Text(c) && d.related == c.related
    && forall key :: key != "X-CALDAVFS-ISDIRECTORY" ==> Ical.GetX(d.xprops, key) == Ical.GetX(c.xprops, key)
  }

  lemma MarkedOnceMeans(c: Ical.Component)
    ensures MarkedFrom(c, MarkedOnce(c))
    ensures Ical.DirectoryFile(c) ==> MarkedOnce(c) == c
    ensures !Ical.DirectoryFile(c) ==> Ical.Replaced(c.xprops, MarkedOnce(c).xprops, "X-CALDAVFS-ISDIRECTORY", "YES")
    ensures Ical.UniqueX(c.xprops) ==> Ical.DirectoryFile(MarkedOnce(c)) && Ical.UniqueX(MarkedOnce(c).xprops)
  {
    hide Ical.DirectoryFile, Ical.Replaced, Ical.UniqueX, Ical.GetX, Ical.SetX, Ical.AnyChild;
    Ical.IsDirectoryMeans(c);
    Ical.MarkMeans(c);
    Ical.IsDirectoryMeans(MarkedOnce(c));
    if Ical.UniqueX(c.xprops) {
      Ical.SetXUnique(c.xprops, Ical.IS_DIRECTORY_PROPERTY, "YES");
    }
  }

  lemma {:induction false} MarkedTimesMeans(c: Ical.Component, k: nat)
    ensures MarkedFrom(c, MarkedTimes(c, k))
    ensures k == 0 || Ical.DirectoryFile(c) ==> MarkedTimes(c, k) == c
    ensures k > 0 && Ical.UniqueX(c.xprops) ==> Ical.DirectoryFile(MarkedTimes(c, k))
    ensures Ical.UniqueX(c.xprops) ==> Ical.UniqueX(MarkedTimes(c, k).xprops)
  {
    hide Ical.DirectoryFile, Ical.UniqueX, Ical.GetX, MarkedOnce;
    if k > 0 {
      MarkedTimesMeans(c, k - 1);
      MarkedOnceMeans(MarkedTimes(c, k - 1));
    }
  }

  ghost predicate FirstLink(related: seq<Ical.Relation>, i: nat)
    requires i < |related|
  {
    related[i].reltype == Some(Ical.Parent) && forall j :: 0 <= j < i ==> related[j].reltype != Some(Ical.Parent)
  }

  /** The first PARENT relation of the component has the uid of the file `v`. */
  ghost predicate NamesParent(c: Ical.Component, v: string) {
    exists i :: 0 <= i < |c.related| && FirstLink(c.related, i) && c.related[i].uid + ".ics" == v
  }

  /** Some readable file names the file `v` as its parent. */
  ghost predicate NamedAsParent(disk: Disk, ext: string, v: string) {
    exists w :: Loadable(disk, ext, w) && NamesParent(disk[w], v)
  }

  lemma NamesParentMeans(c: Ical.Component, v: string)
    ensures NamesParent(c, v) <==> Ical.GetParentUid(c).Some? && VdirName(Ical.GetParentUid(c).value) == v
  {
    Ical.FirstParentIsFirst(c.related);
    if Ical.GetParentUid(c).Some? {
      var uid := Ical.GetParentUid(c).value;
      var k :| 0 <= k < |c.related| && c.related[k] == Ical.Relation(Some(Ical.Parent), uid)
               && forall j :: 0 <= j < k ==> c.related[j].reltype != Some(Ical.Parent);
      assert FirstLink(c.related, k);
      assert forall i :: 0 <= i < |c.related| && FirstLink(c.related, i) ==> i == k;
    }
  }

  lemma NamesInLoad(disk: Disk, ext: string, w: string, v: string)
    requires Loadable(disk, ext, w)
    ensures w in disk && File(w) in DiskParents(disk, ext)
    ensures DiskParents(disk, ext)[File(w)] == Some(File(v)) <==> Loadable(disk, ext, v) && NamesParent(disk[w], v)
  {
    hide HasIcs, DiskParents, NamesParent, Ical.Decode, Ical.GetParentUid;
    DiskParentOf(disk, ext, w);
    NamesParentMeans(disk[w], v);
  }

  lemma NamedInLoad(disk: Disk, ext: string, v: string)
    ensures FilesNaming(disk, ext, v) != {} <==> Loadable(disk, ext, v) && NamedAsParent(disk, ext, v)
  {
    hide DiskParents, NamesParent, HasIcs, Ical.Decode;
    forall w | Loadable(disk, ext, w)
      ensures w in disk && File(w) in DiskParents(disk, ext)
      ensures DiskParents(disk, ext)[File(w)] == Some(File(v)) <==> Loadable(disk, ext, v) && NamesParent(disk[w], v)
    {
      NamesInLoad(disk, ext, w, v);
    }
    if Loadable(disk, ext, v) && NamedAsParent(disk, ext, v) {
      var w :| Loadable(disk, ext, w) && NamesParent(disk[w], v);
      assert w in FilesNaming(disk, ext, v);
    }
  }

  /** What a load does to the files: only readable files that another readable one names as its parent change, and
      those get the directory mark and keep everything else. */
  lemma LoadContents(disk: Disk, ext: string, order: seq<string>)
    requires LoadOrder(disk, ext, order)
    ensures Load(disk, ext, order).disk.Keys == disk.Keys
    ensures forall v :: v in disk ==> MarkedFrom(disk[v], Load(disk, ext, order).disk[v])
    ensures forall v :: v in disk && !(Loadable(disk, ext, v) && NamedAsParent(disk, ext, v)) ==>
              Load(disk, ext, order).disk[v] == disk[v]
    ensures forall v :: v in disk && Ical.DirectoryFile(disk[v]) ==> Load(disk, ext, order).disk[v] == disk[v]
    ensures forall v :: v in disk && Ical.UniqueX(disk[v].xprops)
                        && Loadable(disk, ext, v) && NamedAsParent(disk, ext, v) ==>
              Ical.DirectoryFile(Load(disk, ext, order).disk[v])
  {
    hide Load, FilesNaming, MarkedFrom, MarkedTimes, NamedAsParent, Loadable, Ical.DirectoryFile, Ical.UniqueX,
         WellLinked, SiblingsDistinct;
    LoadIsOrderIndependent(disk, ext, order);
    forall v | v in disk
      ensures var d := Load(disk, ext, order).disk[v];
              && MarkedFrom(disk[v], d)
              && (!(Loadable(disk, ext, v) && NamedAsParent(disk, ext, v)) ==> d == disk[v])
              && (Ical.DirectoryFile(disk[v]) ==> d == disk[v])
              && (Ical.UniqueX(disk[v].xprops) && Loadable(disk, ext, v) && NamedAsParent(disk, ext, v) ==>
                    Ical.DirectoryFile(d))
    {
      LoadMarks(disk, ext, order, v);
      NamedInLoad(disk, ext, v);
      MarkedTimesMeans(disk[v], |FilesNaming(disk, ext, v)|);
    }
  }

  /** What a handled notification does to the files: the file of the named parent gets the directory mark, unless it
      is a directory's already, and keeps everything else; no other file changes, the one it is about included. */
  lemma NotifiedContents(s: State, v: string, t: State, status: Status)
    requires Inv(s) && UpdateAllowed(s, v) && VdirUpdate(s, v) == (t, status)
    ensures t.disk.Keys == s.disk.Keys && (status == OK ==> v in s.disk)
    ensures forall w :: w in s.disk && (status != OK || w == v || !NamesParent(s.disk[v], w)) ==> t.disk[w] == s.disk[w]
    ensures forall w :: status == OK && NamesParent(s.disk[v], w) ==>
              && w in s.disk && w != v && MarkedFrom(s.disk[w], t.disk[w])
              && (Ical.DirectoryFile(s.disk[w]) ==> t.disk[w] == s.disk[w])
              && (!Ical.DirectoryFile(s.disk[w]) ==>
                    Ical.Replaced(s.disk[w].xprops, t.disk[w].xprops, "X-CALDAVFS-ISDIRECTORY", "YES"))
  {
    hide WellLinked, SiblingsDistinct, Acyclic, MarkedFrom, NamesParent, Ical.Replaced, Ical.DirectoryFile,
         MoveFuseNode, Ical.Decode, Ical.GetParentUid, Ical.IsDirectory;
    forall w
      ensures v in s.disk ==>
                (NamesParent(s.disk[v], w) <==> UpdateParent(s, v) == File(w) && Ical.GetParentUid(s.disk[v]).Some?)
    {
      if v in s.disk {
        NamesParentMeans(s.disk[v], w);
      }
    }
    if status == OK && UpdateParent(s, v) != Root {
      MarkedOnceMeans(s.disk[UpdateParent(s, v).vdir]);
    }
  }

  /** A handled notification calls the node by the summary and the extension of its file, numbered to be free. */
  lemma NotifiedName(s: State, v: string, t: State)
    requires Inv(s) && UpdateAllowed(s, v) && VdirUpdate(s, v) == (t, OK)
    ensures v in s.disk && File(v) in t.forest.name && s.forest.name.Keys == s.forest.parent.Keys
    ensures exists name :: Ical.NamedByFile(s.disk[v], s.ext, Some(name))
                           && FirstFreeBeside(s.forest, UpdateParent(s, v), File(v), name, t.forest.name[File(v)])
  {
    hide SiblingsDistinct, Acyclic, KidsPointBack, ParentsPointBack, KidsOnce, Ical.Decode, Ical.NamedByFile,
         FirstFreeBeside, VdirUpdate;
    VdirUpdateEffect(s, v, t, OK);
    Ical.DecodeMeans(s.disk[v], s.ext);
  }

  // ----- the names a load gives -----

  /** No other readable file of the same parent decodes to the name of `v` or to one that numbering makes of it. */
  ghost predicate Unreached(start: State, v: string) {
    v in start.disk && File(v) in start.forest.name &&
    var nodes := start.forest.parent.Keys;
    forall w :: w != v && w in start.disk && File(w) in start.forest.name && File(w) in nodes
                && Target(start.disk, nodes, w) == Target(start.disk, nodes, v) ==>
      !NumberedFrom(start.forest.name[File(w)], start.forest.name[File(v)])
  }

  lemma UnreachedIsFree(start: State, placed: seq<string>, s: State, v: string, p: Id)
    requires ReadyToPlace(start, placed) && s == PlaceAll(start, placed) && v !in placed
    requires File(v) in start.forest.parent && Unreached(start, v)
    requires Target(start.disk, start.forest.parent.Keys, v) == Some(p)
    ensures s.forest.name.Keys == s.forest.parent.Keys && NameFree(s.forest, p, start.forest.name[File(v)])
  {
    hide KidsPointBack, ParentsPointBack, KidsOnce, SiblingsDistinct, SameLinks, Place, PlaceAll, NumberedFrom, Target;
    forall c | c in s.forest.parent && s.forest.parent[c] == Some(p)
      ensures s.forest.name[c] != start.forest.name[File(v)]
    {
      assert c.File? && c.vdir in placed && c.vdir != v;
      PlacedName(start, placed, c.vdir);
    }
  }

  /** A file that no other can be numbered into keeps its decoded name in a load. */
  lemma {:induction false} UnreachedKeepsName(start: State, order: seq<string>, v: string)
    requires ReadyToPlace(start, order) && v in order && Unreached(start, v)
    ensures File(v) in PlaceAll(start, order).forest.name
    ensures PlaceAll(start, order).forest.name[File(v)] == start.forest.name[File(v)]
    decreases |order|
  {
    hide WellLinked, SiblingsDistinct, SameLinks, Place, PlacedSoFar, ReadyToPlace, NodesOnDisk, Unreached, Target,
         NumberedFrom;
    var init, w := order[..|order| - 1], order[|order| - 1];
    ReadyButOne(start, order);
    var s := PlaceAll(start, init);
    PlacedStep(start, init, s, w);
    PlacedForest(start, init, s);
    assert order == init + [w];
    if w == v {
      PlacedName(start, init, v);
      LastKeepsName(start, init, s, v);
    } else {
      UnreachedKeepsName(start, init, v);
      PlaceForest(s, w);
    }
  }

  lemma LastKeepsName(start: State, placed: seq<string>, s: State, v: string)
    requires ReadyToPlace(start, placed) && s == PlaceAll(start, placed) && v !in placed
    requires File(v) in start.forest.parent && Unreached(start, v)
    requires WellLinked(s.forest) && SiblingsDistinct(s.forest) && NodesOnDisk(s)
    requires File(v) in s.forest.parent && s.forest.parent[File(v)] == None
    ensures File(v) in Place(s, v).forest.name && Place(s, v).forest.name[File(v)] == start.forest.name[File(v)]
  {
    hide KidsPointBack, ParentsPointBack, KidsOnce, SiblingsDistinct, Place, PlaceAll, NumberedFrom, Target,
         Unreached, NameFree, ReadyToPlace;
    PlacedName(start, placed, v);
    SameNodes(start, placed, s);
    UnreachedOnDisk(start, v);
    TargetSame(start.disk, s.disk, start.forest.parent.Keys, v);
    var p := Target(s.disk, s.forest.parent.Keys, v);
    if p.Some? {
      UnreachedIsFree(start, placed, s, v, p.value);
    }
    PlaceKeepsName(s, v);
  }

  lemma UnreachedOnDisk(start: State, v: string)
    requires Unreached(start, v)
    ensures v in start.disk
  {
  }

  /** A load reads a file when ".ics" comes in its name and the component has a summary. */
  lemma LoadableMeans(disk: Disk, ext: string, v: string)
    ensures Loadable(disk, ext, v)
       <==> v in disk && disk[v].summary.Some? && exists before, after :: v == before + ".ics" + after
  {
    hide HasIcs, Ical.IsDirectory, Ical.StoredExtension;
    HasIcsMeans(v);
  }

  /** No other file of the same parent decodes to the name of `v` or to one that numbering makes of it; so it is when
      `v` is alone under its parent. */
  ghost predicate Undisputed(disk: Disk, ext: string, v: string) {
    File(v) in DiskParents(disk, ext) &&
    forall w :: w != v && Loadable(disk, ext, w) && File(w) in DiskParents(disk, ext)
                && DiskParents(disk, ext)[File(w)] == DiskParents(disk, ext)[File(v)] ==>
      !NumberedFrom(DecodedName(disk, ext, File(w)), DecodedName(disk, ext, File(v)))
  }

  lemma UndisputedIsUnreached(disk: Disk, ext: string, order: seq<string>, v: string)
    requires LoadOrder(disk, ext, order) && Loadable(disk, ext, v) && Undisputed(disk, ext, v)
    ensures Unreached(BeforePlacing(disk, ext), v)
  {
    hide HasIcs, Ical.Decode, NumberedFrom;
    var start := BeforePlacing(disk, ext);
    assert start.forest.parent.Keys == {Root} + LoadableIds(disk, ext, disk.Keys);
    forall w | w != v && w in start.disk && File(w) in start.forest.name && File(w) in start.forest.parent
               && Target(disk, start.forest.parent.Keys, w) == Target(disk, start.forest.parent.Keys, v)
      ensures !NumberedFrom(start.forest.name[File(w)], start.forest.name[File(v)])
    {
      assert Loadable(disk, ext, w);
      assert DiskParents(disk, ext)[File(w)] == DiskParents(disk, ext)[File(v)];
    }
  }

  lemma ReadName(disk: Disk, ext: string, v: string)
    requires Loadable(disk, ext, v)
    ensures v in disk && File(v) in BeforePlacing(disk, ext).forest.name
    ensures BeforePlacing(disk, ext).forest.name[File(v)] == DecodedName(disk, ext, File(v))
    ensures Ical.NamedByFile(disk[v], ext, Some(DecodedName(disk, ext, File(v))))
  {
    hide HasIcs, Ical.Decode, Ical.NamedByFile;
    Ical.DecodeMeans(disk[v], ext);
  }

  /** A load calls a file by its summary and its extension, the default one where none is stored, unless the name has
      to be numbered to be free. */
  lemma LoadedNameMeans(disk: Disk, ext: string, order: seq<string>, v: string)
    requires LoadOrder(disk, ext, order) && Loadable(disk, ext, v)
    ensures v in disk && File(v) in Load(disk, ext, order).forest.name
    ensures exists name :: Ical.NamedByFile(disk[v], ext, Some(name))
                           && NumberedFrom(name, Load(disk, ext, order).forest.name[File(v)])
    ensures Undisputed(disk, ext, v) ==>
              Ical.NamedByFile(disk[v], ext, Some(Load(disk, ext, order).forest.name[File(v)]))
  {
    hide Loadable, PlaceAll, ReadyToPlace, BeforePlacing, LoadOrder, NumberedFrom, Undisputed, Unreached, DecodedName,
         Ical.NamedByFile, WellLinked, SiblingsDistinct;
    LoadReady(disk, ext, order);
    ReadName(disk, ext, v);
    PlacedName(BeforePlacing(disk, ext), order, v);
    if Undisputed(disk, ext, v) {
      UndisputedIsUnreached(disk, ext, order, v);
      InOrder(disk, ext, order, v);
      UnreachedKeepsName(BeforePlacing(disk, ext), order, v);
    }
  }

  lemma InOrder(disk: Disk, ext: string, order: seq<string>, v: string)
    requires LoadOrder(disk, ext, order)
    ensures v in order <==> Loadable(disk, ext, v)
  {
  }

  /** What numbering makes of a name with an extension and of one without. */
  lemma NumberedMeans(base: string, ext: string, name: string)
    requires '.' !in ext
    ensures NumberedFrom(base + "." + ext, name) <==> exists k: nat :: NumberedAs(base, ext, k, name)
    ensures '.' !in base ==> (NumberedFrom(base, name) <==> exists k: nat :: NumberedPlain(base, k, name))
  {
    hide Candidate, NumberedAs, NumberedPlain;
    forall k: nat
      ensures name == Candidate(base + "." + ext, k) <==> NumberedAs(base, ext, k, name)
      ensures '.' !in base ==> (name == Candidate(base, k) <==> NumberedPlain(base, k, name))
    {
      CandidateSpelled(base, ext, k, name);
    }
  }

  /** The only file of its parent, with a summary and no extension stored, gets the default extension. */
  lemma DefaultExtensionUsed(disk: Disk, ext: string, order: seq<string>, v: string)
    requires LoadOrder(disk, ext, order) && Loadable(disk, ext, v) && Undisputed(disk, ext, v)
    requires !Ical.DirectoryFile(disk[v]) && Ical.NoValue(disk[v].xprops, "X-CALDAVFS-FILEEXT")
    ensures File(v) in Load(disk, ext, order).forest.name && disk[v].summary.Some?
    ensures Load(disk, ext, order).forest.name[File(v)]
         == if ext == "" then disk[v].summary.value else disk[v].summary.value + "." + ext
  {
    hide Load, Loadable, LoadOrder, Undisputed, NumberedFrom, Ical.DirectoryFile, Ical.NoValue, Ical.FirstValue;
    LoadedNameMeans(disk, ext, order, v);
  }
}
