/**
 The file system itself: the store, the vdir files, and the handlers of
 main.c working on them step by step through fuse_node.c. Every handler is
 proved to take the abstract state where the function of Model takes it.
 */
module AgendaFs {
  import opened Wrappers
  import opened Forests
  import opened PathMaps
  import opened TreeNodes
  import opened NodeMaps
  import opened Seqs
  import opened Loads
  import opened Runs
  import opened Stores
  import opened Model
  import opened IcalComponents
  import Content
  import HashMaps
  import Ical
  import Paths
  import Sizes

  class FileSystem {
    const store: Store
    const ext: string
    var disk: Disk

    ghost predicate Valid()
      reads this, store, store.Repr, store.index, store.index.Repr
    {
      store.Valid() && this !in store.Repr && this !in store.index.Repr && store !in store.index.Repr
    }

    /** The state as a value. */
    ghost function Now(): State
      reads this`disk, store`view
    {
      State(store.view.forest, disk, ext)
    }

    /** load_root_node_tree; readdir lists the files of the vdir in any order. */
    constructor (disk: Disk, ext: string, listing: seq<string>)
      requires Distinct(listing) && |listing| < HashMaps.LOAD_UNIT && forall v :: v in listing <==> v in disk
      ensures Valid() && fresh(store) && fresh(store.Repr) && fresh(store.index.Repr)
      ensures exists order :: LoadOrder(disk, ext, order) && Now() == Load(disk, ext, order)
    {
      hide Store.TreeValid, Indexes, HashMaps.HashMap.Valid, Spawned, LoadOrder, Load;
      store := new Store();
      this.disk, this.ext := disk, ext;
      new;
      ReadEntries(listing);
      var _ := PlaceEntries();
    }

    /** The first loop of the load. */
    method ReadEntries(listing: seq<string>)
      requires Valid() && Now().forest == EMPTY && store.index.nBuckets == 0
      requires Distinct(listing) && |listing| < HashMaps.LOAD_UNIT && forall v :: v in listing <==> v in disk
      modifies this, store, store.Repr, store.index.Repr
      ensures Valid() && fresh(store.Repr - old(store.Repr)) && fresh(store.index.Repr - old(store.index.Repr))
      ensures Now() == BeforePlacing(old(disk), ext)
    {
      hide Store.TreeValid, Indexes, HashMaps.HashMap.Valid, Spawn, Spawned, Loadable, EMPTY;
      var i := 0;
      ghost var read: set<string> := {};
      NothingRead(disk, ext);
      while i < |listing|
        invariant 0 <= i <= |listing| && disk == old(disk)
        invariant forall v :: v in read <==> v in listing[..i]
        invariant Valid() && fresh(store.Repr - old(store.Repr)) && fresh(store.index.Repr - old(store.index.Repr))
        invariant Now().forest == Spawned(disk, ext, read) && store.index.nBuckets <= i
      {
        var v := listing[i];
        assert v !in listing[..i] && listing[..i + 1] == listing[..i] + [v];
        SpawnedStep(disk, ext, read, v);
        ReadEntry(v, read);
        read := read + {v};
        i := i + 1;
      }
      assert listing[..|listing|] == listing;
      assert read == disk.Keys;
    }

    method ReadEntry(v: string, ghost read: set<string>)
      requires Valid() && v in disk && v !in read && Now().forest == Spawned(disk, ext, read)
      requires store.index.nBuckets < HashMaps.LOAD_UNIT
      modifies store, store.Repr, store.index.Repr
      ensures Valid() && fresh(store.Repr - old(store.Repr)) && fresh(store.index.Repr - old(store.index.Repr))
      ensures Now().forest == Spawned(disk, ext, read + {v})
      ensures store.index.nBuckets <= old(store.index.nBuckets) + 1
    {
      hide Store.TreeValid, Indexes, HashMaps.HashMap.Valid, Spawn, Spawned, Ical.Decode, HasIcs;
      SpawnedStep(disk, ext, read, v);
      NotReadYet(disk, ext, read, v);
      if HasIcs(v) {
        var entry := LoadEntry(v);
        if entry.Some? {
          var _ := store.CreateFuseNode(v, entry.value);
        }
      }
    }

    /** One round of the second loop. */
    method PlaceEntry(v: string)
      requires Valid() && WellLinked(Now().forest) && File(v) in Now().forest.parent && NodesOnDisk(Now())
      modifies this, store, store.Repr
      ensures Valid() && fresh(store.Repr - old(store.Repr)) && store.index.Repr == old(store.index.Repr)
      ensures Now() == Place(old(Now()), v)
    {
      hide Store.TreeValid, Indexes, HashMaps.HashMap.Valid, WellLinked, FreeNames.AddFuseChild,
           FreeNames.MoveFuseNode, MarkOnDisk, Ical.GetParentUid;
      var child := store.GetFuseNodeFromVdirName(v);
      var ic := ComponentOf(child);
      var parentUid := ic.ParentUid();
      if parentUid.Some? {
        var parent := store.GetFuseNodeFromVdirName(VdirName(parentUid.value));
        if parent != null {
          MarkParent(parent);
          store.MoveFuseNode(parent, child);
        }
      } else {
        AddToTop(child);
      }
    }

    method AddToTop(n: TreeNode)
      requires Valid() && WellLinked(Now().forest) && n in store.view.nodes && n.id.File?
      modifies store, store.Repr
      ensures Valid() && fresh(store.Repr - old(store.Repr)) && store.index.Repr == old(store.index.Repr)
      ensures Root in old(Now().forest.kids) && n.id in old(Now().forest.name)
              && FreeNames.KidsNamed(old(Now().forest), Root)
      ensures Now() == old(Now()).(forest := FreeNames.AddFuseChild(old(Now().forest), Root, n.id))
    {
      hide Indexes, HashMaps.HashMap.Valid, Shows, WellLinked, FreeNames.AddFuseChild;
      store.AddFuseChild(store.root, n);
    }

    /** The second loop of the load, over the keys of the index. */
    method PlaceEntries() returns (ghost order: seq<string>)
      requires Valid() && Now() == BeforePlacing(disk, ext)
      modifies this, store, store.Repr
      ensures Valid() && fresh(store.Repr - old(store.Repr)) && store.index.Repr == old(store.index.Repr)
      ensures LoadOrder(old(disk), ext, order) && Now() == Load(old(disk), ext, order)
    {
      hide Store.TreeValid, Indexes, HashMaps.HashMap.Valid, WellLinked, Place, PlaceAll, ReadyToPlace, NodesOnDisk,
           LoadOrder, BeforePlacing, SiblingsDistinct, Ical.DirectoryFile, Ical.Decode, Loadable;
      ghost var start := Now();
      var keys, n := store.index.GetKeys();
      order := keys[..n];
      KeysAreLoadable(order);
      LoadReady(disk, ext, order);
      PlaceNothing(start, order);
      var i := 0;
      while i < n
        invariant 0 <= i <= n && n <= keys.Length && keys !in store.Repr && keys[..n] == order
        invariant Valid() && fresh(store.Repr - old(store.Repr)) && store.index.Repr == old(store.index.Repr)
        invariant ReadyToPlace(start, order) && ReadyToPlace(start, order[..i]) && Now() == PlaceAll(start, order[..i])
      {
        assert keys[i] == order[i];
        PlaceNext(start, order, i, keys[i]);
        i := i + 1;
      }
      assert order[..n] == order;
    }

    method PlaceNext(ghost start: State, ghost order: seq<string>, ghost i: nat, v: string)
      requires Valid() && i < |order| && v == order[i] && ReadyToPlace(start, order) && ReadyToPlace(start, order[..i])
      requires Now() == PlaceAll(start, order[..i])
      modifies this, store, store.Repr
      ensures Valid() && fresh(store.Repr - old(store.Repr)) && store.index.Repr == old(store.index.Repr)
      ensures ReadyToPlace(start, order[..i + 1]) && Now() == PlaceAll(start, order[..i + 1])
    {
      hide Store.TreeValid, Indexes, HashMaps.HashMap.Valid, WellLinked, Place, PlaceAll, ReadyToPlace, NodesOnDisk;
      PlaceAllStep(start, order, i);
      PlaceEntry(v);
    }

    lemma KeysAreLoadable(order: seq<string>)
      requires Valid() && Now() == BeforePlacing(disk, ext)
      requires Distinct(order) && forall k :: k in order <==> k in store.index.contents
      ensures LoadOrder(disk, ext, order)
    {
      hide Store.TreeValid, Indexes, HashMaps.HashMap.Valid, Loadable;
      forall v
        ensures v in order <==> Loadable(disk, ext, v)
      {
        store.FreshId(v);
        ReadKeys(disk, ext, v);
      }
    }

    /** get_node_by_path */
    method NodeAt(path: string) returns (n: TreeNode?)
      requires Valid() && Inv(Now()) && |Paths.Split(path)| <= MAX_SEGMENTS
      ensures IdOf(n) == GetNode(Now(), path)
      ensures n != null ==> n in store.view.nodes && Readable(Now(), n.id) && n.id in Now().forest.kids
    {
      hide Store.TreeValid, Indexes, HashMaps.HashMap.Valid, Lookup, Paths.Split;
      n := store.GetNodeByPath(path);
      if n != null {
        store.NodeInForest(n);
      }
    }

    // ----- components and files -----

    /** get_icalcomponent_from_node */
    method ComponentOf(n: TreeNode) returns (ic: IcalComponent?)
      requires Readable(Now(), n.id)
      ensures ic == null <==> n.id == Root
      ensures ic != null ==> fresh(ic) && ic.Record() == disk[n.id.vdir]
    {
      match n.id
      case Root => ic := null;
      case File(v) => ic := new IcalComponent(disk[v]);
    }

    /** write_ical_file */
    method WriteIcalFile(n: TreeNode, ic: IcalComponent)
      requires n.id.File?
      modifies this`disk, ic
      ensures disk == old(disk)[n.id.vdir := Ical.Written(old(ic.Record()))]
      ensures ic.Record() == Ical.Written(old(ic.Record()))
    {
      ic.Settle();
      disk := disk[n.id.vdir := ic.Record()];
    }

    /** write_parent_child_components */
    method WriteParentChildComponents(parentIcs: IcalComponent, child: TreeNode, childIcs: IcalComponent)
      requires child.id.File? && parentIcs != childIcs
      modifies this`disk, childIcs
      ensures disk == old(disk)[child.id.vdir := Ical.Written(old(childIcs.Record()).(
                                  related := Ical.WithParent(old(childIcs.related), parentIcs.uid)))]
    {
      childIcs.AddParentRelation(parentIcs.uid);
      WriteIcalFile(child, childIcs);
    }

    /** node_is_directory */
    method IsDirectoryNode(n: TreeNode, ic: IcalComponent?) returns (isDirectory: bool)
      requires Valid() && n in store.view.nodes && Readable(Now(), n.id)
      requires ic == null <==> n.id == Root
      requires ic != null ==> ic.Record() == disk[n.id.vdir]
      ensures n.id in Now().forest.kids && (isDirectory <==> NodeIsDirectory(Now(), n.id))
      ensures isDirectory <==> n.id == Root || Now().forest.kids[n.id] != [] || Ical.DirectoryFile(disk[n.id.vdir])
    {
      hide Store.TreeValid, Indexes, HashMaps.HashMap.Valid, Ical.IsDirectory, Ical.DirectoryFile, Ical.FirstValue;
      store.NodeInForest(n);
      if ic == null || n.childCount > 0 {
        return true;
      }
      Ical.IsDirectoryMeans(ic.Record());
      isDirectory := ic.IsDirectoryComponent();
    }

    // ----- creating -----

    /** The last part of insert_fuse_node_to_path: writes the file and hangs the node under its parent. */
    method WriteAndAdd(parentNode: TreeNode, parentIcs: IcalComponent?, child: TreeNode, childIcs: IcalComponent)
      requires Valid() && parentNode in store.view.nodes && Readable(Now(), parentNode.id)
      requires parentIcs == null <==> parentNode.id == Root
      requires parentIcs != null ==> parentIcs.Record() == disk[parentNode.id.vdir] && parentIcs != childIcs
      requires child in store.view.nodes && child.id.File?
      requires childIcs !in store.Repr && childIcs !in store.index.Repr
      modifies this, store, store.Repr, childIcs
      ensures Valid() && fresh(store.Repr - old(store.Repr)) && store.index.Repr == old(store.index.Repr)
      ensures Now() == old(Now()).(
                forest := Append(old(Now().forest), parentNode.id, child.id),
                disk := old(disk)[child.id.vdir
                    := Ical.Written(WithParentLink(old(Now()), old(childIcs.Record()), parentNode.id))])
    {
      hide Store.TreeValid, Indexes, HashMaps.HashMap.Valid, Append, Ical.Written;
      if parentIcs != null {
        WriteParentChildComponents(parentIcs, child, childIcs);
      } else {
        WriteIcalFile(child, childIcs);
      }
      store.AddChild(parentNode, child);
    }

    /** insert_fuse_node_to_path */
    method InsertFuseNodeToPath(path: string, child: TreeNode, childIcs: IcalComponent) returns (status: Status)
      requires Valid() && Inv(Now()) && '/' in path && |Paths.Split(path)| <= MAX_SEGMENTS
      requires child in store.view.nodes && child.id.File?
      requires childIcs !in store.Repr && childIcs !in store.index.Repr
      modifies this, store, store.Repr, childIcs
      ensures Valid() && fresh(store.Repr - old(store.Repr)) && store.index.Repr == old(store.index.Repr)
      ensures (Now(), status) == InsertNode(old(Now()), path, child.id, old(childIcs.Record()))
    {
      hide Store.TreeValid, Indexes, HashMaps.HashMap.Valid, WellLinked, GetNode, NodeIsDirectory, Paths.Split,
           Ical.DirectoryFile, SiblingsDistinct, Acyclic, AttachedOnDisk, Ical.Written, WithParentLink, Append;
      Paths.SplitParentAndFilename(path);
      var parentNode := NodeAt(Paths.GetParentPath(path).value);
      if parentNode == null {
        return ENOENT;
      }
      var parentIcs := ComponentOf(parentNode);
      var isDirectory := IsDirectoryNode(parentNode, parentIcs);
      if !isDirectory {
        return ENOTDIR;
      }
      WriteAndAdd(parentNode, parentIcs, child, childIcs);
      status := OK;
    }

    /** create_entry_from_fuse */
    method CreateEntryFromFuse(path: string, uid: string, etype: EntryType) returns (status: Status)
      requires Valid() && Inv(Now()) && FreshUid(Now(), uid) && |Paths.Split(path)| <= MAX_SEGMENTS
      requires store.index.nBuckets < HashMaps.LOAD_UNIT
      modifies this, store, store.Repr, store.index.Repr
      ensures Valid() && fresh(store.Repr - old(store.Repr)) && fresh(store.index.Repr - old(store.index.Repr))
      ensures (Now(), status) == CreateEntry(old(Now()), path, uid, etype)
      ensures store.index.nBuckets <= old(store.index.nBuckets) + 1
    {
      hide Store.TreeValid, Indexes, HashMaps.HashMap.Valid, Inv, InsertNode, NewComponent, Paths.Split;
      if path == "" || path[0] != '/' {
        return EINVAL;
      }
      var newFilename := Paths.GetFilename(path);
      SpawnInv(Now(), IdOfUid(uid), newFilename);
      InvLinked(Now());
      var newComponent := new IcalComponent(NewComponent(uid, newFilename, etype));
      var newNode := store.CreateFuseNode(VdirName(uid), newFilename);
      status := InsertFuseNodeToPath(path, newNode, newComponent);
    }

    /** fuse_create and fuse_mkdir */
    method FuseCreate(path: string, uid: string, etype: EntryType) returns (status: Status)
      requires Valid() && Inv(Now()) && FreshUid(Now(), uid) && |Paths.Split(path)| <= MAX_SEGMENTS
      requires store.index.nBuckets < HashMaps.LOAD_UNIT
      modifies this, store, store.Repr, store.index.Repr
      ensures Valid() && fresh(store.Repr - old(store.Repr)) && fresh(store.index.Repr - old(store.index.Repr))
      ensures (Now(), status) == Create(old(Now()), path, uid, etype)
      ensures store.index.nBuckets <= old(store.index.nBuckets) + 1
    {
      hide Store.TreeValid, Indexes, HashMaps.HashMap.Valid, Inv, GetNode, CreateEntry, Paths.Split;
      if Paths.PathIsHidden(path) {
        return EPERM;
      }
      var node := NodeAt(path);
      if node != null {
        return EEXIST;
      }
      status := CreateEntryFromFuse(path, uid, etype);
    }

    // ----- deleting -----

    /** delete_vdir_entry */
    method DeleteVdirEntry(n: TreeNode)
      requires Valid() && WellLinked(Now().forest) && n in store.view.nodes && Leaf(Now(), n.id) && n.id.File?
      modifies this, store, store.Repr, store.index.Repr
      ensures Valid() && store.Repr == old(store.Repr) && store.index.Repr == old(store.index.Repr)
      ensures store.view.nodes == old(store.view.nodes) - {n}
      ensures Now() == Delete(old(Now()), n.id)
      ensures store.index.nBuckets <= old(store.index.nBuckets)
    {
      hide Store.TreeValid, Indexes, HashMaps.HashMap.Valid, WellLinked, Detach, Drop;
      store.NodeInForest(n);
      disk := disk - {n.id.vdir};
      store.DeleteFuseNode(n);
    }

    /** fuse_unlink */
    method FuseUnlink(path: string) returns (status: Status)
      requires Valid() && Inv(Now()) && |Paths.Split(path)| <= MAX_SEGMENTS
      modifies this, store, store.Repr, store.index.Repr
      ensures Valid() && store.Repr == old(store.Repr) && store.index.Repr == old(store.index.Repr)
      ensures (Now(), status) == Unlink(old(Now()), path)
      ensures store.index.nBuckets <= old(store.index.nBuckets)
    {
      hide Store.TreeValid, Indexes, HashMaps.HashMap.Valid, GetNode, Delete, Paths.Split, WellLinked,
           SiblingsDistinct, Acyclic;
      var n := NodeAt(path);
      if n == null {
        return ENOENT;
      }
      var ics := ComponentOf(n);
      var isDirectory := IsDirectoryNode(n, ics);
      if isDirectory {
        return EISDIR;
      }
      DeleteVdirEntry(n);
      status := OK;
    }

    /** fuse_rmdir */
    method FuseRmdir(path: string) returns (status: Status)
      requires Valid() && Inv(Now()) && |Paths.Split(path)| <= MAX_SEGMENTS && GetNode(Now(), path) != Some(Root)
      modifies this, store, store.Repr, store.index.Repr
      ensures Valid() && store.Repr == old(store.Repr) && store.index.Repr == old(store.index.Repr)
      ensures (Now(), status) == Rmdir(old(Now()), path)
      ensures store.index.nBuckets <= old(store.index.nBuckets)
    {
      hide Store.TreeValid, Indexes, HashMaps.HashMap.Valid, GetNode, Delete, NodeIsDirectory, Paths.Split,
           WellLinked, SiblingsDistinct, Acyclic;
      var n := NodeAt(path);
      if n == null {
        return ENOENT;
      }
      var ics := ComponentOf(n);
      var isDirectory := IsDirectoryNode(n, ics);
      if !isDirectory {
        return ENOTDIR;
      }
      store.NodeInForest(n);
      if n.childCount > 0 {
        return ENOTEMPTY;
      }
      DeleteVdirEntry(n);
      status := OK;
    }

    // ----- renaming -----

    /** update_summary */
    method UpdateSummary(ics: IcalComponent, n: TreeNode)
      requires n.id.File?
      modifies this`disk, ics
      ensures ics.Record() == Ical.UpdateSummary(old(ics.Record()), n.filename)
      ensures disk == old(disk)[n.id.vdir := ics.Record()]
    {
      var isDirectory := ics.IsDirectoryComponent();
      if isDirectory {
        ics.PutSummary(n.filename);
      } else {
        ics.PutSummary(Paths.WithoutFileExtension(n.filename));
      }
      WriteIcalFile(n, ics);
    }

    /** update_node_file_extension */
    method UpdateNodeFileExtension(ics: IcalComponent, n: TreeNode)
      requires n.id.File? && n.id.vdir in disk && disk[n.id.vdir] == ics.Record()
      modifies this`disk, ics
      ensures ics.Record() == Ical.UpdateFileExtension(old(ics.Record()), n.filename)
      ensures disk == old(disk)[n.id.vdir := ics.Record()]
    {
      var extension := Paths.GetFileExtension(n.filename);
      if extension.None? {
        return;
      }
      ics.SetExtension(extension.value);
      WriteIcalFile(n, ics);
    }

    method RewriteName(ics: IcalComponent, n: TreeNode)
      requires n.id.File?
      modifies this`disk, ics
      ensures ics.Record() == Ical.Renamed(old(ics.Record()), n.filename)
      ensures disk == old(disk)[n.id.vdir := ics.Record()]
    {
      hide Ical.UpdateSummary, Ical.UpdateFileExtension;
      UpdateSummary(ics, n);
      UpdateNodeFileExtension(ics, n);
    }

    /** The second half of do_agenda_rename: a move to the root leaves the file as it is. */
    method Relink(child: TreeNode, childIcs: IcalComponent, oldParentIcs: IcalComponent?,
                  newParent: TreeNode, newParentIcs: IcalComponent?)
      requires Valid() && WellLinked(Now().forest) && child in store.view.nodes && newParent in store.view.nodes
      requires child.id.File? && childIcs != oldParentIcs && childIcs != newParentIcs
      requires childIcs !in store.Repr && childIcs !in store.index.Repr
      modifies this, store, store.Repr, childIcs
      ensures Valid() && fresh(store.Repr - old(store.Repr)) && store.index.Repr == old(store.index.Repr)
      ensures Now().forest == Move(old(Now().forest), newParent.id, child.id)
      ensures disk == if newParentIcs == null then old(disk)
                      else old(disk)[child.id.vdir := Linked(old(childIcs.Record()), oldParentIcs, newParentIcs)]
    {
      hide Store.TreeValid, Indexes, HashMaps.HashMap.Valid, WellLinked, Move, Ical.Written;
      if oldParentIcs != null {
        childIcs.RemoveParentRelation(oldParentIcs.uid);
      }
      store.MoveNode(newParent, child);
      if newParentIcs != null {
        WriteParentChildComponents(newParentIcs, child, childIcs);
      }
    }

    /** What do_agenda_rename does once it has found its nodes. */
    method Rehang(child: TreeNode, newParent: TreeNode, newFilename: string)
      requires Valid() && WellLinked(Now().forest) && child in store.view.nodes && newParent in store.view.nodes
      requires child.id.File? && child.id.vdir in disk && Readable(Now(), newParent.id)
      requires child.id in Now().forest.parent && Now().forest.parent[child.id].Some?
      requires Readable(Now(), Now().forest.parent[child.id].value)
      modifies this, store, store.Repr
      ensures Valid() && fresh(store.Repr - old(store.Repr)) && store.index.Repr == old(store.index.Repr)
      ensures Now().forest == Move(SetName(old(Now().forest), child.id, newFilename), newParent.id, child.id)
      ensures disk == old(disk)[child.id.vdir := RenamedFile(old(Now()), child.id,
              old(Now().forest.parent)[child.id].value,
                                                             newParent.id, newFilename)]
    {
      hide Store.TreeValid, Indexes, HashMaps.HashMap.Valid, WellLinked, Move, SetName, RenamedFile, Linked,
           Ical.Renamed, Ical.Written;
      store.NodeInForest(child);
      var childIcs := ComponentOf(child);
      var newParentIcs := ComponentOf(newParent);
      var oldParentIcs := ComponentOf(child.parent);
      RenamedFileIsLinked(Now(), child.id, child.parent.id, newParent.id, newFilename, oldParentIcs, newParentIcs);
      SetNameLinked(store.view.forest, child.id, newFilename);
      store.SetNodeFilename(child, newFilename);
      RewriteName(childIcs, child);
      Relink(child, childIcs, oldParentIcs, newParent, newParentIcs);
    }

    /** do_agenda_rename */
    method DoAgendaRename(src: string, dst: string) returns (status: Status)
      requires Valid() && Inv(Now()) && '/' in dst && |Paths.Split(src)| <= MAX_SEGMENTS
               && |Paths.Split(dst)| <= MAX_SEGMENTS
      requires GetNode(Now(), src).Some? && GetNode(Now(), src).value != Root
      modifies this, store, store.Repr
      ensures Valid() && fresh(store.Repr - old(store.Repr)) && store.index.Repr == old(store.index.Repr)
      ensures (Now(), status) == DoRename(old(Now()), src, dst)
    {
      hide Store.TreeValid, Indexes, HashMaps.HashMap.Valid, GetNode, Paths.Split, Inv, RenamedFile, Move, SetName;
      InvLinked(Now());
      Paths.SplitParentAndFilename(dst);
      var newParent := NodeAt(Paths.GetParentPath(dst).value);
      if newParent == null {
        return EINVAL;
      }
      var child := NodeAt(src);
      ParentReadable(Now(), child.id);
      Rehang(child, newParent, Paths.GetFilename(dst));
      status := OK;
    }

    /** fuse_rename */
    method FuseRename(src: string, dst: string) returns (status: Status)
      requires Valid() && Inv(Now()) && RenameAllowed(Now(), src, dst)
      requires |Paths.Split(src)| <= MAX_SEGMENTS && |Paths.Split(dst)| <= MAX_SEGMENTS
      modifies this, store, store.Repr, store.index.Repr
      ensures Valid() && fresh(store.Repr - old(store.Repr)) && store.index.Repr == old(store.index.Repr)
      ensures (Now(), status) == Rename(old(Now()), src, dst)
      ensures store.index.nBuckets <= old(store.index.nBuckets)
    {
      hide Store.TreeValid, Indexes, HashMaps.HashMap.Valid, GetNode, Paths.Split, WellLinked, SiblingsDistinct,
           Acyclic, AttachedOnDisk, DoRename, Delete;
      var existing := NodeAt(dst);
      if existing != null {
        store.NodeInForest(existing);
        if existing.childCount > 0 {
          return ENOTEMPTY;
        }
        SourceSurvives(Now(), existing.id, src, dst);
        DeleteVdirEntry(existing);
      }
      status := DoAgendaRename(src, dst);
    }

    // ----- changes from outside -----

    /** parse_ics_to_agenda_entry: the filename a component decodes to */
    method ParseFilename(ics: IcalComponent) returns (filename: Option<string>)
      ensures filename == Ical.Decode(ics.Record(), ext)
      ensures Ical.NamedByFile(ics.Record(), ext, filename)
    {
      Ical.DecodeMeans(ics.Record(), ext);
      hide Ical.NamedByFile, Ical.DirectoryFile, Ical.FirstValue, Ical.NoValue;
      if ics.summary.None? {
        return None;
      }
      var isDirectory := ics.IsDirectoryComponent();
      if isDirectory {
        return Some(ics.summary.value);
      }
      var extension := ics.GetExtension();
      var used := if extension.None? then ext else extension.value;
      if used == "" {
        return Some(ics.summary.value);
      }
      return Some(ics.summary.value + "." + used);
    }

    /** load_agenda_entry_from_ics_file */
    method LoadEntry(v: string) returns (filename: Option<string>)
      ensures filename == if v in disk then Ical.Decode(disk[v], ext) else None
    {
      if v !in disk {
        return None;
      }
      var ics := new IcalComponent(disk[v]);
      filename := ParseFilename(ics);
    }

    /** What update_or_create_fuse_entry_from_vdir and the load do to the file of a parent. */
    method MarkParent(p: TreeNode)
      requires p.id.File? && p.id.vdir in disk
      modifies this`disk
      ensures disk == MarkOnDisk(old(disk), p.id.vdir)
    {
      hide Ical.IsDirectory;
      var pic := ComponentOf(p);
      var isDirectory := pic.IsDirectoryComponent();
      if !isDirectory {
        pic.Mark();
        WriteIcalFile(p, pic);
      }
    }

    /** update_or_create_fuse_entry_from_vdir */
    method UpdateFromVdir(v: string) returns (status: Status)
      requires Valid() && WellLinked(Now().forest) && UpdateAllowed(Now(), v)
               && store.index.nBuckets < HashMaps.LOAD_UNIT
      modifies this, store, store.Repr, store.index.Repr
      ensures Valid() && fresh(store.Repr - old(store.Repr)) && fresh(store.index.Repr - old(store.index.Repr))
      ensures (Now(), status) == VdirUpdate(old(Now()), v)
      ensures store.index.nBuckets <= old(store.index.nBuckets) + 1
    {
      hide Store.TreeValid, Indexes, HashMaps.HashMap.Valid, WellLinked, Above, Upsert, FreeNames.MoveFuseNode,
           MarkOnDisk, Ical.Decode, Ical.GetParentUid;
      var entry := LoadEntry(v);
      if entry.None? {
        return EIO;
      }
      UpsertLinked(store.view.forest, File(v), entry.value);
      var node := store.UpsertFuseNode(v, entry.value);
      var ics := ComponentOf(node);
      var parentUid := ics.ParentUid();
      if parentUid.Some? {
        MoveUnder(parentUid.value, node);
      } else {
        MoveToTop(node);
      }
      status := OK;
    }

    /** handle_vdir_event for a file that was created or modified */
    method HandleVdirEvent(v: string)
      requires Valid() && WellLinked(Now().forest) && (HasIcs(v) ==> UpdateAllowed(Now(), v))
      requires store.index.nBuckets < HashMaps.LOAD_UNIT
      modifies this, store, store.Repr, store.index.Repr
      ensures Valid() && fresh(store.Repr - old(store.Repr)) && fresh(store.index.Repr - old(store.index.Repr))
      ensures Now() == Notified(old(Now()), v) && store.index.nBuckets <= old(store.index.nBuckets) + 1
    {
      hide Store.TreeValid, Indexes, HashMaps.HashMap.Valid, WellLinked, UpdateAllowed, VdirUpdate, HasIcs;
      if HasIcs(v) {
        var _ := UpdateFromVdir(v);
      }
    }

    method MoveUnder(parentUid: string, n: TreeNode)
      requires Valid() && WellLinked(Now().forest) && n in store.view.nodes && n.id.File?
      requires IdOfUid(parentUid) in Now().forest.parent && VdirName(parentUid) in disk
      modifies this, store, store.Repr
      ensures Valid() && fresh(store.Repr - old(store.Repr)) && store.index.Repr == old(store.index.Repr)
      ensures IdOfUid(parentUid) in old(Now().forest.kids) && n.id in old(Now().forest.parent)
      ensures Now() == old(Now()).(forest := FreeNames.MoveFuseNode(old(Now().forest), IdOfUid(parentUid), n.id),
                                   disk := MarkOnDisk(old(disk), VdirName(parentUid)))
    {
      hide Store.TreeValid, Indexes, HashMaps.HashMap.Valid, WellLinked, FreeNames.MoveFuseNode, MarkOnDisk;
      var newParent := store.GetFuseNodeFromVdirName(VdirName(parentUid));
      store.MoveFuseNode(newParent, n);
      MarkParent(newParent);
    }

    method MoveToTop(n: TreeNode)
      requires Valid() && WellLinked(Now().forest) && n in store.view.nodes && n.id.File?
      modifies store, store.Repr
      ensures Valid() && fresh(store.Repr - old(store.Repr)) && store.index.Repr == old(store.index.Repr)
      ensures Root in old(Now().forest.kids) && n.id in old(Now().forest.parent)
      ensures Now() == old(Now()).(forest := FreeNames.MoveFuseNode(old(Now().forest), Root, n.id))
    {
      hide Indexes, HashMaps.HashMap.Valid, Shows, WellLinked, FreeNames.MoveFuseNode;
      store.MoveFuseNode(store.root, n);
    }

    // ----- reading and writing -----

    /** fuse_write: the count of bytes written, or the error */
    method FuseWrite(path: string, buf: string, offset: nat) returns (status: Status, written: nat)
      requires Valid() && Inv(Now()) && |Paths.Split(path)| <= MAX_SEGMENTS && GetNode(Now(), path) != Some(Root)
      modifies this`disk
      ensures Valid() && (Now(), status) == Write(old(Now()), path, buf, offset)
      ensures written == if status == OK then |buf| else 0
    {
      hide Store.TreeValid, Indexes, HashMaps.HashMap.Valid, GetNode, Paths.Split, Inv, Content.WrittenText,
           Ical.Written;
      if Paths.PathIsHidden(path) {
        return EPERM, 0;
      }
      var node := NodeAt(path);
      if node == null {
        return ENONET, 0;
      }
      var ics := ComponentOf(node);
      ics.InsertDescription(buf, offset);
      WriteIcalFile(node, ics);
      return OK, |buf|;
    }

    /** fuse_read: the bytes copied, or the error */
    method FuseRead(path: string, size: nat, offset: nat) returns (status: Status, bytes: string)
      requires Valid() && Inv(Now()) && |Paths.Split(path)| <= MAX_SEGMENTS
      ensures status == match GetNode(Now(), path) case None => ENOENT case Some(n) => if n == Root then EIO else OK
      ensures bytes == if status == OK then Content.Slice(Content.Text(disk[GetNode(Now(), path).value.vdir]),
              size, offset) else ""
    {
      hide Store.TreeValid, Indexes, HashMaps.HashMap.Valid, GetNode, Paths.Split, Inv;
      var n := NodeAt(path);
      if n == null {
        return ENOENT, "";
      }
      var ics := ComponentOf(n);
      if ics == null {
        return EIO, "";
      }
      if ics.description.None? {
        return OK, "";
      }
      var contentLen := |ics.description.value|;
      if offset >= contentLen {
        return OK, "";
      }
      var bytesToRead := contentLen - offset;
      if bytesToRead > size {
        bytesToRead := size;
      }
      return OK, ics.description.value[offset..offset + bytesToRead];
    }

    /** Reads one after the other, each where the one before was asked to end. */
    method ReadAll(path: string, sizes: seq<nat>) returns (text: string)
      requires Valid() && Inv(Now()) && |Paths.Split(path)| <= MAX_SEGMENTS
      requires GetNode(Now(), path).Some? && GetNode(Now(), path).value != Root
      ensures text == Content.ReadChunks(Content.Text(disk[GetNode(Now(), path).value.vdir]), sizes)
    {
      hide Store.TreeValid, Indexes, HashMaps.HashMap.Valid, GetNode, Paths.Split, Inv, Content.Slice, Content.Text;
      ghost var content := Content.Text(disk[GetNode(Now(), path).value.vdir]);
      text := "";
      var offset := 0;
      var i := 0;
      while i < |sizes|
        invariant 0 <= i <= |sizes| && offset == Content.Sum(sizes[..i])
        invariant text == Content.ReadChunks(content, sizes[..i])
      {
        assert sizes[..i + 1][..i] == sizes[..i];
        var _, bytes := FuseRead(path, sizes[i], offset);
        text := text + bytes;
        offset := offset + sizes[i];
        i := i + 1;
      }
      assert sizes[..|sizes|] == sizes;
    }

    /** calculate_node_size */
    method CalculateNodeSize(n: TreeNode, ics: IcalComponent?) returns (totalSize: nat)
      requires Valid() && Inv(Now()) && n in store.view.nodes && Sizes.Shown(Now(), n.id)
      requires ics == null <==> n.id == Root
      requires ics != null ==> ics.Record() == disk[n.id.vdir]
      ensures totalSize == Sizes.NodeSize(Now(), n.id)
      decreases Sizes.Below(Now().forest.parent, n.id)
    {
      hide Store.TreeValid, Indexes, HashMaps.HashMap.Valid, WellLinked, SiblingsDistinct, Acyclic, AttachedOnDisk,
           NodeIsDirectory, Sizes.Below;
      var isDirectory := IsDirectoryNode(n, ics);
      if !isDirectory {
        FileHasComponent(Now(), n.id);
        return if ics.description.None? then 0 else |ics.description.value|;
      }
      store.NodeInForest(n);
      totalSize := 0;
      var i := 0;
      while i < n.childCount
        invariant 0 <= i <= n.childCount && totalSize == Sizes.KidsSize(Now(), n.id, i)
      {
        var child := n.children[i];
        assert Now().forest.kids[n.id][i] == child.id;
        Sizes.ChildShown(Now(), n.id, i);
        Sizes.ChildBelow(Now().forest, n.id, child.id);
        var cic := ComponentOf(child);
        var size := CalculateNodeSize(child, cic);
        totalSize := totalSize + size;
        i := i + 1;
      }
    }

    // ----- runs -----

    /** A handler call, or a file put into the vdir and the handling of the notification. */
    method TakeStep(step: Step)
      requires Valid() && Inv(Now()) && Allowed(Now(), step) && Fits(step) && store.index.nBuckets < HashMaps.LOAD_UNIT
      modifies this, store, store.Repr, store.index.Repr
      ensures Valid() && fresh(store.Repr - old(store.Repr)) && fresh(store.index.Repr - old(store.index.Repr))
      ensures Now() == Apply(old(Now()), step) && store.index.nBuckets <= old(store.index.nBuckets) + 1
    {
      hide Store.TreeValid, Indexes, HashMaps.HashMap.Valid, Inv, GetNode, RenameAllowed, UpdateAllowed, Create,
           Unlink, Rmdir, Rename, Write, VdirUpdate;
      InvLinked(Now());
      match step
      case CreateStep(path, uid, etype) => var _ := FuseCreate(path, uid, etype);
      case UnlinkStep(path) => var _ := FuseUnlink(path);
      case RmdirStep(path) => var _ := FuseRmdir(path);
      case RenameStep(src, dst) => var _ := FuseRename(src, dst);
      case WriteStep(path, buf, offset) => var _, _ := FuseWrite(path, buf, offset);
      case VdirStep(v, c) =>
        disk := disk[v := c];
        HandleVdirEvent(v);
    }

    /** The object follows every allowed run of the model. */
    method TakeSteps(steps: seq<Step>)
      requires Valid() && Inv(Now()) && AllowedRun(Now(), steps) && forall i :: 0 <= i < |steps| ==> Fits(steps[i])
      requires store.index.nBuckets + |steps| < HashMaps.LOAD_UNIT
      modifies this, store, store.Repr, store.index.Repr
      ensures Valid() && Now() == Run(old(Now()), steps) && Inv(Now())
    {
      hide Store.TreeValid, Indexes, HashMaps.HashMap.Valid, Inv, Apply, Fits, Allowed;
      var i := 0;
      while i < |steps|
        invariant 0 <= i <= |steps| && Inv(Now()) && AllowedRun(Now(), steps[i..])
        invariant Valid() && fresh(store.Repr - old(store.Repr)) && fresh(store.index.Repr - old(store.index.Repr))
        invariant store.index.nBuckets + |steps| - i < HashMaps.LOAD_UNIT
        invariant Run(Now(), steps[i..]) == Run(old(Now()), steps)
      {
        assert steps[i..][0] == steps[i] && steps[i..][1..] == steps[i + 1..];
        StepKeepsInv(Now(), steps[i]);
        TakeStep(steps[i]);
        i := i + 1;
      }
    }
  }

  /** The paths of a step have room on the stack of get_node_by_path. */
  predicate Fits(step: Step) {
    match step
    case CreateStep(path, _, _) => |Paths.Split(path)| <= MAX_SEGMENTS
    case UnlinkStep(path) => |Paths.Split(path)| <= MAX_SEGMENTS
    case RmdirStep(path) => |Paths.Split(path)| <= MAX_SEGMENTS
    case RenameStep(src, dst) => |Paths.Split(src)| <= MAX_SEGMENTS && |Paths.Split(dst)| <= MAX_SEGMENTS
    case WriteStep(path, _, _) => |Paths.Split(path)| <= MAX_SEGMENTS
    case VdirStep(_, _) => true
  }

  lemma FileHasComponent(s: State, n: Id)
    requires Inv(s) && Sizes.Shown(s, n) && !NodeIsDirectory(s, n)
    ensures n.File? && n.vdir in s.disk
  {
  }

  lemma NothingRead(disk: Disk, ext: string)
    ensures Spawned(disk, ext, {}) == EMPTY
  {
    assert LoadableIds(disk, ext, {}) == {};
  }

  lemma NotReadYet(disk: Disk, ext: string, read: set<string>, v: string)
    requires v !in read
    ensures File(v) !in Spawned(disk, ext, read).parent
  {
  }

  lemma ReadKeys(disk: Disk, ext: string, v: string)
    ensures File(v) in BeforePlacing(disk, ext).forest.parent <==> Loadable(disk, ext, v)
  {
  }

  lemma PlaceNothing(start: State, order: seq<string>)
    requires ReadyToPlace(start, order)
    ensures ReadyToPlace(start, order[..0]) && PlaceAll(start, order[..0]) == start
  {
    hide WellLinked, SiblingsDistinct;
  }

  /** One more key of the order in the second loop of a load. */
  lemma PlaceAllStep(start: State, order: seq<string>, i: nat)
    requires i < |order| && ReadyToPlace(start, order)
    ensures ReadyToPlace(start, order[..i]) && ReadyToPlace(start, order[..i + 1])
    ensures WellLinked(PlaceAll(start, order[..i]).forest) && NodesOnDisk(PlaceAll(start, order[..i]))
    ensures File(order[i]) in PlaceAll(start, order[..i]).forest.parent
    ensures PlaceAll(start, order[..i + 1]) == Place(PlaceAll(start, order[..i]), order[i])
  {
    hide WellLinked, SiblingsDistinct, SameLinks, Place, ReadyToPlace, NodesOnDisk, PlacedSoFar;
    var more := order[..i + 1];
    ReadyPrefix(start, order, i);
    ReadyPrefix(start, order, i + 1);
    assert more[..|more| - 1] == order[..i] && more[|more| - 1] == order[i];
    PlacedFacts(start, order[..i], PlaceAll(start, order[..i]), order, i);
  }

  lemma ReadyPrefix(start: State, order: seq<string>, i: nat)
    requires i <= |order| && ReadyToPlace(start, order)
    ensures ReadyToPlace(start, order[..i])
  {
    hide WellLinked, SiblingsDistinct;
  }

  lemma PlacedFacts(start: State, placed: seq<string>, s: State, order: seq<string>, i: nat)
    requires PlacedSoFar(start, placed, s) && ReadyToPlace(start, order) && i < |order|
    ensures WellLinked(s.forest) && NodesOnDisk(s) && File(order[i]) in s.forest.parent
  {
    hide WellLinked, SiblingsDistinct, SameLinks;
  }

  /** A component taken from one parent, if any, and linked to another. */
  ghost function Linked(c: Ical.Component, from: IcalComponent?, to: IcalComponent): Ical.Component {
    Ical.Written(c.(related := Ical.WithParent(if from == null then c.related
          else Ical.WithoutParent(c.related, from.uid), to.uid)))
  }

  lemma RenamedFileIsLinked(s: State, n: Id, from: Id, to: Id, name: string, fromIcs: IcalComponent?,
          toIcs: IcalComponent?)
    requires n.File? && n.vdir in s.disk && Readable(s, from) && Readable(s, to)
    requires (fromIcs == null <==> from == Root) && (fromIcs != null ==> fromIcs.uid == s.disk[from.vdir].uid)
    requires (toIcs == null <==> to == Root) && (toIcs != null ==> toIcs.uid == s.disk[to.vdir].uid)
    ensures RenamedFile(s, n, from, to, name)
         == if toIcs == null then Ical.Renamed(s.disk[n.vdir], name)
               else Linked(Ical.Renamed(s.disk[n.vdir], name), fromIcs, toIcs)
  {
    hide Ical.Renamed;
  }

  /** Clearing the target of a rename leaves its source in place. */
  lemma SourceSurvives(s: State, e: Id, src: string, dst: string)
    requires Inv(s) && RenameAllowed(s, src, dst) && GetNode(s, dst) == Some(e) && s.forest.kids[e] == []
    ensures Leaf(s, e) && e.File? && Inv(Delete(s, e))
    ensures GetNode(Delete(s, e), src).Some? && GetNode(Delete(s, e), src).value != Root
  {
    FoundLeaf(s, dst);
    DeletePaths(s, e, dst);
  }

  lemma InvLinked(s: State)
    requires Inv(s)
    ensures WellLinked(s.forest)
  {
  }
}
