/**
 Files that other programs put into the vdir: when memory is still what the
 next load will build, although a load and a notification mark the files of
 parents as directories and number the names of siblings.
 */
module ForeignFiles {
  import opened Wrappers
  import opened Forests
  import opened PathMaps
  import opened FreeNames
  import opened Model
  import opened Handlers
  import opened Loads
  import opened Reloads
  import opened Runs
  import Ical

  // ----- directory marks -----

  function MarkedOnce(c: Ical.Component): Ical.Component {
    if Ical.IsDirectory(c) then c else Ical.Written(Ical.MarkAsDirectory(c))
  }

  /** What `k` children that name a file as their parent make of it. */
  function MarkedTimes(c: Ical.Component, k: nat): Ical.Component {
    if k == 0 then c else MarkedOnce(MarkedTimes(c, k - 1))
  }

  /** Marking a file leaves the name it decodes to alone: it is a directory already, or it has no extension to lose,
      or the mark does not take because another value of the property comes first. */
  ghost predicate MarkHarmless(c: Ical.Component, k: nat, ext: string) {
    Ical.IsDirectory(c) || Ical.StoredExtension(c, ext) == "" || !Ical.IsDirectory(MarkedTimes(c, k))
  }

  lemma MarkedOnceKeeps(c: Ical.Component, ext: string)
    ensures MarkedOnce(c).summary == c.summary && MarkedOnce(c).related == c.related && MarkedOnce(c).uid == c.uid
    ensures Ical.StoredExtension(MarkedOnce(c), ext) == Ical.StoredExtension(c, ext)
  {
    Ical.GetXAfterSet(c.xprops, Ical.IS_DIRECTORY_PROPERTY, "YES");
    assert |Ical.IS_DIRECTORY_PROPERTY| == 22 && |Ical.FILE_EXTENSION_PROPERTY| == 18;
  }

  lemma {:induction false} MarkedTimesKeeps(c: Ical.Component, k: nat, ext: string)
    ensures MarkedTimes(c, k).summary == c.summary
    ensures Ical.StoredExtension(MarkedTimes(c, k), ext) == Ical.StoredExtension(c, ext)
    ensures Ical.IsDirectory(c) ==> MarkedTimes(c, k) == c
  {
    hide Ical.IsDirectory, Ical.StoredExtension;
    if k > 0 {
      MarkedTimesKeeps(c, k - 1, ext);
      MarkedOnceKeeps(MarkedTimes(c, k - 1), ext);
    }
  }

  /** Marks change the decoded name exactly when they are not harmless, and then they cut off the extension. */
  lemma MarkedDecodes(c: Ical.Component, k: nat, ext: string)
    requires c.summary.Some?
    ensures Ical.Decode(MarkedTimes(c, k), ext).Some? && Ical.Decode(c, ext).Some?
    ensures Ical.Decode(MarkedTimes(c, k), ext) == Ical.Decode(c, ext) <==> MarkHarmless(c, k, ext)
    ensures !MarkHarmless(c, k, ext) ==> |Ical.Decode(MarkedTimes(c, k), ext).value| < |Ical.Decode(c, ext).value|
  {
    hide Ical.IsDirectory, Ical.StoredExtension, MarkedTimes;
    MarkedTimesKeeps(c, k, ext);
    var stored := Ical.StoredExtension(c, ext);
    assert |c.summary.value + "." + stored| > |c.summary.value|;
  }

  /** With every property listed once the first mark takes, so only the extension and the mark itself matter. */
  lemma {:induction false} MarkTakes(c: Ical.Component, k: nat, ext: string)
    requires Ical.UniqueX(c.xprops)
    ensures k > 0 ==> Ical.IsDirectory(MarkedTimes(c, k))
    ensures MarkHarmless(c, k, ext) <==> k == 0 || Ical.IsDirectory(c) || Ical.StoredExtension(c, ext) == ""
  {
    if k > 0 {
      Ical.SetXUnique(c.xprops, Ical.IS_DIRECTORY_PROPERTY, "YES");
      hide Ical.StoredExtension, Ical.SetX, Ical.UniqueX;
      assert Ical.IsDirectory(MarkedOnce(c));
      if k > 1 {
        MarkTakes(c, k - 1, ext);
      } else {
        assert MarkedTimes(c, 0) == c;
      }
    }
  }

  // ----- a load -----

  /** The files placed so far that name the file `v` as their parent. */
  ghost function Namers(start: State, placed: seq<string>, v: string): set<string> {
    set w | w in start.disk && w in placed && Target(start.disk, start.forest.parent.Keys, w) == Some(File(v))
  }

  lemma NamersStep(start: State, placed: seq<string>, w: string, v: string)
    requires w !in placed && w in start.disk
    ensures |Namers(start, placed + [w], v)|
         == |Namers(start, placed, v)| + if Target(start.disk, start.forest.parent.Keys, w)
               == Some(File(v)) then 1 else 0
  {
    hide Target;
    if Target(start.disk, start.forest.parent.Keys, w) == Some(File(v)) {
      assert Namers(start, placed + [w], v) == Namers(start, placed, v) + {w};
    } else {
      assert Namers(start, placed + [w], v) == Namers(start, placed, v);
    }
  }

  lemma PlaceMarks(s: State, w: string, v: string)
    requires WellLinked(s.forest) && File(w) in s.forest.parent && NodesOnDisk(s) && v in s.disk
    ensures v in Place(s, w).disk
    ensures Place(s, w).disk[v]
         == if Target(s.disk, s.forest.parent.Keys, w) == Some(File(v)) then MarkedOnce(s.disk[v]) else s.disk[v]
  {
    hide WellLinked, AddFuseChild, MoveFuseNode, Ical.IsDirectory, Ical.MarkAsDirectory;
  }

  /** After the second loop every file has been marked once for each file that names it. */
  lemma {:induction false} PlacedMarks(start: State, order: seq<string>, v: string)
    requires ReadyToPlace(start, order) && v in start.disk
    ensures v in PlaceAll(start, order).disk
    ensures PlaceAll(start, order).disk[v] == MarkedTimes(start.disk[v], |Namers(start, order, v)|)
    decreases |order|
  {
    hide WellLinked, SiblingsDistinct, SameLinks, Place, ReadyToPlace, NodesOnDisk, Target, MarkedOnce, Namers,
         ParentsAfter;
    if order == [] {
      NobodyYet(start, v);
    } else {
      ReadyButOne(start, order);
      var init, w := order[..|order| - 1], order[|order| - 1];
      var s := PlaceAll(start, init);
      PlacedMarks(start, init, v);
      PlacedStep(start, init, s, w);
      SameNodes(start, init, s);
      NodeHasFile(s, w);
      TargetSame(start.disk, s.disk, start.forest.parent.Keys, w);
      PlaceMarks(s, w, v);
      NamersStep(start, init, w, v);
      assert init + [w] == order;
    }
  }

  lemma NobodyYet(start: State, v: string)
    ensures Namers(start, [], v) == {}
  {
  }

  lemma SameNodes(start: State, placed: seq<string>, s: State)
    requires PlacedSoFar(start, placed, s)
    ensures s.forest.parent.Keys == start.forest.parent.Keys && SameLinks(start.disk, s.disk)
  {
    hide WellLinked, SiblingsDistinct;
  }

  lemma NodeHasFile(s: State, w: string)
    requires NodesOnDisk(s) && File(w) in s.forest.parent
    ensures w in s.disk
  {
  }

  ghost function FilesNaming(disk: Disk, ext: string, v: string): set<string> {
    set w | w in disk && Loadable(disk, ext, w) && DiskParents(disk, ext)[File(w)] == Some(File(v))
  }

  /** No file named as a parent loses its extension when it is marked. */
  ghost predicate MarksHarmless(disk: Disk, ext: string) {
    forall v :: Loadable(disk, ext, v) ==> MarkHarmless(disk[v], |FilesNaming(disk, ext, v)|, ext)
  }

  /** Files that ask for one parent decode to different names. */
  ghost predicate DecodedApart(disk: Disk, ext: string) {
    forall a, b :: a in DiskParents(disk, ext) && b in DiskParents(disk, ext) && a != b
                   && DiskParents(disk, ext)[a].Some? && DiskParents(disk, ext)[a] == DiskParents(disk, ext)[b] ==>
      DecodedName(disk, ext, a) != DecodedName(disk, ext, b)
  }

  lemma NamersAreAll(disk: Disk, ext: string, order: seq<string>, v: string)
    requires LoadOrder(disk, ext, order)
    ensures Namers(BeforePlacing(disk, ext), order, v) == FilesNaming(disk, ext, v)
  {
    hide Ical.Decode, HasIcs;
    LoadReady(disk, ext, order);
    assert BeforePlacing(disk, ext).forest.parent.Keys == {Root} + LoadableIds(disk, ext, disk.Keys);
  }

  /** What a load leaves in the files: the same links, and a mark for every child that names a file. */
  lemma LoadMarks(disk: Disk, ext: string, order: seq<string>, v: string)
    requires LoadOrder(disk, ext, order) && v in disk
    ensures v in Load(disk, ext, order).disk
    ensures Load(disk, ext, order).disk[v] == MarkedTimes(disk[v], |FilesNaming(disk, ext, v)|)
  {
    hide WellLinked, SiblingsDistinct, SameLinks, Place, PlaceAll, Target, MarkedTimes, LoadOrder, ReadyToPlace;
    LoadReady(disk, ext, order);
    PlacedMarks(BeforePlacing(disk, ext), order, v);
    NamersAreAll(disk, ext, order, v);
  }

  lemma SameLinksLoadable(a: Disk, b: Disk, ext: string)
    requires SameLinks(a, b)
    ensures forall v :: Loadable(a, ext, v) <==> Loadable(b, ext, v)
    ensures DiskParents(a, ext) == DiskParents(b, ext)
  {
    hide HasIcs;
    assert forall v :: Loadable(a, ext, v) <==> Loadable(b, ext, v);
    assert LoadableIds(a, ext, a.Keys) == LoadableIds(b, ext, b.Keys);
  }

  lemma LoadKeepsExt(disk: Disk, ext: string, order: seq<string>)
    requires LoadOrder(disk, ext, order)
    ensures Load(disk, ext, order).ext == ext
  {
    LoadReady(disk, ext, order);
  }

  /** The node of a readable file after a load: its name, and what its file decodes to the next time. */
  lemma LoadedName(disk: Disk, ext: string, order: seq<string>, v: string)
    requires LoadOrder(disk, ext, order) && Loadable(disk, ext, v)
    ensures Loadable(Load(disk, ext, order).disk, ext, v) && File(v) in Load(disk, ext, order).forest.name
    ensures NumberedFrom(DecodedName(disk, ext, File(v)), Load(disk, ext, order).forest.name[File(v)])
    ensures DecodedName(Load(disk, ext, order).disk, ext, File(v)) == DecodedName(disk, ext, File(v))
       <==> MarkHarmless(disk[v], |FilesNaming(disk, ext, v)|, ext)
    ensures DecodedName(Load(disk, ext, order).disk, ext, File(v)) == Load(disk, ext, order).forest.name[File(v)] ==>
              MarkHarmless(disk[v], |FilesNaming(disk, ext, v)|, ext)
  {
    hide WellLinked, SiblingsDistinct, SameLinks, PlaceAll, HasIcs, MarkHarmless, MarkedTimes, FilesNaming,
         NumberedFrom,
         DiskParents, LoadOrder, ReadyToPlace;
    LoadIsOrderIndependent(disk, ext, order);
    SameLinksLoadable(disk, Load(disk, ext, order).disk, ext);
    LoadReady(disk, ext, order);
    PlacedName(BeforePlacing(disk, ext), order, v);
    LoadMarks(disk, ext, order, v);
    MarkedDecodes(disk[v], |FilesNaming(disk, ext, v)|, ext);
    CandidateLength(DecodedName(disk, ext, File(v)), Load(disk, ext, order).forest.name[File(v)]);
  }

  /** With the parents in agreement, memory agrees with the files when every name does. */
  lemma NamesDecide(t: State)
    requires WellLinked(t.forest) && t.forest.parent == DiskParents(t.disk, t.ext)
    ensures forall v :: Loadable(t.disk, t.ext, v) ==> File(v) in t.forest.name
    ensures DiskAgrees(t) <==> forall v :: Loadable(t.disk, t.ext, v) ==>
                                 t.forest.name[File(v)] == DecodedName(t.disk, t.ext, File(v))
  {
    hide KidsPointBack, ParentsPointBack, KidsOnce, HasIcs, Ical.Decode;
    DiskParentsNodes(t.disk, t.ext);
    var names := Spawned(t.disk, t.ext, t.disk.Keys).name;
    assert names.Keys == t.forest.name.Keys;
    if forall v :: Loadable(t.disk, t.ext, v) ==> t.forest.name[File(v)] == DecodedName(t.disk, t.ext, File(v)) {
      assert t.forest.name == names;
    }
  }

  lemma ApartFromDisk(disk: Disk, ext: string, order: seq<string>)
    requires LoadOrder(disk, ext, order) && DecodedApart(disk, ext)
    ensures ReadyToPlace(BeforePlacing(disk, ext), order) && ApartUnder(BeforePlacing(disk, ext), order)
  {
    hide WellLinked, SiblingsDistinct, Ical.Decode, HasIcs;
    LoadReady(disk, ext, order);
    var start := BeforePlacing(disk, ext);
    assert start.forest.parent.Keys == {Root} + LoadableIds(disk, ext, disk.Keys);
    forall a, b | a in order && b in order && a != b && a in start.disk && b in start.disk
                  && File(a) in start.forest.name && File(b) in start.forest.name
                  && Target(start.disk, start.forest.parent.Keys, a).Some?
                  && Target(start.disk, start.forest.parent.Keys, a) == Target(start.disk, start.forest.parent.Keys, b)
      ensures start.forest.name[File(a)] != start.forest.name[File(b)]
    {
      assert DiskParents(disk, ext)[File(a)] == DiskParents(disk, ext)[File(b)];
    }
  }

  lemma NamesKeptBySafeLoad(disk: Disk, ext: string, order: seq<string>, v: string)
    requires LoadOrder(disk, ext, order) && DecodedApart(disk, ext) && Loadable(disk, ext, v)
    ensures File(v) in Load(disk, ext, order).forest.name
    ensures Load(disk, ext, order).forest.name[File(v)] == DecodedName(disk, ext, File(v))
  {
    hide WellLinked, SiblingsDistinct, PlaceAll, Ical.Decode, HasIcs, ApartUnder, DecodedApart, ReadyToPlace;
    ApartFromDisk(disk, ext, order);
    PlaceAllKeepsNames(BeforePlacing(disk, ext), order);
  }

  lemma ApartInMemory(disk: Disk, ext: string, t: State)
    requires WellLinked(t.forest) && SiblingsDistinct(t.forest) && t.forest.parent == DiskParents(disk, ext)
    requires forall v :: Loadable(disk, ext, v) ==> t.forest.name[File(v)] == DecodedName(disk, ext, File(v))
    ensures DecodedApart(disk, ext)
  {
    hide KidsPointBack, ParentsPointBack, KidsOnce, HasIcs, Ical.Decode, Loadable, DiskParents, DecodedName;
    DiskParentsNodes(disk, ext);
    var up := DiskParents(disk, ext);
    forall a, b | a in up && b in up && a != b && up[a].Some? && up[a] == up[b]
      ensures DecodedName(disk, ext, a) != DecodedName(disk, ext, b)
    {
      assert Siblings(t.forest, a, b);
      assert a.File? && b.File? && Loadable(disk, ext, a.vdir) && Loadable(disk, ext, b.vdir);
    }
  }

  /** Memory after a load is what the next load builds exactly when no two files under one parent decode to the same
      name and no parent loses its extension to the mark it gets. */
  lemma LoadReloads(disk: Disk, ext: string, order: seq<string>)
    requires LoadOrder(disk, ext, order)
    ensures ReloadAgrees(Load(disk, ext, order)) <==> DecodedApart(disk, ext) && MarksHarmless(disk, ext)
  {
    hide WellLinked, SiblingsDistinct, Load, HasIcs, Ical.Decode, DecodedName, DiskParents, DiskAgrees,
         ReloadAgrees, SameLinks,
         MarkHarmless, FilesNaming, DecodedApart, LoadOrder;
    var t := Load(disk, ext, order);
    LoadIsOrderIndependent(disk, ext, order);
    LoadKeepsExt(disk, ext, order);
    SameLinksLoadable(disk, t.disk, ext);
    NamesDecide(t);
    ReloadIffDiskAgrees(t);
    forall v | Loadable(disk, ext, v)
      ensures DecodedName(t.disk, ext, File(v)) == DecodedName(disk, ext, File(v))
         <==> MarkHarmless(disk[v], |FilesNaming(disk, ext, v)|, ext)
      ensures DecodedName(t.disk, ext, File(v)) == t.forest.name[File(v)] ==>
                MarkHarmless(disk[v], |FilesNaming(disk, ext, v)|, ext)
    {
      LoadedName(disk, ext, order, v);
    }
    if DiskAgrees(t) {
      ApartInMemory(disk, ext, t);
    }
    if DecodedApart(disk, ext) && MarksHarmless(disk, ext) {
      forall v | Loadable(disk, ext, v)
        ensures t.forest.name[File(v)] == DecodedName(t.disk, ext, File(v))
      {
        NamesKeptBySafeLoad(disk, ext, order, v);
      }
    }
  }

  /** A file with an extension and no directory mark that another names as its parent breaks the agreement at once. */
  lemma ParentLosesExtension(disk: Disk, ext: string, order: seq<string>, v: string, w: string)
    requires LoadOrder(disk, ext, order) && Loadable(disk, ext, v) && Loadable(disk, ext, w)
    requires DiskParents(disk, ext)[File(w)] == Some(File(v))
    requires Ical.UniqueX(disk[v].xprops) && !Ical.IsDirectory(disk[v]) && Ical.StoredExtension(disk[v], ext) != ""
    ensures !ReloadAgrees(Load(disk, ext, order))
  {
    hide Ical.Decode, HasIcs, Ical.UniqueX, Ical.IsDirectory, Ical.StoredExtension, MarkHarmless, ReloadAgrees, Load,
         DiskParents, DecodedApart;
    LoadReloads(disk, ext, order);
    MarkTakes(disk[v], |FilesNaming(disk, ext, v)|, ext);
    assert w in FilesNaming(disk, ext, v);
  }

  // ----- a file created or modified by another program -----

  /** No other readable file names `v` as its parent. */
  ghost predicate NobodyNames(s: State, v: string) {
    forall w :: w != v && Loadable(s.disk, s.ext, w) && Ical.GetParentUid(s.disk[w]).Some? ==>
      VdirName(Ical.GetParentUid(s.disk[w]).value) != v
  }

  ghost predicate EditAllowed(s: State, v: string, c: Ical.Component)
    requires Inv(s)
  {
    HasIcs(v) ==> UpdateAllowed(Edited(s, v, c), v)
  }

  /** What decides beforehand whether memory is still what the next load builds after the file `v` was given the
      component `c`: an unreadable file must not belong to a node; a readable one must not be the missing parent of
      another, its parent must lose no extension to the mark, and its name must be free beside its siblings. */
  ghost predicate EditKeeps(s: State, v: string, c: Ical.Component)
    requires Inv(s) && EditAllowed(s, v, c)
  {
    HasIcs(v) ==>
      match Ical.Decode(c, s.ext)
      case None => File(v) !in s.forest.parent
      case Some(name) =>
        var p := UpdateParent(Edited(s, v, c), v);
        && (File(v) in s.forest.parent || NobodyNames(s, v))
        && (p.File? && p.vdir in s.disk ==> MarkHarmless(s.disk[p.vdir], 1, s.ext))
        && !TakenBeside(s.forest, p, File(v), name)
  }

  /** The parent a load gives to a readable file. */
  lemma DiskParentOf(disk: Disk, ext: string, w: string)
    requires Loadable(disk, ext, w)
    ensures File(w) in DiskParents(disk, ext)
    ensures DiskParents(disk, ext)[File(w)]
         == match Ical.GetParentUid(disk[w])
            case None => Some(Root)
            case Some(uid) => if Loadable(disk, ext, VdirName(uid)) then Some(IdOfUid(uid)) else None
  {
    hide HasIcs, Ical.Decode, Ical.GetParentUid;
  }

  lemma SameReadings(a: Disk, b: Disk, ext: string)
    requires forall w :: Loadable(a, ext, w) <==> Loadable(b, ext, w)
    requires forall w :: Loadable(a, ext, w) ==> w in a && w in b && a[w] == b[w]
    ensures DiskParents(a, ext) == DiskParents(b, ext)
    ensures Spawned(a, ext, a.Keys).name == Spawned(b, ext, b.Keys).name
  {
    hide Loadable, DiskParents, Spawned, DecodedName;
    DiskParentsNodes(a, ext);
    DiskParentsNodes(b, ext);
    SpawnedNames(a, ext);
    SpawnedNames(b, ext);
    forall w | Loadable(a, ext, w)
      ensures DiskParents(a, ext)[File(w)] == DiskParents(b, ext)[File(w)]
      ensures DecodedName(a, ext, File(w)) == DecodedName(b, ext, File(w))
    {
      DiskParentOf(a, ext, w);
      DiskParentOf(b, ext, w);
      SameDecoded(a, b, ext, w);
    }
    assert DiskParents(a, ext) == DiskParents(b, ext);
  }

  lemma SpawnedNames(disk: Disk, ext: string)
    ensures var names := Spawned(disk, ext, disk.Keys).name;
            && (forall n :: n in names <==> n == Root || (n.File? && Loadable(disk, ext, n.vdir)))
            && (forall n :: n in names ==> names[n] == DecodedName(disk, ext, n))
            && names[Root] == ""
  {
    hide HasIcs, Ical.Decode;
  }

  lemma SameDecoded(a: Disk, b: Disk, ext: string, w: string)
    requires Loadable(a, ext, w) && Loadable(b, ext, w) && a[w] == b[w]
    ensures DecodedName(a, ext, File(w)) == DecodedName(b, ext, File(w))
  {
  }

  lemma UnreadableEdit(s: State, t: State, v: string, c: Ical.Component)
    requires t == Edited(s, v, c) && !Loadable(s.disk, s.ext, v) && !Loadable(t.disk, t.ext, v)
    ensures DiskAgrees(t) <==> DiskAgrees(s)
  {
    hide HasIcs, Ical.Decode, DiskParents, Spawned;
    SameReadings(s.disk, t.disk, s.ext);
  }

  /** What the handling of a readable file leaves behind. */
  ghost predicate EditDone(s: State, t: State, v: string, c: Ical.Component, p: Id, name: string) {
    && WellLinked(s.forest) && WellLinked(t.forest) && SiblingsDistinct(t.forest)
    && t.ext == s.ext && t.forest.parent == s.forest.parent[File(v) := Some(p)]
    && (forall m :: m in s.forest.name && m != File(v) ==> m in t.forest.name && t.forest.name[m] == s.forest.name[m])
    && File(v) in t.forest.name && (t.forest.name[File(v)] == name <==> !TakenBeside(s.forest, p, File(v), name))
    && p in s.forest.parent && p != File(v) && (p == Root || (p.File? && p.vdir in s.disk))
    && t.disk == if p == Root then s.disk[v := c] else s.disk[v := c][p.vdir := MarkedOnce(s.disk[p.vdir])]
  }

  lemma FirstFreeIsName(f: Forest, p: Id, n: Id, name: string, found: string)
    requires f.name.Keys == f.parent.Keys && FirstFreeBeside(f, p, n, name, found)
    ensures found == name <==> !TakenBeside(f, p, n, name)
  {
    hide TakenBeside;
    var k :| 0 <= k && found == Candidate(name, k) && forall j :: 0 <= j < k ==>
          TakenBeside(f, p, n, Candidate(name, j));
    assert Candidate(name, 0) == name;
    CandidatesDiffer(name, k, 0);
  }

  lemma EditIsDone(s: State, v: string, c: Ical.Component, t: State, name: string)
    requires Inv(s) && HasIcs(v) && UpdateAllowed(Edited(s, v, c), v) && Ical.Decode(c, s.ext) == Some(name)
    requires t == Notified(Edited(s, v, c), v)
    ensures Inv(t) && EditDone(s, t, v, c, UpdateParent(Edited(s, v, c), v), name)
  {
    hide KidsOnce, KidsPointBack, ParentsPointBack, SiblingsDistinct, Acyclic, TakenBeside, FirstFreeBeside, HasIcs,
         MoveFuseNode, Upsert, Ical.Decode, Ical.IsDirectory, Ical.GetParentUid;
    var s1 := Edited(s, v, c);
    var p := UpdateParent(s1, v);
    VdirUpdateEffect(s1, v, t, VdirUpdate(s1, v).1);
    FirstFreeIsName(s.forest, p, File(v), name, t.forest.name[File(v)]);
  }

  lemma EditedLoadable(s: State, t: State, v: string, c: Ical.Component, p: Id, name: string)
    requires EditDone(s, t, v, c, p, name) && HasIcs(v) && Ical.Decode(c, s.ext) == Some(name)
    ensures forall w :: Loadable(t.disk, t.ext, w) <==> w == v || Loadable(s.disk, s.ext, w)
    ensures DecodedName(t.disk, t.ext, File(v)) == name
  {
    hide HasIcs, WellLinked, SiblingsDistinct, TakenBeside, Ical.IsDirectory, Ical.StoredExtension, MarkedOnce;
    if p != Root {
      MarkedOnceKeeps(s.disk[p.vdir], s.ext);
    }
  }

  lemma EditedTarget(s: State, t: State, v: string, c: Ical.Component, p: Id, name: string, w: string)
    requires EditDone(s, t, v, c, p, name) && w in s.disk && w != v
    ensures w in t.disk && Ical.GetParentUid(t.disk[w]) == Ical.GetParentUid(s.disk[w])
  {
    hide WellLinked, SiblingsDistinct, TakenBeside, MarkedOnce;
    if p != Root {
      MarkedOnceKeeps(s.disk[p.vdir], s.ext);
    }
  }

  lemma EditedParent(s: State, t: State, v: string, c: Ical.Component, p: Id, name: string, w: string)
    requires DiskAgrees(s) && EditDone(s, t, v, c, p, name) && HasIcs(v) && Ical.Decode(c, s.ext) == Some(name)
    requires w != v && Loadable(s.disk, s.ext, w)
    ensures File(w) in t.forest.parent && File(w) in DiskParents(t.disk, t.ext)
    ensures t.forest.parent[File(w)] == DiskParents(t.disk, t.ext)[File(w)]
       <==> File(v) in s.forest.parent || Ical.GetParentUid(s.disk[w]).None?
            || VdirName(Ical.GetParentUid(s.disk[w]).value) != v
  {
    hide HasIcs, WellLinked, SiblingsDistinct, TakenBeside, Ical.Decode, MarkedOnce, Ical.GetParentUid, DiskParents;
    EditedLoadable(s, t, v, c, p, name);
    EditedTarget(s, t, v, c, p, name, w);
    DiskParentOf(s.disk, s.ext, w);
    DiskParentOf(t.disk, t.ext, w);
    DiskParentsNodes(s.disk, s.ext);
  }

  /** The parents in memory are those in the files unless the file turns up as the missing parent of another. */
  lemma EditedParents(s: State, t: State, v: string, c: Ical.Component, p: Id, name: string)
    requires DiskAgrees(s) && EditDone(s, t, v, c, p, name) && HasIcs(v) && Ical.Decode(c, s.ext) == Some(name)
    requires p == UpdateParent(Edited(s, v, c), v)
    ensures t.forest.parent == DiskParents(t.disk, t.ext) <==> File(v) in s.forest.parent || NobodyNames(s, v)
  {
    hide HasIcs, WellLinked, SiblingsDistinct, TakenBeside, Ical.Decode, MarkedOnce, Ical.GetParentUid, DiskParents,
         UpdateParent, Loadable, EditDone, DiskAgrees;
    EditedOwnParent(s, t, v, c, p, name);
    var up := DiskParents(t.disk, t.ext);
    forall w | w != v && Loadable(s.disk, s.ext, w)
      ensures w in s.disk && File(w) in t.forest.parent && File(w) in up
      ensures t.forest.parent[File(w)] == up[File(w)]
         <==> File(v) in s.forest.parent || Ical.GetParentUid(s.disk[w]).None?
              || VdirName(Ical.GetParentUid(s.disk[w]).value) != v
    {
      LoadableHere(s, w);
      EditedParent(s, t, v, c, p, name, w);
    }
    if File(v) in s.forest.parent || NobodyNames(s, v) {
      assert t.forest.parent == up;
    }
  }

  lemma LoadableHere(s: State, w: string)
    requires Loadable(s.disk, s.ext, w)
    ensures w in s.disk
  {
  }

  lemma EditedOwnParent(s: State, t: State, v: string, c: Ical.Component, p: Id, name: string)
    requires DiskAgrees(s) && EditDone(s, t, v, c, p, name) && HasIcs(v) && Ical.Decode(c, s.ext) == Some(name)
    requires p == UpdateParent(Edited(s, v, c), v)
    ensures DiskParents(t.disk, t.ext).Keys == t.forest.parent.Keys
    ensures Root in t.forest.parent && File(v) in t.forest.parent && t.forest.parent[File(v)] == Some(p)
    ensures DiskParents(t.disk, t.ext)[File(v)] == Some(p) && DiskParents(t.disk, t.ext)[Root] == t.forest.parent[Root]
    ensures forall n :: n in t.forest.parent && n != Root && n != File(v) ==> n.File? && Loadable(s.disk, s.ext, n.vdir)
  {
    hide HasIcs, WellLinked, SiblingsDistinct, TakenBeside, Ical.Decode, MarkedOnce, Ical.GetParentUid, DiskParents;
    EditedLoadable(s, t, v, c, p, name);
    DiskParentsNodes(s.disk, s.ext);
    DiskParentsNodes(t.disk, t.ext);
    assert t.disk[v] == c;
    DiskParentOf(t.disk, t.ext, v);
  }

  lemma EditedName(s: State, t: State, v: string, c: Ical.Component, p: Id, name: string, w: string)
    requires DiskAgrees(s) && EditDone(s, t, v, c, p, name) && w != v && Loadable(s.disk, s.ext, w)
             && Loadable(t.disk, t.ext, w)
    ensures File(w) in t.forest.name
    ensures t.forest.name[File(w)] == DecodedName(t.disk, t.ext, File(w))
       <==> File(w) != p || MarkHarmless(s.disk[w], 1, s.ext)
  {
    hide HasIcs, WellLinked, SiblingsDistinct, TakenBeside, MarkHarmless, MarkedOnce, DiskParents, Ical.Decode;
    SummaryThere(s, w);
    MarkedDecodes(s.disk[w], 1, s.ext);
    assert MarkedTimes(s.disk[w], 0) == s.disk[w];
    assert MarkedTimes(s.disk[w], 1) == MarkedOnce(s.disk[w]);
  }

  lemma SummaryThere(s: State, w: string)
    requires Loadable(s.disk, s.ext, w)
    ensures s.disk[w].summary.Some?
  {
    hide HasIcs;
  }

  /** The names in memory are those in the files unless the parent loses its extension or the name was taken. */
  lemma EditedNames(s: State, t: State, v: string, c: Ical.Component, p: Id, name: string)
    requires DiskAgrees(s) && EditDone(s, t, v, c, p, name) && HasIcs(v) && Ical.Decode(c, s.ext) == Some(name)
    requires t.forest.parent == DiskParents(t.disk, t.ext)
    ensures DiskAgrees(t)
       <==> (p != Root ==> MarkHarmless(s.disk[p.vdir], 1, s.ext)) && !TakenBeside(s.forest, p, File(v), name)
  {
    hide HasIcs, WellLinked, SiblingsDistinct, TakenBeside, Ical.Decode, MarkHarmless, DiskAgrees, MarkedOnce;
    EditedLoadable(s, t, v, c, p, name);
    NamesDecide(t);
    AgreedIsLoadable(s, p);
    forall w | w != v && Loadable(s.disk, s.ext, w)
      ensures t.forest.name[File(w)] == DecodedName(t.disk, t.ext, File(w))
         <==> File(w) != p || MarkHarmless(s.disk[w], 1, s.ext)
    {
      EditedName(s, t, v, c, p, name, w);
    }
  }

  lemma AgreedIsLoadable(s: State, n: Id)
    requires DiskAgrees(s) && n in s.forest.parent
    ensures n != Root ==> n.File? && Loadable(s.disk, s.ext, n.vdir)
  {
    DiskParentsNodes(s.disk, s.ext);
  }

  /** From a state that agrees with its files, a foreign change leaves memory what the next load builds exactly when
      it meets the condition. */
  lemma ForeignEditReloads(s: State, v: string, c: Ical.Component, t: State)
    requires Inv(s) && ReloadAgrees(s) && EditAllowed(s, v, c) && t == Notified(Edited(s, v, c), v)
    ensures Inv(t)
    ensures ReloadAgrees(t) <==> EditKeeps(s, v, c)
  {
    hide WellLinked, SiblingsDistinct, Acyclic, ReloadAgrees, DiskAgrees, HasIcs, Ical.Decode, TakenBeside,
         MarkHarmless,
         NobodyNames, EditDone, VdirUpdate, UpdateAllowed;
    ForestOf(s);
    ReloadIffDiskAgrees(s);
    if !HasIcs(v) {
      NotReadable(s, v, c);
      UnreadableEdit(s, t, v, c);
    } else {
      match Ical.Decode(c, s.ext)
      case None =>
        UndecodedIsIgnored(s, v, c);
        if File(v) in s.forest.parent {
          AgreedUntil(t, File(v));
        } else {
          NotANode(s, v);
          UnreadableEdit(s, t, v, c);
        }
      case Some(name) =>
        var p := UpdateParent(Edited(s, v, c), v);
        EditIsDone(s, v, c, t, name);
        EditedParents(s, t, v, c, p, name);
        ParentHasFile(s, t, v, c, p, name);
        if t.forest.parent == DiskParents(t.disk, t.ext) {
          EditedNames(s, t, v, c, p, name);
        } else {
          ParentsDecide(t);
        }
    }
    ForestOf(t);
    ReloadIffDiskAgrees(t);
  }

  lemma ForestOf(s: State)
    requires Inv(s)
    ensures WellLinked(s.forest) && SiblingsDistinct(s.forest)
  {
  }

  lemma ParentsDecide(t: State)
    requires t.forest.parent != DiskParents(t.disk, t.ext)
    ensures !DiskAgrees(t)
  {
  }

  lemma ParentHasFile(s: State, t: State, v: string, c: Ical.Component, p: Id, name: string)
    requires EditDone(s, t, v, c, p, name)
    ensures p.File? <==> p != Root
    ensures p != Root ==> p.vdir in s.disk
  {
  }

  lemma NotReadable(s: State, v: string, c: Ical.Component)
    requires !HasIcs(v)
    ensures !Loadable(s.disk, s.ext, v) && !Loadable(Edited(s, v, c).disk, s.ext, v)
  {
  }

  lemma UndecodedIsIgnored(s: State, v: string, c: Ical.Component)
    requires WellLinked(s.forest) && UpdateAllowed(Edited(s, v, c), v) && Ical.Decode(c, s.ext) == None
    ensures VdirUpdate(Edited(s, v, c), v).0 == Edited(s, v, c)
    ensures !Loadable(Edited(s, v, c).disk, s.ext, v)
  {
    hide WellLinked, HasIcs, Ical.Decode;
  }

  lemma NotANode(s: State, v: string)
    requires DiskAgrees(s) && File(v) !in s.forest.parent
    ensures !Loadable(s.disk, s.ext, v)
  {
    DiskParentsNodes(s.disk, s.ext);
  }

  lemma AgreedUntil(t: State, n: Id)
    requires n in t.forest.parent && n.File? && !Loadable(t.disk, t.ext, n.vdir)
    ensures !DiskAgrees(t)
  {
    DiskParentsNodes(t.disk, t.ext);
  }
}
