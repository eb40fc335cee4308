/** Memory and disk: when the tree in memory is the one a fresh load of the vdir would build. */
module Reloads {
  import opened Wrappers
  import opened Seqs
  import opened Forests
  import opened PathMaps
  import opened FreeNames
  import opened Model
  import opened Loads
  import Ical
  import Paths

  /** The same names and parents; the order of children is left open. */
  ghost predicate SameTree(f: Forest, g: Forest) {
    f.parent == g.parent && f.name == g.name
  }

  /** Every load of the vdir, in whatever order it lists the files, rebuilds the tree in memory. */
  ghost predicate ReloadAgrees(s: State) {
    forall order :: LoadOrder(s.disk, s.ext, order) ==> SameTree(Load(s.disk, s.ext, order).forest, s.forest)
  }

  /** No load of the vdir rebuilds the tree in memory, in whatever order it lists the files. */
  ghost predicate NoLoadRebuilds(s: State) {
    forall order :: LoadOrder(s.disk, s.ext, order) ==> !SameTree(Load(s.disk, s.ext, order).forest, s.forest)
  }

  /** Every file decodes to the name and the parent its node has, and no other file is readable. */
  ghost predicate DiskAgrees(s: State) {
    s.forest.parent == DiskParents(s.disk, s.ext) && s.forest.name == Spawned(s.disk, s.ext, s.disk.Keys).name
  }

  lemma {:induction false} SomeOrder(keys: set<string>) returns (order: seq<string>)
    ensures Distinct(order) && forall v :: v in order <==> v in keys
  {
    if keys == {} {
      order := [];
    } else {
      var v :| v in keys;
      var rest := SomeOrder(keys - {v});
      order := [v] + rest;
    }
  }

  ghost function LoadableKeys(s: State): set<string> {
    set v | v in s.disk && Loadable(s.disk, s.ext, v)
  }

  lemma OrderFrom(s: State, v: string) returns (order: seq<string>)
    requires Loadable(s.disk, s.ext, v)
    ensures LoadOrder(s.disk, s.ext, order) && order != [] && order[0] == v
  {
    var rest := SomeOrder(LoadableKeys(s) - {v});
    order := [v] + rest;
  }

  /** The file placed first keeps its decoded name. */
  lemma {:induction false} FirstKeepsName(start: State, order: seq<string>)
    requires ReadyToPlace(start, order) && order != []
    ensures PlaceAll(start, order).forest.name[File(order[0])] == start.forest.name[File(order[0])]
    decreases |order|
  {
    hide WellLinked, SiblingsDistinct, SameLinks, Place, Target;
    var init, v := order[..|order| - 1], order[|order| - 1];
    var s := PlaceAll(start, init);
    assert order == init + [v];
    PlacedStep(start, init, s, v);
    if init == [] {
      PlaceFirst(start, v);
    } else {
      FirstKeepsName(start, init);
      PlaceForest(s, v);
      StillNamed(start, init, File(order[0]));
    }
  }

  lemma StillNamed(start: State, placed: seq<string>, n: Id)
    requires ReadyToPlace(start, placed) && n in start.forest.parent
    ensures n in PlaceAll(start, placed).forest.name
  {
  }

  lemma PlaceFirst(start: State, v: string)
    requires ReadyToPlace(start, [v])
    ensures File(v) in start.forest.parent && NodesOnDisk(start)
    ensures Place(start, v).forest.name == start.forest.name
  {
    hide WellLinked, SiblingsDistinct, Place;
    assert File([v][0]) in start.forest.parent;
    PlaceKeepsName(start, v);
  }

  lemma LoadNode(s: State, order: seq<string>, v: string)
    requires LoadOrder(s.disk, s.ext, order) && order != [] && order[0] == v
    ensures Loadable(s.disk, s.ext, v) && File(v) in Load(s.disk, s.ext, order).forest.name
    ensures Load(s.disk, s.ext, order).forest.name[File(v)] == DecodedName(s.disk, s.ext, File(v))
  {
    hide WellLinked, SiblingsDistinct, SameLinks, Place, Target;
    assert order[0] in order;
    LoadReady(s.disk, s.ext, order);
    FirstKeepsName(BeforePlacing(s.disk, s.ext), order);
    StillNamed(BeforePlacing(s.disk, s.ext), order, File(v));
  }

  lemma LoadNames(s: State, order: seq<string>)
    requires LoadOrder(s.disk, s.ext, order) && WellLinked(s.forest) && SiblingsDistinct(s.forest) && DiskAgrees(s)
    ensures Load(s.disk, s.ext, order).forest.name == s.forest.name
  {
    hide WellLinked, SameLinks, Place, Target, PlaceAll;
    var start := BeforePlacing(s.disk, s.ext);
    LoadReady(s.disk, s.ext, order);
    assert start.forest.parent.Keys == {Root} + LoadableIds(s.disk, s.ext, s.disk.Keys);
    forall a, b | a in order && b in order && a != b && a in start.disk && b in start.disk
                  && File(a) in start.forest.name && File(b) in start.forest.name
                  && Target(start.disk, start.forest.parent.Keys, a).Some?
                  && Target(start.disk, start.forest.parent.Keys, a) == Target(start.disk, start.forest.parent.Keys, b)
      ensures start.forest.name[File(a)] != start.forest.name[File(b)]
    {
      assert DiskParents(s.disk, s.ext)[File(a)] == Target(start.disk, start.forest.parent.Keys, a);
      assert DiskParents(s.disk, s.ext)[File(b)] == Target(start.disk, start.forest.parent.Keys, b);
      assert Siblings(s.forest, File(a), File(b));
    }
    PlaceAllKeepsNames(start, order);
  }

  /** Agreement with every possible load comes down to each file saying what its node says. */
  lemma ReloadIffDiskAgrees(s: State)
    requires WellLinked(s.forest) && SiblingsDistinct(s.forest)
    ensures ReloadAgrees(s) <==> DiskAgrees(s)
  {
    hide KidsPointBack, ParentsPointBack, KidsOnce, SiblingsDistinct, SameLinks, Load, DiskParents;
    if DiskAgrees(s) {
      forall order | LoadOrder(s.disk, s.ext, order)
        ensures SameTree(Load(s.disk, s.ext, order).forest, s.forest)
      {
        LoadIsOrderIndependent(s.disk, s.ext, order);
        LoadNames(s, order);
      }
    }
    if ReloadAgrees(s) {
      var order := SomeOrder(LoadableKeys(s));
      LoadIsOrderIndependent(s.disk, s.ext, order);
      assert s.forest.parent == DiskParents(s.disk, s.ext);
      ReloadFixesNames(s);
    }
  }

  lemma ReloadFixesNames(s: State)
    requires WellLinked(s.forest) && ReloadAgrees(s) && s.forest.parent == DiskParents(s.disk, s.ext)
    ensures s.forest.name == Spawned(s.disk, s.ext, s.disk.Keys).name
  {
    hide KidsPointBack, ParentsPointBack, KidsOnce, SameLinks, Load;
    var names := Spawned(s.disk, s.ext, s.disk.Keys).name;
    assert names.Keys == s.forest.name.Keys;
    forall n | n in names
      ensures s.forest.name[n] == names[n]
    {
      if n != Root {
        var order := OrderFrom(s, n.vdir);
        LoadNode(s, order, n.vdir);
        assert SameTree(Load(s.disk, s.ext, order).forest, s.forest);
      }
    }
  }

  // ----- what no load rebuilds -----

  /** A load gives every file its decoded name or a numbered variant of it. */
  lemma {:induction false} PlacedName(start: State, order: seq<string>, v: string)
    requires ReadyToPlace(start, order) && File(v) in start.forest.parent
    ensures File(v) in PlaceAll(start, order).forest.name
    ensures NumberedFrom(start.forest.name[File(v)], PlaceAll(start, order).forest.name[File(v)])
    ensures v !in order ==> PlaceAll(start, order).forest.name[File(v)] == start.forest.name[File(v)]
    decreases |order|
  {
    hide WellLinked, SiblingsDistinct, SameLinks, Place, PlacedSoFar, ReadyToPlace, NodesOnDisk;
    if order == [] {
      StillNamed(start, order, File(v));
      assert Candidate(start.forest.name[File(v)], 0) == start.forest.name[File(v)];
    } else {
      var init, w := order[..|order| - 1], order[|order| - 1];
      ReadyButOne(start, order);
      var s := PlaceAll(start, init);
      PlacedName(start, init, v);
      PlacedStep(start, init, s, w);
      PlacedForest(start, init, s);
      StillNamed(start, order, File(v));
      PlaceForest(s, w);
      PlaceName(s, w);
    }
  }

  ghost predicate NumberedFrom(filename: string, name: string) {
    exists k: nat :: name == Candidate(filename, k)
  }

  lemma PlacedForest(start: State, placed: seq<string>, s: State)
    requires PlacedSoFar(start, placed, s)
    ensures WellLinked(s.forest) && SiblingsDistinct(s.forest) && NodesOnDisk(s)
  {
  }

  lemma PlaceName(s: State, v: string)
    requires WellLinked(s.forest) && SiblingsDistinct(s.forest) && NodesOnDisk(s)
    requires File(v) in s.forest.parent && s.forest.parent[File(v)] == None && File(v) in s.forest.name
    ensures File(v) in Place(s, v).forest.name && NumberedFrom(s.forest.name[File(v)], Place(s, v).forest.name[File(v)])
  {
    hide KidsPointBack, ParentsPointBack, KidsOnce, SiblingsDistinct, FreeName;
    var name := s.forest.name[File(v)];
    assert Candidate(name, 0) == name;
    assert Detach(s.forest, File(v)) == s.forest;
  }

  lemma CandidateLength(filename: string, name: string)
    requires NumberedFrom(filename, name)
    ensures name == filename || |name| > |filename| + 1
  {
    var k: nat :| name == Candidate(filename, k);
    Paths.FilenameNumberedInjective(filename, k, k);
  }

  /** The file at `v` names another parent than memory has, or decodes to nothing the name in memory comes from. */
  ghost predicate Astray(s: State, v: string) {
    && v in s.disk && File(v) in s.forest.parent && File(v) in s.forest.name
    && (Target(s.disk, s.forest.parent.Keys, v) != s.forest.parent[File(v)]
        || Ical.Unrecoverable(Ical.Decode(s.disk[v], s.ext), s.forest.name[File(v)]))
  }

  /** One such file is enough for every load to go another way. */
  lemma AstrayIsNeverRebuilt(s: State, v: string)
    requires Astray(s, v)
    ensures NoLoadRebuilds(s)
  {
    forall order | LoadOrder(s.disk, s.ext, order)
      ensures !SameTree(Load(s.disk, s.ext, order).forest, s.forest)
    {
      AstrayIn(s, v, order);
    }
  }

  lemma AstrayIn(s: State, v: string, order: seq<string>)
    requires Astray(s, v) && LoadOrder(s.disk, s.ext, order)
    ensures !SameTree(Load(s.disk, s.ext, order).forest, s.forest)
  {
    hide WellLinked, SiblingsDistinct, SameLinks, PlaceAll, ReadyToPlace, Place, Ical.Decode, HasIcs, Target;
    var t, start := Load(s.disk, s.ext, order), BeforePlacing(s.disk, s.ext);
    LoadIsOrderIndependent(s.disk, s.ext, order);
    LoadReady(s.disk, s.ext, order);
    if SameTree(t.forest, s.forest) {
      assert File(v) in start.forest.parent;
      assert Loadable(s.disk, s.ext, v);
      PlacedName(start, order, v);
      CandidateLength(start.forest.name[File(v)], t.forest.name[File(v)]);
    }
  }

  /** A node without a readable file is something no load rebuilds. */
  lemma UnreadableIsNeverRebuilt(s: State, n: Id)
    requires n in s.forest.parent && n != Root && !(n.File? && Loadable(s.disk, s.ext, n.vdir))
    ensures NoLoadRebuilds(s)
  {
    hide Load, WellLinked, SiblingsDistinct, SameLinks, Loadable, DiskParents;
    DiskParentsNodes(s.disk, s.ext);
    forall order | LoadOrder(s.disk, s.ext, order)
      ensures !SameTree(Load(s.disk, s.ext, order).forest, s.forest)
    {
      LoadIsOrderIndependent(s.disk, s.ext, order);
      assert n !in DiskParents(s.disk, s.ext);
    }
  }

  // ----- files that agree one by one -----

  /** The vdir of a file system that has only been changed through its own handlers: every file belongs to an
      attached node, is named after its uid, repeats no X- property, has at most one parent link,
      and is marked as a directory if its node has children. */
  ghost predicate CleanFile(s: State, v: string)
    requires v in s.disk
  {
    && File(v) in s.forest.parent && s.forest.parent[File(v)].Some?
    && v == VdirName(s.disk[v].uid)
    && Ical.UniqueX(s.disk[v].xprops) && |Ical.ParentUids(s.disk[v].related)| <= 1
    && (File(v) in s.forest.kids && s.forest.kids[File(v)] != [] ==> Ical.IsDirectory(s.disk[v]))
  }

  ghost predicate Clean(s: State) {
    forall v :: v in s.disk ==> CleanFile(s, v)
  }

  lemma VdirNameHasIcs(uid: string)
    ensures HasIcs(VdirName(uid))
  {
    var v := VdirName(uid);
    assert v[|uid|..|uid| + 4] == ".ics";
    assert IcsAt(v, |uid|);
  }

  lemma DiskAgreesIffEachFile(s: State)
    requires WellLinked(s.forest) && Clean(s) && NodesOnDisk(s)
    ensures DiskAgrees(s) <==> forall v :: v in s.disk ==> AgreesAt(s, v)
  {
    hide KidsPointBack, ParentsPointBack, KidsOnce, HasIcs, DiskAgrees, AgreesAt, Ical.UniqueX, Ical.IsDirectory;
    forall v | v in s.disk
      ensures HasIcs(v)
    {
      assert CleanFile(s, v);
      VdirNameHasIcs(s.disk[v].uid);
    }
    if forall v :: v in s.disk ==> AgreesAt(s, v) {
      AgreedFilesAgree(s);
    }
    if DiskAgrees(s) {
      forall v | v in s.disk
        ensures AgreesAt(s, v)
      {
        FileOfAgreed(s, v);
      }
    }
  }

  lemma FileOfAgreed(s: State, v: string)
    requires WellLinked(s.forest) && DiskAgrees(s) && v in s.disk && CleanFile(s, v) && HasIcs(v)
    ensures AgreesAt(s, v)
  {
    hide KidsPointBack, ParentsPointBack, KidsOnce, HasIcs, Ical.Decode, Ical.UniqueX, Ical.IsDirectory;
    assert File(v) in DiskParents(s.disk, s.ext);
  }

  lemma AgreedFilesAgree(s: State)
    requires WellLinked(s.forest) && NodesOnDisk(s)
    requires forall v :: v in s.disk ==> AgreesAt(s, v) && HasIcs(v)
    ensures DiskAgrees(s)
  {
    hide KidsPointBack, ParentsPointBack, KidsOnce, HasIcs, Target;
    var nodes := {Root} + LoadableIds(s.disk, s.ext, s.disk.Keys);
    assert s.forest.parent.Keys == nodes;
    assert s.forest.parent == DiskParents(s.disk, s.ext);
  }
}
