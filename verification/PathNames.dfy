/** Path strings: which nodes a path leads to, and what keeps every node within reach of one. */
module PathNames {
  import opened Wrappers
  import opened Forests
  import opened PathMaps
  import opened FreeNames
  import opened Model
  import opened Handlers
  import opened Loads
  import opened Reloads
  import opened Runs
  import opened Agreement
  import opened ForeignFiles
  import Ical
  import Paths

  // ----- building a path and looking it up -----

  /** The root is `k` steps above `n`, and none of the names on the way is empty or has a slash. */
  ghost predicate Spelled(f: Forest, n: Id, k: nat)
    requires WellLinked(f)
  {
    n in f.parent && Climb(f.parent, n, k) == Some(Root) && Paths.ValidNames(AncestorNames(f, n, k))
  }

  /** The path built from the ancestor names of a node leads back to it. */
  lemma JoinedPathLeadsBack(s: State, n: Id, k: nat)
    requires Inv(s) && Spelled(s.forest, n, k)
    ensures GetNode(s, Paths.Join(AncestorNames(s.forest, n, k))) == Some(n)
  {
    hide WellLinked, SiblingsDistinct, Acyclic, Lookup;
    ReachableIsNamed(s.forest, n, k);
    Paths.SplitJoin(AncestorNames(s.forest, n, k));
    LookupIffNamed(s.forest, n, AncestorNames(s.forest, n, k));
  }

  /** A node found by a path is spelled out by its segments. */
  lemma FoundIsSpelled(s: State, path: string, n: Id)
    requires Inv(s) && GetNode(s, path) == Some(n)
    ensures Spelled(s.forest, n, |Paths.Split(path)|)
    ensures AncestorNames(s.forest, n, |Paths.Split(path)|) == Paths.Split(path)
  {
    hide WellLinked, SiblingsDistinct, Acyclic, Lookup;
    var segments := Paths.Split(path);
    LookupIffNamed(s.forest, n, segments);
    NamedIsReachable(s.forest, n, segments);
    ReachableIsNamed(s.forest, n, |segments|);
    TopOf(s.forest);
    PathUnique(s.forest, n, segments, AncestorNames(s.forest, n, |segments|));
    Paths.SplitSegmentsAreValid(path);
  }

  lemma TopOf(f: Forest)
    requires WellLinked(f)
    ensures RootOnTop(f)
  {
  }

  /** Exactly the nodes with valid ancestor names below the root can be reached by a path. */
  lemma ReachedIffSpelled(s: State, n: Id)
    requires Inv(s)
    ensures (exists path :: GetNode(s, path) == Some(n)) <==> exists k: nat :: Spelled(s.forest, n, k)
  {
    hide GetNode, Spelled;
    if exists path :: GetNode(s, path) == Some(n) {
      var path :| GetNode(s, path) == Some(n);
      FoundIsSpelled(s, path, n);
    }
    if k: nat :| Spelled(s.forest, n, k) {
      JoinedPathLeadsBack(s, n, k);
    }
  }

  // ----- which names keep nodes within reach -----

  /** The names of all attached nodes can stand in a path. */
  ghost predicate Tidy(f: Forest)
    requires WellLinked(f)
  {
    forall n :: n in f.parent && f.parent[n].Some? ==> Paths.ValidName(f.name[n])
  }

  lemma {:induction false} TidyAncestors(f: Forest, n: Id, k: nat)
    requires WellLinked(f) && Tidy(f) && n in f.parent && Climb(f.parent, n, k).Some?
    ensures Paths.ValidNames(AncestorNames(f, n, k))
    decreases k
  {
    if k > 0 {
      TidyAncestors(f, f.parent[n].value, k - 1);
    }
  }

  /** With such names every node below the root is found by the path built from its ancestor names. */
  lemma TidyIsReachable(s: State, n: Id)
    requires Inv(s) && Tidy(s.forest) && n in s.forest.parent
    ensures (exists path :: GetNode(s, path) == Some(n)) <==> Above(s.forest.parent, Root, n)
  {
    hide GetNode, SiblingsDistinct, Acyclic, KidsOnce, KidsPointBack, ParentsPointBack;
    ReachedIffSpelled(s, n);
    if Above(s.forest.parent, Root, n) {
      var k: nat :| Climb(s.forest.parent, n, k) == Some(Root);
      TidyAncestors(s.forest, n, k);
      assert Spelled(s.forest, n, k);
    }
    if k: nat :| Spelled(s.forest, n, k) {
      assert Climb(s.forest.parent, n, k) == Some(Root);
    }
  }

  /** A name that cannot stand in a path puts its node out of reach. */
  lemma UntidyIsLost(s: State, n: Id, path: string)
    requires Inv(s) && n in s.forest.parent && s.forest.parent[n].Some? && !Paths.ValidName(s.forest.name[n])
    ensures GetNode(s, path) != Some(n)
  {
    if GetNode(s, path) == Some(n) {
      FoundIsSpelled(s, path, n);
      var segments := Paths.Split(path);
      LookupIffNamed(s.forest, n, segments);
      Paths.SplitSegmentsAreValid(path);
    }
  }

  // ----- steps -----

  lemma CandidateValid(filename: string, k: nat)
    ensures '/' in Candidate(filename, k) <==> '/' in filename
    ensures filename != "" ==> (Paths.ValidName(Candidate(filename, k)) <==> Paths.ValidName(filename))
  {
    if k > 0 {
      NumberedSlash(filename, k);
      Paths.FilenameNumberedInjective(filename, k, k);
    }
  }

  lemma NumberedSlash(filename: string, k: nat)
    ensures '/' in Paths.FilenameNumbered(filename, k) <==> '/' in filename
  {
    DigitsOnly(k);
    match Paths.LastIndex(filename, '.')
    case None =>
    case Some(dot) => assert filename == filename[..dot] + filename[dot..];
  }

  lemma {:induction false} DigitsOnly(n: nat)
    ensures '/' !in Paths.Decimal(n)
  {
    if n >= 10 {
      DigitsOnly(n / 10);
    }
  }

  /** What decides beforehand whether a step keeps all names fit for paths: only a foreign file can bring one
      that is not. */
  ghost predicate StepTidy(ext: string, step: Step) {
    match step
    case VdirStep(v, c) => HasIcs(v) && Ical.Decode(c, ext).Some? ==> Paths.ValidName(Ical.Decode(c, ext).value)
    case _ => true
  }

  lemma DeleteTidy(s: State, n: Id)
    requires Inv(s) && Tidy(s.forest) && Leaf(s, n) && n.File?
    ensures Inv(Delete(s, n)) && Tidy(Delete(s, n).forest)
  {
    hide Acyclic, SiblingsDistinct, KidsOnce, KidsPointBack, ParentsPointBack;
    DeleteInv(s, n);
  }

  lemma CreateTidy(s: State, path: string, uid: string, etype: EntryType, t: State, status: Status)
    requires Inv(s) && Tidy(s.forest) && FreshUid(s, uid) && Create(s, path, uid, etype) == (t, status) && Inv(t)
    ensures Tidy(t.forest)
  {
    hide Acyclic, SiblingsDistinct, KidsOnce, KidsPointBack, ParentsPointBack, Lookup;
    if status == OK {
      CreateWrites(s, path, uid, etype, t);
    }
  }

  lemma DoRenameTidy(s: State, src: string, dst: string, t: State)
    requires Inv(s) && Tidy(s.forest) && RenameAllowed(s, src, dst) && GetNode(s, dst) == None
    requires DoRename(s, src, dst) == (t, OK) && Inv(t)
    ensures Tidy(t.forest)
  {
    hide Acyclic, SiblingsDistinct, KidsOnce, KidsPointBack, ParentsPointBack, Lookup, RenamedFile;
    DoRenameInv(s, src, dst, t);
  }

  lemma RenameTidy(s: State, src: string, dst: string, t: State, status: Status)
    requires Inv(s) && Tidy(s.forest) && RenameAllowed(s, src, dst) && Rename(s, src, dst) == (t, status) && Inv(t)
    ensures Tidy(t.forest)
  {
    hide Acyclic, SiblingsDistinct, WellLinked, Lookup, Tidy, DoRename;
    if status == OK {
      RenameOkHasTarget(s, src, dst, t);
      match GetNode(s, dst)
      case None => DoRenameTidy(s, src, dst, t);
      case Some(e) =>
        FoundLeaf(s, dst);
        RenameStillAllowed(s, src, dst, e);
        DeletePaths(s, e, dst);
        DeleteTidy(s, e);
        DoRenameTidy(Delete(s, e), src, dst, t);
    } else {
      RenameEffect(s, src, dst, t, status);
    }
  }

  lemma NothingNamedEmpty(f: Forest, p: Id, n: Id)
    requires WellLinked(f) && Tidy(f)
    ensures !TakenBeside(f, p, n, "")
  {
  }

  lemma VdirTidy(s: State, v: string, c: Ical.Component, t: State)
    requires Inv(s) && Tidy(s.forest) && HasIcs(v) && UpdateAllowed(Edited(s, v, c), v)
    requires Ical.Decode(c, s.ext).Some? && t == Notified(Edited(s, v, c), v) && Inv(t)
    ensures Tidy(t.forest) <==> Paths.ValidName(Ical.Decode(c, s.ext).value)
  {
    hide Acyclic, SiblingsDistinct, KidsOnce, KidsPointBack, ParentsPointBack, HasIcs, TakenBeside, Ical.Decode,
         VdirUpdate,
         UpdateAllowed, Candidate;
    var s1, name := Edited(s, v, c), Ical.Decode(c, s.ext).value;
    var p := UpdateParent(s1, v);
    VdirUpdateEffect(s1, v, t, VdirUpdate(s1, v).1);
    var found := t.forest.name[File(v)];
    NothingNamedEmpty(s.forest, p, File(v));
    FirstFreeValid(s.forest, p, File(v), name, found);
  }

  lemma FirstFreeValid(f: Forest, p: Id, n: Id, name: string, found: string)
    requires f.name.Keys == f.parent.Keys && FirstFreeBeside(f, p, n, name, found) && !TakenBeside(f, p, n, "")
    ensures Paths.ValidName(found) <==> Paths.ValidName(name)
  {
    hide TakenBeside, Candidate;
    var k :| 0 <= k && found == Candidate(name, k) && forall j :: 0 <= j < k ==>
          TakenBeside(f, p, n, Candidate(name, j));
    CandidateValid(name, k);
    FirstCandidate(name);
  }

  lemma FirstCandidate(name: string)
    ensures Candidate(name, 0) == name
  {
  }

  /** Every step keeps every node within reach of a path, unless a foreign file decodes to a name with a slash
      or to none. */
  lemma StepKeepsTidy(s: State, step: Step)
    requires Inv(s) && Allowed(s, step) && Tidy(s.forest)
    ensures Inv(Apply(s, step))
    ensures Tidy(Apply(s, step).forest) <==> StepTidy(s.ext, step)
  {
    hide Acyclic, SiblingsDistinct, WellLinked, Lookup, Tidy, HasIcs, Ical.Decode, Create, Rename, VdirUpdate,
         UpdateAllowed, Delete, NodeIsDirectory;
    StepKeepsInv(s, step);
    match step
    case CreateStep(path, uid, etype) =>
      CreateTidy(s, path, uid, etype, Apply(s, step), Create(s, path, uid, etype).1);
    case UnlinkStep(path) =>
      FoundLeaf(s, path);
      FileLeaf(s, path);
      if Unlink(s, path).1 == OK {
        DeleteTidy(s, GetNode(s, path).value);
      }
    case RmdirStep(path) =>
      FoundLeaf(s, path);
      if Rmdir(s, path).1 == OK {
        DeleteTidy(s, GetNode(s, path).value);
      }
    case RenameStep(src, dst) =>
      RenameTidy(s, src, dst, Apply(s, step), Rename(s, src, dst).1);
    case WriteStep(_, _, _) =>
    case VdirStep(v, c) =>
      if HasIcs(v) {
        if Ical.Decode(c, s.ext).Some? {
          VdirTidy(s, v, c, Apply(s, step));
        } else {
          UndecodedIsIgnored(s, v, c);
        }
      }
  }

  lemma FileLeaf(s: State, path: string)
    requires Inv(s)
    ensures var n := GetNode(s, path);
            n.Some? && !NodeIsDirectory(s, n.value) ==> n.value != Root && s.forest.kids[n.value] == []
  {
    hide WellLinked, SiblingsDistinct, Acyclic, Lookup;
  }

  // ----- runs -----

  lemma StepKeepsExt(s: State, step: Step)
    requires Inv(s) && Allowed(s, step)
    ensures Apply(s, step).ext == s.ext
  {
    hide Lookup, WellLinked, SiblingsDistinct, Acyclic, GetNode, UpdateAllowed;
    match step
    case RenameStep(src, dst) => RenameKeepsExt(s, src, dst);
    case _ =>
  }

  lemma RenameKeepsExt(s: State, src: string, dst: string)
    requires Inv(s) && RenameAllowed(s, src, dst)
    ensures Rename(s, src, dst).0.ext == s.ext
  {
    hide Lookup, WellLinked, SiblingsDistinct, Acyclic;
    match GetNode(s, dst)
    case None =>
    case Some(e) =>
      FoundLeaf(s, dst);
      if s.forest.kids[e] == [] {
        DeletePaths(s, e, dst);
      }
  }

  lemma {:induction false} RunKeepsTidy(s: State, steps: seq<Step>)
    requires Inv(s) && AllowedRun(s, steps) && Tidy(s.forest)
    requires forall i :: 0 <= i < |steps| ==> StepTidy(s.ext, steps[i])
    ensures Tidy(Run(s, steps).forest)
    decreases |steps|
  {
    hide Inv, WellLinked, Tidy, StepTidy, Apply, Allowed;
    if steps != [] {
      StepKeepsTidy(s, steps[0]);
      StepKeepsExt(s, steps[0]);
      RunKeepsTidy(Apply(s, steps[0]), steps[1..]);
    }
  }

  /** After every run without badly named foreign files, a path leads to every node below the root and to no other. */
  lemma RunReachesAll(s: State, steps: seq<Step>, n: Id)
    requires Inv(s) && AllowedRun(s, steps) && Tidy(s.forest)
    requires forall i :: 0 <= i < |steps| ==> StepTidy(s.ext, steps[i])
    requires n in Run(s, steps).forest.parent
    ensures (exists path :: GetNode(Run(s, steps), path) == Some(n)) <==> Above(Run(s, steps).forest.parent, Root, n)
  {
    hide Inv, WellLinked, Tidy, StepTidy, Run, AllowedRun, GetNode;
    RunKeepsTidy(s, steps);
    TidyIsReachable(Run(s, steps), n);
  }

  // ----- a load -----

  /** Some attached node has no name at all. */
  ghost predicate HasNameless(f: Forest)
    requires WellLinked(f)
  {
    exists n :: n in f.parent && f.parent[n].Some? && f.name[n] == ""
  }

  lemma PlacedNameless(s: State, v: string)
    requires WellLinked(s.forest) && SiblingsDistinct(s.forest) && NodesOnDisk(s)
    requires File(v) in s.forest.parent && s.forest.parent[File(v)] == None
    requires WellLinked(Place(s, v).forest)
    ensures HasNameless(s.forest) ==> HasNameless(Place(s, v).forest)
    ensures s.forest.name[File(v)] == "" && Target(s.disk, s.forest.parent.Keys, v).Some? ==>
              HasNameless(Place(s, v).forest)
  {
    hide KidsOnce, SiblingsDistinct, Candidate;
    PlaceForest(s, v);
    var f, g, n := s.forest, Place(s, v).forest, File(v);
    if HasNameless(f) {
      var m :| m in f.parent && f.parent[m].Some? && f.name[m] == "";
      assert g.parent[m].Some? && g.name[m] == "";
    }
    if f.name[n] == "" && Target(s.disk, f.parent.Keys, v).Some? {
      var p := Target(s.disk, f.parent.Keys, v).value;
      assert Detach(f, n) == f;
      KidsAreNamed(f, p);
      var taken := NamesOf(f, f.kids[p]);
      FirstCandidate("");
      if "" in taken {
        var i :| 0 <= i < |taken| && taken[i] == "";
        assert f.kids[p][i] in f.kids[p];
        assert f.parent[f.kids[p][i]].Some? && f.name[f.kids[p][i]] == "";
      } else {
        FreeNameIsFirst(taken, "", 0);
        assert g.parent[n].Some? && g.name[n] == "";
      }
    }
  }

  lemma {:induction false} NamelessStays(start: State, order: seq<string>, v: string)
    requires ReadyToPlace(start, order) && v in order && File(v) in start.forest.parent && v in start.disk
    requires start.forest.name[File(v)] == "" && Target(start.disk, start.forest.parent.Keys, v).Some?
    ensures WellLinked(PlaceAll(start, order).forest) && HasNameless(PlaceAll(start, order).forest)
    decreases |order|
  {
    hide WellLinked, SiblingsDistinct, SameLinks, Place, PlacedSoFar, ReadyToPlace, NodesOnDisk, HasNameless, Target;
    var init, w := order[..|order| - 1], order[|order| - 1];
    assert order == init + [w];
    ReadyButOne(start, order);
    var s := PlaceAll(start, init);
    PlacedStep(start, init, s, w);
    PlacedForest(start, init, s);
    PlacedForest(start, order, PlaceAll(start, order));
    PlacedNameless(s, w);
    if v == w {
      PlacedName(start, init, v);
      SameNodes(start, init, s);
      NodeHasFile(s, v);
      TargetSame(start.disk, s.disk, start.forest.parent.Keys, v);
    } else {
      NamelessStays(start, init, v);
    }
  }

  /** The names of files that ask for a parent can stand in a path. */
  ghost predicate TidyFiles(disk: Disk, ext: string) {
    forall v :: Loadable(disk, ext, v) && File(v) in DiskParents(disk, ext) && DiskParents(disk, ext)[File(v)].Some? ==>
      Paths.ValidName(DecodedName(disk, ext, File(v)))
  }

  lemma NamelessIsUntidy(f: Forest)
    requires WellLinked(f) && HasNameless(f)
    ensures !Tidy(f)
  {
  }

  lemma NumberedValid(name: string, found: string)
    requires NumberedFrom(name, found)
    ensures Paths.ValidName(name) ==> Paths.ValidName(found)
    ensures name != "" && !Paths.ValidName(name) ==> !Paths.ValidName(found)
  {
    hide Candidate;
    var k: nat :| found == Candidate(name, k);
    CandidateValid(name, k);
  }

  lemma NamelessLoaded(disk: Disk, ext: string, order: seq<string>, v: string)
    requires LoadOrder(disk, ext, order) && Loadable(disk, ext, v) && DecodedName(disk, ext, File(v)) == ""
    requires File(v) in DiskParents(disk, ext) && DiskParents(disk, ext)[File(v)].Some?
    ensures WellLinked(Load(disk, ext, order).forest) && HasNameless(Load(disk, ext, order).forest)
  {
    hide WellLinked, SiblingsDistinct, PlaceAll, HasNameless, Ical.Decode, HasIcs, ReadyToPlace;
    var start := BeforePlacing(disk, ext);
    LoadReady(disk, ext, order);
    assert start.forest.parent.Keys == {Root} + LoadableIds(disk, ext, disk.Keys);
    NamelessStays(start, order, v);
  }

  lemma LoadedNameValid(disk: Disk, ext: string, order: seq<string>, v: string)
    requires LoadOrder(disk, ext, order) && Loadable(disk, ext, v)
    requires File(v) in DiskParents(disk, ext) && DiskParents(disk, ext)[File(v)].Some?
    requires WellLinked(Load(disk, ext, order).forest)
    ensures File(v) in Load(disk, ext, order).forest.name
    ensures Paths.ValidName(DecodedName(disk, ext, File(v))) ==>
              Paths.ValidName(Load(disk, ext, order).forest.name[File(v)])
    ensures !Paths.ValidName(DecodedName(disk, ext, File(v))) ==>
              !Paths.ValidName(Load(disk, ext, order).forest.name[File(v)]) || HasNameless(Load(disk, ext,
                    order).forest)
  {
    hide WellLinked, Load, LoadOrder, HasNameless, NumberedFrom, DecodedName, DiskParents, Loadable, MarkHarmless,
         FilesNaming, Paths.ValidName;
    LoadedName(disk, ext, order, v);
    NumberedValid(DecodedName(disk, ext, File(v)), Load(disk, ext, order).forest.name[File(v)]);
    if DecodedName(disk, ext, File(v)) == "" {
      NamelessLoaded(disk, ext, order, v);
    }
  }

  /** A load gives all attached nodes names for paths exactly when their files decode to such names. */
  lemma LoadIsTidy(disk: Disk, ext: string, order: seq<string>)
    requires LoadOrder(disk, ext, order)
    ensures WellLinked(Load(disk, ext, order).forest)
    ensures Tidy(Load(disk, ext, order).forest) <==> TidyFiles(disk, ext)
  {
    hide WellLinked, SiblingsDistinct, SameLinks, Load, HasNameless, Ical.Decode, HasIcs, DiskParents, DecodedName,
         LoadOrder, Paths.ValidName;
    LoadIsOrderIndependent(disk, ext, order);
    DiskParentsNodes(disk, ext);
    var f := Load(disk, ext, order).forest;
    forall v | Loadable(disk, ext, v) && f.parent[File(v)].Some?
      ensures File(v) in f.name
      ensures Paths.ValidName(DecodedName(disk, ext, File(v))) ==> Paths.ValidName(f.name[File(v)])
      ensures !Paths.ValidName(DecodedName(disk, ext, File(v))) ==>
                !Paths.ValidName(f.name[File(v)]) || HasNameless(f)
    {
      LoadedNameValid(disk, ext, order, v);
    }
    if HasNameless(f) {
      NamelessIsUntidy(f);
    }
    LinkedKeys(f);
  }
}
