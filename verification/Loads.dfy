/** The initial load: one node per readable vdir file, then each node is hung under the parent its file names. */
module Loads {
  import opened Wrappers
  import opened Seqs
  import opened Forests
  import opened PathMaps
  import opened FreeNames
  import opened Model
  import Ical

  // ----- the first loop -----

  predicate IcsAt(v: string, i: int) {
    0 <= i <= |v| - 4 && v[i..i + 4] == ".ics"
  }

  predicate HasIcs(v: string) {
    exists i :: 0 <= i < |v| && IcsAt(v, i)
  }

  /** A vdir file counts as a calendar file when ".ics" comes anywhere in its name. */
  lemma HasIcsMeans(v: string)
    ensures HasIcs(v) <==> exists before, after :: v == before + ".ics" + after
  {
    if HasIcs(v) {
      var i :| 0 <= i < |v| && IcsAt(v, i);
      assert v == v[..i] + ".ics" + v[i + 4..];
    }
    if exists before, after :: v == before + ".ics" + after {
      var before, after :| v == before + ".ics" + after;
      assert v[|before|..|before| + 4] == ".ics";
      assert IcsAt(v, |before|);
    }
  }

  predicate Loadable(disk: Disk, ext: string, v: string) {
    v in disk && HasIcs(v) && Ical.Decode(disk[v], ext).Some?
  }

  function LoadableIds(disk: Disk, ext: string, among: set<string>): set<Id> {
    set v | v in among && Loadable(disk, ext, v) :: File(v)
  }

  function DecodedName(disk: Disk, ext: string, i: Id): string {
    if i.File? && Loadable(disk, ext, i.vdir) then Ical.Decode(disk[i.vdir], ext).value else ""
  }

  /** The nodes after the files in `among` have been read; none has a parent yet. */
  function Spawned(disk: Disk, ext: string, among: set<string>): Forest {
    var ids := {Root} + LoadableIds(disk, ext, among);
    Forest(map i | i in ids :: None, map i | i in ids :: [], map i | i in ids :: DecodedName(disk, ext, i))
  }

  lemma SpawnedLinked(disk: Disk, ext: string, among: set<string>)
    ensures WellLinked(Spawned(disk, ext, among)) && SiblingsDistinct(Spawned(disk, ext, among))
  {
  }

  lemma SpawnedWith(disk: Disk, ext: string, among: set<string>, v: string)
    requires v !in among && LoadableIds(disk, ext, among + {v}) == LoadableIds(disk, ext, among) + {File(v)}
    ensures Spawned(disk, ext, among + {v})
            == Spawn(Spawned(disk, ext, among), File(v), DecodedName(disk, ext, File(v)))
  {
    hide LoadableIds, DecodedName;
    var f, g := Spawn(Spawned(disk, ext, among), File(v), DecodedName(disk, ext, File(v))),
          Spawned(disk, ext, among + {v});
    assert g.parent == f.parent && g.kids == f.kids && g.name == f.name;
  }

  /** Reading one more file. */
  lemma SpawnedStep(disk: Disk, ext: string, among: set<string>, v: string)
    requires v !in among
    ensures Spawned(disk, ext, among + {v})
         == if Loadable(disk, ext, v) then Spawn(Spawned(disk, ext, among), File(v), Ical.Decode(disk[v], ext).value)
            else Spawned(disk, ext, among)
  {
    hide Ical.Decode, HasIcs;
    if Loadable(disk, ext, v) {
      assert LoadableIds(disk, ext, among + {v}) == LoadableIds(disk, ext, among) + {File(v)};
      SpawnedWith(disk, ext, among, v);
    } else {
      assert LoadableIds(disk, ext, among + {v}) == LoadableIds(disk, ext, among);
    }
  }

  // ----- the second loop -----

  /** The parent a file asks for; None when it names a uid that no loaded file has. */
  function Target(disk: Disk, nodes: set<Id>, v: string): Option<Id>
    requires v in disk
  {
    match Ical.GetParentUid(disk[v])
    case None => Some(Root)
    case Some(uid) => if IdOfUid(uid) in nodes then Some(IdOfUid(uid)) else None
  }

  /** The file `v` decodes to the name and the parent its node has. */
  ghost predicate AgreesAt(s: State, v: string)
    requires v in s.disk
  {
    && File(v) in s.forest.parent && File(v) in s.forest.name
    && Ical.Decode(s.disk[v], s.ext) == Some(s.forest.name[File(v)])
    && s.forest.parent[File(v)] == Target(s.disk, s.forest.parent.Keys, v)
  }

  ghost predicate NodesOnDisk(s: State) {
    forall n :: n in s.forest.parent && n != Root ==> n.File? && n.vdir in s.disk
  }

  /** One round of the second loop. */
  function Place(s: State, v: string): State
    requires WellLinked(s.forest) && File(v) in s.forest.parent && NodesOnDisk(s)
  {
    match Ical.GetParentUid(s.disk[v])
    case None =>
      KidsAreNamed(s.forest, Root);
      s.(forest := AddFuseChild(s.forest, Root, File(v)))
    case Some(uid) =>
      if IdOfUid(uid) in s.forest.parent then
        s.(forest := MoveFuseNode(s.forest, IdOfUid(uid), File(v)), disk := MarkOnDisk(s.disk, VdirName(uid)))
      else s
  }

  /** The state the second loop starts from, and the keys still to be placed. */
  ghost predicate ReadyToPlace(s: State, order: seq<string>) {
    && WellLinked(s.forest) && SiblingsDistinct(s.forest) && NodesOnDisk(s)
    && (forall n :: n in s.forest.parent ==> s.forest.parent[n] == None)
    && Distinct(order) && (forall i :: 0 <= i < |order| ==> File(order[i]) in s.forest.parent)
  }

  /** The same files with the same uids, summaries and relations; X- properties and texts may differ. */
  ghost predicate SameLinks(a: Disk, b: Disk) {
    a.Keys == b.Keys && forall v :: v in a ==>
          a[v].related == b[v].related && a[v].uid == b[v].uid && a[v].summary == b[v].summary
  }

  ghost function ParentsAfter(start: State, placed: seq<string>): Up {
    map n | n in start.forest.parent ::
      if n.File? && n.vdir in placed && n.vdir in start.disk
      then Target(start.disk, start.forest.parent.Keys, n.vdir) else None
  }

  /** `s` is what `start` becomes once exactly the keys in `placed` have been handled. */
  ghost predicate PlacedSoFar(start: State, placed: seq<string>, s: State) {
    && WellLinked(s.forest) && SiblingsDistinct(s.forest) && NodesOnDisk(s)
    && s.ext == start.ext && SameLinks(start.disk, s.disk)
    && s.forest.parent == ParentsAfter(start, placed)
  }

  lemma MarkKeepsLinks(disk: Disk, v: string)
    requires v in disk
    ensures SameLinks(disk, MarkOnDisk(disk, v))
  {
  }

  lemma PlaceForest(s: State, v: string)
    requires WellLinked(s.forest) && SiblingsDistinct(s.forest) && NodesOnDisk(s)
    requires File(v) in s.forest.parent && s.forest.parent[File(v)] == None
    ensures WellLinked(Place(s, v).forest) && SiblingsDistinct(Place(s, v).forest)
    ensures Place(s, v).forest.parent == s.forest.parent[File(v) := Target(s.disk, s.forest.parent.Keys, v)]
    ensures forall n :: n in s.forest.name && n != File(v) ==>
              n in Place(s, v).forest.name && Place(s, v).forest.name[n] == s.forest.name[n]
    ensures SameLinks(s.disk, Place(s, v).disk) && Place(s, v).ext == s.ext
  {
    hide KidsPointBack, ParentsPointBack, KidsOnce, SiblingsDistinct;
    var f, n := s.forest, File(v);
    match Ical.GetParentUid(s.disk[v])
    case None => AddFuseChildLinked(f, Root, n);
    case Some(uid) =>
      if IdOfUid(uid) in f.parent {
        assert Detach(f, n) == f;
        AddFuseChildLinked(f, IdOfUid(uid), n);
        MarkKeepsLinks(s.disk, VdirName(uid));
      }
  }

  lemma PlacedStep(start: State, placed: seq<string>, s: State, v: string)
    requires PlacedSoFar(start, placed, s) && v !in placed && File(v) in start.forest.parent
    ensures WellLinked(s.forest) && NodesOnDisk(s) && File(v) in s.forest.parent && s.forest.parent[File(v)] == None
    ensures PlacedSoFar(start, placed + [v], Place(s, v))
  {
    hide WellLinked, SiblingsDistinct, SameLinks, Place;
    PlaceForest(s, v);
    TargetSame(start.disk, s.disk, start.forest.parent.Keys, v);
    SameLinksTransitive(start.disk, s.disk, Place(s, v).disk);
    assert forall w :: w in placed + [v] <==> w in placed || w == v;
  }

  lemma TargetSame(a: Disk, b: Disk, nodes: set<Id>, v: string)
    requires SameLinks(a, b) && v in b
    ensures v in a && Target(a, nodes, v) == Target(b, nodes, v)
  {
  }

  lemma SameLinksTransitive(a: Disk, b: Disk, c: Disk)
    requires SameLinks(a, b) && SameLinks(b, c)
    ensures SameLinks(a, c) && a.Keys == b.Keys == c.Keys
  {
  }

  /** The second loop over the keys in the given order. */
  ghost function PlaceAll(start: State, order: seq<string>): (s: State)
    requires ReadyToPlace(start, order)
    ensures PlacedSoFar(start, order, s)
    decreases |order|
  {
    hide WellLinked, SiblingsDistinct, SameLinks, Place, PlacedSoFar, ReadyToPlace, NodesOnDisk;
    if order == [] then
      NothingPlaced(start);
      start
    else
      var init, v := order[..|order| - 1], order[|order| - 1];
      ReadyButOne(start, order);
      var s := PlaceAll(start, init);
      PlacedStep(start, init, s, v);
      assert init + [v] == order;
      Place(s, v)
  }

  lemma ReadyButOne(start: State, order: seq<string>)
    requires ReadyToPlace(start, order) && order != []
    ensures ReadyToPlace(start, order[..|order| - 1])
    ensures order[|order| - 1] !in order[..|order| - 1] && File(order[|order| - 1]) in start.forest.parent
  {
    hide WellLinked, SiblingsDistinct;
  }

  lemma NothingPlaced(start: State)
    requires ReadyToPlace(start, [])
    ensures PlacedSoFar(start, [], start)
  {
  }

  // ----- the whole load -----

  ghost predicate LoadOrder(disk: Disk, ext: string, order: seq<string>) {
    Distinct(order) && forall v :: v in order <==> Loadable(disk, ext, v)
  }

  function BeforePlacing(disk: Disk, ext: string): State {
    State(Spawned(disk, ext, disk.Keys), disk, ext)
  }

  lemma LoadReady(disk: Disk, ext: string, order: seq<string>)
    requires LoadOrder(disk, ext, order)
    ensures ReadyToPlace(BeforePlacing(disk, ext), order)
    ensures forall v :: File(v) in BeforePlacing(disk, ext).forest.parent <==> Loadable(disk, ext, v)
  {
    SpawnedLinked(disk, ext, disk.Keys);
    assert forall i :: 0 <= i < |order| ==> order[i] in order;
  }

  /** The orders a load may place the keys in are the permutations of any one of them. */
  lemma OrdersArePermutations(disk: Disk, ext: string, order: seq<string>, other: seq<string>)
    requires LoadOrder(disk, ext, order)
    ensures LoadOrder(disk, ext, other) <==> multiset(other) == multiset(order)
  {
    hide Loadable;
    if LoadOrder(disk, ext, other) {
      SameElementsPermute(other, order);
    }
    if multiset(other) == multiset(order) {
      PermutationOfDistinct(order, other);
    }
  }

  /** load_root_node_tree, the keys being listed in the given order. */
  ghost function Load(disk: Disk, ext: string, order: seq<string>): State
    requires LoadOrder(disk, ext, order)
  {
    LoadReady(disk, ext, order);
    PlaceAll(BeforePlacing(disk, ext), order)
  }

  /** The parent pointers that the files alone determine. */
  ghost function DiskParents(disk: Disk, ext: string): Up {
    var nodes := {Root} + LoadableIds(disk, ext, disk.Keys);
    map i | i in nodes :: if i.File? && i.vdir in disk then Target(disk, nodes, i.vdir) else None
  }

  /** Whatever the order of the keys, every node ends under the parent its file names: the root if it names
      none, nothing if the named file is missing. Names of siblings end up distinct. */
  lemma LoadIsOrderIndependent(disk: Disk, ext: string, order: seq<string>)
    requires LoadOrder(disk, ext, order)
    ensures Load(disk, ext, order).forest.parent == DiskParents(disk, ext)
    ensures WellLinked(Load(disk, ext, order).forest) && SiblingsDistinct(Load(disk, ext, order).forest)
    ensures SameLinks(disk, Load(disk, ext, order).disk)
  {
    hide WellLinked, SiblingsDistinct, SameLinks, Place, PlaceAll;
    LoadReady(disk, ext, order);
    var start := BeforePlacing(disk, ext);
    assert start.forest.parent.Keys == {Root} + LoadableIds(disk, ext, disk.Keys);
    assert ParentsAfter(start, order) == DiskParents(disk, ext);
  }

  // ----- reachability -----

  /** Following PARENT uids from `v` for `k` steps ends at a file that names no parent. */
  ghost predicate ChainReachesTop(disk: Disk, ext: string, v: string, k: nat)
    decreases k
  {
    Loadable(disk, ext, v)
    && match Ical.GetParentUid(disk[v])
       case None => k == 0
       case Some(uid) => k > 0 && ChainReachesTop(disk, ext, VdirName(uid), k - 1)
  }

  /** Following PARENT uids from `v` comes to an end after `k` steps: at a file that names no parent or at a
      missing file. */
  ghost predicate ChainStops(disk: Disk, ext: string, v: string, k: nat)
    decreases k
  {
    if !Loadable(disk, ext, v) then k == 0
    else
      match Ical.GetParentUid(disk[v])
      case None => k == 0
      case Some(uid) => k > 0 && ChainStops(disk, ext, VdirName(uid), k - 1)
  }

  lemma {:induction false} ChainClimb(disk: Disk, ext: string, v: string, k: nat)
    requires Loadable(disk, ext, v)
    ensures ChainReachesTop(disk, ext, v, k) <==> Climb(DiskParents(disk, ext), File(v), k + 1) == Some(Root)
    decreases k
  {
    var up := DiskParents(disk, ext);
    assert File(v) in up;
    match Ical.GetParentUid(disk[v])
    case None => assert Climb(up, File(v), k + 1) == Climb(up, Root, k);
    case Some(uid) =>
      if Loadable(disk, ext, VdirName(uid)) {
        assert Climb(up, File(v), k + 1) == Climb(up, IdOfUid(uid), k);
        if k > 0 {
          ChainClimb(disk, ext, VdirName(uid), k - 1);
        }
      }
  }

  /** After a load a node is reachable from the root exactly when its chain of parent uids ends at a parentless file. */
  lemma LoadReachability(disk: Disk, ext: string, order: seq<string>, v: string)
    requires LoadOrder(disk, ext, order) && Loadable(disk, ext, v)
    ensures Above(Load(disk, ext, order).forest.parent, Root, File(v))
       <==> exists k: nat :: ChainReachesTop(disk, ext, v, k)
  {
    hide Loadable, Load, DiskParents, WellLinked, SiblingsDistinct, SameLinks;
    LoadIsOrderIndependent(disk, ext, order);
    var up := DiskParents(disk, ext);
    if Above(up, Root, File(v)) {
      var k: nat :| Climb(up, File(v), k) == Some(Root);
      ChainClimb(disk, ext, v, k - 1);
    }
    if exists k: nat :: ChainReachesTop(disk, ext, v, k) {
      var k: nat :| ChainReachesTop(disk, ext, v, k);
      ChainClimb(disk, ext, v, k);
    }
  }

  lemma {:induction false} ChainGrounded(disk: Disk, ext: string, v: string, k: nat)
    requires Loadable(disk, ext, v)
    ensures ChainStops(disk, ext, v, k) ==> Climb(DiskParents(disk, ext), File(v), k + 2) == None
    ensures Climb(DiskParents(disk, ext), File(v), k) == None ==> exists j: nat :: ChainStops(disk, ext, v, j)
    decreases k
  {
    var up := DiskParents(disk, ext);
    assert File(v) in up;
    match Ical.GetParentUid(disk[v])
    case None =>
      assert ChainStops(disk, ext, v, 0);
      assert Climb(up, Root, 1) == None;
      assert Climb(up, File(v), 2) == Climb(up, Root, 1);
    case Some(uid) =>
      var w := VdirName(uid);
      if !Loadable(disk, ext, w) {
        assert ChainStops(disk, ext, w, 0) && ChainStops(disk, ext, v, 1);
      } else if k > 0 {
        ChainGrounded(disk, ext, w, k - 1);
        if Climb(up, File(v), k) == None {
          var j: nat :| ChainStops(disk, ext, w, j);
          assert ChainStops(disk, ext, v, j + 1);
        }
      }
  }

  /** No chain of parent uids runs in a circle. */
  ghost predicate ChainsStop(disk: Disk, ext: string) {
    forall v :: Loadable(disk, ext, v) ==> exists k: nat :: ChainStops(disk, ext, v, k)
  }

  lemma ChainsStopIffAcyclic(disk: Disk, ext: string)
    ensures Acyclic(DiskParents(disk, ext)) <==> ChainsStop(disk, ext)
  {
    hide Loadable, DiskParents;
    var up := DiskParents(disk, ext);
    DiskParentsNodes(disk, ext);
    assert Climb(up, Root, 1) == None;
    if Acyclic(up) {
      forall v | Loadable(disk, ext, v)
        ensures exists k: nat :: ChainStops(disk, ext, v, k)
      {
        assert Grounded(up, File(v));
        var k: nat :| Climb(up, File(v), k) == None;
        ChainGrounded(disk, ext, v, k);
      }
      assert ChainsStop(disk, ext);
    }
    if ChainsStop(disk, ext) {
      forall n | n in up
        ensures Grounded(up, n)
      {
        if n != Root {
          var k: nat :| ChainStops(disk, ext, n.vdir, k);
          ChainGrounded(disk, ext, n.vdir, k);
        }
      }
    }
  }

  /** A load establishes the invariant exactly when no chain of parent uids runs in a circle. */
  lemma LoadInv(disk: Disk, ext: string, order: seq<string>)
    requires LoadOrder(disk, ext, order)
    ensures Inv(Load(disk, ext, order)) <==> ChainsStop(disk, ext)
  {
    hide WellLinked, SiblingsDistinct, Acyclic, DiskParents, Load, SameLinks, AttachedOnDisk;
    LoadIsOrderIndependent(disk, ext, order);
    LoadAttached(disk, ext, order);
    ChainsStopIffAcyclic(disk, ext);
  }

  lemma DiskParentsNodes(disk: Disk, ext: string)
    ensures Root in DiskParents(disk, ext) && DiskParents(disk, ext)[Root] == None
    ensures forall n :: n in DiskParents(disk, ext) <==> n == Root || (n.File? && Loadable(disk, ext, n.vdir))
  {
  }

  lemma LoadAttached(disk: Disk, ext: string, order: seq<string>)
    requires LoadOrder(disk, ext, order)
    ensures AttachedOnDisk(Load(disk, ext, order))
  {
    hide WellLinked, SiblingsDistinct, Loadable;
    LoadIsOrderIndependent(disk, ext, order);
    LoadReady(disk, ext, order);
  }

  // ----- names -----

  /** Files that ask for one parent have different names. */
  ghost predicate ApartUnder(start: State, order: seq<string>) {
    forall a, b :: a in order && b in order && a != b && a in start.disk && b in start.disk
                   && File(a) in start.forest.name && File(b) in start.forest.name
                   && Target(start.disk, start.forest.parent.Keys, a).Some?
                   && Target(start.disk, start.forest.parent.Keys, a)
                         == Target(start.disk, start.forest.parent.Keys, b) ==>
      start.forest.name[File(a)] != start.forest.name[File(b)]
  }

  lemma PlaceKeepsName(s: State, v: string)
    requires WellLinked(s.forest) && SiblingsDistinct(s.forest) && NodesOnDisk(s)
    requires File(v) in s.forest.parent && s.forest.parent[File(v)] == None
    requires var p := Target(s.disk, s.forest.parent.Keys, v);
             p.Some? ==> NameFree(s.forest, p.value, s.forest.name[File(v)])
    ensures Place(s, v).forest.name == s.forest.name
  {
    hide KidsPointBack, ParentsPointBack, KidsOnce, SiblingsDistinct, NameFree;
    var f, n := s.forest, File(v);
    match Ical.GetParentUid(s.disk[v])
    case None => FreeNameKept(f, Root, n);
    case Some(uid) =>
      if IdOfUid(uid) in f.parent {
        assert Detach(f, n) == f;
        FreeNameKept(f, IdOfUid(uid), n);
      }
  }

  lemma PlacedNameFree(start: State, placed: seq<string>, s: State, v: string, p: Id)
    requires PlacedSoFar(start, placed, s) && v !in placed && File(v) in start.forest.parent && v in start.disk
    requires ApartUnder(start, placed + [v]) && s.forest.name == start.forest.name
    requires Target(start.disk, start.forest.parent.Keys, v) == Some(p)
    ensures NameFree(s.forest, p, s.forest.name[File(v)])
  {
    hide KidsPointBack, ParentsPointBack, KidsOnce, SiblingsDistinct, SameLinks, Target;
    forall c | c in s.forest.parent && s.forest.parent[c] == Some(p)
      ensures s.forest.name[c] != s.forest.name[File(v)]
    {
      assert c.File? && c.vdir in placed && c.vdir != v;
      assert c.vdir in placed + [v] && v in placed + [v];
    }
  }

  /** Without clashes a load renames nothing. */
  lemma {:induction false} PlaceAllKeepsNames(start: State, order: seq<string>)
    requires ReadyToPlace(start, order) && ApartUnder(start, order)
    ensures PlaceAll(start, order).forest.name == start.forest.name
    decreases |order|
  {
    hide KidsPointBack, ParentsPointBack, KidsOnce, SiblingsDistinct, SameLinks, Target, NameFree, Place;
    if order != [] {
      var init, v := order[..|order| - 1], order[|order| - 1];
      assert order == init + [v];
      PlaceAllKeepsNames(start, init);
      var s := PlaceAll(start, init);
      PlacedStep(start, init, s, v);
      TargetSame(start.disk, s.disk, start.forest.parent.Keys, v);
      var p := Target(s.disk, s.forest.parent.Keys, v);
      if p.Some? {
        PlacedNameFree(start, init, s, v, p.value);
      }
      PlaceKeepsName(s, v);
    }
  }
}
