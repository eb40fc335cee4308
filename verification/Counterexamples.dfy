/** Concrete inputs on which the source does not do what its documentation suggests. */
module Counterexamples {
  import opened Wrappers
  import opened Forests
  import opened PathMaps
  import opened Model
  import opened Handlers
  import opened Loads
  import opened Reloads
  import opened ForeignFiles
  import opened Runs
  import opened Agreement
  import Ical
  import Paths

  /** A file created as "a." comes back as "a". */
  lemma TrailingDotIsLost(uid: string, ext: string)
    ensures Ical.Decode(Ical.NewEntry(uid, "a."), ext) == Some("a")
  {
    assert Paths.LastIndex("a.", '.') == Some(1) && Paths.LastIndex("a.", '/') == None;
    assert "a."[2..] == "" && "a."[..1] == "a";
  }

  /** A file created as ".a" has no summary and is not read back at all. */
  lemma HiddenFileIsLost(uid: string, ext: string)
    ensures Ical.Decode(Ical.NewEntry(uid, ".a"), ext) == None
  {
    assert ".a"[..1] == "." && Paths.LastIndex(".", '.') == Some(0);
    assert Paths.LastIndex(".a", '.') == Some(0) && Paths.LastIndex(".a", '/') == None;
  }

  lemma DotInText()
    ensures Paths.LastIndex("a.txt", '.') == Some(1) && Paths.LastIndex("a.txt", '/') == None
  {
    hide Paths.LastIndex;
    assert "a.txt"[1] == '.';
  }

  lemma TextFile(uid: string)
    ensures Ical.NewEntry(uid, "a.txt")
         == Ical.Component(uid, Some("a"), Some(""), [Ical.XProp(Ical.FILE_EXTENSION_PROPERTY, "txt")], [])
  {
    hide Paths.LastIndex;
    DotInText();
    assert "a.txt"[2..] == "txt" && "a.txt"[..1] == "a";
  }

  /** A file "a.txt" renamed to "b" comes back as "b.txt". */
  lemma OldExtensionStays(uid: string, ext: string)
    ensures Ical.Decode(Ical.Renamed(Ical.NewEntry(uid, "a.txt"), "b"), ext) == Some("b.txt")
  {
    hide Ical.NewEntry;
    TextFile(uid);
    var d := Ical.Component(uid, Some("b"), None, [Ical.XProp(Ical.FILE_EXTENSION_PROPERTY, "txt")], []);
    assert Paths.LastIndex("b", '.') == None;
    assert Ical.Renamed(Ical.NewEntry(uid, "a.txt"), "b") == d;
    assert |"txt"| == 3 && Ical.GetFileExtension(d) == Some("txt");
    assert Ical.GetX(d.xprops, Ical.IS_DIRECTORY_PROPERTY) == None && d.related == [] && "b" + "." + "txt" == "b.txt";
  }

  /** With a property listed twice, setting it does not take effect. */
  lemma SecondPropertyWins(key: string)
    ensures Ical.GetX(Ical.SetX([Ical.XProp(key, "1"), Ical.XProp(key, "2")], key, "3"), key) == Some("2")
  {
  }

  // ----- a run after which the files no longer describe the tree -----

  lemma PathParts(dir: string, name: string)
    requires '/' !in name && name != ""
    ensures Paths.GetFilename(dir + "/" + name) == name
    ensures Paths.GetParentPath(dir + "/" + name) == Some(if dir == "" then "/" else dir)
    ensures Paths.Split(dir + "/" + name) == Paths.Split(dir) + [name]
  {
    var path := dir + "/" + name;
    assert path[|dir|] == '/';
    assert Paths.LastIndex(path, '/') == Some(|dir|);
    assert path[..|dir|] == dir && path[|dir| + 1..] == name;
    Paths.SplitAtSlash(dir, name);
    Paths.SplitName(name);
  }

  lemma TopPaths(name: string)
    requires '/' !in name && name != ""
    ensures Paths.Split("/") == [] && Paths.Split("/" + name) == [name]
    ensures Paths.GetFilename("/" + name) == name && Paths.GetParentPath("/" + name) == Some("/")
  {
    PathParts("", name);
    assert "" + "/" + name == "/" + name;
    Paths.SplitName("");
    Paths.SplitAtSlash("", "");
    assert "" + "/" + "" == "/";
  }

  const START := State(EMPTY, map[], "")
  const MAKE_DIRECTORY := CreateStep("/d", "u", EntryDirectory)
  const MAKE_FILE := CreateStep("/d/f", "v", EntryFile)
  const MOVE_UP := RenameStep("/d/f", "/f")

  ghost predicate AfterDirectory(s: State) {
    && Agreeing(s) && s.forest.parent == map[Root := None, IdOfUid("u") := Some(Root)] && s.disk.Keys == {VdirName("u")}
    && Ical.IsDirectory(s.disk[VdirName("u")])
    && (forall q :: Lookup(s.forest, Root, q) == if q == [] then Some(Root)
          else if q == ["d"] then Some(IdOfUid("u")) else None)
  }

  lemma StartPaths(q: seq<string>)
    requires Inv(START)
    ensures Lookup(START.forest, Root, q) == if q == [] then Some(Root) else None
  {
  }

  lemma DirectoryMade()
    ensures Inv(START) && Allowed(START, MAKE_DIRECTORY) && Inv(Apply(START, MAKE_DIRECTORY))
    ensures AfterDirectory(Apply(START, MAKE_DIRECTORY))
  {
    hide Lookup, Agreeing, Ical.Written, SiblingsDistinct, Acyclic, WellLinked, Create, LeafWritten;
    EmptyAgrees("");
    AgreeingInv(START);
    TopPaths("d");
    StartPaths([]);
    StartPaths(["d"]);
    StepReloads(START, MAKE_DIRECTORY);
    var (t, status) := Create(START, "/d", "u", EntryDirectory);
    CreateStatus(START, "/d", "u", EntryDirectory, status);
    CreateEffect(START, "/d", "u", EntryDirectory, t, status);
    CreateWrites(START, "/d", "u", EntryDirectory, t);
    FirstLeaf(t);
    forall q
      ensures Lookup(t.forest, Root, q) == if q == [] then Some(Root) else if q == ["d"] then Some(IdOfUid("u"))
              else None
    {
      StartPaths(q);
    }
  }

  lemma FirstLeaf(t: State)
    requires LeafWritten(START, t, IdOfUid("u"), Root, "d", NewComponent("u", "d", EntryDirectory))
    ensures t.forest.parent == map[Root := None, IdOfUid("u") := Some(Root)] && t.disk.Keys == {VdirName("u")}
    ensures Ical.IsDirectory(t.disk[VdirName("u")])
  {
  }

  /** Creating "/d/f" in an empty tree fails and leaves a node that no load rebuilds. */
  lemma NodeIsLeftBehind()
    ensures Inv(START) && FreshUid(START, "v") && Create(START, "/d/f", "v", EntryFile).1 == ENOENT
    ensures File("v.ics") in Create(START, "/d/f", "v", EntryFile).0.forest.parent
    ensures Inv(Create(START, "/d/f", "v", EntryFile).0) && NoLoadRebuilds(Create(START, "/d/f", "v", EntryFile).0)
  {
    hide Lookup, Agreeing, SiblingsDistinct, Acyclic, WellLinked, NoLoadRebuilds, Paths.Split, Paths.GetParentPath,
         Paths.GetFilename;
    EmptyAgrees("");
    AgreeingInv(START);
    NestedPaths();
    StartPaths(["d"]);
    StartPaths(["d", "f"]);
    assert GetNode(START, "/d") == None && GetNode(START, "/d/f") == None;
    SpawnInv(START, File("v.ics"), "f");
    SpawnPaths(START.forest, File("v.ics"), "f");
    FailedCreateLeavesNode(START, "/d/f", "v", EntryFile);
  }

  ghost predicate AfterFile(s: State) {
    && Agreeing(s) && File("v.ics") in s.forest.parent && s.forest.parent[File("v.ics")] == Some(File("u.ics"))
    && Root in s.forest.parent && s.forest.parent[Root] == None
    && (forall q :: Lookup(s.forest, Root, q)
                    == if q == ["d", "f"] then Some(File("v.ics")) else if q == [] then Some(Root)
                       else if q == ["d"] then Some(File("u.ics")) else None)
  }

  lemma NestedPaths()
    ensures Paths.Split("/d") == ["d"] && Paths.Split("/d/f") == ["d", "f"]
    ensures Paths.GetParentPath("/d/f") == Some("/d") && Paths.GetFilename("/d/f") == "f"
    ensures VdirName("u") == "u.ics" && VdirName("v") == "v.ics"
  {
    hide Paths.Split, Paths.GetParentPath, Paths.GetFilename;
    TopPaths("d");
    PathParts("/d", "f");
    assert "/" + "d" == "/d" && "/d" + "/" + "f" == "/d/f" && ["d"] + ["f"] == ["d", "f"];
  }

  lemma PlainName()
    ensures Ical.Storable("f")
  {
    assert Paths.LastIndex("f", '.') == None;
  }

  lemma FileMade(s: State)
    requires AfterDirectory(s)
    ensures Inv(s) && Allowed(s, MAKE_FILE) && Inv(Apply(s, MAKE_FILE)) && AfterFile(Apply(s, MAKE_FILE))
  {
    hide Agreeing, Ical.Written, SiblingsDistinct, Acyclic, WellLinked, Create, LeafWritten, Ical.Storable,
         Ical.IsDirectory, Lookup, NoLoadRebuilds, ReloadAgrees, Paths.Split, Paths.GetParentPath,
         Paths.GetFilename;
    AgreeingInv(s);
    NestedPaths();
    PlainName();
    assert GetNode(s, "/d") == Some(File("u.ics")) && GetNode(s, "/d/f") == None;
    StepReloads(s, MAKE_FILE);
    var (t, status) := Create(s, "/d/f", "v", EntryFile);
    CreateStatus(s, "/d/f", "v", EntryFile, status);
    CreateEffect(s, "/d/f", "v", EntryFile, t, status);
    CreateWrites(s, "/d/f", "v", EntryFile, t);
    SecondLeaf(s, t);
  }

  lemma SecondLeaf(s: State, t: State)
    requires s.forest.parent == map[Root := None, File("u.ics") := Some(Root)]
    requires LeafWritten(s, t, File("v.ics"), File("u.ics"), "f", NewComponent("v", "f", EntryFile))
    ensures File("v.ics") in t.forest.parent && t.forest.parent[File("v.ics")] == Some(File("u.ics"))
    ensures Root in t.forest.parent && t.forest.parent[Root] == None
  {
  }

  /** Moving the file of "/d/f" up to "/f" does not write its file: the next load puts it back below "/d". */
  lemma MoveUpIsForgotten(s: State)
    requires AfterFile(s)
    ensures Inv(s) && Allowed(s, MOVE_UP) && Inv(Apply(s, MOVE_UP)) && NoLoadRebuilds(Apply(s, MOVE_UP))
  {
    hide Agreeing, SiblingsDistinct, Acyclic, WellLinked, Rename, NoLoadRebuilds, Ical.RenameSafe, Apply, Paths.Split,
         Paths.GetParentPath, Paths.GetFilename;
    AgreeingInv(s);
    NestedPaths();
    TopPaths("f");
    assert "/" + "f" == "/f";
    assert GetNode(s, "/d/f") == Some(File("v.ics")) && GetNode(s, "/f") == None && GetNode(s, "/") == Some(Root);
    RootIsTop(s.forest, File("v.ics"));
    StepReloads(s, MOVE_UP);
  }

  lemma RootIsTop(f: Forest, n: Id)
    requires Root in f.parent && f.parent[Root] == None && n != Root
    ensures !Above(f.parent, n, Root)
  {
    forall k: nat
      ensures Climb(f.parent, Root, k) != Some(n)
    {
    }
  }

  lemma ThreeSteps(s: State, a: Step, b: Step, c: Step)
    requires Inv(s) && Allowed(s, a) && Inv(Apply(s, a)) && Allowed(Apply(s, a), b)
    requires Inv(Apply(Apply(s, a), b)) && Allowed(Apply(Apply(s, a), b), c)
    ensures AllowedRun(s, [a, b, c]) && Run(s, [a, b, c]) == Apply(Apply(Apply(s, a), b), c)
  {
    hide Inv, Apply, Allowed;
    assert [a, b, c][1..] == [b, c] && [b, c][1..] == [c] && [c][1..] == [];
    var s1, s2 := Apply(s, a), Apply(Apply(s, a), b);
    assert AllowedRun(s2, [c]);
    StepKeepsInv(s2, c);
    assert Run(s2, [c]) == Run(Apply(s2, c), []) == Apply(s2, c);
    assert Run(s1, [b, c]) == Run(s2, [c]);
  }

  /** From an empty vdir: mkdir /d, create /d/f, rename /d/f to /f. Every step is allowed, and no load rebuilds
      the tree. */
  lemma ReloadCanDisagree()
    ensures Inv(START) && AllowedRun(START, [MAKE_DIRECTORY, MAKE_FILE, MOVE_UP])
    ensures NoLoadRebuilds(Run(START, [MAKE_DIRECTORY, MAKE_FILE, MOVE_UP]))
  {
    hide AfterDirectory, AfterFile, Inv, Apply, Allowed, NoLoadRebuilds;
    DirectoryMade();
    var s1 := Apply(START, MAKE_DIRECTORY);
    FileMade(s1);
    MoveUpIsForgotten(Apply(s1, MAKE_FILE));
    ThreeSteps(START, MAKE_DIRECTORY, MAKE_FILE, MOVE_UP);
  }

  // ----- a vdir a load changes -----

  const NOTE := Ical.Component("u", Some("a"), None, [Ical.XProp(Ical.FILE_EXTENSION_PROPERTY, "txt")], [])
  const NOTE_BELOW := NOTE.(uid := "w", related := [Ical.Relation(Some(Ical.Parent), "u")])
  const SHARED_VDIR: Disk := map[VdirName("u") := NOTE, VdirName("w") := NOTE_BELOW]

  lemma NoteDecodes()
    ensures Ical.UniqueX(NOTE.xprops) && !Ical.IsDirectory(NOTE) && Ical.StoredExtension(NOTE, "") == "txt"
    ensures Ical.GetParentUid(NOTE_BELOW) == Some("u")
  {
    assert |"txt"| == 3 && Ical.GetX(NOTE.xprops, Ical.FILE_EXTENSION_PROPERTY) == Some("txt");
    assert |Ical.IS_DIRECTORY_PROPERTY| == 22 && |Ical.FILE_EXTENSION_PROPERTY| == 18;
    assert Ical.GetX(NOTE.xprops, Ical.IS_DIRECTORY_PROPERTY) == None && NOTE.related == [];
  }

  /** A note "a.txt" with another note below it: the load marks it as a directory, and the next load calls it "a". */
  lemma MountRenamesParent(order: seq<string>)
    requires LoadOrder(SHARED_VDIR, "", order)
    ensures !ReloadAgrees(Load(SHARED_VDIR, "", order))
  {
    hide Load, ReloadAgrees, LoadOrder, DiskParents, Ical.UniqueX, Ical.IsDirectory, Ical.StoredExtension, HasIcs,
         Ical.GetParentUid;
    NoteDecodes();
    VdirNameHasIcs("u");
    VdirNameHasIcs("w");
    assert VdirName("u") == "u.ics" && VdirName("w") == "w.ics";
    DiskParentOf(SHARED_VDIR, "", VdirName("w"));
    ParentLosesExtension(SHARED_VDIR, "", order, VdirName("u"), VdirName("w"));
  }
}
