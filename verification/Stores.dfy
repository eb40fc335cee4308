/** The joint state of fuse_node_store.c: the tree and the index over its nodes. */
module Stores {
  import opened Wrappers
  import opened Seqs
  import opened Forests
  import opened TreeNodes
  import opened NodeMaps
  import FreeNames
  import opened PathMaps
  import Model
  import Paths
  import HashMaps

  /** The index holds `n` under `v` exactly when `n` is the node with vdir name `v`. */
  ghost predicate Indexes(contents: map<string, TreeNode>, nodes: set<TreeNode>) {
    && (forall v :: v in contents ==> contents[v] in nodes && contents[v].id == File(v))
    && (forall n :: n in nodes && n.id.File? ==> n.id.vdir in contents && contents[n.id.vdir] == n)
  }

  /** The room for path segments on the stack of get_node_by_path. */
  const MAX_SEGMENTS := 255

  class Store {
    const root: TreeNode
    const index: HashMaps.HashMap<TreeNode>
    ghost var view: View
    ghost var Repr: set<object>

    /** The tree side: the fields of the nodes are as the view says. */
    ghost predicate TreeValid()
      reads this, Repr
    {
      && this !in Repr && view.nodes <= Repr && Arrays(view.nodes) <= Repr
      && Shows(view)
      && root in view.nodes && root.id == Root
    }

    ghost predicate Valid()
      reads this, Repr, index, index.Repr
    {
      && TreeValid()
      && index.Valid() && index.overwrites == 0 && index in index.Repr && index !in Repr && this !in index.Repr
            && Repr !! index.Repr
      && Indexes(index.contents, view.nodes)
    }

    /** The empty tree and index a load starts from. */
    constructor ()
      ensures Valid() && fresh(Repr) && fresh(index.Repr)
      ensures view.forest == EMPTY && view.nodes == {root} && index.contents == map[] && index.nBuckets == 0
    {
      hide Shows, HashMaps.HashMap.Valid;
      var r; ghost var v;
      r, v := NewRoot();
      root := r;
      index := new HashMaps.HashMap();
      view := v;
      Repr := {r, r.children};
    }

    /** add_child */
    method AddChild(p: TreeNode, c: TreeNode)
      requires TreeValid() && p in view.nodes && c in view.nodes
      modifies this, Repr
      ensures TreeValid() && (old(Valid()) ==> Valid()) && fresh(Repr - old(Repr))
      ensures view.nodes == old(view.nodes)
      ensures view.forest == Append(old(view.forest), p.id, c.id)
    {
      hide Shows, Indexes, HashMaps.HashMap.Valid;
      AttachNode(view, p, c);
      assert Arrays(view.nodes) <= Repr + {p.children};
      view, Repr := Attached(view, p, c), Repr + {p.children};
    }

    method DetachChild(c: TreeNode, p: TreeNode)
      requires TreeValid() && c in view.nodes && c.parent == p
      requires c in view.parents && view.parents[c] == p && p in view.nodes && p in view.kids && c in view.kids[p]
      requires p.id in view.forest.kids && Coherent(Detached(view, c))
      requires Detached(view, c).nodes == view.nodes
      modifies this, Repr
      ensures TreeValid() && (old(Valid()) ==> Valid()) && Repr == old(Repr)
      ensures view == old(Detached(view, c))
    {
      hide Shows, Coherent, Indexes, HashMaps.HashMap.Valid, Detached;
      DetachFrom(view, c, p);
      assert Arrays(view.nodes) <= Repr;
      view := Detached(view, c);
    }

    /** detach_tree_node */
    method DetachTreeNode(c: TreeNode) returns (detached: bool)
      requires TreeValid() && c in view.nodes && WellLinked(view.forest)
      modifies this, Repr
      ensures TreeValid() && (old(Valid()) ==> Valid()) && Repr == old(Repr)
      ensures view.nodes == old(view.nodes)
      ensures view.forest == Detach(old(view.forest), c.id)
      ensures detached == (old(c.parent) != null)
    {
      hide TreeValid, Coherent, Indexes, HashMaps.HashMap.Valid, WellLinked, Detached;
      DetachReach(c);
      detached := c.parent != null;
      if detached {
        DetachChild(c, c.parent);
      }
    }

    lemma DetachReach(c: TreeNode)
      requires TreeValid() && c in view.nodes && WellLinked(view.forest)
      ensures c in view.parents && view.parents[c] == c.parent
      ensures c.parent != null ==>
                && c.parent in view.nodes && c.parent in view.kids && c in view.kids[c.parent]
                && c.parent.id in view.forest.kids && Coherent(Detached(view, c))
      ensures c.parent == null ==> Detached(view, c) == view
      ensures Detached(view, c).forest == Detach(view.forest, c.id) && Detached(view, c).nodes == view.nodes
    {
      assert c.parent == view.parents[c];
      DetachFacts(view, c);
      DetachedForest(view, c);
      DetachedCoherent(view, c);
    }

    /** move_node */
    method MoveNode(p: TreeNode, c: TreeNode)
      requires TreeValid() && p in view.nodes && c in view.nodes && WellLinked(view.forest)
      modifies this, Repr
      ensures TreeValid() && (old(Valid()) ==> Valid()) && fresh(Repr - old(Repr))
      ensures view.nodes == old(view.nodes)
      ensures view.forest == Move(old(view.forest), p.id, c.id)
    {
      hide TreeValid, Indexes, HashMaps.HashMap.Valid, WellLinked;
      NodeInForest(p);
      var _ := DetachTreeNode(c);
      AddChild(p, c);
    }

    lemma NodeInForest(n: TreeNode)
      requires TreeValid() && n in view.nodes
      ensures n.id in view.forest.parent && n.id in view.forest.kids && n.id in view.forest.name
      ensures view.forest.name[n.id] == n.filename
      ensures view.forest.parent[n.id] == IdOf(n.parent) && (n.parent != null ==> n.parent in view.nodes)
      ensures n.Valid() && view.forest.kids[n.id] == Ids(n.Kids())
      ensures forall k :: 0 <= k < n.childCount ==> n.children[k] in view.nodes
    {
      hide Coherent;
      NodeIds(view, n);
      assert forall k :: 0 <= k < n.childCount ==> n.children[k] == n.Kids()[k];
    }

    /** set_node_filename */
    method SetNodeFilename(c: TreeNode, filename: string)
      requires TreeValid() && c in view.nodes && c.id.File?
      modifies this, Repr
      ensures TreeValid() && (old(Valid()) ==> Valid()) && Repr == old(Repr)
      ensures view.nodes == old(view.nodes)
      ensures view.forest == SetName(old(view.forest), c.id, filename) && c.filename == filename
    {
      hide Shows, Indexes, HashMaps.HashMap.Valid;
      RenameNode(view, c, filename);
      view := Named(view, c, filename);
    }

    /** create_tree_node */
    method SpawnNode(v: string, filename: string) returns (n: TreeNode)
      requires TreeValid() && File(v) !in view.forest.parent
      modifies this
      ensures TreeValid() && n.id == File(v) && fresh(n) && fresh(n.children) && Repr == old(Repr) + {n, n.children}
      ensures view.nodes == old(view.nodes) + {n} && view.forest == Spawn(old(view.forest), File(v), filename)
    {
      hide Shows;
      n := NewNode(view, File(v), filename);
      assert Arrays(view.nodes + {n}) <= Repr + {n, n.children};
      view, Repr := Joined(view, n, filename), Repr + {n, n.children};
    }

    /** create_fuse_node: the new node is indexed but hangs nowhere yet. */
    method CreateFuseNode(v: string, filename: string) returns (n: TreeNode)
      requires Valid() && File(v) !in view.forest.parent && index.nBuckets < HashMaps.LOAD_UNIT
      modifies this, Repr, index.Repr
      ensures Valid() && fresh(Repr - old(Repr)) && fresh(index.Repr - old(index.Repr))
      ensures index.nBuckets == old(index.nBuckets) + 1
      ensures n.id == File(v) && fresh(n) && view.nodes == old(view.nodes) + {n}
      ensures view.forest == Spawn(old(view.forest), File(v), filename)
    {
      hide TreeValid, Indexes, HashMaps.HashMap.Valid, Spawn;
      FreshId(v);
      n := SpawnNode(v, filename);
      IndexJoined(index.contents, old(view.nodes), n, v);
      index.Insert(v, n);
    }

    static lemma IndexJoined(contents: map<string, TreeNode>, nodes: set<TreeNode>, n: TreeNode, v: string)
      requires Indexes(contents, nodes) && n.id == File(v) && v !in contents
      ensures Indexes(contents[v := n], nodes + {n})
    {
    }

    lemma FreshId(v: string)
      requires Valid()
      ensures v in index.contents <==> File(v) in view.forest.parent
      ensures v in index.contents ==> index.contents[v] in view.nodes && index.contents[v].id == File(v)
    {
      if v in index.contents {
        NodeInForest(index.contents[v]);
      }
    }

    /** get_fuse_node_from_vdir_name */
    method GetFuseNodeFromVdirName(v: string) returns (n: TreeNode?)
      requires Valid()
      ensures n == null <==> File(v) !in view.forest.parent
      ensures n != null ==> n in view.nodes && n.id == File(v)
    {
      hide TreeValid, Indexes, HashMaps.HashMap.Valid;
      FreshId(v);
      var found := index.Get(v);
      n := if found.None? then null else found.value;
    }

    /** upsert_fuse_node */
    method UpsertFuseNode(v: string, filename: string) returns (n: TreeNode)
      requires Valid() && index.nBuckets < HashMaps.LOAD_UNIT
      modifies this, Repr, index.Repr
      ensures Valid() && fresh(Repr - old(Repr)) && fresh(index.Repr - old(index.Repr))
      ensures index.nBuckets <= old(index.nBuckets) + 1
      ensures n.id == File(v) && view.nodes == old(view.nodes) + {n}
      ensures view.forest == Model.Upsert(old(view.forest), File(v), filename)
    {
      hide TreeValid, Indexes, HashMaps.HashMap.Valid, Spawn, SetName;
      var found := GetFuseNodeFromVdirName(v);
      if found != null {
        n := found;
        SetNodeFilename(n, filename);
      } else {
        n := CreateFuseNode(v, filename);
      }
    }

    /** delete_fuse_node, for a node without children */
    method DeleteFuseNode(n: TreeNode)
      requires Valid() && n in view.nodes && n.id.File? && n.childCount == 0 && WellLinked(view.forest)
      modifies this, Repr, index.Repr
      ensures Valid() && Repr == old(Repr) && index.Repr == old(index.Repr)
      ensures index.nBuckets == old(index.nBuckets) - 1
      ensures view.nodes == old(view.nodes) - {n}
      ensures view.forest == Drop(Detach(old(view.forest), n.id), n.id)
    {
      hide TreeValid, Indexes, HashMaps.HashMap.Valid, Detach, Drop;
      NodeInForest(n);
      FreshId(n.id.vdir);
      IndexWithout(index.contents, view.nodes, n);
      DetachedLeaf(view.forest, n.id);
      var _ := index.Remove(n.id.vdir);
      var _ := DetachTreeNode(n);
      FreeTree(n);
    }

    static lemma IndexWithout(contents: map<string, TreeNode>, nodes: set<TreeNode>, n: TreeNode)
      requires Indexes(contents, nodes) && n in nodes && n.id.File?
      ensures n.id.vdir in contents && Indexes(contents - {n.id.vdir}, nodes - {n})
    {
    }

    /** free_tree on a node that hangs nowhere and has no children: the node is no longer part of the store. */
    method FreeTree(n: TreeNode)
      requires TreeValid() && n in view.nodes && n.id != Root && WellLinked(view.forest)
      requires n.id in view.forest.parent && view.forest.parent[n.id] == None && view.forest.kids[n.id] == []
      modifies this
      ensures TreeValid() && Repr == old(Repr)
      ensures view.nodes == old(view.nodes) - {n}
      ensures view.forest == Drop(old(view.forest), n.id)
    {
      hide Shows, WellLinked;
      NodeFreed(view, n);
      assert Arrays(view.nodes - {n}) <= Arrays(view.nodes);
      view := Left(view, n);
    }

    /** get_node_by_path: the walk stops at the first segment that names no child. */
    method GetNodeByPath(path: string) returns (n: TreeNode?)
      requires TreeValid() && WellLinked(view.forest) && |Paths.Split(path)| <= MAX_SEGMENTS
      ensures n != null ==> n in view.nodes
      ensures Root in view.forest.kids && IdOf(n) == Lookup(view.forest, Root, Paths.Split(path))
    {
      hide Shows, WellLinked, Paths.Split;
      NodeInForest(root);
      if path == "/" {
        SplitSlash();
        return root;
      }
      var segments := Paths.SplitPath(path);
      var current := root;
      var i := 0;
      while i < |segments|
        invariant 0 <= i <= |segments| && current in view.nodes && current.id in view.forest.kids
        invariant Lookup(view.forest, current.id, segments[i..]) == Lookup(view.forest, Root, segments)
      {
        NodeInForest(current);
        var next := FindChild(current, segments[i]);
        assert segments[i..][0] == segments[i] && segments[i..][1..] == segments[i + 1..];
        FoundChild(current, segments[i], next);
        if next == null {
          return null;
        }
        NodeInForest(next);
        current := next;
        i := i + 1;
      }
      return current;
    }

    lemma SplitSlash()
      ensures Paths.Split("/") == []
    {
      assert "/"[1..] == [];
    }

    /** The child the inner loop finds is the one a lookup follows. */
    lemma FoundChild(p: TreeNode, name: string, c: TreeNode?)
      requires TreeValid() && p in view.nodes && WellLinked(view.forest)
      requires p.Valid() && FirstNamed(p.Kids(), name, c)
      ensures p.id in view.forest.kids && c != null ==> c in view.nodes
      ensures forall i :: 0 <= i < |view.forest.kids[p.id]| ==> view.forest.kids[p.id][i] in view.forest.name
      ensures ChildNamed(view.forest, view.forest.kids[p.id], name) == IdOf(c)
    {
      hide TreeValid, WellLinked, ChildNamed;
      NodeInForest(p);
      KidsAreNodes(view.forest, p.id);
      ghost var kids, ids := p.Kids(), view.forest.kids[p.id];
      forall j | 0 <= j < |kids|
        ensures kids[j] in view.nodes && view.forest.name[ids[j]] == kids[j].filename && ids[j] == kids[j].id
      {
        assert kids[j] == p.children[j];
        NodeInForest(kids[j]);
      }
      if c != null {
        var j :| 0 <= j < |kids| && kids[j] == c && c.filename == name && NoneNamed(kids[..j], name);
        assert forall i :: 0 <= i < j ==> kids[..j][i] == kids[i];
        ChildNamedFirst(view.forest, ids, name, j);
      }
    }

    /** add_fuse_child */
    method AddFuseChild(p: TreeNode, c: TreeNode)
      requires TreeValid() && p in view.nodes && c in view.nodes && c.id.File? && WellLinked(view.forest)
      modifies this, Repr
      ensures TreeValid() && (old(Valid()) ==> Valid()) && fresh(Repr - old(Repr))
      ensures view.nodes == old(view.nodes)
      ensures p.id in old(view.forest.kids) && c.id in old(view.forest.name)
              && FreeNames.KidsNamed(old(view.forest), p.id)
      ensures view.forest == FreeNames.AddFuseChild(old(view.forest), p.id, c.id)
    {
      hide TreeValid, Indexes, HashMaps.HashMap.Valid, WellLinked, Append, SetName, FreeNames.FreeName;
      NodeInForest(p);
      NodeInForest(c);
      FreeNames.KidsAreNamed(view.forest, p.id);
      KidFilenames(p);
      var newFilename := UniqueFilename(p, c.filename);
      SetNodeFilename(c, newFilename);
      AddChild(p, c);
    }

    lemma KidFilenames(p: TreeNode)
      requires TreeValid() && p in view.nodes && WellLinked(view.forest)
      requires p.Valid() && p.id in view.forest.kids && FreeNames.KidsNamed(view.forest, p.id)
      ensures Filenames(p.Kids()) == FreeNames.NamesOf(view.forest, view.forest.kids[p.id])
    {
      NodeInForest(p);
      forall k | 0 <= k < p.childCount
        ensures Filenames(p.Kids())[k] == FreeNames.NamesOf(view.forest, view.forest.kids[p.id])[k]
      {
        NodeInForest(p.Kids()[k]);
      }
    }

    /** move_fuse_node */
    method MoveFuseNode(p: TreeNode, c: TreeNode)
      requires TreeValid() && p in view.nodes && c in view.nodes && c.id.File? && WellLinked(view.forest)
      modifies this, Repr
      ensures TreeValid() && (old(Valid()) ==> Valid()) && fresh(Repr - old(Repr))
      ensures view.nodes == old(view.nodes)
      ensures p.id in old(view.forest.kids) && c.id in old(view.forest.parent)
      ensures view.forest == FreeNames.MoveFuseNode(old(view.forest), p.id, c.id)
    {
      hide TreeValid, Indexes, HashMaps.HashMap.Valid, WellLinked, FreeNames.AddFuseChild;
      NodeInForest(p);
      NodeInForest(c);
      DetachLinked(view.forest, c.id);
      var _ := DetachTreeNode(c);
      AddFuseChild(p, c);
    }
  }

  ghost function Filenames(nodes: seq<TreeNode>): (names: seq<string>)
    reads set n | n in nodes
    ensures |names| == |nodes|
    ensures forall k :: 0 <= k < |names| ==> names[k] == nodes[k].filename
  {
    seq(|nodes|, k requires 0 <= k < |nodes| reads (set n | n in nodes) => nodes[k].filename)
  }

  ghost predicate NoneNamed(kids: seq<TreeNode>, name: string)
    reads kids
  {
    forall i :: 0 <= i < |kids| ==> kids[i].filename != name
  }

  /** `c` is the first of `kids` called `name`, or null. */
  ghost predicate FirstNamed(kids: seq<TreeNode>, name: string, c: TreeNode?)
    reads kids
  {
    if c == null then NoneNamed(kids, name)
    else exists j :: 0 <= j < |kids| && kids[j] == c && c.filename == name && NoneNamed(kids[..j], name)
  }

  /** The inner loop of get_node_by_path. */
  method FindChild(p: TreeNode, name: string) returns (next: TreeNode?)
    requires p.Valid()
    ensures FirstNamed(p.Kids(), name, next)
  {
    next := null;
    var j := 0;
    while j < p.childCount
      invariant 0 <= j <= p.childCount && NoneNamed(p.Kids()[..j], name)
    {
      assert p.children[j] == p.Kids()[j];
      if p.children[j].filename == name {
        return p.children[j];
      }
      assert p.Kids()[..j + 1] == p.Kids()[..j] + [p.Kids()[j]];
      j := j + 1;
    }
    assert p.Kids()[..p.childCount] == p.Kids();
  }

  /** One pass of the inner loop: is no child called `name`? */
  method IsUnique(p: TreeNode, name: string) returns (unique: bool)
    requires p.Valid()
    ensures unique <==> name !in Filenames(p.Kids())
  {
    ghost var taken := Filenames(p.Kids());
    unique := true;
    var i := 0;
    while i < p.childCount
      invariant 0 <= i <= p.childCount && unique
      invariant forall j :: 0 <= j < i ==> taken[j] != name
    {
      assert p.children[i] == p.Kids()[i];
      if name == p.children[i].filename {
        assert taken[i] == name;
        unique := false;
        break;
      }
      i := i + 1;
    }
  }

  /** The search of add_fuse_child: it ends, at the first name no child of `p` has. */
  method UniqueFilename(p: TreeNode, filename: string) returns (newFilename: string)
    requires p.Valid()
    ensures newFilename == FreeNames.FreeName(Filenames(p.Kids()), filename)
  {
    hide FreeNames.FreeName, Paths.FilenameNumbered;
    ghost var taken := Filenames(p.Kids());
    newFilename := filename;
    var conflictCount := 1;
    while true
      invariant 1 <= conflictCount <= |taken| + 1 && taken == Filenames(p.Kids())
      invariant newFilename == FreeNames.Candidate(filename, conflictCount - 1)
      invariant forall k :: 0 <= k < conflictCount - 1 ==> FreeNames.Candidate(filename, k) in taken
      decreases |taken| + 1 - conflictCount
    {
      var unique := IsUnique(p, newFilename);
      if unique {
        FreeNames.FreeNameIsFirst(taken, filename, conflictCount - 1);
        break;
      }
      FreeNames.MoreNamesThanCandidates(taken, filename, conflictCount);
      newFilename := Paths.FilenameNumbered(filename, conflictCount);
      conflictCount := conflictCount + 1;
    }
  }
}
