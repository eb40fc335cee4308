/** A heap of tree nodes seen as a forest. */
module NodeMaps {
  import opened Wrappers
  import opened Seqs
  import opened Forests
  import opened TreeNodes

  type Parents = map<TreeNode, TreeNode?>
  type Kids = map<TreeNode, seq<TreeNode>>
  type Names = map<TreeNode, string>

  // ----- the fields of all nodes as values -----

  ghost predicate ParentsAre(nodes: set<TreeNode>, parents: Parents)
    reads nodes`parent
  {
    parents.Keys == nodes && forall n :: n in nodes ==> n.parent == parents[n]
  }

  ghost predicate NamesAre(nodes: set<TreeNode>, names: Names)
    reads nodes`filename
  {
    names.Keys == nodes && forall n :: n in nodes ==> n.filename == names[n]
  }

  ghost function Arrays(nodes: set<TreeNode>): set<array<TreeNode>>
    reads nodes`children
  {
    set n | n in nodes :: n.children
  }

  /** Every node owns its child array, and the arrays hold `kids`. */
  ghost predicate KidsAre(nodes: set<TreeNode>, kids: Kids)
    reads nodes`children, nodes`childCount, Arrays(nodes)
  {
    && kids.Keys == nodes
    && (forall m, n :: m in nodes && n in nodes && m != n ==> m.children != n.children)
    && (forall n :: n in nodes ==> n.Valid() && n.Kids() == kids[n])
  }

  method PushKid(ghost nodes: set<TreeNode>, ghost kids: Kids, p: TreeNode, c: TreeNode)
    requires p in nodes && KidsAre(nodes, kids)
    modifies p`children, p`childCount, p.children
    ensures KidsAre(nodes, kids[p := kids[p] + [c]])
    ensures p.children == old(p.children) || fresh(p.children)
    ensures Arrays(nodes) <= old(Arrays(nodes)) + {p.children}
  {
    p.PushChild(c);
    assert kids[p := kids[p] + [c]].Keys == nodes;
    forall n | n in nodes && n != p
      ensures n.Valid() && n.children == old(n.children) && n.children != p.children && n.Kids() == kids[n]
    {
    }
  }

  method SetParent(ghost nodes: set<TreeNode>, ghost parents: Parents, ghost kids: Kids, c: TreeNode, p: TreeNode?)
    requires c in nodes && ParentsAre(nodes, parents) && KidsAre(nodes, kids)
    modifies c`parent
    ensures ParentsAre(nodes, parents[c := p]) && KidsAre(nodes, kids)
  {
    c.parent := p;
    assert parents[c := p].Keys == nodes;
  }

  method SetFilename(ghost nodes: set<TreeNode>, ghost names: Names, ghost kids: Kids, c: TreeNode, filename: string)
    requires c in nodes && NamesAre(nodes, names) && KidsAre(nodes, kids)
    modifies c`filename
    ensures NamesAre(nodes, names[c := filename]) && KidsAre(nodes, kids) && c.filename == filename
  {
    c.filename := filename;
    assert names[c := filename].Keys == nodes;
  }

  method DropKid(ghost nodes: set<TreeNode>, ghost kids: Kids, p: TreeNode, c: TreeNode)
    requires p in nodes && KidsAre(nodes, kids) && c in kids[p]
    modifies p`childCount, p.children
    ensures KidsAre(nodes, kids[p := Without(kids[p], c)])
  {
    p.RemoveChild(c);
    assert kids[p := Without(kids[p], c)].Keys == nodes;
    forall n | n in nodes && n != p
      ensures n.Valid() && n.Kids() == kids[n]
    {
      assert n.children != p.children;
    }
  }

  /** A node without parent and children joins the others. */
  lemma NodeJoins(nodes: set<TreeNode>, parents: Parents, kids: Kids, names: Names, c: TreeNode)
    requires ParentsAre(nodes, parents) && KidsAre(nodes, kids) && NamesAre(nodes, names)
    requires c.parent == null && c.Valid() && c.Kids() == [] && c.children !in Arrays(nodes)
    ensures ParentsAre(nodes + {c}, parents[c := null])
    ensures KidsAre(nodes + {c}, kids[c := []])
    ensures NamesAre(nodes + {c}, names[c := c.filename])
  {
    assert parents[c := null].Keys == nodes + {c};
    assert kids[c := []].Keys == nodes + {c};
    assert names[c := c.filename].Keys == nodes + {c};
  }

  lemma NodeLeaves(nodes: set<TreeNode>, parents: Parents, kids: Kids, names: Names, c: TreeNode)
    requires ParentsAre(nodes, parents) && KidsAre(nodes, kids) && NamesAre(nodes, names)
    ensures ParentsAre(nodes - {c}, parents - {c})
    ensures KidsAre(nodes - {c}, kids - {c})
    ensures NamesAre(nodes - {c}, names - {c})
  {
    assert (parents - {c}).Keys == nodes - {c};
    assert (kids - {c}).Keys == nodes - {c};
    assert (names - {c}).Keys == nodes - {c};
  }

  // ----- the forest they depict -----

  ghost function IdOf(n: TreeNode?): Option<Id> {
    if n == null then None else Some(n.id)
  }

  ghost function Ids(kids: seq<TreeNode>): (ids: seq<Id>)
    ensures |ids| == |kids|
    ensures forall k :: 0 <= k < |ids| ==> ids[k] == kids[k].id
  {
    seq(|kids|, k requires 0 <= k < |kids| => kids[k].id)
  }

  /** The fields of all nodes as values, and the forest they spell out. */
  datatype View = View(nodes: set<TreeNode>, parents: Parents, kids: Kids, names: Names, forest: Forest)

  /** No two nodes share an id, and `ids` are the ids of all nodes. */
  ghost predicate Identified(nodes: set<TreeNode>, ids: set<Id>) {
    && (forall m, n :: m in nodes && n in nodes && m.id == n.id ==> m == n)
    && (forall n :: n in nodes ==> n.id in ids)
    && (forall i :: i in ids ==> exists n :: n in nodes && n.id == i)
  }

  ghost predicate DepictParents(nodes: set<TreeNode>, parents: Parents, up: Up)
    requires parents.Keys == nodes
  {
    forall n :: n in nodes ==>
      (parents[n] == null || parents[n] in nodes) && n.id in up && up[n.id] == IdOf(parents[n])
  }

  ghost predicate DepictKids(nodes: set<TreeNode>, kids: Kids, down: map<Id, seq<Id>>)
    requires kids.Keys == nodes
  {
    && (forall n, k :: n in nodes && 0 <= k < |kids[n]| ==> kids[n][k] in nodes)
    && (forall n :: n in nodes ==> n.id in down && down[n.id] == Ids(kids[n]))
  }

  ghost predicate DepictNames(nodes: set<TreeNode>, names: Names, called: map<Id, string>)
    requires names.Keys == nodes
  {
    forall n :: n in nodes ==> n.id in called && called[n.id] == names[n]
  }

  /** The values in `v` fit together. */
  ghost predicate Coherent(v: View) {
    && v.parents.Keys == v.nodes && v.kids.Keys == v.nodes && v.names.Keys == v.nodes
    && Identified(v.nodes, v.forest.parent.Keys)
    && v.forest.kids.Keys == v.forest.parent.Keys && v.forest.name.Keys == v.forest.parent.Keys
    && DepictParents(v.nodes, v.parents, v.forest.parent)
    && DepictKids(v.nodes, v.kids, v.forest.kids)
    && DepictNames(v.nodes, v.names, v.forest.name)
  }

  /** The fields of the nodes are as `v` says. */
  ghost predicate Shows(v: View)
    reads v.nodes`parent, v.nodes`children, v.nodes`childCount, v.nodes`filename, Arrays(v.nodes)
  {
    ParentsAre(v.nodes, v.parents) && KidsAre(v.nodes, v.kids) && NamesAre(v.nodes, v.names) && Coherent(v)
  }

  lemma WithoutIds(kids: seq<TreeNode>, c: TreeNode, nodes: set<TreeNode>, ids: set<Id>)
    requires Identified(nodes, ids) && c in nodes && forall k :: 0 <= k < |kids| ==> kids[k] in nodes
    ensures Ids(Without(kids, c)) == Without(Ids(kids), c.id)
    ensures c in kids <==> c.id in Ids(kids)
  {
    forall k | 0 <= k < |kids|
      ensures Ids(kids)[k] == c.id <==> kids[k] == c
    {
      assert kids[k] in nodes;
    }
    if c in kids {
      hide Ids, Identified;
      var i := IndexOf(kids, c);
      FirstIndex(Ids(kids), c.id, i);
      IdsWithoutOne(kids, i);
    }
  }

  lemma IdsWithoutOne(kids: seq<TreeNode>, i: nat)
    requires i < |kids|
    ensures Ids(kids[..i] + kids[i + 1..]) == Ids(kids)[..i] + Ids(kids)[i + 1..]
  {
  }

  // ----- what the tree operations do to the view -----

  ghost function Attached(v: View, p: TreeNode, c: TreeNode): View {
    if p !in v.kids then v
    else v.(parents := v.parents[c := p], kids := v.kids[p := v.kids[p] + [c]], forest := Append(v.forest, p.id, c.id))
  }

  lemma OnlyNode(nodes: set<TreeNode>, ids: set<Id>, c: TreeNode)
    requires Identified(nodes, ids) && c in nodes
    ensures c.id in ids && forall n :: n in nodes && n.id == c.id ==> n == c
  {
  }

  lemma ParentReset(nodes: set<TreeNode>, parents: Parents, up: Up, c: TreeNode, p: TreeNode?)
    requires parents.Keys == nodes && DepictParents(nodes, parents, up) && Identified(nodes, up.Keys)
    requires c in nodes && (p != null ==> p in nodes)
    ensures parents[c := p].Keys == nodes && up[c.id := IdOf(p)].Keys == up.Keys
    ensures DepictParents(nodes, parents[c := p], up[c.id := IdOf(p)])
  {
    OnlyNode(nodes, up.Keys, c);
    hide Identified;
    assert parents[c := p].Keys == nodes && up[c.id := IdOf(p)].Keys == up.Keys;
  }

  lemma KidsReset(nodes: set<TreeNode>, kids: Kids, down: map<Id, seq<Id>>, p: TreeNode, ks: seq<TreeNode>)
    requires kids.Keys == nodes && DepictKids(nodes, kids, down) && Identified(nodes, down.Keys)
    requires p in nodes && forall k :: 0 <= k < |ks| ==> ks[k] in nodes
    ensures kids[p := ks].Keys == nodes && down[p.id := Ids(ks)].Keys == down.Keys
    ensures DepictKids(nodes, kids[p := ks], down[p.id := Ids(ks)])
  {
    assert kids[p := ks].Keys == nodes && down[p.id := Ids(ks)].Keys == down.Keys;
  }

  lemma NameReset(nodes: set<TreeNode>, names: Names, called: map<Id, string>, c: TreeNode, name: string)
    requires names.Keys == nodes && DepictNames(nodes, names, called) && Identified(nodes, called.Keys)
    requires c in nodes
    ensures names[c := name].Keys == nodes && called[c.id := name].Keys == called.Keys
    ensures DepictNames(nodes, names[c := name], called[c.id := name])
  {
    assert names[c := name].Keys == nodes && called[c.id := name].Keys == called.Keys;
  }

  lemma NodeIds(v: View, p: TreeNode)
    requires Coherent(v) && p in v.nodes
    ensures p in v.parents && p in v.kids && p in v.names
    ensures p.id in v.forest.parent && p.id in v.forest.kids && p.id in v.forest.name
    ensures v.forest.kids[p.id] == Ids(v.kids[p]) && v.forest.parent[p.id] == IdOf(v.parents[p])
    ensures v.forest.name[p.id] == v.names[p]
    ensures forall k :: 0 <= k < |v.kids[p]| ==> v.kids[p][k] in v.nodes
    ensures v.parents[p] == null || v.parents[p] in v.nodes
  {
  }

  lemma AttachedCoherent(v: View, p: TreeNode, c: TreeNode)
    requires Coherent(v) && p in v.nodes && c in v.nodes
    ensures p in v.kids && p.id in v.forest.kids && Coherent(Attached(v, p, c))
  {
    NodeIds(v, p);
    var ks := v.kids[p] + [c];
    ParentReset(v.nodes, v.parents, v.forest.parent, c, p);
    hide Identified, DepictNames, DepictParents;
    assert Ids(ks) == Ids(v.kids[p]) + [c.id];
    KidsReset(v.nodes, v.kids, v.forest.kids, p, ks);
  }

  /** add_child */
  method AttachNode(ghost v: View, p: TreeNode, c: TreeNode)
    requires Shows(v) && p in v.nodes && c in v.nodes
    modifies p`children, p`childCount, p.children, c`parent
    ensures Shows(Attached(v, p, c)) && Attached(v, p, c).forest == Append(v.forest, p.id, c.id)
    ensures p.children == old(p.children) || fresh(p.children)
    ensures Arrays(v.nodes) <= old(Arrays(v.nodes)) + {p.children}
  {
    hide ParentsAre, KidsAre, NamesAre, Coherent;
    AttachedCoherent(v, p, c);
    ghost var w := Attached(v, p, c);
    PushKid(v.nodes, v.kids, p, c);
    SetParent(v.nodes, v.parents, w.kids, c, p);
  }

  ghost function Detached(v: View, c: TreeNode): View {
    if c !in v.parents || v.parents[c] == null || v.parents[c] !in v.kids || v.parents[c].id !in v.forest.kids then v
    else
      var p := v.parents[c];
      v.(parents := v.parents[c := null], kids := v.kids[p := Without(v.kids[p], c)],
         forest := v.forest.(parent := v.forest.parent[c.id := None],
                             kids := v.forest.kids[p.id := Without(v.forest.kids[p.id], c.id)]))
  }

  /** What detach_tree_node relies on: a node with a parent is one of the parent's children. */
  lemma DetachFacts(v: View, c: TreeNode)
    requires Coherent(v) && c in v.nodes && WellLinked(v.forest)
    ensures c in v.parents && c.id in v.forest.parent && v.forest.parent[c.id] == IdOf(v.parents[c])
    ensures v.parents[c] != null ==> v.parents[c] in v.kids && v.parents[c] in v.nodes && c in v.kids[v.parents[c]]
    ensures v.parents[c] != null ==> v.parents[c].id in v.forest.kids
    ensures v.parents[c] != null ==>
              Ids(Without(v.kids[v.parents[c]], c)) == Without(v.forest.kids[v.parents[c].id], c.id)
  {
    hide KidsPointBack, KidsOnce;
    NodeIds(v, c);
    if v.parents[c] != null {
      NodeIds(v, v.parents[c]);
      WithoutIds(v.kids[v.parents[c]], c, v.nodes, v.forest.parent.Keys);
    }
  }

  lemma WithoutSubset(ks: seq<TreeNode>, c: TreeNode, nodes: set<TreeNode>)
    requires forall k :: 0 <= k < |ks| ==> ks[k] in nodes
    ensures forall k :: 0 <= k < |Without(ks, c)| ==> Without(ks, c)[k] in nodes
  {
    if c in ks {
      var i := IndexOf(ks, c);
      assert forall k :: 0 <= k < |Without(ks, c)| ==> Without(ks, c)[k] == ks[if k < i then k else k + 1];
    }
  }

  lemma DetachedCoherent(v: View, c: TreeNode)
    requires Coherent(v) && c in v.nodes && WellLinked(v.forest)
    ensures Coherent(Detached(v, c))
  {
    DetachFacts(v, c);
    var p := v.parents[c];
    if p != null {
      ParentReset(v.nodes, v.parents, v.forest.parent, c, null);
      hide WellLinked, Identified, DepictNames, DepictParents;
      NodeIds(v, p);
      WithoutSubset(v.kids[p], c, v.nodes);
      KidsReset(v.nodes, v.kids, v.forest.kids, p, Without(v.kids[p], c));
    }
  }

  lemma DetachedForest(v: View, c: TreeNode)
    requires Coherent(v) && c in v.nodes && WellLinked(v.forest)
    ensures Detached(v, c).forest == Detach(v.forest, c.id)
  {
    DetachFacts(v, c);
    hide WellLinked, Coherent;
  }

  /** What detach_tree_node does to a node with a parent. */
  method DetachFrom(ghost v: View, c: TreeNode, p: TreeNode)
    requires Shows(v) && c in v.nodes && c.parent == p
    requires c in v.parents && v.parents[c] == p && p in v.nodes && p in v.kids && c in v.kids[p]
             && p.id in v.forest.kids
    requires Coherent(Detached(v, c))
    modifies c`parent, p`childCount, p.children
    ensures Shows(Detached(v, c)) && Arrays(v.nodes) == old(Arrays(v.nodes))
  {
    hide ParentsAre, KidsAre, NamesAre, Coherent;
    DropKid(v.nodes, v.kids, p, c);
    SetParent(v.nodes, v.parents, v.kids[p := Without(v.kids[p], c)], c, null);
  }

  ghost function Named(v: View, c: TreeNode, name: string): View {
    v.(names := v.names[c := name], forest := SetName(v.forest, c.id, name))
  }

  /** set_node_filename */
  method RenameNode(ghost v: View, c: TreeNode, filename: string)
    requires Shows(v) && c in v.nodes
    modifies c`filename
    ensures Shows(Named(v, c, filename)) && c.filename == filename
  {
    hide ParentsAre, KidsAre, NamesAre, DepictParents, DepictKids;
    NameReset(v.nodes, v.names, v.forest.name, c, filename);
    SetFilename(v.nodes, v.names, v.kids, c, filename);
  }

  ghost function Joined(v: View, c: TreeNode, name: string): View {
    View(v.nodes + {c}, v.parents[c := null], v.kids[c := []], v.names[c := name], Spawn(v.forest, c.id, name))
  }

  lemma JoinedIdentified(nodes: set<TreeNode>, ids: set<Id>, c: TreeNode)
    requires Identified(nodes, ids) && c.id !in ids
    ensures Identified(nodes + {c}, ids + {c.id})
  {
    forall i | i in ids + {c.id}
      ensures exists n :: n in nodes + {c} && n.id == i
    {
      if i == c.id {
        assert c in nodes + {c};
      } else {
        var n :| n in nodes && n.id == i;
        assert n in nodes + {c};
      }
    }
  }

  lemma JoinedParents(nodes: set<TreeNode>, parents: Parents, up: Up, c: TreeNode)
    requires parents.Keys == nodes && DepictParents(nodes, parents, up) && forall n :: n in nodes ==> n.id != c.id
    ensures parents[c := null].Keys == nodes + {c}
    ensures DepictParents(nodes + {c}, parents[c := null], up[c.id := None])
  {
    assert parents[c := null].Keys == nodes + {c};
  }

  lemma JoinedKids(nodes: set<TreeNode>, kids: Kids, down: map<Id, seq<Id>>, c: TreeNode)
    requires kids.Keys == nodes && DepictKids(nodes, kids, down) && forall n :: n in nodes ==> n.id != c.id
    ensures kids[c := []].Keys == nodes + {c}
    ensures DepictKids(nodes + {c}, kids[c := []], down[c.id := []])
  {
    assert kids[c := []].Keys == nodes + {c};
    assert Ids([]) == [];
  }

  lemma JoinedNames(nodes: set<TreeNode>, names: Names, called: map<Id, string>, c: TreeNode, name: string)
    requires names.Keys == nodes && DepictNames(nodes, names, called) && forall n :: n in nodes ==> n.id != c.id
    ensures names[c := name].Keys == nodes + {c}
    ensures DepictNames(nodes + {c}, names[c := name], called[c.id := name])
  {
    assert names[c := name].Keys == nodes + {c};
  }

  lemma JoinedKeys(f: Forest, i: Id, name: string)
    requires f.kids.Keys == f.parent.Keys && f.name.Keys == f.parent.Keys
    ensures Spawn(f, i, name).parent.Keys == f.parent.Keys + {i}
    ensures Spawn(f, i, name).kids.Keys == f.parent.Keys + {i} && Spawn(f, i, name).name.Keys == f.parent.Keys + {i}
  {
  }

  lemma JoinedCoherent(v: View, c: TreeNode, name: string)
    requires Coherent(v) && c.id !in v.forest.parent
    ensures Coherent(Joined(v, c, name))
  {
    NoSuchNode(v, c);
    hide Identified, DepictParents, DepictKids, DepictNames;
    JoinedIdentified(v.nodes, v.forest.parent.Keys, c);
    JoinedParents(v.nodes, v.parents, v.forest.parent, c);
    JoinedKids(v.nodes, v.kids, v.forest.kids, c);
    JoinedNames(v.nodes, v.names, v.forest.name, c, name);
    JoinedKeys(v.forest, c.id, name);
  }

  lemma NoSuchNode(v: View, c: TreeNode)
    requires Coherent(v) && c.id !in v.forest.parent
    ensures c !in v.nodes && forall n :: n in v.nodes ==> n.id != c.id
  {
  }

  /** create_tree_node */
  method NewNode(ghost v: View, id: Id, filename: string) returns (c: TreeNode)
    requires Shows(v) && id !in v.forest.parent
    ensures fresh(c) && fresh(c.children) && c.id == id && Shows(Joined(v, c, filename))
    ensures Arrays(v.nodes + {c}) == Arrays(v.nodes) + {c.children}
  {
    c := new TreeNode(id, filename);
    hide Coherent;
    JoinedCoherent(v, c, filename);
    NodeJoins(v.nodes, v.parents, v.kids, v.names, c);
  }

  ghost function Left(v: View, c: TreeNode): View {
    View(v.nodes - {c}, v.parents - {c}, v.kids - {c}, v.names - {c}, Drop(v.forest, c.id))
  }

  lemma LeftIdentified(nodes: set<TreeNode>, ids: set<Id>, c: TreeNode)
    requires Identified(nodes, ids) && c in nodes
    ensures Identified(nodes - {c}, ids - {c.id})
  {
    forall i | i in ids - {c.id}
      ensures exists n :: n in nodes - {c} && n.id == i
    {
      var n :| n in nodes && n.id == i;
      assert n in nodes - {c};
    }
  }

  /** Nothing points to a node without parent and children. */
  lemma NothingPointsTo(v: View, c: TreeNode, n: TreeNode)
    requires Coherent(v) && c in v.nodes && n in v.nodes && WellLinked(v.forest)
    requires c.id in v.forest.parent && v.forest.parent[c.id] == None && v.forest.kids[c.id] == []
    ensures n in v.parents && n in v.kids && v.parents[n] != c
    ensures forall k :: 0 <= k < |v.kids[n]| ==> v.kids[n][k] != c
  {
    hide KidsOnce, Identified;
    NodeIds(v, n);
    assert v.parents[n] != null ==> n.id in v.forest.kids[v.parents[n].id];
    forall k | 0 <= k < |v.kids[n]|
      ensures v.kids[n][k] != c
    {
      assert Ids(v.kids[n])[k] in v.forest.kids[n.id];
    }
  }

  /** A node nothing points to leaves the others. */
  lemma LeftParents(v: View, c: TreeNode)
    requires Coherent(v) && c in v.nodes
    requires forall n :: n in v.nodes ==> n in v.parents && v.parents[n] != c
    ensures (v.parents - {c}).Keys == v.nodes - {c} && (v.names - {c}).Keys == v.nodes - {c}
    ensures DepictParents(v.nodes - {c}, v.parents - {c}, v.forest.parent - {c.id})
    ensures DepictNames(v.nodes - {c}, v.names - {c}, v.forest.name - {c.id})
  {
    assert (v.parents - {c}).Keys == v.nodes - {c} && (v.names - {c}).Keys == v.nodes - {c};
    assert forall n :: n in v.nodes - {c} ==> n.id != c.id;
  }

  lemma LeftKids(v: View, c: TreeNode)
    requires Coherent(v) && c in v.nodes
    requires forall n, k :: n in v.nodes && n in v.kids && 0 <= k < |v.kids[n]| ==> v.kids[n][k] != c
    ensures (v.kids - {c}).Keys == v.nodes - {c}
    ensures DepictKids(v.nodes - {c}, v.kids - {c}, v.forest.kids - {c.id})
  {
    assert (v.kids - {c}).Keys == v.nodes - {c};
    assert forall n :: n in v.nodes - {c} ==> n.id != c.id;
  }

  lemma LeftCoherent(v: View, c: TreeNode)
    requires Coherent(v) && c in v.nodes && WellLinked(v.forest)
    requires c.id in v.forest.parent && v.forest.parent[c.id] == None && v.forest.kids[c.id] == []
    ensures Coherent(Left(v, c))
  {
    LeftIdentified(v.nodes, v.forest.parent.Keys, c);
    forall n | n in v.nodes
      ensures n in v.parents && n in v.kids && v.parents[n] != c
      ensures forall k :: 0 <= k < |v.kids[n]| ==> v.kids[n][k] != c
    {
      NothingPointsTo(v, c, n);
    }
    LeftParents(v, c);
    LeftKids(v, c);
    hide Identified, DepictParents, DepictKids, DepictNames, WellLinked;
    var w := Left(v, c);
    assert w.forest.parent.Keys == v.forest.parent.Keys - {c.id};
    assert w.forest.kids.Keys == v.forest.kids.Keys - {c.id} && w.forest.name.Keys == v.forest.name.Keys - {c.id};
  }

  lemma NodeFreed(v: View, c: TreeNode)
    requires Shows(v) && c in v.nodes && WellLinked(v.forest)
    requires c.id in v.forest.parent && v.forest.parent[c.id] == None && v.forest.kids[c.id] == []
    ensures Shows(Left(v, c))
  {
    hide Coherent;
    LeftCoherent(v, c);
    NodeLeaves(v.nodes, v.parents, v.kids, v.names, c);
  }

  /** The root of an empty tree. */
  method NewRoot() returns (r: TreeNode, ghost v: View)
    ensures fresh(r) && fresh(r.children) && r.id == Root
    ensures Shows(v) && v.nodes == {r} && v.forest == EMPTY
  {
    r := new TreeNode(Root, "");
    v := RootView(r);
    RootShows(r);
  }

  ghost function RootView(r: TreeNode): View {
    View({r}, map[r := null], map[r := []], map[r := ""], EMPTY)
  }

  lemma RootShows(r: TreeNode)
    requires r.id == Root && r.parent == null && r.filename == "" && r.Valid() && r.Kids() == []
    ensures Shows(RootView(r))
  {
    RootIsCoherent(r);
    hide Coherent;
  }

  lemma RootIsCoherent(r: TreeNode)
    requires r.id == Root
    ensures Coherent(RootView(r))
  {
    assert Ids([]) == [];
    assert r in RootView(r).nodes;
  }
}
