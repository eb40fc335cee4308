/**
 The note tree as a value: every node is known by its vdir name, and a forest
 records for each node its parent, its children in order and its filename.
 The operations are those of tree.c and the naming ones of fuse_node_store.c.
 */
module Forests {
  import opened Wrappers
  import opened Seqs

  datatype Id = Root | File(vdir: string)

  type Up = map<Id, Option<Id>>

  datatype Forest = Forest(parent: Up, kids: map<Id, seq<Id>>, name: map<Id, string>)

  // ----- operations -----

  const EMPTY := Forest(map[Root := None], map[Root := []], map[Root := ""])

  /** A new node, attached to nothing. */
  function Spawn(f: Forest, i: Id, name: string): Forest {
    Forest(f.parent[i := None], f.kids[i := []], f.name[i := name])
  }

  function SetName(f: Forest, i: Id, name: string): Forest {
    f.(name := f.name[i := name])
  }

  /** detach_tree_node: does nothing to a node without parent. */
  function Detach(f: Forest, c: Id): Forest {
    if c !in f.parent || f.parent[c].None? || f.parent[c].value !in f.kids then f
    else
      var p := f.parent[c].value;
      f.(parent := f.parent[c := None], kids := f.kids[p := Without(f.kids[p], c)])
  }

  /** add_child */
  function Append(f: Forest, p: Id, c: Id): Forest {
    if p !in f.kids then f
    else f.(parent := f.parent[c := Some(p)], kids := f.kids[p := f.kids[p] + [c]])
  }

  /** move_node */
  function Move(f: Forest, p: Id, c: Id): Forest {
    Append(Detach(f, c), p, c)
  }

  /** free_tree on a detached node without children. */
  function Drop(f: Forest, c: Id): Forest {
    Forest(f.parent - {c}, f.kids - {c}, f.name - {c})
  }

  // ----- invariants -----

  /** Every child knows its parent. */
  ghost predicate KidsPointBack(f: Forest) {
    forall p, c {:trigger c in f.kids[p]} :: p in f.kids && c in f.kids[p] ==>
      c in f.parent && f.parent[c] == Some(p)
  }

  /** Every parent knows its child. */
  ghost predicate ParentsPointBack(f: Forest) {
    forall c {:trigger f.parent[c]} :: c in f.parent && f.parent[c].Some? ==>
      f.parent[c].value in f.kids && c in f.kids[f.parent[c].value]
  }

  ghost predicate KidsOnce(f: Forest) {
    forall p {:trigger f.kids[p]} :: p in f.kids ==> Distinct(f.kids[p])
  }

  ghost predicate RootOnTop(f: Forest) {
    Root in f.parent && f.parent[Root] == None && Root in f.name && f.name[Root] == ""
  }

  /** Parent pointers and child lists agree both ways, and every node is in exactly one slot or none. */
  ghost predicate WellLinked(f: Forest) {
    && f.kids.Keys == f.parent.Keys && f.name.Keys == f.parent.Keys
    && RootOnTop(f) && KidsPointBack(f) && ParentsPointBack(f) && KidsOnce(f)
  }

  ghost predicate Siblings(f: Forest, a: Id, b: Id) {
    a in f.parent && b in f.parent && a != b && f.parent[a].Some? && f.parent[a] == f.parent[b]
  }

  ghost predicate SiblingsDistinct(f: Forest)
    requires f.name.Keys == f.parent.Keys
  {
    forall a, b :: Siblings(f, a, b) ==> f.name[a] != f.name[b]
  }

  /** No child of `p` is called `name`. */
  ghost predicate NameFree(f: Forest, p: Id, name: string)
    requires f.name.Keys == f.parent.Keys
  {
    forall c :: c in f.parent && f.parent[c] == Some(p) ==> f.name[c] != name
  }

  lemma EmptyIsWellLinked()
    ensures WellLinked(EMPTY) && SiblingsDistinct(EMPTY)
  {
  }

  lemma SpawnLinked(f: Forest, i: Id, name: string)
    requires WellLinked(f) && i !in f.parent
    ensures WellLinked(Spawn(f, i, name))
    ensures SiblingsDistinct(f) ==> SiblingsDistinct(Spawn(f, i, name))
  {
    FewerSiblings(f, Spawn(f, i, name), i);
  }

  lemma SetNameLinked(f: Forest, i: Id, name: string)
    requires WellLinked(f) && i in f.parent && i != Root
    ensures WellLinked(SetName(f, i, name))
    ensures SiblingsDistinct(f) && f.parent[i] == None ==> SiblingsDistinct(SetName(f, i, name))
  {
    if f.parent[i] == None {
      FewerSiblings(f, SetName(f, i, name), i);
    }
  }

  /** A change that leaves `i` without parent and all else alone keeps sibling names distinct. */
  lemma FewerSiblings(f: Forest, g: Forest, i: Id)
    requires f.name.Keys == f.parent.Keys && g.name.Keys == g.parent.Keys
    requires i in g.parent ==> g.parent[i] == None
    requires forall a :: a in g.parent && a != i ==>
               a in f.parent && g.parent[a] == f.parent[a] && g.name[a] == f.name[a]
    ensures SiblingsDistinct(f) ==> SiblingsDistinct(g)
  {
    if SiblingsDistinct(f) {
      forall a, b | Siblings(g, a, b)
        ensures g.name[a] != g.name[b]
      {
        assert Siblings(f, a, b);
      }
    }
  }

  lemma DetachLinked(f: Forest, c: Id)
    requires WellLinked(f) && c in f.parent
    ensures WellLinked(Detach(f, c)) && Detach(f, c).parent == f.parent[c := None]
    ensures SiblingsDistinct(f) ==> SiblingsDistinct(Detach(f, c))
  {
    var g := Detach(f, c);
    if f.parent[c].Some? {
      var p := f.parent[c].value;
      WithoutDistinct(f.kids[p], c);
    }
    FewerSiblings(f, g, c);
  }

  /** A detached node without children is linked to nothing. */
  lemma DetachedLeaf(f: Forest, c: Id)
    requires WellLinked(f) && c in f.parent && f.kids[c] == []
    ensures WellLinked(Detach(f, c)) && c in Detach(f, c).parent
    ensures Detach(f, c).parent[c] == None && Detach(f, c).kids[c] == []
  {
    DetachLinked(f, c);
    assert f.parent[c] != Some(c);
  }

  lemma AppendLinked(f: Forest, p: Id, c: Id)
    requires WellLinked(f) && p in f.kids && c in f.parent && c != Root && f.parent[c] == None
    ensures WellLinked(Append(f, p, c))
  {
    assert c !in f.kids[p];
    DistinctSnoc(f.kids[p], c);
  }

  /** Adding a detached child keeps sibling names apart exactly when its name is free: add_child itself does
      not look. */
  lemma AppendSiblings(f: Forest, p: Id, c: Id)
    requires WellLinked(f) && p in f.kids && c in f.parent && f.parent[c] == None && SiblingsDistinct(f)
    ensures SiblingsDistinct(Append(f, p, c)) <==> NameFree(f, p, f.name[c])
  {
    var g := Append(f, p, c);
    if !NameFree(f, p, f.name[c]) {
      var a :| a in f.parent && f.parent[a] == Some(p) && f.name[a] == f.name[c];
      assert Siblings(g, a, c);
      return;
    }
    forall a, b | Siblings(g, a, b)
      ensures g.name[a] != g.name[b]
    {
      if a != c && b != c {
        assert Siblings(f, a, b);
      }
    }
  }

  /** A moved node becomes the last child of its parent; all other children keep their order. */
  lemma MoveOrder(f: Forest, p: Id, c: Id, before: seq<Id>, after: seq<Id>)
    requires WellLinked(f) && p in f.kids && c in f.parent && f.parent[c].Some?
    requires f.kids[f.parent[c].value] == before + [c] + after
    ensures Move(f, p, c).parent == f.parent[c := Some(p)] && Move(f, p, c).name == f.name
    ensures p != f.parent[c].value ==>
              Move(f, p, c).kids == f.kids[f.parent[c].value := before + after][p := f.kids[p] + [c]]
    ensures p == f.parent[c].value ==> Move(f, p, c).kids == f.kids[p := before + after + [c]]
  {
    hide Without;
    var kids := f.kids[f.parent[c].value];
    assert Distinct(kids) && kids[|before|] == c;
    assert forall i :: 0 <= i < |before| ==> kids[i] == before[i];
    WithoutFirst(before, c, after);
  }

  lemma DropLinked(f: Forest, c: Id)
    requires WellLinked(f) && c in f.parent && c != Root && f.parent[c] == None && f.kids[c] == []
    ensures WellLinked(Drop(f, c))
    ensures SiblingsDistinct(f) ==> SiblingsDistinct(Drop(f, c))
  {
    FewerSiblings(f, Drop(f, c), c);
  }

  // ----- climbing -----

  /** The node `k` steps above `n`; None once the climb has run off the top. */
  ghost function Climb(up: Up, n: Id, k: nat): Option<Id>
    decreases k
  {
    if k == 0 then Some(n)
    else if n in up && up[n].Some? then Climb(up, up[n].value, k - 1)
    else None
  }

  /** `a` is `n` or one of its ancestors. */
  ghost predicate Above(up: Up, a: Id, n: Id) {
    exists k: nat :: Climb(up, n, k) == Some(a)
  }

  /** Climbing from `n` comes to an end, so `n` is on no cycle and below none. */
  ghost predicate Grounded(up: Up, n: Id) {
    exists k: nat :: Climb(up, n, k) == None
  }

  ghost predicate Acyclic(up: Up) {
    forall n :: n in up ==> Grounded(up, n)
  }

  lemma {:induction false} ClimbAdd(up: Up, n: Id, j: nat, k: nat)
    ensures Climb(up, n, j + k)
         == match Climb(up, n, j) case None => None case Some(m) => Climb(up, m, k)
    decreases j
  {
    if j > 0 && n in up && up[n].Some? {
      ClimbAdd(up, up[n].value, j - 1, k);
    }
  }

  lemma AboveParent(up: Up, a: Id, n: Id)
    requires n in up && up[n].Some?
    ensures Above(up, a, n) <==> a == n || Above(up, a, up[n].value)
  {
    if a == n {
      assert Climb(up, n, 0) == Some(a);
    }
    if Above(up, a, up[n].value) {
      var k: nat :| Climb(up, up[n].value, k) == Some(a);
      assert Climb(up, n, k + 1) == Some(a);
    }
    if Above(up, a, n) && a != n {
      var k: nat :| Climb(up, n, k) == Some(a);
      assert Climb(up, up[n].value, k - 1) == Some(a);
    }
  }

  lemma AboveTransitive(up: Up, a: Id, b: Id, c: Id)
    requires Above(up, a, b) && Above(up, b, c)
    ensures Above(up, a, c)
  {
    var j: nat :| Climb(up, c, j) == Some(b);
    var k: nat :| Climb(up, b, k) == Some(a);
    ClimbAdd(up, c, j, k);
    assert Climb(up, c, j + k) == Some(a);
  }

  /** A climb that never meets `c` is not affected by giving `c` another parent. */
  lemma {:induction false} ClimbAvoiding(up: Up, c: Id, q: Option<Id>, n: Id, k: nat)
    requires !Above(up, c, n)
    ensures Climb(up[c := q], n, k) == Climb(up, n, k)
    decreases k
  {
    assert n != c by {
      assert Climb(up, n, 0) == Some(n);
    }
    if k > 0 && n in up && up[n].Some? {
      AboveParent(up, c, n);
      ClimbAvoiding(up, c, q, up[n].value, k - 1);
    }
  }

  /** Hanging `c` somewhere outside its own subtree creates no cycle. */
  lemma ReparentGrounded(up: Up, c: Id, q: Option<Id>, n: Id)
    requires Acyclic(up) && n in up && c in up
    requires q.Some? ==> q.value in up && !Above(up, c, q.value)
    ensures Grounded(up[c := q], n)
  {
    assert Grounded(up[c := q], c) by {
      if q.None? {
        assert Climb(up[c := q], c, 1) == None;
      } else {
        var k: nat :| Climb(up, q.value, k) == None;
        ClimbAvoiding(up, c, q, q.value, k);
        assert Climb(up[c := q], c, k + 1) == None;
      }
    }
    var k: nat :| Climb(up, n, k) == None;
    GroundedVia(up, c, q, n, k);
  }

  lemma {:induction false} GroundedVia(up: Up, c: Id, q: Option<Id>, n: Id, k: nat)
    requires Climb(up, n, k) == None && Grounded(up[c := q], c)
    ensures Grounded(up[c := q], n)
    decreases k
  {
    if n != c {
      if n in up && up[n].Some? {
        GroundedVia(up, c, q, up[n].value, k - 1);
        var j: nat :| Climb(up[c := q], up[n].value, j) == None;
        assert Climb(up[c := q], n, j + 1) == None;
      } else {
        assert Climb(up[c := q], n, 1) == None;
      }
    }
  }

  lemma ReparentAcyclic(up: Up, c: Id, q: Option<Id>)
    requires Acyclic(up) && c in up
    requires q.Some? ==> q.value in up && !Above(up, c, q.value)
    ensures Acyclic(up[c := q])
  {
    var moved := up[c := q];
    forall n | n in moved
      ensures Grounded(moved, n)
    {
      ReparentGrounded(up, c, q, n);
    }
  }

  lemma SpawnAcyclic(up: Up, i: Id)
    requires Acyclic(up) && i !in up
    ensures Acyclic(up[i := None])
  {
    var grown := up[i := None];
    forall n | n in grown
      ensures Grounded(grown, n)
    {
      assert Climb(up[i := None], i, 1) == None;
      if n != i {
        var k: nat :| Climb(up, n, k) == None;
        GroundedVia(up, i, None, n, k);
      }
    }
  }

  lemma DropAcyclic(up: Up, c: Id)
    requires Acyclic(up) && c in up && up[c] == None
    ensures Acyclic(up - {c})
  {
    var rest := up - {c};
    forall n | n in rest
      ensures Grounded(rest, n)
    {
      var k: nat :| Climb(up, n, k) == None;
      DropGrounded(up, c, n, k);
    }
  }

  lemma {:induction false} DropGrounded(up: Up, c: Id, n: Id, k: nat)
    requires Climb(up, n, k) == None
    ensures Grounded(up - {c}, n)
    decreases k
  {
    if n != c && n in up && up[n].Some? {
      DropGrounded(up, c, up[n].value, k - 1);
      var j: nat :| Climb(up - {c}, up[n].value, j) == None;
      assert Climb(up - {c}, n, j + 1) == None;
    } else {
      assert Climb(up - {c}, n, 1) == None;
    }
  }

  /** On an acyclic forest no node is a proper ancestor of itself. */
  lemma ParentNotBelow(up: Up, n: Id)
    requires Acyclic(up) && n in up && up[n].Some?
    ensures !Above(up, n, up[n].value)
  {
    if Above(up, n, up[n].value) {
      var j: nat :| Climb(up, up[n].value, j) == Some(n);
      assert Climb(up, n, j + 1) == Some(n);
      var k: nat :| Climb(up, n, k) == None;
      CycleNeverEnds(up, n, j + 1, k);
    }
  }

  lemma {:induction false} CycleNeverEnds(up: Up, n: Id, period: nat, k: nat)
    requires period > 0 && Climb(up, n, period) == Some(n)
    ensures Climb(up, n, k).Some?
    decreases k
  {
    if k < period {
      ClimbAdd(up, n, k, period - k);
    } else {
      CycleNeverEnds(up, n, period, k - period);
      ClimbAdd(up, n, period, k - period);
    }
  }
}
