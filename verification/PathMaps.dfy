/** Looking nodes up by path, and what moving, adding and removing a node does to all paths. */
module PathMaps {
  import opened Wrappers
  import opened Forests

  // ----- lookup -----

  /** The first child called `name`. */
  function ChildNamed(f: Forest, kids: seq<Id>, name: string): (r: Option<Id>)
    requires forall i :: 0 <= i < |kids| ==> kids[i] in f.name
    ensures r.Some? ==> r.value in kids && f.name[r.value] == name
    ensures r.None? ==> forall i :: 0 <= i < |kids| ==> f.name[kids[i]] != name
  {
    if kids == [] then None
    else if f.name[kids[0]] == name then Some(kids[0])
    else ChildNamed(f, kids[1..], name)
  }

  lemma {:induction false} ChildNamedFirst(f: Forest, kids: seq<Id>, name: string, j: nat)
    requires forall i :: 0 <= i < |kids| ==> kids[i] in f.name
    requires j < |kids| && f.name[kids[j]] == name && forall i :: 0 <= i < j ==> f.name[kids[i]] != name
    ensures ChildNamed(f, kids, name) == Some(kids[j])
  {
    if j > 0 {
      assert f.name[kids[0]] != name;
      ChildNamedFirst(f, kids[1..], name, j - 1);
    }
  }

  lemma KidsAreNodes(f: Forest, n: Id)
    requires WellLinked(f) && n in f.kids
    ensures forall i :: 0 <= i < |f.kids[n]| ==> f.kids[n][i] in f.name
  {
    assert forall i :: 0 <= i < |f.kids[n]| ==> f.kids[n][i] in f.kids[n];
  }

  /** The walk of get_node_by_path from `n` along `segments`. */
  function Lookup(f: Forest, n: Id, segments: seq<string>): (r: Option<Id>)
    requires WellLinked(f) && n in f.kids
    ensures r.Some? ==> r.value in f.kids
    decreases |segments|
  {
    if segments == [] then Some(n)
    else
      KidsAreNodes(f, n);
      match ChildNamed(f, f.kids[n], segments[0])
      case None => None
      case Some(c) => Lookup(f, c, segments[1..])
  }

  /** The names on the way from the root down to `n` are exactly `path`. */
  ghost predicate NamedBy(f: Forest, n: Id, path: seq<string>)
    decreases |path|
  {
    if path == [] then n == Root
    else
      && n in f.parent && f.parent[n].Some? && n in f.name
      && f.name[n] == path[|path| - 1]
      && NamedBy(f, f.parent[n].value, path[..|path| - 1])
  }

  /** The names of the `k` lowest nodes on the way up from `n`. */
  ghost function AncestorNames(f: Forest, n: Id, k: nat): seq<string>
    requires WellLinked(f) && n in f.parent && Climb(f.parent, n, k).Some?
    decreases k
  {
    if k == 0 then [] else AncestorNames(f, f.parent[n].value, k - 1) + [f.name[n]]
  }

  /** A node reached from the root has its ancestors' names as its path. */
  lemma {:induction false} ReachableIsNamed(f: Forest, n: Id, k: nat)
    requires WellLinked(f) && n in f.parent && Climb(f.parent, n, k) == Some(Root)
    ensures NamedBy(f, n, AncestorNames(f, n, k))
    decreases k
  {
    if k > 0 {
      ReachableIsNamed(f, f.parent[n].value, k - 1);
      var names := AncestorNames(f, n, k);
      assert names[..|names| - 1] == AncestorNames(f, f.parent[n].value, k - 1);
    }
  }

  lemma {:induction false} NamedIsReachable(f: Forest, n: Id, path: seq<string>)
    requires NamedBy(f, n, path)
    ensures Climb(f.parent, n, |path|) == Some(Root)
    decreases |path|
  {
    if path != [] {
      NamedIsReachable(f, f.parent[n].value, path[..|path| - 1]);
    }
  }

  lemma {:induction false} PathUnique(f: Forest, n: Id, p: seq<string>, q: seq<string>)
    requires RootOnTop(f) && NamedBy(f, n, p) && NamedBy(f, n, q)
    ensures p == q
    decreases |p|
  {
    if p != [] && q != [] {
      PathUnique(f, f.parent[n].value, p[..|p| - 1], q[..|q| - 1]);
      assert p == p[..|p| - 1] + [p[|p| - 1]] && q == q[..|q| - 1] + [q[|q| - 1]];
    }
  }

  lemma {:induction false} LookupFollowsNames(f: Forest, m: Id, before: seq<string>, segments: seq<string>)
    requires WellLinked(f) && m in f.kids && NamedBy(f, m, before)
    requires Lookup(f, m, segments).Some?
    ensures NamedBy(f, Lookup(f, m, segments).value, before + segments)
    decreases |segments|
  {
    if segments == [] {
      assert before + segments == before;
    } else {
      KidsAreNodes(f, m);
      var c := ChildNamed(f, f.kids[m], segments[0]).value;
      var down := before + [segments[0]];
      assert down[..|down| - 1] == before;
      LookupFollowsNames(f, c, down, segments[1..]);
      assert down + segments[1..] == before + segments;
    }
  }

  lemma {:induction false} LookupAppend(f: Forest, m: Id, a: seq<string>, b: seq<string>)
    requires WellLinked(f) && m in f.kids
    ensures Lookup(f, m, a + b)
         == match Lookup(f, m, a) case None => None case Some(n) => Lookup(f, n, b)
    decreases |a|
  {
    if a == [] {
      assert a + b == b;
    } else {
      assert (a + b)[1..] == a[1..] + b;
      KidsAreNodes(f, m);
      match ChildNamed(f, f.kids[m], a[0])
      case None =>
      case Some(c) => LookupAppend(f, c, a[1..], b);
    }
  }

  lemma ChildFound(f: Forest, p: Id, c: Id)
    requires WellLinked(f) && SiblingsDistinct(f)
    requires c in f.parent && f.parent[c] == Some(p)
    ensures p in f.kids && Lookup(f, p, [f.name[c]]) == Some(c)
  {
    KidsAreNodes(f, p);
    var found := ChildNamed(f, f.kids[p], f.name[c]);
    var i :| 0 <= i < |f.kids[p]| && f.kids[p][i] == c;
    assert found.Some?;
    if found.value != c {
      assert Siblings(f, found.value, c);
    }
    assert Lookup(f, p, [f.name[c]]) == Lookup(f, c, [f.name[c]][1..]);
  }

  lemma {:induction false} NamedIsFound(f: Forest, n: Id, path: seq<string>)
    requires WellLinked(f) && SiblingsDistinct(f) && NamedBy(f, n, path)
    ensures Lookup(f, Root, path) == Some(n)
    decreases |path|
  {
    if path != [] {
      var p, init := f.parent[n].value, path[..|path| - 1];
      NamedIsFound(f, p, init);
      ChildFound(f, p, n);
      LookupAppend(f, Root, init, [f.name[n]]);
      assert init + [f.name[n]] == path;
    }
  }

  /** Lookup and path building are inverse: a path leads to a node exactly when it lists the node's ancestor names. */
  lemma LookupIffNamed(f: Forest, n: Id, path: seq<string>)
    requires WellLinked(f) && SiblingsDistinct(f)
    ensures Lookup(f, Root, path) == Some(n) <==> NamedBy(f, n, path)
  {
    if Lookup(f, Root, path) == Some(n) {
      LookupFollowsNames(f, Root, [], path);
      assert [] + path == path;
    }
    if NamedBy(f, n, path) {
      NamedIsFound(f, n, path);
    }
  }

  /** Two forests answer a path alike when they name the same nodes by it. */
  lemma SameLookup(f: Forest, p: seq<string>, g: Forest, q: seq<string>)
    requires WellLinked(f) && SiblingsDistinct(f) && WellLinked(g) && SiblingsDistinct(g)
    requires forall n :: NamedBy(f, n, p) <==> NamedBy(g, n, q)
    ensures Lookup(f, Root, p) == Lookup(g, Root, q)
  {
    if Lookup(f, Root, p).Some? {
      LookupIffNamed(f, Lookup(f, Root, p).value, p);
      LookupIffNamed(g, Lookup(f, Root, p).value, q);
    } else if Lookup(g, Root, q).Some? {
      LookupIffNamed(f, Lookup(g, Root, q).value, p);
      LookupIffNamed(g, Lookup(g, Root, q).value, q);
    }
  }

  // ----- moving a subtree -----

  /** `g` is `f` with `c` hung under `p` and called `name`. */
  ghost predicate Rehung(f: Forest, g: Forest, c: Id, p: Id, name: string) {
    g.parent == f.parent[c := Some(p)] && g.name == f.name[c := name]
  }

  /** The situation of a rename from path `src` to path `dir + [name]`. */
  ghost predicate MoveSetting(f: Forest, g: Forest, c: Id, src: seq<string>, p: Id, dir: seq<string>, name: string) {
    && WellLinked(f) && SiblingsDistinct(f) && WellLinked(g) && SiblingsDistinct(g)
    && Rehung(f, g, c, p, name)
    && c != Root && NamedBy(f, c, src) && NamedBy(f, p, dir) && !Above(f.parent, c, p)
    && NameFree(f, p, name)
  }

  lemma {:induction false} NamedOutside(f: Forest, g: Forest, c: Id, p: Id, name: string, n: Id, path: seq<string>)
    requires Rehung(f, g, c, p, name) && !Above(f.parent, c, n)
    ensures NamedBy(g, n, path) <==> NamedBy(f, n, path)
    decreases |path|
  {
    assert n != c by {
      assert Climb(f.parent, n, 0) == Some(n);
    }
    if path != [] && n in f.parent && f.parent[n].Some? {
      AboveParent(f.parent, c, n);
      NamedOutside(f, g, c, p, name, f.parent[n].value, path[..|path| - 1]);
    }
  }

  lemma NewPathOfMoved(f: Forest, g: Forest, c: Id, src: seq<string>, p: Id, dir: seq<string>, name: string)
    requires MoveSetting(f, g, c, src, p, dir, name)
    ensures NamedBy(g, c, dir + [name])
  {
    NamedOutside(f, g, c, p, name, p, dir);
    assert (dir + [name])[..|dir|] == dir;
  }

  lemma MovedNode(f: Forest, g: Forest, c: Id, src: seq<string>, p: Id, dir: seq<string>, name: string, n: Id)
    requires MoveSetting(f, g, c, src, p, dir, name)
    ensures NamedBy(f, n, src) <==> n == c
    ensures NamedBy(g, n, dir + [name]) <==> n == c
  {
    hide Lookup;
    NewPathOfMoved(f, g, c, src, p, dir, name);
    if NamedBy(f, n, src) {
      NamedIsFound(f, n, src);
      NamedIsFound(f, c, src);
    }
    if NamedBy(g, n, dir + [name]) {
      NamedIsFound(g, n, dir + [name]);
      NamedIsFound(g, c, dir + [name]);
    }
  }

  lemma LongerPathNotMoved(f: Forest, n: Id, path: seq<string>, s: seq<string>)
    requires RootOnTop(f) && NamedBy(f, n, path) && s != []
    ensures !NamedBy(f, n, path + s)
  {
    if NamedBy(f, n, path + s) {
      PathUnique(f, n, path, path + s);
    }
  }

  /** Whatever was found at `src` followed by `s` is afterwards found at the new path followed by `s`. */
  lemma {:induction false} MovedPaths(f: Forest, g: Forest, c: Id, src: seq<string>, p: Id, dir: seq<string>,
          name: string,
                                      n: Id, s: seq<string>)
    requires MoveSetting(f, g, c, src, p, dir, name)
    ensures NamedBy(g, n, dir + [name] + s) <==> NamedBy(f, n, src + s)
    decreases |s|
  {
    hide Above, KidsOnce, KidsPointBack, ParentsPointBack, SiblingsDistinct, NameFree;
    var dest := dir + [name];
    MovedNode(f, g, c, src, p, dir, name, c);
    if s == [] {
      assert src + s == src && dest + s == dest;
      MovedNode(f, g, c, src, p, dir, name, n);
    } else if n == c {
      LongerPathNotMoved(f, c, src, s);
      LongerPathNotMoved(g, c, dest, s);
    } else {
      var init := s[..|s| - 1];
      assert (src + s)[..|src + s| - 1] == src + init && (dest + s)[..|dest + s| - 1] == dest + init;
      if n in f.parent && f.parent[n].Some? {
        MovedPaths(f, g, c, src, p, dir, name, f.parent[n].value, init);
      }
    }
  }

  lemma {:induction false} OtherPaths(f: Forest, g: Forest, c: Id, src: seq<string>, p: Id, dir: seq<string>,
          name: string,
                                      n: Id, q: seq<string>)
    requires MoveSetting(f, g, c, src, p, dir, name)
    requires !(src <= q) && !(dir + [name] <= q)
    ensures NamedBy(g, n, q) <==> NamedBy(f, n, q)
    decreases |q|
  {
    NewPathOfMoved(f, g, c, src, p, dir, name);
    if q != [] {
      if n == c {
        if NamedBy(f, c, q) {
          PathUnique(f, c, src, q);
        }
        if NamedBy(g, c, q) {
          PathUnique(g, c, dir + [name], q);
        }
      } else if n in f.parent && f.parent[n].Some? {
        OtherPaths(f, g, c, src, p, dir, name, f.parent[n].value, q[..|q| - 1]);
      }
    }
  }

  /** The old and the new path of a move never extend one another. */
  lemma MoveIncomparable(f: Forest, g: Forest, c: Id, src: seq<string>, p: Id, dir: seq<string>, name: string)
    requires MoveSetting(f, g, c, src, p, dir, name)
    ensures !(src <= dir + [name]) && !(dir + [name] <= src)
  {
    hide KidsOnce, KidsPointBack, ParentsPointBack, SiblingsDistinct, Above, Lookup;
    var dest := dir + [name];
    if src <= dest {
      if src == dest {
        NamedIsFound(f, c, src);
        NamedIsFound(f, p, dir);
        assert f.name[c] == name && NamedBy(f, f.parent[c].value, dir) by {
          assert src[..|src| - 1] == dir;
        }
        NamedIsFound(f, f.parent[c].value, dir);
      } else {
        assert dir == src + dir[|src|..];
        NamedBelow(f, c, src, p, dir[|src|..]);
      }
    } else if dest <= src {
      NamedIsFound(f, c, src);
      assert src == dest + src[|dest|..];
      LookupAppend(f, Root, dest, src[|dest|..]);
      var m := Lookup(f, Root, dest).value;
      LookupIffNamed(f, m, dest);
      assert dest[..|dest| - 1] == dir;
      NamedIsFound(f, f.parent[m].value, dir);
      NamedIsFound(f, p, dir);
    }
  }

  /** A node whose path extends the path of `c` lies below `c`. */
  lemma {:induction false} NamedBelow(f: Forest, c: Id, path: seq<string>, n: Id, s: seq<string>)
    requires WellLinked(f) && SiblingsDistinct(f) && NamedBy(f, c, path) && NamedBy(f, n, path + s)
    ensures Above(f.parent, c, n)
    decreases |s|
  {
    if s == [] {
      assert path + s == path;
      NamedIsFound(f, c, path);
      NamedIsFound(f, n, path);
      assert Climb(f.parent, n, 0) == Some(c);
    } else {
      assert (path + s)[..|path + s| - 1] == path + s[..|s| - 1];
      NamedBelow(f, c, path, f.parent[n].value, s[..|s| - 1]);
      AboveParent(f.parent, c, n);
    }
  }

  /** After the move nothing is left at the old path or below it. */
  lemma {:induction false} OldPathGone(f: Forest, g: Forest, c: Id, src: seq<string>, p: Id, dir: seq<string>,
          name: string,
                                       n: Id, s: seq<string>)
    requires MoveSetting(f, g, c, src, p, dir, name)
    ensures !NamedBy(g, n, src + s)
    decreases |s|
  {
    hide KidsOnce, KidsPointBack, ParentsPointBack, SiblingsDistinct, Above, Lookup, NameFree;
    var dest := dir + [name];
    NewPathOfMoved(f, g, c, src, p, dir, name);
    MoveIncomparable(f, g, c, src, p, dir, name);
    if NamedBy(g, n, src + s) {
      if n == c {
        PathUnique(g, c, dest, src + s);
      } else if s == [] {
        assert src + s == src;
        OtherPaths(f, g, c, src, p, dir, name, f.parent[n].value, src[..|src| - 1]);
        NamedIsFound(f, n, src);
        NamedIsFound(f, c, src);
      } else {
        assert (src + s)[..|src + s| - 1] == src + s[..|s| - 1];
        OldPathGone(f, g, c, src, p, dir, name, f.parent[n].value, s[..|s| - 1]);
      }
    }
  }

  /** The effect of a move on every path. */
  lemma MoveRefinesPaths(f: Forest, g: Forest, c: Id, src: seq<string>, p: Id, dir: seq<string>, name: string)
    requires MoveSetting(f, g, c, src, p, dir, name)
    ensures forall s :: Lookup(g, Root, dir + [name] + s) == Lookup(f, Root, src + s)
    ensures forall s :: Lookup(g, Root, src + s) == None
    ensures forall q :: !(src <= q) && !(dir + [name] <= q) ==> Lookup(g, Root, q) == Lookup(f, Root, q)
  {
    forall s
      ensures Lookup(g, Root, dir + [name] + s) == Lookup(f, Root, src + s)
      ensures Lookup(g, Root, src + s) == None
    {
      forall n
        ensures NamedBy(g, n, dir + [name] + s) <==> NamedBy(f, n, src + s)
      {
        MovedPaths(f, g, c, src, p, dir, name, n, s);
      }
      SameLookup(g, dir + [name] + s, f, src + s);
      if Lookup(g, Root, src + s).Some? {
        LookupIffNamed(g, Lookup(g, Root, src + s).value, src + s);
        OldPathGone(f, g, c, src, p, dir, name, Lookup(g, Root, src + s).value, s);
      }
    }
    forall q | !(src <= q) && !(dir + [name] <= q)
      ensures Lookup(g, Root, q) == Lookup(f, Root, q)
    {
      forall n
        ensures NamedBy(g, n, q) <==> NamedBy(f, n, q)
      {
        OtherPaths(f, g, c, src, p, dir, name, n, q);
      }
      SameLookup(g, q, f, q);
    }
  }

  // ----- adding and removing a leaf -----

  /** `g` is `f` plus the leaf `c`, called `name`, under `p`. */
  ghost predicate LeafAdded(f: Forest, g: Forest, c: Id, p: Id, name: string) {
    && WellLinked(f) && SiblingsDistinct(f) && WellLinked(g) && SiblingsDistinct(g)
    && c != Root && c in g.parent && g.parent[c] == Some(p) && g.name[c] == name
    && (c in f.parent ==> f.parent[c] == None)
    && (forall n :: n != c ==> (n in g.parent <==> n in f.parent))
    && (forall n :: n != c && n in f.parent ==>
          g.parent[n] == f.parent[n] && g.name[n] == f.name[n] && g.parent[n] != Some(c))
  }

  lemma {:induction false} LeafNamed(f: Forest, g: Forest, c: Id, p: Id, name: string, n: Id, path: seq<string>)
    requires LeafAdded(f, g, c, p, name) && n != c
    ensures NamedBy(g, n, path) <==> NamedBy(f, n, path)
    decreases |path|
  {
    if path != [] && n in f.parent && f.parent[n].Some? {
      LeafNamed(f, g, c, p, name, f.parent[n].value, path[..|path| - 1]);
    }
  }

  /** A leaf adds its own path and changes no other. */
  lemma LeafRefinesPaths(f: Forest, g: Forest, c: Id, p: Id, name: string, dir: seq<string>)
    requires LeafAdded(f, g, c, p, name) && p != c && NamedBy(f, p, dir)
    ensures Lookup(g, Root, dir + [name]) == Some(c)
    ensures Lookup(f, Root, dir + [name]) == None
    ensures forall q :: q != dir + [name] ==> Lookup(g, Root, q) == Lookup(f, Root, q)
  {
    var path := dir + [name];
    assert path[..|path| - 1] == dir;
    LeafNamed(f, g, c, p, name, p, dir);
    assert NamedBy(g, c, path);
    LookupIffNamed(g, c, path);
    if Lookup(f, Root, path).Some? {
      var m := Lookup(f, Root, path).value;
      LookupIffNamed(f, m, path);
      LeafNamed(f, g, c, p, name, m, path);
      LookupIffNamed(g, m, path);
    }
    forall q | q != path
      ensures Lookup(g, Root, q) == Lookup(f, Root, q)
    {
      forall n
        ensures NamedBy(g, n, q) <==> NamedBy(f, n, q)
      {
        if n != c {
          LeafNamed(f, g, c, p, name, n, q);
        } else if NamedBy(g, c, q) {
          PathUnique(g, c, q, path);
        }
      }
      SameLookup(g, q, f, q);
    }
  }
}
