/** The search of add_fuse_child for a filename no sibling has: f, f.1, f.2, ... */
module FreeNames {
  import opened Wrappers
  import opened Seqs
  import opened Forests
  import Paths

  /** The `k`-th filename tried. */
  function Candidate(filename: string, k: nat): string {
    if k == 0 then filename else Paths.FilenameNumbered(filename, k)
  }

  lemma CandidatesDiffer(filename: string, j: nat, k: nat)
    ensures Candidate(filename, j) == Candidate(filename, k) <==> j == k
  {
    Paths.FilenameNumberedInjective(filename, j, k);
    Paths.FilenameNumberedInjective(filename, k, j);
  }

  /** By pigeonhole one of the first |taken| + 1 candidates is free. */
  lemma SomeCandidateFree(taken: seq<string>, filename: string)
    ensures exists k :: 0 <= k <= |taken| && Candidate(filename, k) !in taken
  {
    var tried := seq(|taken| + 1, k requires 0 <= k => Candidate(filename, k));
    if forall k :: 0 <= k <= |taken| ==> Candidate(filename, k) in taken {
      forall j, k | 0 <= j < k < |tried|
        ensures tried[j] != tried[k]
      {
        CandidatesDiffer(filename, j, k);
      }
      forall x | x in tried
        ensures x in taken
      {
        var k :| 0 <= k < |tried| && tried[k] == x;
        assert Candidate(filename, k) in taken;
      }
      var within := set x | x in taken;
      DistinctFits(tried, within);
      SetFits(taken, within);
    }
  }

  lemma MoreNamesThanCandidates(taken: seq<string>, filename: string, k: nat)
    requires forall i :: 0 <= i < k ==> Candidate(filename, i) in taken
    ensures k <= |taken|
  {
    SomeCandidateFree(taken, filename);
  }

  function FirstFree(taken: seq<string>, filename: string, k: nat): (r: string)
    requires exists j :: k <= j <= |taken| && Candidate(filename, j) !in taken
    ensures r !in taken
    ensures exists j :: k <= j <= |taken| && r == Candidate(filename, j)
                        && forall i :: k <= i < j ==> Candidate(filename, i) in taken
    decreases |taken| - k
  {
    if Candidate(filename, k) !in taken then Candidate(filename, k) else FirstFree(taken, filename, k + 1)
  }

  /** The first candidate no sibling has; at most |taken| candidates are rejected before it. */
  function FreeName(taken: seq<string>, filename: string): (r: string)
    ensures r !in taken
    ensures exists j :: 0 <= j <= |taken| && r == Candidate(filename, j)
                        && forall i :: 0 <= i < j ==> Candidate(filename, i) in taken
  {
    SomeCandidateFree(taken, filename);
    FirstFree(taken, filename, 0)
  }

  lemma FreeNameIsFirst(taken: seq<string>, filename: string, k: nat)
    requires Candidate(filename, k) !in taken
    requires forall i :: 0 <= i < k ==> Candidate(filename, i) in taken
    ensures FreeName(taken, filename) == Candidate(filename, k)
  {
    var j :| 0 <= j <= |taken| && FreeName(taken, filename) == Candidate(filename, j)
             && forall i :: 0 <= i < j ==> Candidate(filename, i) in taken;
    assert j < k ==> Candidate(filename, j) in taken;
    assert k < j ==> Candidate(filename, k) in taken;
  }

  /** `name` is the filename itself, or the filename with the numeral of a positive `k` before its extension. */
  ghost predicate NumberedAs(base: string, ext: string, k: nat, name: string) {
    if k == 0 then name == base + "." + ext
    else exists d :: Paths.IsNumeral(d, k) && name == base + "." + d + "." + ext
  }

  /** The same for a filename without a dot. */
  ghost predicate NumberedPlain(base: string, k: nat, name: string) {
    if k == 0 then name == base
    else exists d :: Paths.IsNumeral(d, k) && name == base + "." + d
  }

  lemma CandidateSpelled(base: string, ext: string, k: nat, name: string)
    requires '.' !in ext
    ensures name == Candidate(base + "." + ext, k) <==> NumberedAs(base, ext, k, name)
    ensures '.' !in base ==> (name == Candidate(base, k) <==> NumberedPlain(base, k, name))
  {
    hide Paths.FilenameNumbered;
    if k > 0 {
      Paths.NumberedParts(base, ext, k);
      OnlyNumeral(k);
    }
  }

  lemma OnlyNumeral(k: nat)
    ensures forall d, e :: Paths.IsNumeral(d, k) && Paths.IsNumeral(e, k) ==> d == e
  {
    forall d, e | Paths.IsNumeral(d, k) && Paths.IsNumeral(e, k)
      ensures d == e
    {
      Paths.NumeralUnique(d, k);
      Paths.NumeralUnique(e, k);
    }
  }

  /** The name found for a filename with an extension: itself if no sibling has it, otherwise with the first number
      before the extension that makes it free. */
  lemma FreeNameSpelled(taken: seq<string>, base: string, ext: string)
    requires '.' !in ext
    ensures FreeName(taken, base + "." + ext) !in taken
    ensures exists k: nat :: NumberedAs(base, ext, k, FreeName(taken, base + "." + ext))
                             && forall j: nat, name :: j < k && NumberedAs(base, ext, j, name) ==> name in taken
  {
    hide NumberedAs;
    var found := FreeName(taken, base + "." + ext);
    var k :| 0 <= k <= |taken| && found == Candidate(base + "." + ext, k)
             && forall i :: 0 <= i < k ==> Candidate(base + "." + ext, i) in taken;
    CandidateSpelled(base, ext, k, found);
    forall j: nat, name | j < k && NumberedAs(base, ext, j, name)
      ensures name in taken
    {
      CandidateSpelled(base, ext, j, name);
    }
  }

  lemma FreePlainSpelled(taken: seq<string>, base: string)
    requires '.' !in base
    ensures FreeName(taken, base) !in taken
    ensures exists k: nat :: NumberedPlain(base, k, FreeName(taken, base))
                             && forall j: nat, name :: j < k && NumberedPlain(base, j, name) ==> name in taken
  {
    hide NumberedPlain;
    var found := FreeName(taken, base);
    var k :| 0 <= k <= |taken| && found == Candidate(base, k)
             && forall i :: 0 <= i < k ==> Candidate(base, i) in taken;
    CandidateSpelled(base, "", k, found);
    forall j: nat, name | j < k && NumberedPlain(base, j, name)
      ensures name in taken
    {
      CandidateSpelled(base, "", j, name);
    }
  }

  /** Numbering never touches the extension. */
  lemma FreeNameKeepsExtension(taken: seq<string>, filename: string)
    requires '.' in filename && '/' !in filename
    ensures Paths.GetFileExtension(FreeName(taken, filename)) == Paths.GetFileExtension(filename)
  {
    hide Paths.FilenameNumbered, Paths.GetFileExtension;
    var k :| 0 <= k <= |taken| && FreeName(taken, filename) == Candidate(filename, k)
             && forall i :: 0 <= i < k ==> Candidate(filename, i) in taken;
    if k > 0 {
      Paths.NumberedKeepsExtension(filename, k);
    }
  }

  // ----- the tree operations that use it -----

  function NamesOf(f: Forest, ids: seq<Id>): (names: seq<string>)
    requires forall i :: 0 <= i < |ids| ==> ids[i] in f.name
    ensures |names| == |ids|
    ensures forall i :: 0 <= i < |ids| ==> names[i] == f.name[ids[i]]
  {
    seq(|ids|, i requires 0 <= i < |ids| => f.name[ids[i]])
  }

  ghost predicate KidsNamed(f: Forest, p: Id)
    requires p in f.kids
  {
    forall i :: 0 <= i < |f.kids[p]| ==> f.kids[p][i] in f.name
  }

  /** add_fuse_child: takes the first free name and appends. */
  function AddFuseChild(f: Forest, p: Id, c: Id): Forest
    requires p in f.kids && c in f.name && KidsNamed(f, p)
  {
    Append(SetName(f, c, FreeName(NamesOf(f, f.kids[p]), f.name[c])), p, c)
  }

  lemma KidsAreNamed(f: Forest, p: Id)
    requires WellLinked(f) && p in f.kids
    ensures KidsNamed(f, p)
  {
    assert forall i :: 0 <= i < |f.kids[p]| ==> f.kids[p][i] in f.kids[p];
  }

  /** move_fuse_node */
  function MoveFuseNode(f: Forest, p: Id, c: Id): Forest
    requires WellLinked(f) && p in f.kids && c in f.parent
  {
    DetachLinked(f, c);
    KidsAreNamed(Detach(f, c), p);
    AddFuseChild(Detach(f, c), p, c)
  }

  /** A free name keeps the children of `p` apart, whatever the name of `c` was before; no other name changes. */
  lemma AddFuseChildLinked(f: Forest, p: Id, c: Id)
    requires WellLinked(f) && SiblingsDistinct(f)
    requires p in f.kids && c in f.parent && c != Root && f.parent[c] == None
    ensures KidsNamed(f, p)
    ensures WellLinked(AddFuseChild(f, p, c)) && SiblingsDistinct(AddFuseChild(f, p, c))
    ensures AddFuseChild(f, p, c).parent == f.parent[c := Some(p)]
    ensures forall n :: n in f.name && n != c ==>
            n in AddFuseChild(f, p, c).name && AddFuseChild(f, p, c).name[n] == f.name[n]
  {
    KidsAreNamed(f, p);
    var taken := NamesOf(f, f.kids[p]);
    var name := FreeName(taken, f.name[c]);
    var g := SetName(f, c, name);
    SetNameLinked(f, c, name);
    assert NameFree(g, p, name) by {
      forall k | k in g.parent && g.parent[k] == Some(p)
        ensures g.name[k] != name
      {
        assert k in f.kids[p];
        var i :| 0 <= i < |f.kids[p]| && f.kids[p][i] == k;
        assert taken[i] == g.name[k];
      }
    }
    AppendLinked(g, p, c);
    AppendSiblings(g, p, c);
  }

  /** A name that is already free is kept. */
  lemma FreeNameKept(f: Forest, p: Id, c: Id)
    requires WellLinked(f) && p in f.kids && c in f.name
    requires NameFree(f, p, f.name[c])
    ensures KidsNamed(f, p) && AddFuseChild(f, p, c) == Append(f, p, c)
  {
    KidsAreNamed(f, p);
    var taken := NamesOf(f, f.kids[p]);
    forall i | 0 <= i < |taken|
      ensures taken[i] != f.name[c]
    {
      assert f.kids[p][i] in f.kids[p];
    }
    FreeNameIsFirst(taken, f.name[c], 0);
    assert SetName(f, c, f.name[c]).name == f.name;
  }
}
