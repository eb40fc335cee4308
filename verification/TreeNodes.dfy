/** The heap nodes of tree.c: parent pointers and growable child arrays updated in place. */
module TreeNodes {
  import opened Seqs
  import opened Forests

  class TreeNode {
    // The node data: the vdir name never changes, the filename does. The root has no data.
    const id: Id
    var filename: string

    var parent: TreeNode?
    var children: array<TreeNode>
    var childCount: nat

    constructor (id: Id, filename: string)
      ensures this.id == id && this.filename == filename && parent == null
      ensures Valid() && Kids() == [] && fresh(children)
    {
      this.id, this.filename, parent := id, filename, null;
      children := new TreeNode[0];
      childCount := 0;
    }

    ghost predicate Valid()
      reads `children, `childCount
    {
      childCount <= children.Length
    }

    ghost function Kids(): seq<TreeNode>
      requires Valid()
      reads `children, `childCount, children
    {
      children[..childCount]
    }

    /** The array part of add_child: a full array is replaced by one of twice the size, or of size four at first. */
    method PushChild(child: TreeNode)
      requires Valid()
      modifies `children, `childCount, children
      ensures Valid() && Kids() == old(Kids()) + [child]
      ensures children == old(children) || fresh(children)
      ensures children.Length == if old(childCount) < old(children.Length) then old(children.Length)
                                 else if old(childCount) > 0 then 2 * old(childCount) else 4
    {
      if childCount == children.Length {
        var newCapacity := if children.Length > 0 then children.Length * 2 else 4;
        var grown := new TreeNode[newCapacity](_ => child);
        forall i | 0 <= i < childCount {
          grown[i] := children[i];
        }
        children := grown;
      }
      children[childCount] := child;
      childCount := childCount + 1;
    }

    /** The two loops of detach_tree_node: find the child, then shift what follows it to the left. */
    method RemoveChild(child: TreeNode)
      requires Valid() && child in Kids()
      modifies `childCount, children
      ensures Valid() && Kids() == Without(old(Kids()), child)
    {
      ghost var kids := Kids();
      var index := 0;
      while children[index] != child
        invariant 0 <= index < childCount && child in kids[index..]
        invariant forall j :: 0 <= j < index ==> kids[j] != child
        decreases childCount - index
      {
        index := index + 1;
      }
      FirstIndex(kids, child, index);
      CloseGap(index);
    }

    method CloseGap(index: nat)
      requires Valid() && index < childCount
      modifies `childCount, children
      ensures Valid() && Kids() == old(Kids())[..index] + old(Kids())[index + 1..]
    {
      ghost var kids := Kids();
      var i := index + 1;
      while i < childCount
        invariant index + 1 <= i <= childCount == |kids| && Valid()
        invariant forall j :: 0 <= j < index ==> children[j] == kids[j]
        invariant forall j :: index <= j < i - 1 ==> children[j] == kids[j + 1]
        invariant forall j :: i <= j < childCount ==> children[j] == kids[j]
      {
        children[i - 1] := children[i];
        i := i + 1;
      }
      childCount := childCount - 1;
    }
  }

  lemma {:induction false} FirstIndex<T>(s: seq<T>, x: T, i: nat)
    requires i < |s| && s[i] == x && forall j :: 0 <= j < i ==> s[j] != x
    ensures x in s && IndexOf(s, x) == i
  {
    if i > 0 {
      assert s[1..][i - 1] == x;
      FirstIndex(s[1..], x, i - 1);
    }
  }
}
