/** The transient, exclusively owned builder view of a snapshot node. It is sealed exactly once
    into a new immutable node and must not be changed afterwards. */
module MutableTreeNodes {
  import opened Wrappers
  import opened NormalizedNodes
  import opened TreeNodes

  class MutableTreeNode {
    var data: NormalizedNode
    const version: Version
    var subtreeVersion: Version
    var children: map<PathArg, TreeNode>
    var sealed: bool

    /** TreeNode.mutable(): a builder view that starts out as the given node. */
    constructor (t: TreeNode)
      ensures data == t.data && version == t.version && subtreeVersion == t.subtreeVersion
      ensures children == t.children && !sealed
    {
      data := t.data;
      version := t.version;
      subtreeVersion := t.subtreeVersion;
      children := t.children;
      sealed := false;
    }

    function GetChild(id: PathArg): Option<TreeNode>
      reads this
    {
      Lookup(children, id)
    }

    method AddChild(child: TreeNode)
      requires !sealed
      modifies this
      ensures children == old(children)[child.Identifier() := child]
      ensures data == old(data) && subtreeVersion == old(subtreeVersion) && !sealed
    {
      children := children[child.Identifier() := child];
    }

    method RemoveChild(id: PathArg)
      requires !sealed
      modifies this
      ensures children == old(children) - {id}
      ensures data == old(data) && subtreeVersion == old(subtreeVersion) && !sealed
    {
      children := children - {id};
    }

    method SetSubtreeVersion(v: Version)
      requires !sealed
      modifies this
      ensures subtreeVersion == v
      ensures data == old(data) && children == old(children) && !sealed
    {
      subtreeVersion := v;
    }

    method SetData(d: NormalizedNode)
      requires !sealed
      modifies this
      ensures data == d
      ensures subtreeVersion == old(subtreeVersion) && children == old(children) && !sealed
    {
      data := d;
    }

    /** Freezes the builder into a snapshot node; afterwards the builder refuses every change. */
    method Seal() returns (t: TreeNode)
      requires !sealed
      modifies this
      ensures sealed
      ensures t == TreeNode(old(data), version, old(subtreeVersion), old(children))
      ensures data == old(data) && subtreeVersion == old(subtreeVersion) && children == old(children)
    {
      sealed := true;
      t := TreeNode(data, version, subtreeVersion, children);
    }
  }
}
