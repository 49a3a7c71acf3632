/** Immutable snapshot nodes of the data tree and the factory that materialises them from a
    document value. */
module TreeNodes {
  import opened Wrappers
  import opened NormalizedNodes

  /** A version token. The model only compares versions for equality; it never computes with them. */
  type Version = nat

  /** A snapshot node: its data, the version at which its own value last changed, the version at
      which anything below it last changed, and its child nodes by identifier. */
  datatype TreeNode = TreeNode(
    data: NormalizedNode,
    version: Version,
    subtreeVersion: Version,
    children: map<PathArg, TreeNode>)
  {
    function Identifier(): PathArg {
      data.id
    }

    function GetChild(id: PathArg): Option<TreeNode> {
      Lookup(children, id)
    }
  }

  function Lookup(m: map<PathArg, TreeNode>, k: PathArg): (r: Option<TreeNode>)
    ensures r.Some? <==> k in m
    ensures r.Some? ==> r.value == m[k]
  {
    if k in m then Some(m[k]) else None
  }

  function DataOf(t: Option<TreeNode>): Option<NormalizedNode> {
    match t
    case None => None
    case Some(n) => Some(n.data)
  }

  /** TreeNodeFactory.createTreeNode: the snapshot of a value written at a version. The node and
      every child node carry that version as both version and subtree version, and each child node
      carries the data child with its identifier. */
  function CreateTreeNode(data: NormalizedNode, version: Version): (t: TreeNode)
    ensures t.data == data && t.version == version && t.subtreeVersion == version
    ensures forall k :: DataOf(t.GetChild(k)) == if data.Container? then FindChild(data.children, k) else None
    decreases data
  {
    TreeNode(data, version, version,
      if data.Container? then
        map k | k in Ids(data.children) :: CreateTreeNode(FindChild(data.children, k).value, version)
      else map[])
  }

  /** Every child node is filed under its own identifier. */
  ghost predicate KeyedById(m: map<PathArg, TreeNode>) {
    forall k | k in m :: m[k].Identifier() == k
  }

  /** Child nodes and child list agree: the child node under k carries the data child with
      identifier k, and there is none exactly when there is no such data child. */
  ghost predicate Mirrors(meta: map<PathArg, TreeNode>, data: seq<NormalizedNode>) {
    forall k :: DataOf(Lookup(meta, k)) == FindChild(data, k)
  }

  lemma MirrorsKeyed(meta: map<PathArg, TreeNode>, data: seq<NormalizedNode>)
    requires Mirrors(meta, data)
    ensures KeyedById(meta)
  {
    forall k | k in meta
      ensures meta[k].Identifier() == k
    {
      assert DataOf(Lookup(meta, k)) == FindChild(data, k);
    }
  }

  /** The snapshot of a value files every child node under its own identifier. */
  lemma CreateTreeNodeKeyed(v: NormalizedNode, version: Version)
    ensures KeyedById(CreateTreeNode(v, version).children)
  {
    var t := CreateTreeNode(v, version);
    if v.Container? {
      assert Mirrors(t.children, v.children) by {
        forall k ensures DataOf(Lookup(t.children, k)) == FindChild(v.children, k) {
          assert DataOf(t.GetChild(k)) == FindChild(v.children, k);
        }
      }
      MirrorsKeyed(t.children, v.children);
    }
  }

  /** Child nodes kept in step with a child list: distinct identifiers, the two mirroring each
      other, and each node itself coherent. */
  ghost predicate CoherentChildren(meta: map<PathArg, TreeNode>, data: seq<NormalizedNode>) {
    && DistinctIds(data)
    && Mirrors(meta, data)
    && (forall k | k in meta :: Coherent(meta[k]))
  }

  /** The metadata tree mirrors the data tree at every level. */
  ghost predicate Coherent(t: TreeNode)
    decreases t
  {
    && (if t.data.Container? then DistinctIds(t.data.children) && Mirrors(t.children, t.data.children)
        else t.children == map[])
    && (forall k | k in t.children :: Coherent(t.children[k]))
  }

  /** Every node of the subtree carries the given version as version and subtree version. */
  ghost predicate StampedAt(t: TreeNode, version: Version)
    decreases t
  {
    && t.version == version
    && t.subtreeVersion == version
    && (forall k | k in t.children :: StampedAt(t.children[k], version))
  }

  lemma {:induction false} FindMember(cs: seq<NormalizedNode>, c: NormalizedNode)
    requires DistinctIds(cs) && c in cs
    ensures FindChild(cs, c.id) == Some(c)
  {
    if cs[0] != c {
      assert c in cs[1..];
      FindMember(cs[1..], c);
    }
  }

  /** A freshly materialised node mirrors the value it was built from at every level. */
  lemma {:induction false} CreateTreeNodeCoherent(v: NormalizedNode, version: Version)
    requires WellFormed(v)
    ensures Coherent(CreateTreeNode(v, version))
    decreases v
  {
    var t := CreateTreeNode(v, version);
    forall k | k in t.children
      ensures Coherent(t.children[k])
    {
      var c := FindChild(v.children, k).value;
      assert t.children[k] == CreateTreeNode(c, version);
      CreateTreeNodeCoherent(c, version);
    }
  }

  /** A freshly materialised value carries the write's version everywhere below it. */
  lemma {:induction false} CreateTreeNodeStamped(v: NormalizedNode, version: Version)
    ensures StampedAt(CreateTreeNode(v, version), version)
    decreases v
  {
    var t := CreateTreeNode(v, version);
    forall k | k in t.children
      ensures StampedAt(t.children[k], version)
    {
      CreateTreeNodeStamped(FindChild(v.children, k).value, version);
    }
  }

  /** A coherent snapshot holds a well-formed value. */
  lemma {:induction false} CoherentWellFormed(t: TreeNode)
    requires Coherent(t)
    ensures WellFormed(t.data)
    decreases t
  {
    if t.data.Container? {
      forall c | c in t.data.children
        ensures WellFormed(c)
      {
        FindMember(t.data.children, c);
        assert DataOf(Lookup(t.children, c.id)) == Some(c);
        CoherentWellFormed(t.children[c.id]);
      }
    }
  }

  /** A container node assembled from coherent children is coherent. */
  lemma SealedCoherent(t: TreeNode)
    requires t.data.Container? && CoherentChildren(t.children, t.data.children)
    ensures Coherent(t)
  {
  }

  /** The children of a coherent container are coherent with its child list. */
  lemma ChildrenOfCoherent(t: TreeNode)
    requires t.data.Container? && Coherent(t)
    ensures CoherentChildren(t.children, t.data.children)
  {
  }
}
