/** Normalized nodes: the document values stored in the data tree. A container's children are
    kept in iteration order; a container addresses them by identifier, so a well-formed
    container never holds two children with the same identifier. */
module NormalizedNodes {
  import opened Wrappers

  /** A path argument identifies a child within its parent. */
  type PathArg = string

  /** The runtime class of a normalized node, modelled as a tag. */
  datatype NodeClass =
    | ContainerNode | MapNode | MapEntryNode | UnkeyedListNode | UnkeyedListEntryNode
    | ChoiceNode | AugmentationNode | LeafNode | LeafSetNode | LeafSetEntryNode

  datatype NormalizedNode =
    | Leaf(id: PathArg, nodeClass: NodeClass, payload: int)
    | Container(id: PathArg, nodeClass: NodeClass, children: seq<NormalizedNode>)

  function Ids(cs: seq<NormalizedNode>): set<PathArg> {
    set c | c in cs :: c.id
  }

  /** The child with identifier k, the first in iteration order. */
  function FindChild(cs: seq<NormalizedNode>, k: PathArg): (r: Option<NormalizedNode>)
    ensures r.Some? ==> r.value in cs && r.value.id == k
    ensures r.None? <==> k !in Ids(cs)
  {
    if |cs| == 0 then None
    else if cs[0].id == k then Some(cs[0])
    else FindChild(cs[1..], k)
  }

  predicate DistinctIds(cs: seq<NormalizedNode>) {
    |cs| == 0 || (cs[0].id !in Ids(cs[1..]) && DistinctIds(cs[1..]))
  }

  /** Every container in the value has children with distinct identifiers. */
  ghost predicate WellFormed(v: NormalizedNode)
    decreases v
  {
    v.Container? ==> DistinctIds(v.children) && forall c | c in v.children :: WellFormed(c)
  }

  /** The builder's addChild: replaces the child with the same identifier in place, or appends. */
  function WithChild(cs: seq<NormalizedNode>, c: NormalizedNode): (r: seq<NormalizedNode>)
    ensures forall k :: FindChild(r, k) == if k == c.id then Some(c) else FindChild(cs, k)
    ensures DistinctIds(cs) ==> DistinctIds(r)
    ensures (forall x | x in cs :: WellFormed(x)) && WellFormed(c) ==> forall x | x in r :: WellFormed(x)
  {
    if |cs| == 0 then [c]
    else if cs[0].id == c.id then [c] + cs[1..]
    else
      var rest := WithChild(cs[1..], c);
      assert FindChild(rest, cs[0].id) == FindChild(cs[1..], cs[0].id);
      assert ([cs[0]] + rest)[1..] == rest;
      [cs[0]] + rest
  }

  /** Where addChild puts the child: a new identifier goes at the end; a present one keeps the
      length and, among distinct identifiers, takes the old child's position. */
  lemma {:induction false} WithChildPlacement(cs: seq<NormalizedNode>, c: NormalizedNode)
    ensures c.id !in Ids(cs) ==> WithChild(cs, c) == cs + [c]
    ensures c.id in Ids(cs) ==> |WithChild(cs, c)| == |cs|
    ensures DistinctIds(cs) && c.id in Ids(cs) ==>
      forall j :: 0 <= j < |cs| ==> WithChild(cs, c)[j] == if cs[j].id == c.id then c else cs[j]
    decreases |cs|
  {
    if |cs| != 0 && cs[0].id != c.id {
      assert Ids(cs) == {cs[0].id} + Ids(cs[1..]) by {
        assert forall x | x in cs :: x == cs[0] || x in cs[1..];
      }
      WithChildPlacement(cs[1..], c);
      var r := WithChild(cs, c);
      assert r == [cs[0]] + WithChild(cs[1..], c);
      if DistinctIds(cs) && c.id in Ids(cs) {
        forall j | 0 < j < |cs|
          ensures r[j] == if cs[j].id == c.id then c else cs[j]
        {
          assert r[j] == WithChild(cs[1..], c)[j - 1] && cs[j] == cs[1..][j - 1];
        }
      }
    }
  }

  /** The builder's removeChild: drops the child with identifier k, if any. */
  function WithoutChild(cs: seq<NormalizedNode>, k: PathArg): (r: seq<NormalizedNode>)
    ensures forall j :: FindChild(r, j) == if j == k then None else FindChild(cs, j)
    ensures DistinctIds(cs) ==> DistinctIds(r)
    ensures forall x | x in r :: x in cs
  {
    if |cs| == 0 then []
    else if cs[0].id == k then WithoutChild(cs[1..], k)
    else
      var rest := WithoutChild(cs[1..], k);
      assert FindChild(rest, cs[0].id) == FindChild(cs[1..], cs[0].id);
      assert ([cs[0]] + rest)[1..] == rest;
      [cs[0]] + rest
  }

  /** Adding a child that is already there, under its identifier, changes nothing. */
  lemma {:induction false} WithPresentChild(cs: seq<NormalizedNode>, c: NormalizedNode)
    requires FindChild(cs, c.id) == Some(c)
    ensures WithChild(cs, c) == cs
  {
    if cs[0].id != c.id {
      WithPresentChild(cs[1..], c);
    }
  }

  /** Removing an identifier that is not there changes nothing. */
  lemma {:induction false} WithoutAbsentChild(cs: seq<NormalizedNode>, k: PathArg)
    requires FindChild(cs, k).None?
    ensures WithoutChild(cs, k) == cs
  {
    if |cs| != 0 {
      WithoutAbsentChild(cs[1..], k);
    }
  }
}
