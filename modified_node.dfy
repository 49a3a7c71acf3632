/** The staged modification tree. Its shape (identifier, operation, written value, original
    snapshot, children) is fixed when the node is staged; only the resolved modification type is
    set later, once, during the apply pass. */
module Modifications {
  import opened Wrappers
  import opened NormalizedNodes
  import opened TreeNodes

  /** The operation a client staged on a node. A touch only carries child modifications. */
  datatype LogicalOperation = NoOp | TouchOp | WriteOp | MergeOp | DeleteOp

  /** What applying the modification turned out to do. */
  datatype ModificationType = Unmodified | Write | Delete | SubtreeModified

  class ModifiedNode {
    const identifier: PathArg
    const operation: LogicalOperation
    const writtenValue: Option<NormalizedNode>
    const original: Option<TreeNode>
    const children: seq<ModifiedNode>
    var modificationType: Option<ModificationType>
    /** This node and every node below it. */
    ghost const Repr: set<ModifiedNode>

    /** The staged tree is a tree: child footprints are disjoint and below this node, children have
        distinct identifiers, a value is written exactly by writes and merges, and a written value
        carries the node's identifier. Only constant fields are involved, so once established it
        holds for good. */
    ghost predicate Valid()
      decreases Repr
    {
      && this in Repr
      && ((operation == WriteOp || operation == MergeOp) <==> writtenValue.Some?)
      && (writtenValue.Some? ==> writtenValue.value.id == identifier)
      && (forall i :: 0 <= i < |children| ==>
            children[i] in Repr && children[i].Repr <= Repr && this !in children[i].Repr && children[i].Valid())
      && (forall i, j :: 0 <= i < j < |children| ==>
            children[i].Repr !! children[j].Repr && children[i].identifier != children[j].identifier)
    }

    constructor (
      identifier: PathArg,
      operation: LogicalOperation,
      writtenValue: Option<NormalizedNode>,
      original: Option<TreeNode>,
      children: seq<ModifiedNode>)
      requires (operation == WriteOp || operation == MergeOp) <==> writtenValue.Some?
      requires writtenValue.Some? ==> writtenValue.value.id == identifier
      requires forall i :: 0 <= i < |children| ==> children[i].Valid()
      requires forall i, j :: 0 <= i < j < |children| ==>
                 children[i].Repr !! children[j].Repr && children[i].identifier != children[j].identifier
      ensures Valid() && modificationType.None?
      ensures this.identifier == identifier && this.operation == operation && this.writtenValue == writtenValue
      ensures this.original == original && this.children == children
      ensures Repr == {this} + (set i, m | 0 <= i < |children| && m in children[i].Repr :: m)
    {
      this.identifier := identifier;
      this.operation := operation;
      this.writtenValue := writtenValue;
      this.original := original;
      this.children := children;
      modificationType := None;
      Repr := {this} + (set i, m | 0 <= i < |children| && m in children[i].Repr :: m);
    }

    /** getModificationType: only meaningful once the type has been resolved. */
    function GetModificationType(): ModificationType
      requires modificationType.Some?
      reads this
    {
      modificationType.value
    }

    /** resolveModificationType: the type is resolved once per walk. */
    method ResolveModificationType(t: ModificationType)
      requires modificationType.None?
      modifies this
      ensures modificationType == Some(t)
    {
      modificationType := Some(t);
    }
  }

  /** Distinct children of a valid node have disjoint subtrees. */
  lemma SiblingsApart(m: ModifiedNode, i: nat)
    requires m.Valid() && i < |m.children|
    ensures forall j :: 0 <= j < |m.children| && j != i ==>
      m.children[j] !in m.children[i].Repr && m.children[j].Repr !! m.children[i].Repr
  {
    forall j | 0 <= j < |m.children| && j != i
      ensures m.children[j] !in m.children[i].Repr && m.children[j].Repr !! m.children[i].Repr
    {
      if j < i {
        assert m.children[j].Repr !! m.children[i].Repr;
      } else {
        assert m.children[i].Repr !! m.children[j].Repr;
      }
      assert m.children[j] in m.children[j].Repr;
    }
  }

  /** No node of the subtree has had its type resolved yet. */
  ghost predicate Unresolved(m: ModifiedNode)
    reads m.Repr
  {
    forall n | n in m.Repr :: n.modificationType.None?
  }

  /** No node below m has had its type resolved yet. */
  ghost predicate ChildrenUnresolved(m: ModifiedNode)
    requires m.Valid()
    reads m.Repr
  {
    forall i :: 0 <= i < |m.children| ==> Unresolved(m.children[i])
  }
}
