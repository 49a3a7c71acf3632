/** Worked examples: small staged trees built with the real constructors and passed to the
    imperative apply pass or the validate pass, with their results proved. */
module Scenarios {
  import opened Wrappers
  import opened NormalizedNodes
  import opened TreeNodes
  import opened Modifications
  import opened Strategies
  import opened StructureCheck
  import opened Validation
  import opened ApplySpecs
  import opened ApplyPass

  /** A container C that declares the leaf children x and y. */
  function Schema(treeType: TreeType): (s: Strategy)
    ensures s.NodeContainerStrategy? && s.GetChild("z").None?
  {
    NewNodeContainerStrategy(ContainerNode, treeType, map["x" := LeafStrategy(LeafNode), "y" := LeafStrategy(LeafNode)])
  }

  /** Writing C = {x:1, z:9} fails the structure check of a configuration tree, naming z, and
      passes that of an operational tree, which skips the children. */
  lemma SchemaRejection()
    ensures VerifyStructure(Schema(Configuration), Container("C", ContainerNode, [Leaf("x", LeafNode, 1), Leaf("z", LeafNode, 9)]), true)
            == Fail(SchemaValidationFailed("z"))
    ensures VerifyStructure(Schema(Operational), Container("C", ContainerNode, [Leaf("x", LeafNode, 1), Leaf("z", LeafNode, 9)]), true)
            == Pass
  {
    var v := Container("C", ContainerNode, [Leaf("x", LeafNode, 1), Leaf("z", LeafNode, 9)]);
    assert VerifyChildrenFrom(Schema(Configuration), v, 1, true) == Fail(SchemaValidationFailed("z"));
  }

  /** The staged merge of C/y = 3. */
  ghost predicate MergeOfY(y: ModifiedNode) {
    && y.Valid() && y.identifier == "y" && y.operation == MergeOp
    && y.writtenValue == Some(Leaf("y", LeafNode, 3)) && y.children == []
  }

  /** The staged write of C = {x:1}, with the merge of C/y staged beneath it. */
  ghost predicate WriteOfC(c: ModifiedNode, y: ModifiedNode) {
    && c.Valid() && c.identifier == "C" && c.operation == WriteOp
    && c.writtenValue == Some(Container("C", ContainerNode, [Leaf("x", LeafNode, 1)])) && c.children == [y]
  }

  /** The merge of C/y, applied where C has no y yet, writes y = 3. */
  lemma MergeOfYWrites(y: ModifiedNode, version: Version)
    requires MergeOfY(y)
    ensures ChildResult(Schema(Configuration), y, None, version) == Applied(Some(CreateTreeNode(Leaf("y", LeafNode, 3), version)), Write)
  {
    var leaf := LeafStrategy(LeafNode);
    assert Schema(Configuration).GetChild("y") == Some(leaf);
    assert WriteApplied(leaf, y, version) == Applied(Some(CreateTreeNode(Leaf("y", LeafNode, 3), version)), Write);
    assert ApplySpec(leaf, y, None, version) == WriteApplied(leaf, y, version);
  }

  /** The overlay loop over the written C = {x:1} adds y = 3 after x. */
  lemma OverlayLoop(c: ModifiedNode, y: ModifiedNode, version: Version)
    requires MergeOfY(y) && WriteOfC(c, y)
    ensures var w := Container("C", ContainerNode, [Leaf("x", LeafNode, 1)]);
      var st := MutateSpec(Schema(Configuration), c, 0, Staged(CreateTreeNode(w, version).children, w.children, [], []), version);
      st.Some? && st.value.data == [Leaf("x", LeafNode, 1), Leaf("y", LeafNode, 3)]
  {
    var w := Container("C", ContainerNode, [Leaf("x", LeafNode, 1)]);
    var base := CreateTreeNode(w, version);
    assert Lookup(base.children, "y").None?;
    MergeOfYWrites(y, version);
    var acc := Staged(base.children, w.children, [], []);
    var next := Step(acc, "y", Some(CreateTreeNode(Leaf("y", LeafNode, 3), version)), Write);
    assert next.data == [Leaf("x", LeafNode, 1), Leaf("y", LeafNode, 3)];
    assert MutateSpec(Schema(Configuration), c, 1, next, version) == Some(next);
    assert MutateSpec(Schema(Configuration), c, 0, acc, version) == MutateSpec(Schema(Configuration), c, 1, next, version);
  }

  lemma WriteThenOverlaySpec(c: ModifiedNode, y: ModifiedNode, version: Version)
    requires MergeOfY(y) && WriteOfC(c, y)
    ensures ApplySpec(Schema(Configuration), c, None, version)
            == Applied(Some(CreateTreeNode(Container("C", ContainerNode, [Leaf("x", LeafNode, 1), Leaf("y", LeafNode, 3)]), version)), Write)
  {
    var s := Schema(Configuration);
    var w := Container("C", ContainerNode, [Leaf("x", LeafNode, 1)]);
    OverlayLoop(c, y, version);
    assert WriteSpec(s, c, version)
        == Some(CreateTreeNode(Container("C", ContainerNode, [Leaf("x", LeafNode, 1), Leaf("y", LeafNode, 3)]), version));
    assert ApplySpec(s, c, None, version) == WriteApplied(s, c, version);
  }

  /** Once the write of C has resolved its staged children, the merge of C/y has resolved to WRITE:
      the written C has no y for it to merge into. */
  lemma MergeOfYResolved(c: ModifiedNode, y: ModifiedNode, version: Version)
    requires MergeOfY(y) && WriteOfC(c, y)
    requires var base := LoopBase(Schema(Configuration), c, None, version);
      base.Some? && (KeyedById(base.value.children) ==> ChildrenResolved(Schema(Configuration), c, base.value.children, version))
    ensures y.modificationType == Some(Write)
  {
    var w := Container("C", ContainerNode, [Leaf("x", LeafNode, 1)]);
    assert LoopBase(Schema(Configuration), c, None, version) == Some(CreateTreeNode(w, version));
    CreateTreeNodeKeyed(w, version);
    assert Lookup(CreateTreeNode(w, version).children, "y").None?;
    MergeOfYWrites(y, version);
    assert c.children[0] == y;
  }

  /** Writing C = {x:1} and merging C/y = 3 in the same transaction, onto a snapshot without C,
      yields C = {x:1, y:3} materialised at the transaction's version; both the write of C and the
      merge of C/y, which finds no y to merge into, resolve to WRITE. */
  method WriteThenOverlay(version: Version) returns (r: Option<TreeNode>, resolved: ModificationType, resolvedY: ModificationType)
    ensures r == Some(CreateTreeNode(Container("C", ContainerNode, [Leaf("x", LeafNode, 1), Leaf("y", LeafNode, 3)]), version))
    ensures resolved == Write && resolvedY == Write
  {
    var y := new ModifiedNode("y", MergeOp, Some(Leaf("y", LeafNode, 3)), None, []);
    var c := new ModifiedNode("C", WriteOp, Some(Container("C", ContainerNode, [Leaf("x", LeafNode, 1)])), None, [y]);
    assert y.Repr == {y};
    WriteThenOverlaySpec(c, y, version);
    r := Apply(Schema(Configuration), c, None, version);
    resolved := c.GetModificationType();
    MergeOfYResolved(c, y, version);
    resolvedY := y.GetModificationType();
  }

  /** A touch with no staged children leaves any current node as it was, the same node, and
      resolves to UNMODIFIED. */
  method EmptyTouch(s: Strategy, current: TreeNode, version: Version) returns (r: Option<TreeNode>, resolved: ModificationType)
    requires s.NodeContainerStrategy?
    ensures r == Some(current) && resolved == Unmodified
  {
    var c := new ModifiedNode(current.Identifier(), TouchOp, None, Some(current), []);
    r := Apply(s, c, Some(current), version);
    resolved := c.GetModificationType();
  }

  /** A touch of C whose only staged child changes nothing resolves to UNMODIFIED and returns
      the current C itself, not a rebuilt copy. */
  method CollapsedTouch(current: TreeNode, version: Version) returns (r: Option<TreeNode>, resolved: ModificationType)
    requires current.data.Container?
    ensures r == Some(current) && resolved == Unmodified
  {
    var x := new ModifiedNode("x", NoOp, None, current.GetChild("x"), []);
    var c := new ModifiedNode(current.Identifier(), TouchOp, None, Some(current), [x]);
    var s := Schema(Configuration);
    var acc := Staged(current.children, current.data.children, [], []);
    assert ChildResult(s, x, Lookup(current.children, "x"), version) == Applied(Lookup(current.children, "x"), Unmodified);
    assert MutateSpec(s, c, 0, acc, version).Some?;
    r := Apply(s, c, Some(current), version);
    resolved := c.GetModificationType();
  }

  /** A container C whose child container y holds a leaf z. */
  function NestedSchema(): (s: Strategy)
    ensures s.NodeContainerStrategy? && s.GetChild("y").Some? && s.GetChild("y").value.NodeContainerStrategy?
  {
    NewNodeContainerStrategy(ContainerNode, Configuration,
      map["y" := NewNodeContainerStrategy(ContainerNode, Configuration, map["z" := LeafStrategy(LeafNode)])])
  }

  /** The staged touch of C, beneath it the touch of C/y, beneath that the write of C/y/z = 5. */
  ghost predicate NestedWrite(c: ModifiedNode, y: ModifiedNode, z: ModifiedNode) {
    && z.Valid() && z.identifier == "z" && z.operation == WriteOp && z.writtenValue == Some(Leaf("z", LeafNode, 5))
    && y.Valid() && y.identifier == "y" && y.operation == TouchOp && y.children == [z]
    && c.Valid() && c.identifier == "C" && c.operation == TouchOp && c.children == [y]
  }

  /** The nested touches apply onto a current C whose child y has no z yet. */
  lemma NestedWriteApplies(c: ModifiedNode, y: ModifiedNode, z: ModifiedNode, currentC: TreeNode, version: Version)
    requires NestedWrite(c, y, z) && currentC.data.Container?
    requires currentC.GetChild("y").Some? && currentC.GetChild("y").value.data.Container?
    requires currentC.GetChild("y").value.GetChild("z").None?
    ensures ApplySpec(NestedSchema(), c, Some(currentC), version).Applied?
  {
    var s := NestedSchema();
    var ys := s.GetChild("y").value;
    var leaf := ys.GetChild("z").value;
    var yCurrent := currentC.GetChild("y").value;
    assert WriteApplied(leaf, z, version).Applied?;
    assert ChildResult(ys, z, Lookup(yCurrent.children, "z"), version).Applied?;
    assert MutateSpec(ys, y, 0, LoopStart(yCurrent), version).Some?;
    assert TouchSpec(ys, y, yCurrent, version).Applied?;
    assert ChildResult(s, y, Lookup(currentC.children, "y"), version).Applied?;
    assert MutateSpec(s, c, 0, LoopStart(currentC), version).Some?;
  }

  /** A resolved touch with a single staged child has resolved that child against the current
      child with its identifier. */
  lemma OnlyChildResolved(s: Strategy, m: ModifiedNode, current: TreeNode, version: Version)
    requires s.NodeContainerStrategy? && m.Valid() && m.operation == TouchOp && |m.children| == 1
    requires current.data.Container? && ResolvedAs(s, m, Some(current), version)
    ensures ChildResolvedAs(s, m.children[0], Lookup(current.children, m.children[0].identifier), version)
  {
    assert LoopBase(s, m, Some(current), version) == Some(current);
    var acc := LoopStart(current);
    var child := m.children[0];
    var a := ChildResult(s, child, Lookup(acc.meta, child.identifier), version);
    assert a.Applied?;
    var next := Step(acc, child.identifier, a.node, a.resolved);
    assert MutateSpec(s, m, 0, acc, version) == Some(next);
  }

  /** Once the touch of C has resolved, so has the write of C/y/z two levels down, to WRITE. */
  lemma NestedWriteResolved(c: ModifiedNode, y: ModifiedNode, z: ModifiedNode, currentC: TreeNode, version: Version)
    requires NestedWrite(c, y, z) && currentC.data.Container?
    requires currentC.GetChild("y").Some? && currentC.GetChild("y").value.data.Container?
    requires ResolvedAs(NestedSchema(), c, Some(currentC), version)
    ensures z.modificationType == Some(Write)
  {
    var s := NestedSchema();
    var ys := s.GetChild("y").value;
    var yCurrent := currentC.GetChild("y").value;
    OnlyChildResolved(s, c, currentC, version);
    assert ResolvedAs(ys, y, Some(yCurrent), version);
    OnlyChildResolved(ys, y, yCurrent, version);
    var leaf := ys.GetChild("z").value;
    var zCurrent := Lookup(yCurrent.children, "z");
    assert ResolvedAs(leaf, z, zCurrent, version);
    assert ApplySpec(leaf, z, zCurrent, version) == WriteApplied(leaf, z, version);
  }

  /** Touching C and C/y to write C/y/z = 5, onto a current C whose y has no z, resolves the write
      of z, two levels below the node the pass was started on, to WRITE. */
  method NestedTouchWrite(currentC: TreeNode, version: Version) returns (r: Option<TreeNode>, resolvedZ: ModificationType)
    requires currentC.data.Container? && currentC.Identifier() == "C"
    requires currentC.GetChild("y").Some? && currentC.GetChild("y").value.data.Container?
    requires currentC.GetChild("y").value.GetChild("z").None?
    ensures resolvedZ == Write
  {
    var z := new ModifiedNode("z", WriteOp, Some(Leaf("z", LeafNode, 5)), None, []);
    var y := new ModifiedNode("y", TouchOp, None, currentC.GetChild("y"), [z]);
    var c := new ModifiedNode("C", TouchOp, None, Some(currentC), [y]);
    NestedWriteApplies(c, y, z, currentC, version);
    r := Apply(NestedSchema(), c, Some(currentC), version);
    NestedWriteResolved(c, y, z, currentC, version);
    resolvedZ := z.GetModificationType();
  }

  /** Transaction B staged, against a snapshot in which C/y existed, a touch of C/y (a write of
      C/y/z); another transaction has since deleted y. Validating B against the current C fails
      with a conflict at C/y. */
  method ConflictAfterConcurrentDelete(yOriginal: TreeNode, currentC: TreeNode) returns (r: Outcome<ValidationFailure>)
    requires currentC.GetChild("y").None?
    ensures r == Fail(ConflictingModification(["C", "y"]))
  {
    var z := new ModifiedNode("z", WriteOp, Some(Leaf("z", LeafNode, 5)), None, []);
    var y := new ModifiedNode("y", TouchOp, None, Some(yOriginal), [z]);
    var c := new ModifiedNode("C", TouchOp, None, Some(currentC), [y]);
    var s := NestedSchema();
    var ys := s.GetChild("y").value;
    assert ["C"] + ["y"] == ["C", "y"];
    assert CheckTouchApplicable(ys, ["C", "y"], y, None) == Fail(ConflictingModification(["C", "y"]));
    assert CheckApplicable(ys, ["C", "y"], y, None) == Fail(ConflictingModification(["C", "y"]));
    assert CheckChildrenFrom(s, ["C"], c, currentC, 1) == Pass;
    assert CheckChildrenFrom(s, ["C"], c, currentC, 0) == Fail(ConflictingModification(["C", "y"]));
    assert CheckTouchApplicable(s, ["C"], c, Some(currentC)) == CheckChildrenFrom(s, ["C"], c, currentC, 0);
    r := CheckApplicable(s, ["C"], c, Some(currentC));
  }

  /** The same touch of C/y where y never existed, neither in B's original nor now, fails with
      "node does not exist" at C/y. */
  method TouchOfMissingNode(currentC: TreeNode) returns (r: Outcome<ValidationFailure>)
    requires currentC.GetChild("y").None?
    ensures r == Fail(ModifiedNodeDoesNotExist(["C", "y"]))
  {
    var z := new ModifiedNode("z", WriteOp, Some(Leaf("z", LeafNode, 5)), None, []);
    var y := new ModifiedNode("y", TouchOp, None, None, [z]);
    var c := new ModifiedNode("C", TouchOp, None, Some(currentC), [y]);
    var s := NestedSchema();
    var ys := s.GetChild("y").value;
    assert ["C"] + ["y"] == ["C", "y"];
    assert CheckTouchApplicable(ys, ["C", "y"], y, None) == Fail(ModifiedNodeDoesNotExist(["C", "y"]));
    assert CheckApplicable(ys, ["C", "y"], y, None) == Fail(ModifiedNodeDoesNotExist(["C", "y"]));
    assert CheckChildrenFrom(s, ["C"], c, currentC, 1) == Pass;
    assert CheckChildrenFrom(s, ["C"], c, currentC, 0) == Fail(ModifiedNodeDoesNotExist(["C", "y"]));
    assert CheckTouchApplicable(s, ["C"], c, Some(currentC)) == CheckChildrenFrom(s, ["C"], c, currentC, 0);
    r := CheckApplicable(s, ["C"], c, Some(currentC));
  }

  /** A merge of C/y whose original saw y, validated after y was deleted, passes: a merge onto
      an absent node is not checked against its original. */
  method MergeOntoDeletedNode(yOriginal: TreeNode, currentC: TreeNode) returns (r: Outcome<ValidationFailure>)
    requires currentC.GetChild("y").None?
    ensures r == Pass
  {
    var z := new ModifiedNode("z", WriteOp, Some(Leaf("z", LeafNode, 5)), None, []);
    var y := new ModifiedNode("y", MergeOp, Some(Container("y", ContainerNode, [])), Some(yOriginal), [z]);
    var c := new ModifiedNode("C", TouchOp, None, Some(currentC), [y]);
    var s := NestedSchema();
    var ys := s.GetChild("y").value;
    assert ["C"] + ["y"] == ["C", "y"];
    assert CheckMergeApplicable(ys, ["C", "y"], y, None) == Pass;
    assert CheckApplicable(ys, ["C", "y"], y, None) == Pass;
    assert CheckChildrenFrom(s, ["C"], c, currentC, 1) == Pass;
    assert CheckChildrenFrom(s, ["C"], c, currentC, 0) == Pass;
    assert CheckTouchApplicable(s, ["C"], c, Some(currentC)) == CheckChildrenFrom(s, ["C"], c, currentC, 0);
    r := CheckApplicable(s, ["C"], c, Some(currentC));
  }
}
