/** The apply pass of a container strategy, as the imperative code it is: copy-on-write through a
    mutable view of the node and a data builder, child by child, then seal. Each method that builds
    a node is proved to compute exactly its specification function in module ApplySpecs, and the
    staged modifications it visits to resolve as ResolvedAs states. */
module ApplyPass {
  import opened Wrappers
  import opened NormalizedNodes
  import opened TreeNodes
  import opened MutableTreeNodes
  import opened ContainerBuilders
  import opened Modifications
  import opened Strategies
  import opened ApplySpecs
  import opened ApplyLemmas

  /** apply: resolves the staged node's type and returns the node it leaves behind. */
  method Apply(s: Strategy, mod: ModifiedNode, current: Option<TreeNode>, version: Version)
    returns (r: Option<TreeNode>)
    requires mod.Valid() && Unresolved(mod)
    requires ApplySpec(s, mod, current, version).Applied?
    modifies mod.Repr
    ensures r == ApplySpec(s, mod, current, version).node
    ensures mod.modificationType == Some(ApplySpec(s, mod, current, version).resolved)
    ensures var base := LoopBase(s, mod, current, version);
      base.Some? ==>
        && (forall j :: 0 <= j < |mod.children| ==> mod.children[j].modificationType.Some?)
        && (KeyedById(base.value.children) ==> ChildrenResolved(s, mod, base.value.children, version))
    ensures ResolvedAs(s, mod, current, version)
    decreases mod.Repr, 4
  {
    UnresolvedBelow(mod);
    match mod.operation {
      case NoOp =>
        mod.ResolveModificationType(Unmodified);
        r := current;
      case DeleteOp =>
        mod.ResolveModificationType(if current.Some? then Delete else Unmodified);
        r := None;
      case WriteOp =>
        mod.ResolveModificationType(Write);
        r := StrategyApplyWrite(s, mod, current, version);
      case MergeOp =>
        if current.None? || s.LeafStrategy? {
          mod.ResolveModificationType(Write);
          r := StrategyApplyWrite(s, mod, current, version);
        } else {
          var t := ApplyMerge(s, mod, current.value, version);
          r := Some(t);
        }
      case TouchOp =>
        if s.LeafStrategy? {
          mod.ResolveModificationType(Unmodified);
          r := current;
        } else {
          var t := ApplyTouch(s, mod, current.value, version);
          r := Some(t);
        }
    }
  }

  /** The strategy's applyWrite: a leaf materialises the written value, a container also overlays
      the staged children. */
  method StrategyApplyWrite(s: Strategy, mod: ModifiedNode, current: Option<TreeNode>, version: Version)
    returns (r: Option<TreeNode>)
    requires mod.Valid() && mod.writtenValue.Some? && ChildrenUnresolved(mod)
    requires WriteApplied(s, mod, version).Applied?
    modifies mod.Repr - {mod}
    ensures r == WriteApplied(s, mod, version).node
    ensures s.NodeContainerStrategy? ==> ChildrenResolved(s, mod, CreateTreeNode(mod.writtenValue.value, version).children, version)
    ensures s.NodeContainerStrategy? ==> LoopResolved(s, mod, CreateTreeNode(mod.writtenValue.value, version), version)
    decreases mod.Repr, 3
  {
    if s.LeafStrategy? {
      r := Some(CreateTreeNode(mod.writtenValue.value, version));
    } else {
      var t := ApplyWrite(s, mod, current, version);
      r := Some(t);
    }
  }

  /** applyWrite: the written value materialised at the version; staged children are overlaid on
      it and the overlaid data materialised afresh at the version. */
  method ApplyWrite(s: Strategy, modification: ModifiedNode, currentMeta: Option<TreeNode>, version: Version)
    returns (t: TreeNode)
    requires s.NodeContainerStrategy? && modification.Valid() && modification.writtenValue.Some?
    requires ChildrenUnresolved(modification)
    requires WriteSpec(s, modification, version).Some?
    modifies modification.Repr - {modification}
    ensures Some(t) == WriteSpec(s, modification, version)
    ensures ChildrenResolved(s, modification, CreateTreeNode(modification.writtenValue.value, version).children, version)
    ensures LoopResolved(s, modification, CreateTreeNode(modification.writtenValue.value, version), version)
    decreases modification.Repr, 2
  {
    var newValue := modification.writtenValue.value;
    var newValueMeta := CreateTreeNode(newValue, version);
    if |modification.children| == 0 {
      return newValueMeta;
    }
    CreateTreeNodeKeyed(newValue, version);
    var result := CopyOnWrite(s, modification, newValueMeta, version);
    t := CreateTreeNode(result.data, version);
  }

  /** The copy-on-write both applyWrite and applyTouch run on a node with staged children: a
      mutable view of the node with the new subtree version, a data builder seeded with its data,
      and mutateChildren over the staged children. */
  method CopyOnWrite(s: Strategy, modification: ModifiedNode, base: TreeNode, version: Version)
    returns (t: TreeNode)
    requires s.NodeContainerStrategy? && modification.Valid() && ChildrenUnresolved(modification)
    requires base.data.Container?
    requires MutateSpec(s, modification, 0, Staged(base.children, base.data.children, [], []), version).Some?
    modifies modification.Repr - {modification}
    ensures var st := MutateSpec(s, modification, 0, Staged(base.children, base.data.children, [], []), version).value;
      && t == Touched(base, st, version)
      && forall j :: 0 <= j < |modification.children| ==> modification.children[j].modificationType == Some(st.types[j])
    ensures KeyedById(base.children) ==> ChildrenResolved(s, modification, base.children, version)
    ensures LoopResolved(s, modification, base, version)
    decreases modification.Repr, 1, 3
  {
    var meta := new MutableTreeNode(base);
    meta.SetSubtreeVersion(version);
    var dataBuilder := new ContainerBuilder(base.data);
    t := MutateChildren(s, meta, dataBuilder, version, modification);
    if KeyedById(base.children) {
      ResolvedAsRecorded(s, modification, base.children, base.data.children, version);
    }
  }

  /** mutateChildren: applies each staged child by its strategy against the current child with its
      identifier, adds a present result to (or removes an absent one from) both the metadata node
      and the data builder, then builds the data and seals the node. */
  method MutateChildren(
    s: Strategy, meta: MutableTreeNode, data: ContainerBuilder, nodeVersion: Version, modification: ModifiedNode)
    returns (t: TreeNode)
    requires s.NodeContainerStrategy? && modification.Valid() && ChildrenUnresolved(modification)
    requires !meta.sealed
    requires MutateSpec(s, modification, 0, Staged(meta.children, data.children, [], []), nodeVersion).Some?
    modifies meta, data, modification.Repr - {modification}
    ensures var st := MutateSpec(s, modification, 0, Staged(old(meta.children), old(data.children), [], []), nodeVersion).value;
      && t == TreeNode(Container(data.identifier, data.nodeClass, st.data), meta.version, old(meta.subtreeVersion), st.meta)
      && (forall j :: 0 <= j < |modification.children| ==> modification.children[j].modificationType == Some(st.types[j]))
      && forall j :: 0 <= j < |modification.children| ==> ChildResolvedAs(s, modification.children[j], st.seen[j], nodeVersion)
    decreases modification.Repr, 1, 2
  {
    ghost var st0 := Staged(meta.children, data.children, [], []);
    ghost var st := st0;
    ghost var subtreeVersion := meta.subtreeVersion;
    var i := 0;
    while i < |modification.children|
      invariant MutateProgress(s, meta, data, nodeVersion, modification, subtreeVersion, st0, i, st)
    {
      st := MutateNextChild(s, meta, data, nodeVersion, modification, subtreeVersion, st0, i, st);
      i := i + 1;
    }
    assert MutateSpec(s, modification, i, st, nodeVersion) == Some(st);
    var built := data.Build();
    meta.SetData(built);
    t := meta.Seal();
  }

  /** mutateChildren's loop after i iterations from the loop state st0: the loop state st is held
      as in StagedProgress, and each of the first i staged children has resolved (with its
      subtree) as st records. */
  ghost predicate MutateProgress(
    s: Strategy, meta: MutableTreeNode, data: ContainerBuilder, nodeVersion: Version, modification: ModifiedNode,
    subtreeVersion: Version, st0: Staged, i: int, st: Staged)
    requires s.NodeContainerStrategy? && modification.Valid()
    reads meta, data, modification.Repr - {modification}
  {
    && StagedProgress(s, meta, data, nodeVersion, modification, subtreeVersion, st0, i, st)
    && (forall j :: 0 <= j < i ==> ChildResolvedAs(s, modification.children[j], st.seen[j], nodeVersion))
  }

  /** mutateChildren's loop after i iterations from the loop state st0: the metadata node and the
      data builder hold the loop state st, the first i staged children carry the types st records,
      and the rest are not resolved yet. */
  ghost predicate StagedProgress(
    s: Strategy, meta: MutableTreeNode, data: ContainerBuilder, nodeVersion: Version, modification: ModifiedNode,
    subtreeVersion: Version, st0: Staged, i: int, st: Staged)
    requires s.NodeContainerStrategy? && modification.Valid()
    reads meta, data, modification.Repr - {modification}
  {
    && 0 <= i <= |modification.children|
    && !meta.sealed && meta.subtreeVersion == subtreeVersion
    && meta.children == st.meta && data.children == st.data && |st.types| == i && |st.seen| == i
    && MutateSpec(s, modification, i, st, nodeVersion) == MutateSpec(s, modification, 0, st0, nodeVersion)
    && (forall j :: 0 <= j < i ==> modification.children[j].modificationType == Some(st.types[j]))
    && (forall j :: i <= j < |modification.children| ==> Unresolved(modification.children[j]))
  }

  /** The body of mutateChildren's loop: applies the i-th staged child, leaving the children
      resolved before it as they were. */
  method MutateNextChild(
    s: Strategy, meta: MutableTreeNode, data: ContainerBuilder, nodeVersion: Version, modification: ModifiedNode,
    ghost subtreeVersion: Version, ghost st0: Staged, i: nat, ghost st: Staged)
    returns (ghost next: Staged)
    requires s.NodeContainerStrategy? && modification.Valid() && i < |modification.children|
    requires MutateSpec(s, modification, 0, st0, nodeVersion).Some?
    requires MutateProgress(s, meta, data, nodeVersion, modification, subtreeVersion, st0, i, st)
    modifies meta, data, modification.children[i].Repr
    ensures MutateProgress(s, meta, data, nodeVersion, modification, subtreeVersion, st0, i + 1, next)
    decreases modification.Repr, 1, 1
  {
    SiblingsApart(modification, i);
    next := StageNextChild(s, meta, data, nodeVersion, modification, subtreeVersion, st0, i, st);
  }

  /** The i-th staged child applied: the loop state advances by one step and the child resolves
      as the metadata it was staged against says. */
  method StageNextChild(
    s: Strategy, meta: MutableTreeNode, data: ContainerBuilder, nodeVersion: Version, modification: ModifiedNode,
    ghost subtreeVersion: Version, ghost st0: Staged, i: nat, ghost st: Staged)
    returns (ghost next: Staged)
    requires s.NodeContainerStrategy? && modification.Valid() && i < |modification.children|
    requires MutateSpec(s, modification, 0, st0, nodeVersion).Some?
    requires StagedProgress(s, meta, data, nodeVersion, modification, subtreeVersion, st0, i, st)
    modifies meta, data, modification.children[i].Repr
    ensures StagedProgress(s, meta, data, nodeVersion, modification, subtreeVersion, st0, i + 1, next)
    ensures next.seen == st.seen + [Lookup(st.meta, modification.children[i].identifier)]
    ensures ChildResolvedAs(s, modification.children[i], next.seen[i], nodeVersion)
    decreases modification.Repr, 1, 0
  {
    SiblingsApart(modification, i);
    next := MutateChild(s, meta, data, nodeVersion, modification.children[i], st);
  }

  /** One iteration of mutateChildren's loop, on the staged child `child`. */
  method MutateChild(
    s: Strategy, meta: MutableTreeNode, data: ContainerBuilder, nodeVersion: Version, child: ModifiedNode,
    ghost acc: Staged)
    returns (ghost next: Staged)
    requires s.NodeContainerStrategy? && child.Valid() && Unresolved(child) && !meta.sealed
    requires meta.children == acc.meta && data.children == acc.data
    requires ChildResult(s, child, Lookup(acc.meta, child.identifier), nodeVersion).Applied?
    modifies meta, data, child.Repr
    ensures var a := ChildResult(s, child, Lookup(acc.meta, child.identifier), nodeVersion);
      && next == Step(acc, child.identifier, a.node, a.resolved)
      && next.types == acc.types + [a.resolved]
      && child.modificationType == Some(a.resolved)
    ensures ChildResolvedAs(s, child, Lookup(acc.meta, child.identifier), nodeVersion)
    ensures meta.children == next.meta && data.children == next.data
    ensures !meta.sealed && meta.subtreeVersion == old(meta.subtreeVersion)
    decreases child.Repr, 5
  {
    var id := child.identifier;
    var cm := meta.GetChild(id);
    var op := s.GetChild(id).value;
    ghost var a := ApplySpec(op, child, cm, nodeVersion);
    var result := Apply(op, child, cm, nodeVersion);
    assert ChildResolvedAs(s, child, Lookup(acc.meta, id), nodeVersion);
    if result.Some? {
      var tn := result.value;
      meta.AddChild(tn);
      data.AddChild(tn.data);
    } else {
      meta.RemoveChild(id);
      data.RemoveChild(id);
    }
    next := Step(acc, id, result, a.resolved);
  }

  /** applyMerge: for a container, a merge only replaces children, exactly like a touch. */
  method ApplyMerge(s: Strategy, modification: ModifiedNode, currentMeta: TreeNode, version: Version)
    returns (t: TreeNode)
    requires s.NodeContainerStrategy? && modification.Valid() && Unresolved(modification)
    requires TouchSpec(s, modification, currentMeta, version).Applied?
    modifies modification.Repr
    ensures Some(t) == TouchSpec(s, modification, currentMeta, version).node
    ensures modification.modificationType == Some(TouchSpec(s, modification, currentMeta, version).resolved)
    ensures forall j :: 0 <= j < |modification.children| ==> modification.children[j].modificationType.Some?
    ensures KeyedById(currentMeta.children) ==> ChildrenResolved(s, modification, currentMeta.children, version)
    ensures LoopResolved(s, modification, currentMeta, version)
    decreases modification.Repr, 3
  {
    t := ApplyTouch(s, modification, currentMeta, version);
  }

  /** applyTouch: with no staged children, or when all of them resolve to UNMODIFIED, the node
      resolves to UNMODIFIED and the current node itself is returned; otherwise it resolves to
      SUBTREE_MODIFIED and the newly sealed node is returned. */
  method ApplyTouch(s: Strategy, modification: ModifiedNode, currentMeta: TreeNode, version: Version)
    returns (t: TreeNode)
    requires s.NodeContainerStrategy? && modification.Valid() && Unresolved(modification)
    requires TouchSpec(s, modification, currentMeta, version).Applied?
    modifies modification.Repr
    ensures Some(t) == TouchSpec(s, modification, currentMeta, version).node
    ensures modification.modificationType == Some(TouchSpec(s, modification, currentMeta, version).resolved)
    ensures modification.modificationType == Some(Unmodified) ==> t == currentMeta
    ensures forall j :: 0 <= j < |modification.children| ==> modification.children[j].modificationType.Some?
    ensures KeyedById(currentMeta.children) ==> ChildrenResolved(s, modification, currentMeta.children, version)
    ensures LoopResolved(s, modification, currentMeta, version)
    decreases modification.Repr, 2
  {
    UnresolvedBelow(modification);
    var children := modification.children;
    if |children| != 0 {
      var ret := CopyOnWrite(s, modification, currentMeta, version);
      var unmodified := AllChildrenUnmodified(children);
      if !unmodified {
        modification.ResolveModificationType(SubtreeModified);
        return ret;
      }
    }
    modification.ResolveModificationType(Unmodified);
    return currentMeta;
  }

  /** applyTouch's scan of the resolved children, stopping at the first that is not UNMODIFIED. */
  method AllChildrenUnmodified(children: seq<ModifiedNode>) returns (b: bool)
    requires forall j :: 0 <= j < |children| ==> children[j].modificationType.Some?
    ensures b <==> forall j :: 0 <= j < |children| ==> children[j].modificationType == Some(Unmodified)
  {
    var i := 0;
    while i < |children|
      invariant 0 <= i <= |children|
      invariant forall j :: 0 <= j < i ==> children[j].modificationType == Some(Unmodified)
    {
      if children[i].GetModificationType() != Unmodified {
        return false;
      }
      i := i + 1;
    }
    return true;
  }

  lemma UnresolvedBelow(m: ModifiedNode)
    requires m.Valid() && Unresolved(m)
    ensures ChildrenUnresolved(m)
  {
  }
}
