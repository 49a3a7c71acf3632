/** The apply pass as functions of the staged tree and the current snapshot. These specify the
    imperative strategy methods in module ApplyPass, and the lemmas in module ApplyLemmas state
    what they promise. Where the source throws in the apply pass (touching an absent node, a child
    without a strategy, building a container from a non-container value) the result is Defect: the
    methods require that it is not. */
module ApplySpecs {
  import opened Wrappers
  import opened NormalizedNodes
  import opened TreeNodes
  import opened Modifications
  import opened Strategies

  /** The node a modification leaves behind (absent when it is gone) and the type it resolves to. */
  datatype Applied = Applied(node: Option<TreeNode>, resolved: ModificationType) | Defect

  /** The state of mutateChildren's loop: the metadata node's children, the data builder's children,
      the types the children applied so far resolved to, and the current child node each of them
      was applied against. */
  datatype Staged = Staged(
    meta: map<PathArg, TreeNode>, data: seq<NormalizedNode>, types: seq<ModificationType>, seen: seq<Option<TreeNode>>)

  /** apply: the dispatch on the staged operation that calls the strategy's applyWrite, applyMerge
      or applyTouch. A merge onto an absent node is a write; a delete leaves no node. */
  function ApplySpec(s: Strategy, mod: ModifiedNode, current: Option<TreeNode>, version: Version): Applied
    requires mod.Valid()
    decreases mod.Repr, 4
  {
    match mod.operation
    case NoOp => Applied(current, Unmodified)
    case DeleteOp => Applied(None, if current.Some? then Delete else Unmodified)
    case WriteOp => WriteApplied(s, mod, version)
    case MergeOp =>
      if current.None? || s.LeafStrategy? then WriteApplied(s, mod, version)
      else TouchSpec(s, mod, current.value, version)
    case TouchOp =>
      if current.None? then Defect
      else if s.LeafStrategy? then Applied(current, Unmodified)
      else TouchSpec(s, mod, current.value, version)
  }

  /** A write resolves to WRITE; a leaf simply materialises the written value. */
  function WriteApplied(s: Strategy, mod: ModifiedNode, version: Version): Applied
    requires mod.Valid() && mod.writtenValue.Some?
    decreases mod.Repr, 3
  {
    if s.LeafStrategy? then Applied(Some(CreateTreeNode(mod.writtenValue.value, version)), Write)
    else
      match WriteSpec(s, mod, version)
      case None => Defect
      case Some(t) => Applied(Some(t), Write)
  }

  /** applyWrite of a container strategy. */
  function WriteSpec(s: Strategy, mod: ModifiedNode, version: Version): Option<TreeNode>
    requires mod.Valid() && mod.writtenValue.Some? && s.NodeContainerStrategy?
    decreases mod.Repr, 2
  {
    var newValue := mod.writtenValue.value;
    var newValueMeta := CreateTreeNode(newValue, version);
    if |mod.children| == 0 then Some(newValueMeta)
    else if !newValue.Container? then None
    else
      match MutateSpec(s, mod, 0, Staged(newValueMeta.children, newValue.children, [], []), version)
      case None => None
      case Some(st) => Some(CreateTreeNode(Container(newValue.id, newValue.nodeClass, st.data), version))
  }

  /** applyTouch (and applyMerge) of a container strategy on a present node. */
  function TouchSpec(s: Strategy, mod: ModifiedNode, current: TreeNode, version: Version): Applied
    requires mod.Valid() && s.NodeContainerStrategy?
    decreases mod.Repr, 2
  {
    if |mod.children| == 0 then Applied(Some(current), Unmodified)
    else if !current.data.Container? then Defect
    else
      match MutateSpec(s, mod, 0, Staged(current.children, current.data.children, [], []), version)
      case None => Defect
      case Some(st) =>
        if AllUnmodified(st.types) then Applied(Some(current), Unmodified)
        else Applied(Some(Touched(current, st, version)), SubtreeModified)
  }

  /** The node mutateChildren seals for a touch: the current node's identity and own version, the
      new subtree version, and the loop's children. */
  function Touched(current: TreeNode, st: Staged, version: Version): TreeNode {
    TreeNode(Container(current.data.id, current.data.nodeClass, st.data), current.version, version, st.meta)
  }

  predicate AllUnmodified(types: seq<ModificationType>) {
    forall j :: 0 <= j < |types| ==> types[j] == Unmodified
  }

  /** mutateChildren's loop from child i on: each staged child is applied by its own strategy
      against the current child with its identifier; a present result is added to both the metadata
      node and the data builder, an absent one removed from both. */
  function MutateSpec(s: Strategy, mod: ModifiedNode, i: nat, acc: Staged, version: Version): (r: Option<Staged>)
    requires mod.Valid() && s.NodeContainerStrategy? && i <= |mod.children|
    ensures r.Some? ==> |r.value.types| == |acc.types| + |mod.children| - i
    ensures r.Some? ==> forall q :: 0 <= q < |acc.types| ==> r.value.types[q] == acc.types[q]
    ensures r.Some? ==> |r.value.seen| == |acc.seen| + |mod.children| - i
    decreases mod.Repr, 1, |mod.children| - i
  {
    if i == |mod.children| then Some(acc)
    else
      var child := mod.children[i];
      match ChildResult(s, child, Lookup(acc.meta, child.identifier), version)
      case Defect => None
      case Applied(node, t) =>
        MutateSpec(s, mod, i + 1, Step(acc, child.identifier, node, t), version)
  }

  /** One iteration of mutateChildren's loop, for the staged child with identifier id. */
  function Step(acc: Staged, id: PathArg, node: Option<TreeNode>, t: ModificationType): Staged {
    var seen := acc.seen + [Lookup(acc.meta, id)];
    match node
    case Some(tn) => Staged(acc.meta[tn.Identifier() := tn], WithChild(acc.data, tn.data), acc.types + [t], seen)
    case None => Staged(acc.meta - {id}, WithoutChild(acc.data, id), acc.types + [t], seen)
  }

  /** What the staged child c does when applied, by its parent strategy's child strategy for its
      identifier, to the current child node with that identifier; Defect when the parent strategy
      has no child strategy for it. */
  function ChildResult(s: Strategy, c: ModifiedNode, current: Option<TreeNode>, version: Version): Applied
    requires c.Valid()
    decreases c.Repr, 5
  {
    match s.GetChild(c.identifier)
    case None => Defect
    case Some(op) => ApplySpec(op, c, current, version)
  }

  /** The node whose child nodes a container strategy's mutateChildren loop runs over for mod:
      the written value's snapshot for a write (and for a merge onto an absent node), the current
      node for a touch or a merge of a present node; none for a leaf strategy, a no-op or a delete. */
  function LoopBase(s: Strategy, mod: ModifiedNode, current: Option<TreeNode>, version: Version): Option<TreeNode>
    requires mod.Valid()
  {
    if !s.NodeContainerStrategy? then None
    else
      match mod.operation
      case WriteOp => Some(CreateTreeNode(mod.writtenValue.value, version))
      case MergeOp =>
        if current.None? then Some(CreateTreeNode(mod.writtenValue.value, version)) else current
      case TouchOp => current
      case _ => None
  }

  /** The loop's state before the first staged child, over the node base. */
  function LoopStart(base: TreeNode): Staged {
    Staged(base.children, if base.data.Container? then base.data.children else [], [], [])
  }

  /** Every staged child of mod applies, by its strategy, to the child node with its identifier
      among meta without a defect, and has resolved to the type that gives. */
  ghost predicate ChildrenResolved(s: Strategy, mod: ModifiedNode, meta: map<PathArg, TreeNode>, version: Version)
    requires mod.Valid()
    reads mod.children
  {
    forall j :: 0 <= j < |mod.children| ==>
      var r := ChildResult(s, mod.children[j], Lookup(meta, mod.children[j].identifier), version);
      r.Applied? && mod.children[j].modificationType == Some(r.resolved)
  }

  /** mod has resolved to the type apply gives it against current, and so has every node below it
      that apply walks: for a container strategy's write, merge or touch, each staged child against
      the child node the loop applies it to, and on down through their own subtrees. */
  ghost predicate ResolvedAs(s: Strategy, mod: ModifiedNode, current: Option<TreeNode>, version: Version)
    requires mod.Valid()
    reads mod.Repr
    decreases mod.Repr, 1
  {
    var a := ApplySpec(s, mod, current, version);
    && a.Applied? && mod.modificationType == Some(a.resolved)
    && match LoopBase(s, mod, current, version)
       case None => true
       case Some(base) => LoopResolved(s, mod, base, version)
  }

  /** mutateChildren's loop over the child nodes of base runs without a defect, and every staged
      child of mod has resolved, with its subtree, as apply resolves it against the child node the
      loop applied it to. */
  ghost predicate LoopResolved(s: Strategy, mod: ModifiedNode, base: TreeNode, version: Version)
    requires mod.Valid() && s.NodeContainerStrategy?
    reads mod.Repr - {mod}
    decreases mod.Repr, 0
  {
    var r := MutateSpec(s, mod, 0, LoopStart(base), version);
    && r.Some?
    && forall j :: 0 <= j < |mod.children| ==> ChildResolvedAs(s, mod.children[j], r.value.seen[j], version)
  }

  /** The staged child c has resolved, with its subtree, as its parent strategy's child strategy
      for its identifier resolves it against current. */
  ghost predicate ChildResolvedAs(s: Strategy, c: ModifiedNode, current: Option<TreeNode>, version: Version)
    requires c.Valid()
    reads c.Repr
    decreases c.Repr, 2
  {
    match s.GetChild(c.identifier)
    case None => false
    case Some(op) => ResolvedAs(op, c, current, version)
  }
}
