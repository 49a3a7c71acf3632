# Container modification strategy of the in-memory data tree

A Dafny model of `AbstractNodeContainerModificationStrategy`, the part of the yangtools in-memory
data tree that applies a staged modification tree to an immutable snapshot for container-like
nodes (containers, lists, list entries, choices, augmentations). It has three parts:

- **Structure check** (`verifyStructure`). The written value must be of the strategy's node class
  and a container. On a CONFIGURATION tree, when the caller asks for it, every child must resolve
  to a child strategy and pass that strategy's own check.
- **Apply** (`applyWrite`, `applyMerge`, `applyTouch`, `mutateChildren`). Copy-on-write
  through a mutable view of the snapshot node and a data builder, child by child, then seal. A
  touch whose staged children all resolve to UNMODIFIED itself resolves to UNMODIFIED and hands back
  the very snapshot node it was given.
- **Validate** (`checkTouchApplicable`, `checkMergeApplicable`, `checkChildPreconditions`).
  Read-only checks of a staged modification against the snapshot that is current at commit time.
  They fail with "node does not exist" or "conflicting modification", which is the data tree's
  optimistic-concurrency signal.

Layout, one module per file:

| file | module | what |
|---|---|---|
| wrappers.dfy | Wrappers | `Option` and the `Outcome` of a check (pass, or fail with an error) |
| normalized_node.dfy | NormalizedNodes | document values: leaves and containers with ordered children; `FindChild`, `WithChild`, `WithoutChild` |
| tree_node.dfy | TreeNodes | immutable snapshot nodes and `CreateTreeNode` (the tree node factory); coherence of a node with its data |
| mutable_tree_node.dfy | MutableTreeNodes | class `MutableTreeNode`, the unsealed view of a snapshot node |
| container_builder.dfy | ContainerBuilders | class `ContainerBuilder`, the container data builder |
| modified_node.dfy | Modifications | class `ModifiedNode`: the staged tree, with its write-once resolved type |
| strategy.dfy | Strategies | the strategy values, with the child-strategy lookup and the container strategy's constructor |
| structure_check.dfy | StructureCheck | `verifyStructure` and its lemmas |
| validation.dfy | Validation | the validate pass and its lemmas |
| apply_spec.dfy | ApplySpecs | the apply pass as functions of the staged tree and the snapshot |
| apply.dfy | ApplyPass | the apply pass as the imperative code it is: the methods that build a node return exactly their function in ApplySpecs, the loop helpers keep its invariant, and the scan of the children reads their resolved types |
| apply_lemmas.dfy | ApplyLemmas | what the apply pass promises, stated over those functions |
| scenarios.dfy | Scenarios | worked examples built with the real constructors and passed to the real methods, with their results proved |

The apply pass is modelled in two layers:

- **Methods.** The methods of `ApplyPass` are the imperative code. They modify a
  `MutableTreeNode`, a `ContainerBuilder` and the resolved type of each `ModifiedNode`. Each
  method that builds a node ensures that it returns exactly what its specification function in
  `ApplySpecs` computes. `Apply`, `ApplyTouch` and `ApplyMerge` resolve the modification they are
  given to the type that function names; the methods below them (`StrategyApplyWrite`,
  `ApplyWrite`, `CopyOnWrite`, `MutateChildren`) resolve only the staged children.
  `AllChildrenUnmodified` only reads the resolved types.
- **The whole staged subtree.** The predicate `ApplySpecs.ResolvedAs` says that a modification
  has resolved to its specification's type and, when its strategy runs the child loop, that every
  staged child has resolved in the same sense against the child node the loop looked up for it
  (`LoopResolved`, recorded in the loop state's `seen` list), and so on down to the leaves.
  `Apply`, and `MutateChild` for its child, ensure `ResolvedAs`. `StrategyApplyWrite`,
  `ApplyWrite`, `CopyOnWrite`, `ApplyMerge` and `ApplyTouch` ensure `LoopResolved`, and
  `MutateChildren` ensures it for each staged child. The loop invariant is the predicate
  `MutateProgress`, which `MutateNextChild`, the loop body, preserves. Where the child nodes are
  filed under their own identifiers, the child-loop methods also state each child's type through
  its own application (`ChildrenResolved`).
- **Functions.** The functions return `Defect` where the code would throw while applying. The
  throwing cases are a touch of an absent node, a child without a strategy, and a builder seeded
  from a non-container. The methods require that the result is not `Defect`.

The lemmas of `ApplyLemmas` state the source's promises about the specification functions, and
so about the methods.

Collaborators whose code is not part of this model are modelled by their observable contract:

- **`SchemaAwareApplyOperation`.** The `apply` dispatch on the staged operation and the
  `checkApplicable` dispatch are modelled as `ApplyPass.Apply` / `ApplySpecs.ApplySpec` and
  `Validation.CheckApplicable`. `getChild` / `resolveChildOperation` is a lookup in the
  strategy's map of child strategies.
- **Leaf strategy.** A leaf strategy materialises a written value. A touch of a leaf leaves it
  unchanged.
- **`ModifiedNode`.** A class with constant structure and a write-once resolved type.
- **`TreeNode`.** An immutable datatype, with `MutableTreeNode` as its unsealed view.
- **`TreeNodeFactory.createTreeNode`.** Builds the whole subtree at one version.
- **`createBuilder`.** A builder seeded with the original container's identity and children.

## Model

| member | source | states |
|---|---|---|
| Strategies.NewNodeContainerStrategy | yang/yang-data-impl/src/main/java/org/opendaylight/yangtools/yang/data/impl/schema/tree/AbstractNodeContainerModificationStrategy.java:34-38 | the strategy keeps its node class; deep child-structure checking is on exactly when the tree type is CONFIGURATION, and the strategy is an immutable value, so the flag never changes |
| Strategies.Strategy.GetChild | yang/yang-data-impl/src/main/java/org/opendaylight/yangtools/yang/data/impl/schema/tree/AbstractNodeContainerModificationStrategy.java:50-51 | the child strategy is present exactly when the container strategy declares one for that identifier, and it is the declared one |
| StructureCheck.VerifyStructure | yang/yang-data-impl/src/main/java/org/opendaylight/yangtools/yang/data/impl/schema/tree/AbstractNodeContainerModificationStrategy.java:42-58 | verifyStructure as a function returning the failure the code throws; its behaviour is stated by the StructureCheck lemmas below |
| StructureCheck.VerifyStructureDeepPasses | yang/yang-data-impl/src/main/java/org/opendaylight/yangtools/yang/data/impl/schema/tree/AbstractNodeContainerModificationStrategy.java:42-58 | with deep checking on, the check passes iff the value has the strategy's node class, is a container, and every child has a child strategy that accepts it |
| StructureCheck.VerifyStructureFirstFailure | yang/yang-data-impl/src/main/java/org/opendaylight/yangtools/yang/data/impl/schema/tree/AbstractNodeContainerModificationStrategy.java:45-57 | with deep checking on and a value of the right class and shape, the check fails with error e iff some child fails with e and every child before it passes: the first failing child decides |
| StructureCheck.VerifyChildrenFromPasses | yang/yang-data-impl/src/main/java/org/opendaylight/yangtools/yang/data/impl/schema/tree/AbstractNodeContainerModificationStrategy.java:47-57 | the child loop from index i passes iff every child from i on passes |
| StructureCheck.VerifyChildrenFromFails | yang/yang-data-impl/src/main/java/org/opendaylight/yangtools/yang/data/impl/schema/tree/AbstractNodeContainerModificationStrategy.java:47-57 | the child loop from index i fails with e iff the first child from i on that does not pass fails with e (an unknown identifier gives a schema-validation failure naming it) |
| StructureCheck.VerifyChildrenFrom | yang/yang-data-impl/src/main/java/org/opendaylight/yangtools/yang/data/impl/schema/tree/AbstractNodeContainerModificationStrategy.java:47-57 | the child loop of verifyStructure from index i as a function, throwing at the first child without a strategy or rejected by its strategy; stated by VerifyChildrenFromPasses and VerifyChildrenFromFails |
| StructureCheck.VerifyStructureShallow | yang/yang-data-impl/src/main/java/org/opendaylight/yangtools/yang/data/impl/schema/tree/AbstractNodeContainerModificationStrategy.java:42-45 | when the instance flag or verifyChildren is off, only node class and container shape matter, so no child is inspected and no schema-validation failure can arise |
| StructureCheck.SchemaFailureNamesDescendant | yang/yang-data-impl/src/main/java/org/opendaylight/yangtools/yang/data/impl/schema/tree/AbstractNodeContainerModificationStrategy.java:50-56 | a schema-validation failure names the identifier of a child or deeper descendant of the checked value |
| Validation.CheckTouchApplicable | yang/yang-data-impl/src/main/java/org/opendaylight/yangtools/yang/data/impl/schema/tree/AbstractNodeContainerModificationStrategy.java:178-190 | checkTouchApplicable returning the failure the code throws; stated by CheckTouchApplicableCases: the two throws for an absent current node, and for a present one a pass iff every staged child is applicable and a failure with exactly the error of the first staged child that is not |
| Validation.CheckMergeApplicable | yang/yang-data-impl/src/main/java/org/opendaylight/yangtools/yang/data/impl/schema/tree/AbstractNodeContainerModificationStrategy.java:209-215 | checkMergeApplicable; stated by CheckMergeApplicableCases: an absent current node passes, and a present one passes iff every staged child is applicable and otherwise fails with exactly the error of the first staged child that is not |
| Validation.CheckChildPreconditions | yang/yang-data-impl/src/main/java/org/opendaylight/yangtools/yang/data/impl/schema/tree/AbstractNodeContainerModificationStrategy.java:199-207 | checkChildPreconditions; stated by CheckChildPreconditionsPasses, CheckChildPreconditionsFails and ChildFailureReportedBelow |
| Validation.CheckTouchApplicableCases | yang/yang-data-impl/src/main/java/org/opendaylight/yangtools/yang/data/impl/schema/tree/AbstractNodeContainerModificationStrategy.java:178-190 | both the original and the current node absent gives ModifiedNodeDoesNotExist at the path; the original present and the current absent gives ConflictingModification; a present current passes iff every staged child is applicable, and fails with e iff the first staged child that is not applicable is rejected with e (no strategy: ChildOperationNotDefined at its path; otherwise its own check's failure, unchanged) |
| Validation.CheckMergeApplicableCases | yang/yang-data-impl/src/main/java/org/opendaylight/yangtools/yang/data/impl/schema/tree/AbstractNodeContainerModificationStrategy.java:209-215 | never fails on an absent current node; on a present one it passes iff every staged child is applicable, and fails with e iff the first staged child that is not applicable is rejected with e |
| Validation.CheckChildPreconditionsPasses | yang/yang-data-impl/src/main/java/org/opendaylight/yangtools/yang/data/impl/schema/tree/AbstractNodeContainerModificationStrategy.java:199-207 | passes iff every staged child has a child strategy and passes its check under path + [child id] against the current child with that id |
| Validation.CheckChildrenFromPasses | yang/yang-data-impl/src/main/java/org/opendaylight/yangtools/yang/data/impl/schema/tree/AbstractNodeContainerModificationStrategy.java:200-206 | the loop from child i passes iff every staged child from i on is applicable |
| Validation.CheckChildrenFromFails | yang/yang-data-impl/src/main/java/org/opendaylight/yangtools/yang/data/impl/schema/tree/AbstractNodeContainerModificationStrategy.java:200-206 | the loop from child i fails with e iff some child k from i on is rejected with e and every child between i and k is applicable: the first rejected child decides, and its failure, a conflict included, reaches the top of the loop with the same kind and path |
| Validation.CheckChildPreconditionsFails | yang/yang-data-impl/src/main/java/org/opendaylight/yangtools/yang/data/impl/schema/tree/AbstractNodeContainerModificationStrategy.java:199-207 | the child check fails with e iff the first staged child that is not applicable is rejected with e |
| Validation.CheckChildrenFrom | yang/yang-data-impl/src/main/java/org/opendaylight/yangtools/yang/data/impl/schema/tree/AbstractNodeContainerModificationStrategy.java:200-206 | the loop of checkChildPreconditions from child i as a function: each child is checked by its strategy under path + [id] against the current child with that id, and the first failure is passed up unchanged; stated by CheckChildrenFromPasses, CheckChildrenFromFails and ChildFailureReportedBelow |
| Validation.CheckApplicable | yang/yang-data-impl/src/main/java/org/opendaylight/yangtools/yang/data/impl/schema/tree/AbstractNodeContainerModificationStrategy.java:205 | the child strategy's checkApplicable dispatch: touches and merges of a container go to checkTouchApplicable and checkMergeApplicable, every other case passes; stated by FailureReportedBelow and, through ChildApplicable and ChildRejects, by the loop lemmas above |
| Validation.FailureReportedBelow | yang/yang-data-impl/src/main/java/org/opendaylight/yangtools/yang/data/impl/schema/tree/AbstractNodeContainerModificationStrategy.java:199-207 | every validation failure is reported at the checked path or a path that extends it |
| Validation.ChildFailureReportedBelow | yang/yang-data-impl/src/main/java/org/opendaylight/yangtools/yang/data/impl/schema/tree/AbstractNodeContainerModificationStrategy.java:200-206 | a failure in the child loop is reported strictly below the parent's path, since each child's path appends its identifier |
| ApplySpecs.WriteSpec | yang/yang-data-impl/src/main/java/org/opendaylight/yangtools/yang/data/impl/schema/tree/AbstractNodeContainerModificationStrategy.java:62-98 | applyWrite as a function, which ApplyPass.ApplyWrite computes; stated by WriteSpecChildren, WriteIdentifier and WriteCoherent |
| ApplySpecs.TouchSpec | yang/yang-data-impl/src/main/java/org/opendaylight/yangtools/yang/data/impl/schema/tree/AbstractNodeContainerModificationStrategy.java:141-176 | applyTouch as a function, which ApplyPass.ApplyTouch computes; stated by TouchResolution, TouchSpecChildren and UnmodifiedTouchLosesNothing |
| ApplySpecs.MutateSpec | yang/yang-data-impl/src/main/java/org/opendaylight/yangtools/yang/data/impl/schema/tree/AbstractNodeContainerModificationStrategy.java:114-127 | the loop records one resolved type per staged child, in order, after those already recorded |
| ApplySpecs.Step | yang/yang-data-impl/src/main/java/org/opendaylight/yangtools/yang/data/impl/schema/tree/AbstractNodeContainerModificationStrategy.java:119-126 | one loop step: a present result is filed under its id in the child nodes and added to the data children, an absent one removes the id from both; the type and the child node looked up are recorded; stated by StepKeyed, StepElsewhere, StepLaterChild, StepCoherent and UnmodifiedStep |
| ApplySpecs.ChildResult | yang/yang-data-impl/src/main/java/org/opendaylight/yangtools/yang/data/impl/schema/tree/AbstractNodeContainerModificationStrategy.java:118 | resolveChildOperation(id).apply: a defect when the strategy has no child strategy for the id, otherwise apply under the child strategy against the current child; stated by MutateSpecTypeAt, MutateSpecTypes and MutateSpecAt |
| ApplySpecs.ApplySpec | yang/yang-data-impl/src/main/java/org/opendaylight/yangtools/yang/data/impl/schema/tree/AbstractNodeContainerModificationStrategy.java:118 | apply's dispatch on the staged operation, which ApplyPass.Apply computes; stated by UnmodifiedKeepsCurrent, AppliedIdentifier and ApplyCoherent |
| ApplySpecs.WriteApplied | yang/yang-data-impl/src/main/java/org/opendaylight/yangtools/yang/data/impl/schema/tree/AbstractNodeContainerModificationStrategy.java:62-69 | a write: a leaf strategy materialises the value, a container strategy runs applyWrite; it always resolves to WRITE; computed by ApplyPass.StrategyApplyWrite and stated by WriteIdentifier and WriteCoherent |
| ApplySpecs.Touched | yang/yang-data-impl/src/main/java/org/opendaylight/yangtools/yang/data/impl/schema/tree/AbstractNodeContainerModificationStrategy.java:150-153 | the node mutateChildren seals for a touch: the current node's identity, class and own version, the new subtree version (line 152), and the loop's data and child nodes (lines 129-130); stated by TouchResolution, UnmodifiedTouchLosesNothing and TouchSpecChildren |
| ApplyPass.Apply | yang/yang-data-impl/src/main/java/org/opendaylight/yangtools/yang/data/impl/schema/tree/AbstractNodeContainerModificationStrategy.java:118 | the child strategy's apply, called for each staged child: returns exactly the node ApplySpec computes and resolves the modification to ApplySpec's type; the whole staged subtree is resolved as ResolvedAs states: when a container strategy runs the child loop, each staged child against the child node the loop looked up for it, recursively; over child nodes filed under their own identifiers each child's type is its own application's |
| ApplyPass.StrategyApplyWrite | yang/yang-data-impl/src/main/java/org/opendaylight/yangtools/yang/data/impl/schema/tree/AbstractNodeContainerModificationStrategy.java:61-69 | a write returns exactly the node WriteApplied computes (a leaf materialises the value, a container runs applyWrite); for a container the staged subtree below the node resolves as LoopResolved states, against the snapshot of the written value |
| ApplyPass.ApplyWrite | yang/yang-data-impl/src/main/java/org/opendaylight/yangtools/yang/data/impl/schema/tree/AbstractNodeContainerModificationStrategy.java:62-98 | returns exactly WriteSpec: the written value materialised at the version when nothing is staged below, otherwise the overlaid data materialised afresh at the version; the staged subtree below the node resolves as LoopResolved states, against the child nodes of the written value's snapshot |
| ApplyPass.MutateChildren | yang/yang-data-impl/src/main/java/org/opendaylight/yangtools/yang/data/impl/schema/tree/AbstractNodeContainerModificationStrategy.java:111-131 | the sealed node carries the builder's identity with the children the loop function computes, the mutable node's version and subtree version, and the loop's child nodes; every staged child is resolved to the type the function records for it, and with its whole subtree as ResolvedAs states against the child node the loop looked up for it |
| ApplyPass.MutateNextChild | yang/yang-data-impl/src/main/java/org/opendaylight/yangtools/yang/data/impl/schema/tree/AbstractNodeContainerModificationStrategy.java:116-126 | the loop body keeps mutateChildren's invariant MutateProgress one child further: the metadata node and the builder hold the loop function's state after i + 1 children, those children carry their recorded types and have resolved with their subtrees, and the later children are still unresolved |
| ApplyPass.StageNextChild | yang/yang-data-impl/src/main/java/org/opendaylight/yangtools/yang/data/impl/schema/tree/AbstractNodeContainerModificationStrategy.java:116-126 | applying child i advances the loop state by the loop function's step, records the child node it was applied against, and resolves child i with its subtree, leaving later children unresolved |
| ApplyPass.MutateChild | yang/yang-data-impl/src/main/java/org/opendaylight/yangtools/yang/data/impl/schema/tree/AbstractNodeContainerModificationStrategy.java:115-126 | one iteration: the child's result is added to (or, when absent, removed from) both the metadata children and the data builder, the child's type is resolved to the recorded one, and the child's whole subtree resolves as ResolvedAs states against the child node filed under its identifier |
| ApplyPass.CopyOnWrite | yang/yang-data-impl/src/main/java/org/opendaylight/yangtools/yang/data/impl/schema/tree/AbstractNodeContainerModificationStrategy.java:87-92 | the copy-on-write of a node with staged children (mutable view with the new subtree version, builder seeded with its data, mutateChildren; lines 87-92 and 150-153): the result keeps the node's identity, class and own version, carries the new subtree version and the loop's children, each staged child resolves as the loop records, and the staged subtree below the node resolves as LoopResolved states |
| ApplyPass.AllChildrenUnmodified | yang/yang-data-impl/src/main/java/org/opendaylight/yangtools/yang/data/impl/schema/tree/AbstractNodeContainerModificationStrategy.java:164-169 | the scan of the resolved children is true iff every staged child resolved to UNMODIFIED |
| ApplyPass.ApplyMerge | yang/yang-data-impl/src/main/java/org/opendaylight/yangtools/yang/data/impl/schema/tree/AbstractNodeContainerModificationStrategy.java:133-138 | on a present container, a merge returns the same node and resolves itself and its staged subtree to the same types as a touch (ApplyTouch) |
| ApplyPass.ApplyTouch | yang/yang-data-impl/src/main/java/org/opendaylight/yangtools/yang/data/impl/schema/tree/AbstractNodeContainerModificationStrategy.java:141-176 | returns exactly TouchSpec's node and resolves the touch to TouchSpec's type; when that type is UNMODIFIED the returned node is the given currentMeta itself; the staged subtree below the node resolves as LoopResolved states against the current child nodes, and when those are filed under their own identifiers each child's type is its application against the current child |
| ApplyLemmas.TouchResolution | yang/yang-data-impl/src/main/java/org/opendaylight/yangtools/yang/data/impl/schema/tree/AbstractNodeContainerModificationStrategy.java:141-176 | a touch resolves to UNMODIFIED iff every staged child resolves to UNMODIFIED (vacuously so when none is staged), and then returns the current node; otherwise it resolves to SUBTREE_MODIFIED with the current identity, class and own version, and the new subtree version |
| ApplyLemmas.TouchSpecChildren | yang/yang-data-impl/src/main/java/org/opendaylight/yangtools/yang/data/impl/schema/tree/AbstractNodeContainerModificationStrategy.java:147-153 | after a touch, the child under every id k is the staged child's result when one is staged under k, else the current child; the data children agree with those nodes |
| ApplyLemmas.UnmodifiedTouchLosesNothing | yang/yang-data-impl/src/main/java/org/opendaylight/yangtools/yang/data/impl/schema/tree/AbstractNodeContainerModificationStrategy.java:155-175 | when every staged child resolves to UNMODIFIED, the sealed node differs from the current one only in its subtree version, so returning the current node loses nothing |
| ApplyLemmas.UnmodifiedChildrenKeepStaging | yang/yang-data-impl/src/main/java/org/opendaylight/yangtools/yang/data/impl/schema/tree/AbstractNodeContainerModificationStrategy.java:114-127 | a run of the loop in which every child resolves to UNMODIFIED leaves both the metadata children and the data children as they were |
| ApplyLemmas.UnmodifiedStep | yang/yang-data-impl/src/main/java/org/opendaylight/yangtools/yang/data/impl/schema/tree/AbstractNodeContainerModificationStrategy.java:119-126 | one loop step whose result is the child already filed under that id changes neither the metadata nor the data children |
| ApplyLemmas.UnmodifiedKeepsCurrent | yang/yang-data-impl/src/main/java/org/opendaylight/yangtools/yang/data/impl/schema/tree/AbstractNodeContainerModificationStrategy.java:174-175 | a modification that resolves to UNMODIFIED leaves the current node (or its absence) in place |
| ApplyLemmas.WriteSpecChildren | yang/yang-data-impl/src/main/java/org/opendaylight/yangtools/yang/data/impl/schema/tree/AbstractNodeContainerModificationStrategy.java:62-98 | applyWrite keeps the written identity and class, stamps the whole result at the version, and under every id k holds the staged child's result over the written child, or the written child when none is staged under k |
| ApplyLemmas.MutateSpecAt | yang/yang-data-impl/src/main/java/org/opendaylight/yangtools/yang/data/impl/schema/tree/AbstractNodeContainerModificationStrategy.java:114-127 | after the loop from child i, the child under id k is the result of the first staged child with id k from i on, applied to the child found under k, or unchanged when none is staged; data and metadata agree there |
| ApplyLemmas.MutateSpecTypeAt | yang/yang-data-impl/src/main/java/org/opendaylight/yangtools/yang/data/impl/schema/tree/AbstractNodeContainerModificationStrategy.java:114-127 | the type recorded for staged child j is that child's own resolution against the current child under its id |
| ApplyLemmas.MutateSpecTypes | yang/yang-data-impl/src/main/java/org/opendaylight/yangtools/yang/data/impl/schema/tree/AbstractNodeContainerModificationStrategy.java:114-127 | for every staged child j, its application against the child node with its identifier among the starting child nodes is not a defect, and the type recorded at position j is the type it gives |
| ApplyLemmas.ResolvedAsRecorded | yang/yang-data-impl/src/main/java/org/opendaylight/yangtools/yang/data/impl/schema/tree/AbstractNodeContainerModificationStrategy.java:164-169 | staged children carrying the types the loop recorded carry the types their own applications give, so applyTouch's scan reads each child's real resolution |
| ApplyLemmas.MutateSpecTypeFirst | yang/yang-data-impl/src/main/java/org/opendaylight/yangtools/yang/data/impl/schema/tree/AbstractNodeContainerModificationStrategy.java:115-118 | the first recorded type is the first staged child's resolution, and that child's result is not a defect |
| ApplyLemmas.StepKeyed | yang/yang-data-impl/src/main/java/org/opendaylight/yangtools/yang/data/impl/schema/tree/AbstractNodeContainerModificationStrategy.java:119-126 | a loop step keeps child nodes filed under their identifiers and sets the node and the data child under the staged child's id to its result |
| ApplyLemmas.StepElsewhere | yang/yang-data-impl/src/main/java/org/opendaylight/yangtools/yang/data/impl/schema/tree/AbstractNodeContainerModificationStrategy.java:119-126 | a loop step leaves every other identifier's node and data child untouched |
| ApplyLemmas.StepLaterChild | yang/yang-data-impl/src/main/java/org/opendaylight/yangtools/yang/data/impl/schema/tree/AbstractNodeContainerModificationStrategy.java:115-126 | a step for child i does not change what a later sibling j sees, because siblings have distinct ids |
| ApplyLemmas.AppliedIdentifier | yang/yang-data-impl/src/main/java/org/opendaylight/yangtools/yang/data/impl/schema/tree/AbstractNodeContainerModificationStrategy.java:120-121 | the node a staged child leaves behind carries that child's identifier, so addChild files it under the staged id |
| ApplyLemmas.WriteIdentifier | yang/yang-data-impl/src/main/java/org/opendaylight/yangtools/yang/data/impl/schema/tree/AbstractNodeContainerModificationStrategy.java:64-97 | a written node carries the written value's identifier, with or without overlaid children |
| ApplyLemmas.TouchIdentifier | yang/yang-data-impl/src/main/java/org/opendaylight/yangtools/yang/data/impl/schema/tree/AbstractNodeContainerModificationStrategy.java:141-175 | a touch returns a node with the current node's identifier |
| ApplyLemmas.ApplyCoherent | yang/yang-data-impl/src/main/java/org/opendaylight/yangtools/yang/data/impl/schema/tree/AbstractNodeContainerModificationStrategy.java:118-130 | applying well-formed writes to a coherent snapshot node yields a coherent node: every child node carries the data child with its id |
| ApplyLemmas.WriteCoherent | yang/yang-data-impl/src/main/java/org/opendaylight/yangtools/yang/data/impl/schema/tree/AbstractNodeContainerModificationStrategy.java:62-98 | applyWrite of a well-formed value yields a coherent node |
| ApplyLemmas.TouchCoherent | yang/yang-data-impl/src/main/java/org/opendaylight/yangtools/yang/data/impl/schema/tree/AbstractNodeContainerModificationStrategy.java:141-176 | applyTouch of a coherent node yields a coherent node |
| ApplyLemmas.MutateCoherent | yang/yang-data-impl/src/main/java/org/opendaylight/yangtools/yang/data/impl/schema/tree/AbstractNodeContainerModificationStrategy.java:114-130 | the loop keeps the metadata children in step with the data children |
| ApplyLemmas.StepCoherent | yang/yang-data-impl/src/main/java/org/opendaylight/yangtools/yang/data/impl/schema/tree/AbstractNodeContainerModificationStrategy.java:119-126 | adding a coherent result, or removing an id, keeps metadata and data children in step |
| TreeNodes.CreateTreeNode | yang/yang-data-impl/src/main/java/org/opendaylight/yangtools/yang/data/impl/schema/tree/AbstractNodeContainerModificationStrategy.java:65 | the materialised node carries the value at the version, as both version and subtree version, with a child node for exactly each data child |
| TreeNodes.CreateTreeNodeCoherent | yang/yang-data-impl/src/main/java/org/opendaylight/yangtools/yang/data/impl/schema/tree/AbstractNodeContainerModificationStrategy.java:65 | materialising a well-formed value gives a coherent node |
| TreeNodes.CreateTreeNodeStamped | yang/yang-data-impl/src/main/java/org/opendaylight/yangtools/yang/data/impl/schema/tree/AbstractNodeContainerModificationStrategy.java:65 | the materialised subtree is stamped at the version throughout |
| TreeNodes.CreateTreeNodeKeyed | yang/yang-data-impl/src/main/java/org/opendaylight/yangtools/yang/data/impl/schema/tree/AbstractNodeContainerModificationStrategy.java:65 | the materialised node files every child node under its own identifier |
| TreeNodes.SealedCoherent | yang/yang-data-impl/src/main/java/org/opendaylight/yangtools/yang/data/impl/schema/tree/AbstractNodeContainerModificationStrategy.java:129-130 | sealing data built in step with the child nodes gives a coherent node |
| TreeNodes.ChildrenOfCoherent | yang/yang-data-impl/src/main/java/org/opendaylight/yangtools/yang/data/impl/schema/tree/AbstractNodeContainerModificationStrategy.java:150-151 | the builder and the mutable view seeded from a coherent node start in step |
| TreeNodes.Lookup | yang/yang-data-impl/src/main/java/org/opendaylight/yangtools/yang/data/impl/schema/tree/AbstractNodeContainerModificationStrategy.java:116 | the child node is present exactly when it is filed under the identifier |
| NormalizedNodes.WithChild | yang/yang-data-impl/src/main/java/org/opendaylight/yangtools/yang/data/impl/schema/tree/AbstractNodeContainerModificationStrategy.java:122 | adding a child makes it the child under its id and leaves every other id unaffected; distinct ids stay distinct |
| NormalizedNodes.WithChildPlacement | yang/yang-data-impl/src/main/java/org/opendaylight/yangtools/yang/data/impl/schema/tree/AbstractNodeContainerModificationStrategy.java:122 | where the added child goes: an absent id is appended at the end; a present one keeps the length and, among distinct ids, is replaced in place |
| NormalizedNodes.WithoutChild | yang/yang-data-impl/src/main/java/org/opendaylight/yangtools/yang/data/impl/schema/tree/AbstractNodeContainerModificationStrategy.java:125 | removing a child leaves no child with that id and every other id unaffected |
| NormalizedNodes.WithPresentChild | yang/yang-data-impl/src/main/java/org/opendaylight/yangtools/yang/data/impl/schema/tree/AbstractNodeContainerModificationStrategy.java:122 | re-adding the child already present under its id leaves the children unchanged |
| NormalizedNodes.WithoutAbsentChild | yang/yang-data-impl/src/main/java/org/opendaylight/yangtools/yang/data/impl/schema/tree/AbstractNodeContainerModificationStrategy.java:125 | removing an absent id leaves the children unchanged |
| ContainerBuilders.ContainerBuilder.constructor | yang/yang-data-impl/src/main/java/org/opendaylight/yangtools/yang/data/impl/schema/tree/AbstractNodeContainerModificationStrategy.java:91 | createBuilder: seeded with the original container's identity and children |
| ContainerBuilders.ContainerBuilder.AddChild | yang/yang-data-impl/src/main/java/org/opendaylight/yangtools/yang/data/impl/schema/tree/AbstractNodeContainerModificationStrategy.java:122 | data.addChild: the child list with that child put under its id |
| ContainerBuilders.ContainerBuilder.RemoveChild | yang/yang-data-impl/src/main/java/org/opendaylight/yangtools/yang/data/impl/schema/tree/AbstractNodeContainerModificationStrategy.java:125 | data.removeChild: the child list without that id |
| ContainerBuilders.ContainerBuilder.Build | yang/yang-data-impl/src/main/java/org/opendaylight/yangtools/yang/data/impl/schema/tree/AbstractNodeContainerModificationStrategy.java:129 | build: a container with the builder's identity and current children |
| MutableTreeNodes.MutableTreeNode.constructor | yang/yang-data-impl/src/main/java/org/opendaylight/yangtools/yang/data/impl/schema/tree/AbstractNodeContainerModificationStrategy.java:87 | mutable(): a view holding the snapshot node's data, versions and child nodes, unsealed |
| MutableTreeNodes.MutableTreeNode.AddChild | yang/yang-data-impl/src/main/java/org/opendaylight/yangtools/yang/data/impl/schema/tree/AbstractNodeContainerModificationStrategy.java:121 | meta.addChild: the child node filed under its identifier, nothing else changed |
| MutableTreeNodes.MutableTreeNode.RemoveChild | yang/yang-data-impl/src/main/java/org/opendaylight/yangtools/yang/data/impl/schema/tree/AbstractNodeContainerModificationStrategy.java:124 | meta.removeChild: the id removed from the child nodes, nothing else changed |
| MutableTreeNodes.MutableTreeNode.SetSubtreeVersion | yang/yang-data-impl/src/main/java/org/opendaylight/yangtools/yang/data/impl/schema/tree/AbstractNodeContainerModificationStrategy.java:88 | setSubtreeVersion: only the subtree version changes |
| MutableTreeNodes.MutableTreeNode.SetData | yang/yang-data-impl/src/main/java/org/opendaylight/yangtools/yang/data/impl/schema/tree/AbstractNodeContainerModificationStrategy.java:129 | setData: only the data changes |
| MutableTreeNodes.MutableTreeNode.Seal | yang/yang-data-impl/src/main/java/org/opendaylight/yangtools/yang/data/impl/schema/tree/AbstractNodeContainerModificationStrategy.java:130 | seal: the immutable node with the view's data, version, subtree version and children; afterwards no mutation is allowed |
| Modifications.ModifiedNode.ResolveModificationType | yang/yang-data-impl/src/main/java/org/opendaylight/yangtools/yang/data/impl/schema/tree/AbstractNodeContainerModificationStrategy.java:166-174 | the resolved type is set once, from unset to the given type |
| Scenarios.SchemaRejection | yang/yang-data-impl/src/main/java/org/opendaylight/yangtools/yang/data/impl/schema/tree/AbstractNodeContainerModificationStrategy.java:45-56 | writing C = {x, z} against a schema declaring only x and y fails on a configuration tree with a schema-validation failure naming z, and passes on an operational tree |
| Scenarios.WriteThenOverlay | yang/yang-data-impl/src/main/java/org/opendaylight/yangtools/yang/data/impl/schema/tree/AbstractNodeContainerModificationStrategy.java:62-98 | writing C = {x:1} then merging C/y = 3 in one transaction, on a snapshot without C, resolves to WRITE and yields C = {x:1, y:3} materialised at the version |
| Scenarios.WriteThenOverlaySpec | yang/yang-data-impl/src/main/java/org/opendaylight/yangtools/yang/data/impl/schema/tree/AbstractNodeContainerModificationStrategy.java:62-98 | the specification of the same example: the write with the overlaid merge yields C = {x:1, y:3} |
| Scenarios.OverlayLoop | yang/yang-data-impl/src/main/java/org/opendaylight/yangtools/yang/data/impl/schema/tree/AbstractNodeContainerModificationStrategy.java:114-127 | the overlay loop of that example appends y = 3 after x |
| Scenarios.MergeOfYWrites | yang/yang-data-impl/src/main/java/org/opendaylight/yangtools/yang/data/impl/schema/tree/AbstractNodeContainerModificationStrategy.java:118 | the merge of C/y applied where C has no y is a write of y = 3 |
| Scenarios.MergeOfYResolved | yang/yang-data-impl/src/main/java/org/opendaylight/yangtools/yang/data/impl/schema/tree/AbstractNodeContainerModificationStrategy.java:118 | once the write of C has resolved its staged children, the merge of C/y has resolved to WRITE |
| Scenarios.EmptyTouch | yang/yang-data-impl/src/main/java/org/opendaylight/yangtools/yang/data/impl/schema/tree/AbstractNodeContainerModificationStrategy.java:147-175 | a touch with nothing staged below returns the current node itself and resolves to UNMODIFIED |
| Scenarios.CollapsedTouch | yang/yang-data-impl/src/main/java/org/opendaylight/yangtools/yang/data/impl/schema/tree/AbstractNodeContainerModificationStrategy.java:155-175 | a touch whose only staged child is a no-op returns the current node itself and resolves to UNMODIFIED |
| Scenarios.ConflictAfterConcurrentDelete | yang/yang-data-impl/src/main/java/org/opendaylight/yangtools/yang/data/impl/schema/tree/AbstractNodeContainerModificationStrategy.java:185-187 | a staged touch of C/y, validated after another transaction deleted y, fails with ConflictingModification at path C/y |
| Scenarios.TouchOfMissingNode | yang/yang-data-impl/src/main/java/org/opendaylight/yangtools/yang/data/impl/schema/tree/AbstractNodeContainerModificationStrategy.java:181-183 | a touch of C/y where y was absent in both the original and the current snapshot fails with ModifiedNodeDoesNotExist at C/y |
| Scenarios.MergeOntoDeletedNode | yang/yang-data-impl/src/main/java/org/opendaylight/yangtools/yang/data/impl/schema/tree/AbstractNodeContainerModificationStrategy.java:209-215 | a merge of C/y validated after y was deleted passes |
| Scenarios.NestedTouchWrite | yang/yang-data-impl/src/main/java/org/opendaylight/yangtools/yang/data/impl/schema/tree/AbstractNodeContainerModificationStrategy.java:111-131 | touching C and C/y to write C/y/z = 5, onto a current C whose y has no z, resolves the write of z, two levels below C, to WRITE |
| Scenarios.NestedWriteApplies | yang/yang-data-impl/src/main/java/org/opendaylight/yangtools/yang/data/impl/schema/tree/AbstractNodeContainerModificationStrategy.java:141-176 | the nested touches of that example apply without a defect |
| Scenarios.NestedWriteResolved | yang/yang-data-impl/src/main/java/org/opendaylight/yangtools/yang/data/impl/schema/tree/AbstractNodeContainerModificationStrategy.java:116-126 | once the touch of C has resolved as ResolvedAs states, the write of C/y/z has resolved to WRITE |
| Scenarios.OnlyChildResolved | yang/yang-data-impl/src/main/java/org/opendaylight/yangtools/yang/data/impl/schema/tree/AbstractNodeContainerModificationStrategy.java:116-126 | a resolved touch with a single staged child has resolved that child against the current child node with its identifier |

## Left out

- Other files of the repository are not part of this model: the JSON list writer, the uint8 type definition and the two parser statements are I/O plumbing or constructors without behaviour.
- `SchemaAwareApplyOperation` is not part of this model. Its `apply` and `checkApplicable` dispatch on the staged operation is modelled minimally:
  - NONE resolves to UNMODIFIED and keeps the current node;
  - DELETE resolves to DELETE, or to UNMODIFIED when nothing was there, and leaves no node;
  - WRITE resolves to WRITE;
  - MERGE is a write on an absent node or a leaf, otherwise applyMerge;
  - TOUCH requires a present node.
- The validation of writes, deletes and leaf strategies (`checkWriteApplicable` and its relatives) is not part of this model; in the model they pass.
- `ModifiedNode`, `TreeNode`, `MutableTreeNode`, `TreeNodeFactory` and the concrete builders behind `createBuilder` (line 222) are modelled by their observable contract only:
  - a snapshot is materialised eagerly, with no lazy tree nodes;
  - node identity is value equality, so "the same node" means an equal value.
- Java runtime class checks are tags (`NodeClass`). The `instanceof NormalizedNode` cast of each child (lines 47-49) always holds in the model.
- Exception types are modelled, exception messages are not. The argument failure of `resolveChildOperation` for a child without a strategy (line 205) is not a `DataValidationFailedException` in the source; the model reports it as the validation failure `ChildOperationNotDefined`, next to the two exception kinds the checks throw.
- `Preconditions.checkNotNull` (line 36) has no counterpart, since the model has no null.
- The FIXME about moving the overlay work out of the prepare path (lines 82-85) concerns where the cost is charged, not behaviour.
- Concurrency across transactions appears only as the snapshot passed to the checks. Commits and locking are not part of this model.
- Versions are natural numbers that are only compared for equality.
- ApplyPass.Apply: the source's apply lets a child strategy throw mid-loop; the model's methods require the specification result not to be a defect, and the defect cases are reported by the specification functions instead of as exceptions.
- The protected accessor `verifyChildrenStructure()` (lines 217-219) is the field `verifyChildrenStructure` of the strategy value.
- A merge of a node that existed when staged but has since been deleted passes: `checkMergeApplicable` (line 212) checks children only when the current node is present (`Scenarios.MergeOntoDeletedNode`).
- ApplyPass.ApplyTouch, ApplyPass.ApplyMerge, ApplyPass.Apply: the per-child form `ChildrenResolved`, which names each staged child's type through its application against the child node filed under its identifier, is stated only when the current node's child nodes are filed under their own identifiers (`KeyedById`). Every snapshot node the tree node factory builds satisfies this (`TreeNodes.CreateTreeNodeKeyed`). For any other current node, `ResolvedAs` still states each child's type against the child node the loop looked up.
- ApplyPass.Apply, ApplyPass.StrategyApplyWrite: for a leaf strategy, or for NONE and DELETE, nothing is stated about staged children, since the model's dispatch does not visit them.
