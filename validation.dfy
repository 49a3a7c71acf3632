/** The validate pass of a container strategy: read-only checks of a staged modification against
    the snapshot current at validation time. A failure is the optimistic-concurrency signal. */
module Validation {
  import opened Wrappers
  import opened NormalizedNodes
  import opened TreeNodes
  import opened Modifications
  import opened Strategies

  /** YangInstanceIdentifier: the path from the root to a node. */
  type Path = seq<PathArg>

  datatype ValidationFailure =
    | ModifiedNodeDoesNotExist(path: Path)   // neither the original nor the current node exists
    | ConflictingModification(path: Path)    // another transaction deleted the node
    | ChildOperationNotDefined(path: Path)   // resolveChildOperation: no strategy for the child

  /** checkApplicable: the validate dispatch on the staged operation. Only touches and merges on a
      container are checked here; the checks for writes, deletes and leaves are not modelled. */
  function CheckApplicable(s: Strategy, path: Path, mod: ModifiedNode, current: Option<TreeNode>)
    : Outcome<ValidationFailure>
    requires mod.Valid()
    decreases mod.Repr, 3
  {
    if !s.NodeContainerStrategy? then Pass
    else
      match mod.operation
      case TouchOp => CheckTouchApplicable(s, path, mod, current)
      case MergeOp => CheckMergeApplicable(s, path, mod, current)
      case _ => Pass
  }

  function CheckTouchApplicable(s: Strategy, path: Path, mod: ModifiedNode, current: Option<TreeNode>)
    : Outcome<ValidationFailure>
    requires mod.Valid() && s.NodeContainerStrategy?
    decreases mod.Repr, 2
  {
    if mod.original.None? && current.None? then Fail(ModifiedNodeDoesNotExist(path))
    else if current.None? then Fail(ConflictingModification(path))
    else CheckChildPreconditions(s, path, mod, current.value)
  }

  function CheckMergeApplicable(s: Strategy, path: Path, mod: ModifiedNode, current: Option<TreeNode>)
    : Outcome<ValidationFailure>
    requires mod.Valid() && s.NodeContainerStrategy?
    decreases mod.Repr, 2
  {
    if current.Some? then CheckChildPreconditions(s, path, mod, current.value) else Pass
  }

  /** Checks every staged child against the current child with the same identifier, under the
      child's path. */
  function CheckChildPreconditions(s: Strategy, path: Path, mod: ModifiedNode, current: TreeNode)
    : Outcome<ValidationFailure>
    requires mod.Valid() && s.NodeContainerStrategy?
    decreases mod.Repr, 1
  {
    CheckChildrenFrom(s, path, mod, current, 0)
  }

  function CheckChildrenFrom(s: Strategy, path: Path, mod: ModifiedNode, current: TreeNode, i: nat)
    : Outcome<ValidationFailure>
    requires mod.Valid() && s.NodeContainerStrategy? && i <= |mod.children|
    decreases mod.Repr, 0, |mod.children| - i
  {
    if i == |mod.children| then Pass
    else
      var childMod := mod.children[i];
      var childId := childMod.identifier;
      match s.GetChild(childId)
      case None => Fail(ChildOperationNotDefined(path + [childId]))
      case Some(op) =>
        match CheckApplicable(op, path + [childId], childMod, current.GetChild(childId))
        case Fail(e) => Fail(e)
        case Pass => CheckChildrenFrom(s, path, mod, current, i + 1)
  }

  /** A staged child is applicable when the schema knows it and it passes its strategy's check
      against the current child with its identifier. */
  predicate ChildApplicable(s: Strategy, path: Path, childMod: ModifiedNode, current: TreeNode)
    requires childMod.Valid()
  {
    && s.GetChild(childMod.identifier).Some?
    && CheckApplicable(s.GetChild(childMod.identifier).value, path + [childMod.identifier], childMod,
                       current.GetChild(childMod.identifier)).Pass?
  }

  lemma {:induction false} CheckChildrenFromPasses(s: Strategy, path: Path, mod: ModifiedNode, current: TreeNode, i: nat)
    requires mod.Valid() && s.NodeContainerStrategy? && i <= |mod.children|
    ensures CheckChildrenFrom(s, path, mod, current, i).Pass?
        <==> forall j :: i <= j < |mod.children| ==> ChildApplicable(s, path, mod.children[j], current)
    decreases |mod.children| - i
  {
    if i < |mod.children| {
      CheckChildrenFromPasses(s, path, mod, current, i + 1);
    }
  }

  /** A staged child is rejected with e: the schema has no strategy for it, and e is the argument
      failure naming its path, or its strategy's check against the current child with its
      identifier fails with e, which is passed up unchanged. */
  predicate ChildRejects(s: Strategy, path: Path, childMod: ModifiedNode, current: TreeNode, e: ValidationFailure)
    requires childMod.Valid()
  {
    match s.GetChild(childMod.identifier)
    case None => e == ChildOperationNotDefined(path + [childMod.identifier])
    case Some(op) =>
      CheckApplicable(op, path + [childMod.identifier], childMod, current.GetChild(childMod.identifier)) == Fail(e)
  }

  /** The loop from child i fails with e exactly when some child k from i on is rejected with e and
      every child before it from i on is applicable: the first rejected child decides, and its
      failure is the loop's failure, of the same kind and at the same path. */
  lemma {:induction false} CheckChildrenFromFails(
    s: Strategy, path: Path, mod: ModifiedNode, current: TreeNode, i: nat, e: ValidationFailure)
    requires mod.Valid() && s.NodeContainerStrategy? && i <= |mod.children|
    ensures CheckChildrenFrom(s, path, mod, current, i) == Fail(e)
        <==> exists k :: i <= k < |mod.children|
               && (forall j :: i <= j < k ==> ChildApplicable(s, path, mod.children[j], current))
               && ChildRejects(s, path, mod.children[k], current, e)
    decreases |mod.children| - i
  {
    if i < |mod.children| {
      var c := mod.children[i];
      if ChildApplicable(s, path, c, current) {
        assert !ChildRejects(s, path, c, current, e);
        assert CheckChildrenFrom(s, path, mod, current, i) == CheckChildrenFrom(s, path, mod, current, i + 1);
        CheckChildrenFromFails(s, path, mod, current, i + 1, e);
        if CheckChildrenFrom(s, path, mod, current, i) == Fail(e) {
          var k :| i + 1 <= k < |mod.children|
                 && (forall j :: i + 1 <= j < k ==> ChildApplicable(s, path, mod.children[j], current))
                 && ChildRejects(s, path, mod.children[k], current, e);
          assert forall j :: i <= j < k ==> ChildApplicable(s, path, mod.children[j], current);
        }
      } else {
        assert ChildRejects(s, path, c, current, e) <==> CheckChildrenFrom(s, path, mod, current, i) == Fail(e);
      }
    }
  }

  /** The child check fails with e exactly when the first staged child that is not applicable is
      rejected with e. */
  lemma CheckChildPreconditionsFails(s: Strategy, path: Path, mod: ModifiedNode, current: TreeNode, e: ValidationFailure)
    requires mod.Valid() && s.NodeContainerStrategy?
    ensures CheckChildPreconditions(s, path, mod, current) == Fail(e)
        <==> exists k :: 0 <= k < |mod.children|
               && (forall j :: 0 <= j < k ==> ChildApplicable(s, path, mod.children[j], current))
               && ChildRejects(s, path, mod.children[k], current, e)
  {
    CheckChildrenFromFails(s, path, mod, current, 0, e);
  }

  /** The child check passes exactly when every staged child is applicable. */
  lemma CheckChildPreconditionsPasses(s: Strategy, path: Path, mod: ModifiedNode, current: TreeNode)
    requires mod.Valid() && s.NodeContainerStrategy?
    ensures CheckChildPreconditions(s, path, mod, current).Pass?
        <==> forall j :: 0 <= j < |mod.children| ==> ChildApplicable(s, path, mod.children[j], current)
  {
    CheckChildrenFromPasses(s, path, mod, current, 0);
  }

  /** checkTouchApplicable: a touch of a node that exists nowhere fails as non-existent; a touch of a
      node that existed when staged but is now gone fails as a conflict; otherwise it passes exactly
      when every staged child is applicable against the current node's children, and fails with
      the error of the first staged child that is not. */
  lemma CheckTouchApplicableCases(
    s: Strategy, path: Path, mod: ModifiedNode, current: Option<TreeNode>, e: ValidationFailure)
    requires mod.Valid() && s.NodeContainerStrategy?
    ensures mod.original.None? && current.None?
        ==> CheckTouchApplicable(s, path, mod, current) == Fail(ModifiedNodeDoesNotExist(path))
    ensures mod.original.Some? && current.None?
        ==> CheckTouchApplicable(s, path, mod, current) == Fail(ConflictingModification(path))
    ensures current.Some?
        ==> (CheckTouchApplicable(s, path, mod, current).Pass?
             <==> forall j :: 0 <= j < |mod.children| ==> ChildApplicable(s, path, mod.children[j], current.value))
    ensures current.Some?
        ==> (CheckTouchApplicable(s, path, mod, current) == Fail(e)
             <==> exists k :: 0 <= k < |mod.children|
                    && (forall j :: 0 <= j < k ==> ChildApplicable(s, path, mod.children[j], current.value))
                    && ChildRejects(s, path, mod.children[k], current.value, e))
  {
    if current.Some? {
      CheckChildPreconditionsPasses(s, path, mod, current.value);
      CheckChildPreconditionsFails(s, path, mod, current.value, e);
    }
  }

  /** checkMergeApplicable never fails on an absent node (the merge then acts as a write); on a
      present node it passes exactly when every staged child is applicable, and fails with the
      error of the first staged child that is not. */
  lemma CheckMergeApplicableCases(
    s: Strategy, path: Path, mod: ModifiedNode, current: Option<TreeNode>, e: ValidationFailure)
    requires mod.Valid() && s.NodeContainerStrategy?
    ensures current.None? ==> CheckMergeApplicable(s, path, mod, current).Pass?
    ensures current.Some?
        ==> (CheckMergeApplicable(s, path, mod, current).Pass?
             <==> forall j :: 0 <= j < |mod.children| ==> ChildApplicable(s, path, mod.children[j], current.value))
    ensures current.Some?
        ==> (CheckMergeApplicable(s, path, mod, current) == Fail(e)
             <==> exists k :: 0 <= k < |mod.children|
                    && (forall j :: 0 <= j < k ==> ChildApplicable(s, path, mod.children[j], current.value))
                    && ChildRejects(s, path, mod.children[k], current.value, e))
  {
    if current.Some? {
      CheckChildPreconditionsPasses(s, path, mod, current.value);
      CheckChildPreconditionsFails(s, path, mod, current.value, e);
    }
  }

  /** Every failure is reported at the checked node's path or at a path below it: each level of the
      recursion appends the child's identifier. */
  lemma {:induction false} FailureReportedBelow(s: Strategy, path: Path, mod: ModifiedNode, current: Option<TreeNode>)
    requires mod.Valid()
    ensures CheckApplicable(s, path, mod, current).Fail?
        ==> path <= CheckApplicable(s, path, mod, current).error.path
    decreases mod.Repr, 1
  {
    if s.NodeContainerStrategy? && current.Some? && (mod.operation == TouchOp || mod.operation == MergeOp) {
      assert CheckChildPreconditions(s, path, mod, current.value) == CheckChildrenFrom(s, path, mod, current.value, 0);
      ChildFailureReportedBelow(s, path, mod, current.value, 0);
    }
  }

  lemma {:induction false} ChildFailureReportedBelow(s: Strategy, path: Path, mod: ModifiedNode, current: TreeNode, i: nat)
    requires mod.Valid() && s.NodeContainerStrategy? && i <= |mod.children|
    ensures CheckChildrenFrom(s, path, mod, current, i).Fail?
        ==> path < CheckChildrenFrom(s, path, mod, current, i).error.path
    decreases mod.Repr, 0, |mod.children| - i
  {
    if i < |mod.children| {
      var childMod := mod.children[i];
      var childId := childMod.identifier;
      if s.GetChild(childId).Some? {
        FailureReportedBelow(s.GetChild(childId).value, path + [childId], childMod, current.GetChild(childId));
        ChildFailureReportedBelow(s, path, mod, current, i + 1);
      }
    }
  }
}
