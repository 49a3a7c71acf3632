/** verifyStructure of a container strategy: the written value must be of the strategy's node class
    and a container; on a configuration tree, when the caller asks for it, every child must resolve
    to a child strategy and pass that strategy's own check. */
module StructureCheck {
  import opened Wrappers
  import opened NormalizedNodes
  import opened Strategies

  datatype StructureFailure =
    | NotOfNodeClass(id: PathArg, expected: NodeClass)  // IllegalArgumentException: wrong node class
    | NotAContainer(id: PathArg)                        // IllegalArgumentException: not a container
    | SchemaValidationFailed(child: PathArg)            // no child strategy for this identifier

  function VerifyStructure(s: Strategy, v: NormalizedNode, verifyChildren: bool): Outcome<StructureFailure>
    decreases v, 1
  {
    if v.nodeClass != s.nodeClass then Fail(NotOfNodeClass(v.id, s.nodeClass))
    else if s.LeafStrategy? then Pass
    else if !v.Container? then Fail(NotAContainer(v.id))
    else if s.verifyChildrenStructure && verifyChildren then VerifyChildrenFrom(s, v, 0, verifyChildren)
    else Pass
  }

  /** The loop over the container's children, from index i on, stopping at the first failure. */
  function VerifyChildrenFrom(s: Strategy, v: NormalizedNode, i: nat, verifyChildren: bool): Outcome<StructureFailure>
    requires v.Container? && i <= |v.children|
    decreases v, 0, |v.children| - i
  {
    if i == |v.children| then Pass
    else
      var child := v.children[i];
      match s.GetChild(child.id)
      case None => Fail(SchemaValidationFailed(child.id))
      case Some(op) =>
        match VerifyStructure(op, child, verifyChildren)
        case Fail(e) => Fail(e)
        case Pass => VerifyChildrenFrom(s, v, i + 1, verifyChildren)
  }

  /** A child passes when the schema knows it and its own strategy accepts it. */
  predicate ChildPasses(s: Strategy, child: NormalizedNode, verifyChildren: bool) {
    s.GetChild(child.id).Some? && VerifyStructure(s.GetChild(child.id).value, child, verifyChildren).Pass?
  }

  /** The failure a single child reports: an unknown identifier, or its own strategy's failure. */
  predicate ChildFailsWith(s: Strategy, child: NormalizedNode, verifyChildren: bool, e: StructureFailure) {
    match s.GetChild(child.id)
    case None => e == SchemaValidationFailed(child.id)
    case Some(op) => VerifyStructure(op, child, verifyChildren) == Fail(e)
  }

  lemma {:induction false} VerifyChildrenFromPasses(s: Strategy, v: NormalizedNode, i: nat, verifyChildren: bool)
    requires v.Container? && i <= |v.children|
    ensures VerifyChildrenFrom(s, v, i, verifyChildren).Pass?
        <==> forall j :: i <= j < |v.children| ==> ChildPasses(s, v.children[j], verifyChildren)
    decreases |v.children| - i
  {
    if i < |v.children| {
      VerifyChildrenFromPasses(s, v, i + 1, verifyChildren);
    }
  }

  lemma {:induction false} VerifyChildrenFromFails(
    s: Strategy, v: NormalizedNode, i: nat, verifyChildren: bool, e: StructureFailure)
    requires v.Container? && i <= |v.children|
    ensures VerifyChildrenFrom(s, v, i, verifyChildren) == Fail(e)
        <==> exists k :: i <= k < |v.children|
               && (forall j :: i <= j < k ==> ChildPasses(s, v.children[j], verifyChildren))
               && ChildFailsWith(s, v.children[k], verifyChildren, e)
    decreases |v.children| - i
  {
    if i < |v.children| {
      var c := v.children[i];
      if ChildPasses(s, c, verifyChildren) {
        assert !ChildFailsWith(s, c, verifyChildren, e);
        assert VerifyChildrenFrom(s, v, i, verifyChildren) == VerifyChildrenFrom(s, v, i + 1, verifyChildren);
        VerifyChildrenFromFails(s, v, i + 1, verifyChildren, e);
        if VerifyChildrenFrom(s, v, i, verifyChildren) == Fail(e) {
          var k :| i + 1 <= k < |v.children|
                 && (forall j :: i + 1 <= j < k ==> ChildPasses(s, v.children[j], verifyChildren))
                 && ChildFailsWith(s, v.children[k], verifyChildren, e);
          assert forall j :: i <= j < k ==> ChildPasses(s, v.children[j], verifyChildren);
        }
      } else {
        assert ChildFailsWith(s, c, verifyChildren, e) <==> VerifyChildrenFrom(s, v, i, verifyChildren) == Fail(e);
      }
    }
  }

  /** With deep checking on, a container value passes exactly when it has the strategy's class and
      every child is known to the schema and passes its own strategy's check. */
  lemma VerifyStructureDeepPasses(s: Strategy, v: NormalizedNode, verifyChildren: bool)
    requires s.NodeContainerStrategy? && s.verifyChildrenStructure && verifyChildren
    ensures VerifyStructure(s, v, verifyChildren).Pass?
        <==> && v.nodeClass == s.nodeClass
             && v.Container?
             && forall c | c in v.children :: ChildPasses(s, c, verifyChildren)
  {
    if v.nodeClass == s.nodeClass && v.Container? {
      VerifyChildrenFromPasses(s, v, 0, verifyChildren);
      assert forall c | c in v.children :: exists j :: 0 <= j < |v.children| && v.children[j] == c;
    }
  }

  /** With deep checking on, a container of the right class fails exactly with the failure of its
      first child, in iteration order, that is unknown to the schema or fails its own check. */
  lemma VerifyStructureFirstFailure(s: Strategy, v: NormalizedNode, verifyChildren: bool, e: StructureFailure)
    requires s.NodeContainerStrategy? && s.verifyChildrenStructure && verifyChildren
    requires v.nodeClass == s.nodeClass && v.Container?
    ensures VerifyStructure(s, v, verifyChildren) == Fail(e)
        <==> exists k :: 0 <= k < |v.children|
               && (forall j :: 0 <= j < k ==> ChildPasses(s, v.children[j], verifyChildren))
               && ChildFailsWith(s, v.children[k], verifyChildren, e)
  {
    VerifyChildrenFromFails(s, v, 0, verifyChildren, e);
  }

  /** When either flag is off the check looks at no child: it passes exactly when the value has
      the strategy's class (and, for a container strategy, is a container). */
  lemma VerifyStructureShallow(s: Strategy, v: NormalizedNode, verifyChildren: bool)
    requires !(s.NodeContainerStrategy? && s.verifyChildrenStructure && verifyChildren)
    ensures VerifyStructure(s, v, verifyChildren).Pass?
        <==> v.nodeClass == s.nodeClass && (s.NodeContainerStrategy? ==> v.Container?)
    ensures VerifyStructure(s, v, verifyChildren).Fail? ==> !VerifyStructure(s, v, verifyChildren).error.SchemaValidationFailed?
  {
  }

  /** A failure names the offending node: the checked value itself, or a node below it. */
  lemma {:induction false} SchemaFailureNamesDescendant(s: Strategy, v: NormalizedNode, verifyChildren: bool)
    ensures VerifyStructure(s, v, verifyChildren).Fail? && VerifyStructure(s, v, verifyChildren).error.SchemaValidationFailed?
        ==> v.Container? && Below(VerifyStructure(s, v, verifyChildren).error.child, v)
    decreases v
  {
    var r := VerifyStructure(s, v, verifyChildren);
    if r.Fail? && r.error.SchemaValidationFailed? {
      VerifyChildrenFromFails(s, v, 0, verifyChildren, r.error);
      var k :| 0 <= k < |v.children|
             && (forall j :: 0 <= j < k ==> ChildPasses(s, v.children[j], verifyChildren))
             && ChildFailsWith(s, v.children[k], verifyChildren, r.error);
      var c := v.children[k];
      if s.GetChild(c.id).Some? {
        SchemaFailureNamesDescendant(s.GetChild(c.id).value, c, verifyChildren);
      }
    }
  }

  /** Some proper descendant of v carries identifier id. */
  ghost predicate Below(id: PathArg, v: NormalizedNode)
    decreases v
  {
    v.Container? && exists c | c in v.children :: c.id == id || Below(id, c)
  }
}
