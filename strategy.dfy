/** Modification strategies, one per schema node. The child strategy lookup of the schema is the
    map of a container strategy's child strategies. */
module Strategies {
  import opened Wrappers
  import opened NormalizedNodes

  datatype TreeType = Configuration | Operational

  datatype Strategy =
    | LeafStrategy(nodeClass: NodeClass)
    | NodeContainerStrategy(
        nodeClass: NodeClass,
        verifyChildrenStructure: bool,
        childOps: map<PathArg, Strategy>)
  {
    /** getChild: the strategy for the child with that identifier, if the schema declares one. */
    function GetChild(id: PathArg): (r: Option<Strategy>)
      ensures r.Some? <==> NodeContainerStrategy? && id in childOps
      ensures r.Some? ==> r.value == childOps[id]
    {
      if NodeContainerStrategy? && id in childOps then Some(childOps[id]) else None
    }
  }

  /** The container strategy's constructor. Deep structure checking is fixed here, once, from the
      tree type; a strategy value never changes afterwards. */
  function NewNodeContainerStrategy(nodeClass: NodeClass, treeType: TreeType, childOps: map<PathArg, Strategy>)
    : (s: Strategy)
    ensures s.NodeContainerStrategy? && s.nodeClass == nodeClass && s.childOps == childOps
    ensures s.verifyChildrenStructure <==> treeType == Configuration
  {
    NodeContainerStrategy(nodeClass, treeType == Configuration, childOps)
  }
}
