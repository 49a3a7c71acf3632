/** The data builder a container strategy fills while it applies child modifications
    (a NormalizedNodeContainerBuilder). */
module ContainerBuilders {
  import opened NormalizedNodes

  class ContainerBuilder {
    const identifier: PathArg
    const nodeClass: NodeClass
    var children: seq<NormalizedNode>

    /** createBuilder(original): a builder seeded with the original container's identity and children. */
    constructor (original: NormalizedNode)
      requires original.Container?
      ensures identifier == original.id && nodeClass == original.nodeClass
      ensures children == original.children
    {
      identifier := original.id;
      nodeClass := original.nodeClass;
      children := original.children;
    }

    method AddChild(child: NormalizedNode)
      modifies this
      ensures children == WithChild(old(children), child)
    {
      children := WithChild(children, child);
    }

    method RemoveChild(id: PathArg)
      modifies this
      ensures children == WithoutChild(old(children), id)
    {
      children := WithoutChild(children, id);
    }

    method Build() returns (v: NormalizedNode)
      ensures v == Container(identifier, nodeClass, children)
    {
      v := Container(identifier, nodeClass, children);
    }
  }
}
