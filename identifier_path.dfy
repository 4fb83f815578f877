/**
 * An identifier path (`A.B.C` naming a type or contract): a name and the id of the
 * declaration it refers to, resolved through the node's context.
 */
module IdentifierPathNode {
  import opened Wrappers
  import opened Ast

  const IdentifierPathType: string := "IdentifierPath"

  class IdentifierPath {
    /** The node part: id, source range, parent and context. */
    const node: Node
    var name: string
    var referencedDeclaration: int

    /** Stores the name and the reference exactly as given. */
    constructor(id: int, src: string, offset: int, name: string, referencedDeclaration: int)
      ensures fresh(node) && node.nodeType == IdentifierPathType
      ensures node.id == id && node.src == src && node.offset == offset
      ensures node.parent == null && node.context == null && node.ownChildren == []
      ensures this.name == name && this.referencedDeclaration == referencedDeclaration
    {
      node := new Node(IdentifierPathType, id, src, offset);
      this.name := name;
      this.referencedDeclaration := referencedDeclaration;
    }

    /** `vReferencedDeclaration`: the context's node under the stored id, if any. */
    function ReferencedDeclaration(): (r: Result<Option<Node>, string>)
      reads this, node, node.context
      ensures r.Failure? <==> node.context == null
      ensures r.Success? ==> (r.value.Some? <==> referencedDeclaration in node.context.nodes)
      ensures r.Success? && r.value.Some? ==> r.value.value == node.context.nodes[referencedDeclaration]
    {
      node.LocateInContext(referencedDeclaration)
    }

    /**
     * Assigning `vReferencedDeclaration`: nothing stores -1; a node of this node's
     * context stores its id, so reading the reference back gives that node; a node
     * from elsewhere is an error and leaves the reference as it was.
     */
    method SetReferencedDeclaration(value: Option<Node>) returns (r: Outcome<string>)
      modifies this`referencedDeclaration
      ensures value.None? ==> r.Pass? && referencedDeclaration == -1
      ensures value.Some? ==> (r.Pass? <==> node.SharesContext(value.value))
      ensures value.Some? && r.Pass? ==>
        referencedDeclaration == value.value.id && ReferencedDeclaration() == Success(value)
      ensures value.Some? && r.Fail? ==> referencedDeclaration == old(referencedDeclaration)
    {
      if value.None? {
        referencedDeclaration := -1;
        r := Pass;
      } else if !node.SharesContext(value.value) {
        r := Fail("Node does not belong to the current context");
      } else {
        referencedDeclaration := value.value.id;
        r := Pass;
      }
    }
  }
}
