/**
 * A user-defined type name: an optional name, the id of the declared type, and (from
 * Solidity 0.8.0) an identifier path, which is its only child.
 */
module UserDefinedTypeNameNode {
  import opened Wrappers
  import opened Ast
  import opened IdentifierPathNode

  const UserDefinedTypeNameType: string := "UserDefinedTypeName"

  class UserDefinedTypeName {
    /** The node part: id, source range, parent and context. */
    const node: Node
    var typeString: string
    var name: Option<string>
    var referencedDeclaration: int
    var path: Option<IdentifierPath>

    /** Stores the arguments as given and makes this node the parent of the path. */
    constructor(id: int, src: string, offset: int, typeString: string, name: Option<string>,
                referencedDeclaration: int, path: Option<IdentifierPath>)
      modifies if path.Some? then {path.value.node} else {}
      ensures fresh(node) && node.nodeType == UserDefinedTypeNameType
      ensures node.id == id && node.src == src && node.offset == offset
      ensures node.parent == null && node.context == null && node.ownChildren == []
      ensures this.typeString == typeString && this.name == name
      ensures this.referencedDeclaration == referencedDeclaration && this.path == path
      ensures path.Some? ==> path.value.node.parent == node
      ensures path.Some? ==> unchanged(path.value.node`context, path.value.node`ownChildren)
    {
      node := new Node(UserDefinedTypeNameType, id, src, offset);
      this.typeString := typeString;
      this.name := name;
      this.referencedDeclaration := referencedDeclaration;
      this.path := path;
      new;
      node.AcceptChildren(Children());
    }

    /** `children`: the path, when there is one, and nothing else. */
    function Children(): (r: seq<Node>)
      reads this
      ensures |r| <= 1
      ensures path.Some? <==> |r| == 1
      ensures path.Some? ==> r[0] == path.value.node
    {
      if path.Some? then [path.value.node] else []
    }

    /** `vReferencedDeclaration`: the context's node under the stored id, if any. */
    function ReferencedDeclaration(): (r: Result<Option<Node>, string>)
      reads this, node, node.context
      ensures r.Failure? <==> node.context == null
      ensures r.Success? ==> (r.value.Some? <==> referencedDeclaration in node.context.nodes)
      ensures r.Success? && r.value.Some? ==> r.value.value == node.context.nodes[referencedDeclaration]
    {
      node.LocateInContext(referencedDeclaration)
    }

    /**
     * Assigning `vReferencedDeclaration`: a node of this node's context stores its id,
     * so reading back gives that node; a node from elsewhere is an error and changes
     * nothing. Unlike the identifier setters there is no way to assign "nothing".
     */
    method SetReferencedDeclaration(value: Node) returns (r: Outcome<string>)
      modifies this`referencedDeclaration
      ensures r.Pass? <==> node.SharesContext(value)
      ensures r.Pass? ==> referencedDeclaration == value.id && ReferencedDeclaration() == Success(Some(value))
      ensures r.Fail? ==> referencedDeclaration == old(referencedDeclaration)
    {
      if !node.SharesContext(value) {
        r := Fail("Node does not belong to the current context");
      } else {
        referencedDeclaration := value.id;
        r := Pass;
      }
    }
  }
}
