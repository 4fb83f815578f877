/**
 * A Yul identifier: a name and the id of the declaration it refers to, -1 standing
 * for a builtin. The id is resolved through the node's context.
 */
module YulIdentifierNode {
  import opened Wrappers
  import opened Ast

  const YulIdentifierType: string := "YulIdentifier"

  /** `ExternalReferenceType`: whether a name refers to a declaration of the program or to a builtin. */
  datatype ExternalReferenceType = UserDefined | Builtin

  /** The constructor's optional reference argument: a number, a node, or nothing. */
  datatype ReferenceArg = NoReference | ReferenceId(id: int) | ReferenceNode(target: Node)

  /**
   * The id the constructor stores: a truthy number as given, a node's id, and -1 for
   * anything falsy, which includes the number 0 (NaN is not modelled).
   */
  function StoredReference(arg: ReferenceArg): int {
    match arg
    case NoReference => -1
    case ReferenceId(id) => if id == 0 then -1 else id
    case ReferenceNode(target) => target.id
  }

  /**
   * Passing a node and passing its id store the same reference exactly when the id
   * is not 0; a missing reference and the number 0 both read as a builtin.
   */
  lemma ReferenceForms(n: Node)
    ensures StoredReference(ReferenceNode(n)) == StoredReference(ReferenceId(n.id)) <==> n.id != 0
    ensures StoredReference(ReferenceId(0)) == StoredReference(NoReference) == -1
  {
  }

  class YulIdentifier {
    /** The node part: id, source range, parent and context. */
    const node: Node
    var name: string
    var referencedDeclaration: int

    constructor(id: int, src: string, offset: int, name: string, reference: ReferenceArg)
      ensures fresh(node) && node.nodeType == YulIdentifierType
      ensures node.id == id && node.src == src && node.offset == offset
      ensures node.parent == null && node.context == null && node.ownChildren == []
      ensures this.name == name && referencedDeclaration == StoredReference(reference)
    {
      node := new Node(YulIdentifierType, id, src, offset);
      this.name := name;
      referencedDeclaration := StoredReference(reference);
    }

    /** `vReferencedDeclaration`: the context's node under the stored id, if any. */
    function ReferencedDeclaration(): (r: Result<Option<Node>, string>)
      reads this, node, node.context
      ensures r.Failure? <==> node.context == null
      ensures r.Success? ==> (r.value.Some? <==> referencedDeclaration in node.context.nodes)
      ensures r.Success? && r.value.Some? ==> r.value.value == node.context.nodes[referencedDeclaration]
    {
      node.LocateInContext(referencedDeclaration)
    }

    /**
     * Assigning `vReferencedDeclaration`: nothing stores -1; a node of this node's
     * context stores its id, so reading the reference back gives that node; any other
     * node is an error and leaves the reference as it was.
     */
    method SetReferencedDeclaration(value: Option<Node>) returns (r: Outcome<string>)
      modifies this`referencedDeclaration
      ensures value.None? ==> r.Pass? && referencedDeclaration == -1
      ensures value.Some? ==> (r.Pass? <==> node.SharesContext(value.value))
      ensures value.Some? && r.Pass? ==>
        referencedDeclaration == value.value.id && ReferencedDeclaration() == Success(value)
      ensures value.Some? && r.Fail? ==> referencedDeclaration == old(referencedDeclaration)
    {
      if value.None? {
        referencedDeclaration := -1;
        r := Pass;
      } else {
        if !node.SharesContext(value.value) {
          r := Fail("Node does not belong to the current context");
        } else {
          referencedDeclaration := value.value.id;
          r := Pass;
        }
      }
    }

    /** `vIdentifierType`: user-defined exactly when the reference resolves, builtin otherwise. */
    function IdentifierType(): (r: Result<ExternalReferenceType, string>)
      reads this, node, node.context
      ensures r.Failure? <==> node.context == null
      ensures r.Success? ==>
        (r.value == UserDefined <==> referencedDeclaration in node.context.nodes)
    {
      match ReferencedDeclaration()
      case Failure(e) => Failure(e)
      case Success(d) => Success(if d.Some? then UserDefined else Builtin)
    }
  }
}
