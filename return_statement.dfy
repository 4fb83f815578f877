/**
 * A `return` statement: the id of the parameter list that declares the returned
 * values, the returned expression if any, and its documentation.
 */
module ReturnNode {
  import opened Wrappers
  import opened Ast
  import opened Documentation

  const ReturnType: string := "Return"

  class Return {
    /** The node part: id, source range, parent and context. */
    const node: Node
    var functionReturnParameters: int
    var vExpression: Option<Node>
    /** The statement's documentation, held as a plain field. */
    var documentation: DocValue

    /** Stores the arguments as given and makes this node the parent of its children. */
    constructor(id: int, src: string, offset: int, functionReturnParameters: int,
                expression: Option<Node>, documentation: DocValue)
      modifies (set c | c in DocNodes(documentation) + NodesOf(expression))`parent
      ensures fresh(node) && node.nodeType == ReturnType
      ensures node.id == id && node.src == src && node.offset == offset
      ensures node.parent == null && node.context == null && node.ownChildren == []
      ensures this.functionReturnParameters == functionReturnParameters
      ensures vExpression == expression && this.documentation == documentation
      ensures forall c :: c in Children() ==> c.parent == node
    {
      node := new Node(ReturnType, id, src, offset);
      this.functionReturnParameters := functionReturnParameters;
      vExpression := expression;
      this.documentation := documentation;
      new;
      node.AcceptChildren(Children());
    }

    /**
     * `children`: the documentation, when it is a node, then the expression, when
     * there is one; a string documentation and a missing expression contribute nothing.
     */
    function Children(): (r: seq<Node>)
      reads this
      ensures |r| == (if documentation.DocNode? then 1 else 0) + (if vExpression.Some? then 1 else 0)
      ensures documentation.DocNode? ==> r[0] == documentation.doc
      ensures vExpression.Some? ==> r[|r| - 1] == vExpression.value
    {
      DocNodes(documentation) + NodesOf(vExpression)
    }

    /** `vFunctionReturnParameters`: the context's node under the stored id, if any. */
    function FunctionReturnParameters(): (r: Result<Option<Node>, string>)
      reads this, node, node.context
      ensures r.Failure? <==> node.context == null
      ensures r.Success? ==> (r.value.Some? <==> functionReturnParameters in node.context.nodes)
      ensures r.Success? && r.value.Some? ==> r.value.value == node.context.nodes[functionReturnParameters]
    {
      node.LocateInContext(functionReturnParameters)
    }

    /**
     * Assigning `vFunctionReturnParameters`: a node of this node's context stores its
     * id, so reading back gives that node; a node from elsewhere is an error and
     * changes nothing.
     */
    method SetFunctionReturnParameters(value: Node) returns (r: Outcome<string>)
      modifies this`functionReturnParameters
      ensures r.Pass? <==> node.SharesContext(value)
      ensures r.Pass? ==>
        functionReturnParameters == value.id && FunctionReturnParameters() == Success(Some(value))
      ensures r.Fail? ==> functionReturnParameters == old(functionReturnParameters)
    {
      if !node.SharesContext(value) {
        r := Fail("Node does not belong to the current context");
      } else {
        functionReturnParameters := value.id;
        r := Pass;
      }
    }
  }
}
