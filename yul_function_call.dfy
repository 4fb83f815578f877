/**
 * A Yul function call: the callee's identifier and the argument expressions. Its
 * children are the callee followed by the arguments; only the arguments can be
 * appended or removed.
 */
module YulFunctionCallNode {
  import opened Wrappers
  import opened Ast
  import opened YulIdentifierNode

  const YulFunctionCallType: string := "YulFunctionCall"

  class YulFunctionCall {
    /** The node part: id, source range, parent and context. */
    const node: Node
    var vFunctionName: YulIdentifier
    var vArguments: seq<Node>

    /** Stores the callee and the arguments, then makes this call the parent of each child. */
    constructor(id: int, src: string, offset: int, functionName: YulIdentifier, args: seq<Node>)
      modifies functionName.node`parent, (set a | a in args)`parent
      ensures fresh(node) && node.nodeType == YulFunctionCallType
      ensures node.id == id && node.src == src && node.offset == offset
      ensures node.parent == null && node.context == null && node.ownChildren == []
      ensures vFunctionName == functionName && vArguments == args
      ensures forall c :: c in Children() ==> c.parent == node
    {
      node := new Node(YulFunctionCallType, id, src, offset);
      vFunctionName := functionName;
      vArguments := args;
      new;
      node.AcceptChildren([functionName.node] + args);
    }

    /** `children`: the callee first, then the arguments in order. */
    function Children(): (r: seq<Node>)
      reads this, vFunctionName
      ensures |r| == |vArguments| + 1
      ensures r[0] == vFunctionName.node && r[1..] == vArguments
    {
      [vFunctionName.node] + vArguments
    }

    /**
     * `removeChild`: a node that is not an argument is an error and changes nothing;
     * otherwise its first occurrence among the arguments is dropped, the rest kept in
     * order, and its parent link cleared.
     */
    method RemoveChild(n: Node) returns (r: Result<Node, string>)
      modifies this`vArguments, n`parent
      ensures r.Failure? <==> n !in old(vArguments)
      ensures r.Failure? ==> vArguments == old(vArguments) && n.parent == old(n.parent)
      ensures r.Success? ==> r.value == n && n.parent == null
      ensures r.Success? ==> vArguments == RemoveAt(old(vArguments), PositionOf(old(vArguments), n).value)
      ensures r.Success? ==> multiset(vArguments) == multiset(old(vArguments)) - multiset{n}
    {
      match PositionOf(vArguments, n)
      case None =>
        r := Failure("Reference node is not a child of current node");
      case Some(index) =>
        ghost var before := vArguments;
        vArguments := RemoveAt(vArguments, index);
        assert before == before[..index] + [n] + before[index + 1..];
        n.parent := null;
        r := Success(n);
    }

    /** `appendChild`: the node becomes the last argument and gets this call as parent. */
    method AppendChild(n: Node) returns (r: Node)
      modifies this`vArguments, n`parent
      ensures vArguments == old(vArguments) + [n]
      ensures Children() == old(Children()) + [n]
      ensures n.parent == node && r == n
    {
      vArguments := vArguments + [n];
      n.parent := node;
      r := n;
    }

    /** `vIdentifier`: the callee's name. */
    function Identifier(): (r: string)
      reads this, vFunctionName
      ensures r == vFunctionName.name
    {
      vFunctionName.name
    }

    /** `vFunctionCallType`: user-defined exactly when the callee's reference resolves. */
    function FunctionCallType(): (r: Result<ExternalReferenceType, string>)
      reads this, vFunctionName, vFunctionName.node, vFunctionName.node.context
      ensures r.Failure? <==> vFunctionName.node.context == null
      ensures r.Success? ==> (r.value == UserDefined <==>
        vFunctionName.referencedDeclaration in vFunctionName.node.context.nodes)
    {
      vFunctionName.IdentifierType()
    }

    /** `vReferencedDeclaration`: the callee's referenced declaration. */
    function ReferencedDeclaration(): (r: Result<Option<Node>, string>)
      reads this, vFunctionName, vFunctionName.node, vFunctionName.node.context
      ensures r.Failure? <==> vFunctionName.node.context == null
      ensures r.Success? ==> (r.value.Some? <==> vFunctionName.referencedDeclaration in vFunctionName.node.context.nodes)
      ensures r.Success? && r.value.Some? ==>
        r.value.value == vFunctionName.node.context.nodes[vFunctionName.referencedDeclaration]
    {
      vFunctionName.ReferencedDeclaration()
    }
  }

  /** Removing an argument that was just appended, and is nowhere else, gives back the arguments. */
  lemma {:induction false} RemoveAppended(args: seq<Node>, n: Node)
    requires n !in args
    ensures PositionOf(args + [n], n) == Some(|args|)
    ensures RemoveAt(args + [n], |args|) == args
  {
    if |args| > 0 {
      assert (args + [n])[1..] == args[1..] + [n];
      RemoveAppended(args[1..], n);
    }
  }
}
