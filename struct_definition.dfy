/**
 * A struct definition: a name, the id of its scope (a contract or source unit), a
 * visibility, member declarations as its own children, and documentation.
 */
module StructDefinitionNode {
  import opened Wrappers
  import opened Ast
  import opened Documentation

  const StructDefinitionType: string := "StructDefinition"

  class StructDefinition {
    /** The node part: id, source range, parent, context and the members as own children. */
    const node: Node
    var name: string
    var scope: int
    var visibility: string
    var nameLocation: Option<string>
    /** The struct's documentation, held as a plain field. */
    var documentation: DocValue

    /**
     * Appends the members in their order, stores the documentation, then makes this
     * node the parent of every child, the documentation node included.
     */
    constructor(id: int, src: string, offset: int, name: string, scope: int, visibility: string,
                members: seq<Node>, documentation: DocValue, nameLocation: Option<string>)
      modifies (set c | c in members || IsDoc(documentation, c))`parent
      ensures fresh(node) && node.nodeType == StructDefinitionType
      ensures node.id == id && node.src == src && node.offset == offset
      ensures node.parent == null && node.context == null
      ensures this.name == name && this.scope == scope && this.visibility == visibility
      ensures this.nameLocation == nameLocation && this.documentation == documentation
      ensures Members() == members
      ensures Children() == DocNodes(documentation) + members
      ensures forall c :: c in Children() ==> c.parent == node
    {
      node := new Node(StructDefinitionType, id, src, offset);
      this.name := name;
      this.scope := scope;
      this.visibility := visibility;
      this.nameLocation := nameLocation;
      this.documentation := NoDoc;
      new;
      var i := 0;
      while i < |members|
        invariant 0 <= i <= |members|
        invariant node.ownChildren == members[..i]
        invariant node.parent == null && node.context == null
        invariant this.name == name && this.scope == scope && this.visibility == visibility
        invariant this.nameLocation == nameLocation
      {
        var _ := node.AppendChild(members[i]);
        assert members[..i + 1] == members[..i] + [members[i]];
        i := i + 1;
      }
      assert members[..i] == members;
      this.documentation := documentation;
      node.AcceptChildren(Children());
    }

    /** `vMembers`: exactly the own children. */
    function Members(): seq<Node>
      reads this, node
    {
      node.ownChildren
    }

    /** `children`: the documentation, when it is a node, followed by the members. */
    function Children(): (r: seq<Node>)
      reads this, node
      ensures r == DocNodes(documentation) + Members()
      ensures |r| == |Members()| + (if documentation.DocNode? then 1 else 0)
    {
      DocNodes(documentation) + node.ownChildren
    }

    /** `vScope`: the context's node under the stored scope id, if any. */
    function Scope(): (r: Result<Option<Node>, string>)
      reads this, node, node.context
      ensures r.Failure? <==> node.context == null
      ensures r.Success? ==> (r.value.Some? <==> scope in node.context.nodes)
      ensures r.Success? && r.value.Some? ==> r.value.value == node.context.nodes[scope]
    {
      node.LocateInContext(scope)
    }

    /**
     * Assigning `vScope`: a node of this node's context stores its id, so reading back
     * gives that node; a node from elsewhere is an error and leaves `scope` unchanged.
     */
    method SetScope(value: Node) returns (r: Outcome<string>)
      modifies this`scope
      ensures r.Pass? <==> node.SharesContext(value)
      ensures r.Pass? ==> scope == value.id && Scope() == Success(Some(value))
      ensures r.Fail? ==> scope == old(scope)
    {
      if !node.SharesContext(value) {
        r := Fail("Node does not belong to the current context");
      } else {
        scope := value.id;
        r := Pass;
      }
    }
  }
}
