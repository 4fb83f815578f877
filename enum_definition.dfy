/**
 * An enum definition: a name, its values as own children, and documentation. Its
 * scope is its parent node rather than an id.
 */
module EnumDefinitionNode {
  import opened Wrappers
  import opened Ast
  import opened Documentation

  const EnumDefinitionType: string := "EnumDefinition"

  class EnumDefinition {
    /** The node part: id, source range, parent, context and the values as own children. */
    const node: Node
    var name: string
    var nameLocation: Option<string>
    /** The enum's documentation, held as a plain field. */
    var documentation: DocValue

    /**
     * Appends the values in their order, stores the documentation, then makes this
     * node the parent of every child, the documentation node included.
     */
    constructor(id: int, src: string, offset: int, name: string, members: seq<Node>,
                documentation: DocValue, nameLocation: Option<string>)
      modifies (set c | c in members || IsDoc(documentation, c))`parent
      ensures fresh(node) && node.nodeType == EnumDefinitionType
      ensures node.id == id && node.src == src && node.offset == offset
      ensures node.parent == null && node.context == null
      ensures this.name == name && this.nameLocation == nameLocation
      ensures this.documentation == documentation
      ensures Members() == members
      ensures Children() == DocNodes(documentation) + members
      ensures forall c :: c in Children() ==> c.parent == node
    {
      node := new Node(EnumDefinitionType, id, src, offset);
      this.name := name;
      this.nameLocation := nameLocation;
      this.documentation := NoDoc;
      new;
      var i := 0;
      while i < |members|
        invariant 0 <= i <= |members|
        invariant node.ownChildren == members[..i]
        invariant node.parent == null && node.context == null
        invariant this.name == name && this.nameLocation == nameLocation
      {
        var _ := node.AppendChild(members[i]);
        assert members[..i + 1] == members[..i] + [members[i]];
        i := i + 1;
      }
      assert members[..i] == members;
      this.documentation := documentation;
      node.AcceptChildren(Children());
    }

    /** `vMembers`: exactly the own children. */
    function Members(): seq<Node>
      reads this, node
    {
      node.ownChildren
    }

    /** `children`: the documentation, when it is a node, followed by the values. */
    function Children(): (r: seq<Node>)
      reads this, node
      ensures r == DocNodes(documentation) + Members()
      ensures |r| == |Members()| + (if documentation.DocNode? then 1 else 0)
    {
      DocNodes(documentation) + node.ownChildren
    }

    /** `vScope`: the parent node, with no context lookup. */
    function Scope(): (r: Node?)
      reads this, node
      ensures r == node.parent
    {
      node.parent
    }
  }
}
