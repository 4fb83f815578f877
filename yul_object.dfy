/**
 * A Yul object: a name, a code block, sub-objects, and both kinds of documentation.
 * The code block and the sub-objects are its children; a structured documentation
 * node assigned by the constructor ends up first among them.
 */
module YulObjectNode {
  import opened Wrappers
  import opened Ast
  import opened Documentation

  const YulObjectType: string := "YulObject"

  /** The loop over the sub-objects: each is appended in turn, as the last child. */
  method AppendEach(parent: Node, nodes: seq<Node>)
    modifies parent`ownChildren, (set n | n in nodes)`parent
    ensures parent.ownChildren == old(parent.ownChildren) + nodes
    ensures forall n :: n in nodes ==> n.parent == parent
  {
    var i := 0;
    while i < |nodes|
      invariant 0 <= i <= |nodes|
      invariant parent.ownChildren == old(parent.ownChildren) + nodes[..i]
      invariant forall j :: 0 <= j < i ==> nodes[j].parent == parent
    {
      var _ := parent.AppendChild(nodes[i]);
      assert nodes[..i + 1] == nodes[..i] + [nodes[i]];
      i := i + 1;
    }
    assert nodes[..i] == nodes;
  }

  class YulObject {
    /** The node part: id, source range, parent, context and children. */
    const node: Node
    var name: string
    var vCode: Node
    var vSubObjects: seq<Node>
    var docString: Option<string>
    var danglingDocString: Option<string>

    /**
     * The code block is appended first, then the sub-objects in their order, and only
     * then is the documentation assigned, so a structured documentation node is put
     * in front of them.
     */
    constructor(id: int, src: string, offset: int, name: string, code: Node,
                subObjects: seq<Node>, documentation: DocValue)
      requires code.nodeType != StructuredDocumentationType
      requires forall s :: s in subObjects ==> s.nodeType != StructuredDocumentationType
      requires WellTyped(documentation)
      modifies code`parent, (set s | s in subObjects)`parent
      modifies (set d | IsDoc(documentation, d))`parent
      ensures node.nodeType == YulObjectType && node.id == id && node.src == src && node.offset == offset
      ensures fresh(node) && node.parent == null && node.context == null
      ensures this.name == name && vCode == code && vSubObjects == subObjects
      ensures docString == AsDocString(documentation) && danglingDocString == None
      ensures node.ownChildren ==
        (if documentation.DocNode? then [documentation.doc] else []) + [code] + subObjects
      ensures code.parent == node && forall s :: s in subObjects ==> s.parent == node
      ensures documentation.DocNode? ==> documentation.doc.parent == node
      ensures documentation.DocText? || (documentation.DocNode? && Precedes(documentation.doc, offset)) ==>
        PrecedingDocumentation(docString, node) == documentation
    {
      this.node := new Node(YulObjectType, id, src, offset);
      this.name := name;
      vCode := code;
      vSubObjects := subObjects;
      docString := None;
      danglingDocString := None;
      new;
      var _ := node.AppendChild(code);
      AppendEach(node, subObjects);
      assert code.parent == node;
      assert PrecedingDocumentation(None, node) == NoDoc;
      docString := SetDocumentation(node, None, documentation);
    }

    /** The `documentation` getter: the preceding-documentation lookup over this node. */
    method GetDocumentationValue() returns (d: DocValue)
      ensures d == PrecedingDocumentation(docString, node)
    {
      d := GetDocumentation(node, docString);
    }

    /**
     * The `documentation` setter: `setDocumentation` on this node and its string field,
     * with its edits of the child list and of the parent links.
     */
    method SetDocumentationValue(value: DocValue)
      requires WellTyped(value)
      modifies this`docString, node`ownChildren
      modifies (set c | c in node.ownChildren || IsDoc(value, c))`parent
      ensures docString == AsDocString(value)
      ensures value.DocText? || (value.DocNode? && Precedes(value.doc, node.offset)) ==>
        PrecedingDocumentation(docString, node) == value
      ensures value.DocNode? ==> value.doc in node.ownChildren
      ensures var previous := old(PrecedingDocumentation(docString, node));
        && (value.DocNode? && previous.DocNode? && value.doc != previous.doc ==>
              node.ownChildren == old(node.ownChildren)[PositionOf(old(node.ownChildren), previous.doc).value := value.doc]
              && value.doc.parent == node && previous.doc.parent == null)
        && (value.DocNode? && previous == value ==>
              node.ownChildren == old(node.ownChildren) && unchanged(value.doc`parent))
        && (value.DocNode? && !previous.DocNode? ==>
              node.ownChildren == [value.doc] + old(node.ownChildren) && value.doc.parent == node)
        && (!value.DocNode? && previous.DocNode? ==>
              node.ownChildren == RemoveAt(old(node.ownChildren), PositionOf(old(node.ownChildren), previous.doc).value)
              && previous.doc.parent == null)
        && (!value.DocNode? && !previous.DocNode? ==> node.ownChildren == old(node.ownChildren))
        && (forall c :: c in old(node.ownChildren) && !IsDoc(value, c) && !IsDoc(previous, c) ==>
              c.parent == old(c.parent))
    {
      docString := SetDocumentation(node, docString, value);
    }

    /** The `danglingDocumentation` getter: the dangling-documentation lookup over this node. */
    method GetDanglingDocumentationValue() returns (d: DocValue)
      ensures d == DanglingDocumentation(danglingDocString, node)
    {
      d := GetDanglingDocumentation(node, danglingDocString);
    }

    /**
     * The `danglingDocumentation` setter: `setDanglingDocumentation` on this node, with
     * its edits of the child list, of the parent links, and what reads back.
     */
    method SetDanglingDocumentationValue(value: DocValue)
      requires WellTyped(value)
      modifies this`danglingDocString, node`ownChildren
      modifies (set c | c in node.ownChildren || IsDoc(value, c))`parent
      ensures danglingDocString == AsDocString(value)
      ensures value.DocText? ==> DanglingDocumentation(danglingDocString, node) == value
      ensures var previous := old(DanglingDocumentation(danglingDocString, node));
        var found := old(LastDangling(node.ownChildren, node.offset));
        && (value.DocNode? && Dangles(value.doc, node.offset) && !previous.DocNode? ==>
              DanglingDocumentation(danglingDocString, node) == value)
        && (value.DocNode? && previous == value ==> DanglingDocumentation(danglingDocString, node) == value)
        && (value.DocNode? && Dangles(value.doc, node.offset) && previous.DocNode? &&
            PositionOf(old(node.ownChildren), previous.doc) == found ==>
              DanglingDocumentation(danglingDocString, node) == value)
        && (value.DocNode? && previous.DocNode? && PositionOf(old(node.ownChildren), previous.doc) != found ==>
              DanglingDocumentation(danglingDocString, node) == previous)
      ensures value.DocNode? ==> value.doc in node.ownChildren
      ensures var previous := old(DanglingDocumentation(danglingDocString, node));
        && (value.DocNode? && previous.DocNode? && value.doc != previous.doc ==>
              node.ownChildren == old(node.ownChildren)[PositionOf(old(node.ownChildren), previous.doc).value := value.doc]
              && value.doc.parent == node && previous.doc.parent == null)
        && (value.DocNode? && previous == value ==>
              node.ownChildren == old(node.ownChildren) && unchanged(value.doc`parent))
        && (value.DocNode? && !previous.DocNode? ==>
              node.ownChildren == old(node.ownChildren) + [value.doc] && value.doc.parent == node)
        && (!value.DocNode? && previous.DocNode? ==>
              node.ownChildren == RemoveAt(old(node.ownChildren), PositionOf(old(node.ownChildren), previous.doc).value)
              && previous.doc.parent == null)
        && (!value.DocNode? && !previous.DocNode? ==> node.ownChildren == old(node.ownChildren))
        && (forall c :: c in old(node.ownChildren) && !IsDoc(value, c) && !IsDoc(previous, c) ==>
              c.parent == old(c.parent))
    {
      danglingDocString := SetDanglingDocumentation(node, danglingDocString, value);
    }
  }
}
