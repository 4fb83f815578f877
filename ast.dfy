/**
 * The node and context base classes every concrete node builds on. Their source
 * (`ast_node.ts` and the `ASTContext` class of `ast_reader.ts`) is not part of this
 * model; what is written here is the behaviour the concrete node classes rely on:
 * a node's id, source range, parent link, context link and list of own children,
 * the four child-list edits, and a context mapping ids to registered nodes.
 */
module Ast {
  import opened Wrappers

  /** The `type` tag of a `StructuredDocumentation` node. */
  const StructuredDocumentationType: string := "StructuredDocumentation"

  /** `Array.prototype.indexOf` on references, with -1 as None: the first position of `x`. */
  function PositionOf<T(==)>(s: seq<T>, x: T): (r: Option<nat>)
    ensures r.None? <==> x !in s
    ensures r.Some? ==> r.value < |s| && s[r.value] == x && x !in s[..r.value]
  {
    if |s| == 0 then None
    else if s[0] == x then Some(0)
    else match PositionOf(s[1..], x)
      case None => None
      case Some(i) =>
        assert s[..i + 1] == [s[0]] + s[1..][..i];
        Some(i + 1)
  }

  /** `pickNodes` of an optional node: the node alone, or nothing. */
  function NodesOf(n: Option<Node>): (r: seq<Node>)
    ensures n.None? ==> r == []
    ensures n.Some? ==> r == [n.value]
  {
    if n.Some? then [n.value] else []
  }

  /** `splice(i, 1)`: `s` without its element at `i`, the others in order. */
  function RemoveAt<T>(s: seq<T>, i: nat): (r: seq<T>)
    requires i < |s|
    ensures |r| == |s| - 1
    ensures forall j :: 0 <= j < i ==> r[j] == s[j]
    ensures forall j :: i <= j < |r| ==> r[j] == s[j + 1]
  {
    s[..i] + s[i + 1..]
  }

  class Node {
    /** The `type` tag of the node's class, e.g. "YulObject". */
    const nodeType: string
    const id: int
    const src: string
    /** The offset of `sourceInfo`: the first number of `src`. */
    const offset: int
    var parent: Node?
    var context: Context?
    /** The list `ASTNodeWithChildren` keeps; nodes without children leave it empty. */
    var ownChildren: seq<Node>

    constructor(nodeType: string, id: int, src: string, offset: int)
      ensures this.nodeType == nodeType && this.id == id && this.src == src && this.offset == offset
      ensures parent == null && context == null && ownChildren == []
    {
      this.nodeType := nodeType;
      this.id := id;
      this.src := src;
      this.offset := offset;
      parent := null;
      context := null;
      ownChildren := [];
    }

    /** `requiredContext`: the context, or an error for a node that was never registered. */
    function RequiredContext(): (r: Result<Context, string>)
      reads this
      ensures r.Success? <==> context != null
      ensures r.Success? ==> r.value == context
    {
      if context == null then Failure("Context is not set for node") else Success(context)
    }

    /** `requiredContext.locate(id)`: the node registered under `id` in this node's context. */
    function LocateInContext(id: int): (r: Result<Option<Node>, string>)
      reads this, context
      ensures r.Failure? <==> context == null
      ensures r.Success? ==> (r.value.Some? <==> id in context.nodes)
      ensures r.Success? && r.value.Some? ==> r.value.value == context.nodes[id]
    {
      match RequiredContext()
      case Failure(e) => Failure(e)
      case Success(ctx) => Success(ctx.Locate(id))
    }

    /** `requiredContext.contains(n)`: `n` is registered in this node's context. */
    predicate SharesContext(n: Node)
      reads this, context
    {
      context != null && context.Contains(n)
    }

    /** A node of this node's context is found again under its id. */
    lemma SharedIsLocated(n: Node)
      requires SharesContext(n)
      ensures LocateInContext(n.id) == Success(Some(n))
    {
    }

    /** `acceptChildren`: this node becomes the parent of each of the given children. */
    method AcceptChildren(children: seq<Node>)
      modifies (set c | c in children)`parent
      ensures forall c :: c in children ==> c.parent == this
    {
      var i := 0;
      while i < |children|
        invariant 0 <= i <= |children|
        invariant forall j :: 0 <= j < i ==> children[j].parent == this
      {
        children[i].parent := this;
        i := i + 1;
      }
    }

    /** `appendChild`: the node becomes the last child and gets this node as its parent. */
    method AppendChild(n: Node) returns (r: Node)
      modifies this`ownChildren, n`parent
      ensures ownChildren == old(ownChildren) + [n]
      ensures n.parent == this && r == n
    {
      ownChildren := ownChildren + [n];
      n.parent := this;
      r := n;
    }

    /** `insertAtBeginning`: the node becomes the first child and gets this node as its parent. */
    method InsertAtBeginning(n: Node) returns (r: Node)
      modifies this`ownChildren, n`parent
      ensures ownChildren == [n] + old(ownChildren)
      ensures n.parent == this && r == n
    {
      ownChildren := [n] + ownChildren;
      n.parent := this;
      r := n;
    }

    /**
     * `removeChild`: a node that is not a child is an error and changes nothing;
     * otherwise its first occurrence is dropped and its parent link cleared.
     */
    method RemoveChild(n: Node) returns (r: Result<Node, string>)
      modifies this`ownChildren, n`parent
      ensures r.Failure? <==> n !in old(ownChildren)
      ensures r.Failure? ==> ownChildren == old(ownChildren) && n.parent == old(n.parent)
      ensures r.Success? ==> r.value == n && n.parent == null
      ensures r.Success? ==> ownChildren == RemoveAt(old(ownChildren), PositionOf(old(ownChildren), n).value)
    {
      match PositionOf(ownChildren, n)
      case None =>
        r := Failure("Reference node is not a child of current node");
      case Some(i) =>
        ownChildren := RemoveAt(ownChildren, i);
        n.parent := null;
        r := Success(n);
    }

    /**
     * `replaceChild(newNode, oldNode)`: the first occurrence of `oldNode` is overwritten
     * by `newNode`; `newNode` gets this node as parent, then `oldNode` loses its parent
     * (so replacing a node by itself leaves it without one).
     */
    method ReplaceChild(newNode: Node, oldNode: Node) returns (r: Result<Node, string>)
      modifies this`ownChildren, newNode`parent, oldNode`parent
      ensures r.Failure? <==> oldNode !in old(ownChildren)
      ensures r.Failure? ==> ownChildren == old(ownChildren) && unchanged(newNode`parent, oldNode`parent)
      ensures r.Success? ==> r.value == oldNode && oldNode.parent == null
      ensures r.Success? && newNode != oldNode ==> newNode.parent == this
      ensures r.Success? ==> ownChildren == old(ownChildren)[PositionOf(old(ownChildren), oldNode).value := newNode]
    {
      match PositionOf(ownChildren, oldNode)
      case None =>
        r := Failure("Reference node is not a child of current node");
      case Some(i) =>
        ownChildren := ownChildren[i := newNode];
        newNode.parent := this;
        oldNode.parent := null;
        r := Success(oldNode);
    }
  }

  /** The context: the registered nodes by id, and the highest id handed out so far. */
  class Context {
    var nodes: map<int, Node>
    var lastId: int

    /** Every node is registered under its own id, and no id exceeds `lastId`. */
    ghost predicate Valid()
      reads this
    {
      forall k :: k in nodes ==> nodes[k].id == k && k <= lastId
    }

    constructor()
      ensures Valid() && nodes == map[] && lastId == 0
    {
      nodes := map[];
      lastId := 0;
    }

    /** `locate(id)` */
    function Locate(id: int): (r: Option<Node>)
      reads this
      ensures r.Some? <==> id in nodes
      ensures r.Some? ==> r.value == nodes[id]
    {
      if id in nodes then Some(nodes[id]) else None
    }

    /** `contains(node)`: the node registered under the node's id is that very node. */
    predicate Contains(n: Node)
      reads this
    {
      n.id in nodes && nodes[n.id] == n
    }

    /** `nextId`: advances `lastId` and hands out the new value. */
    method NextId() returns (id: int)
      requires Valid()
      modifies this`lastId
      ensures Valid()
      ensures lastId == old(lastId) + 1 && id == lastId
      ensures id !in nodes
    {
      lastId := lastId + 1;
      id := lastId;
    }

    /**
     * `register(node)`: a taken id is an error; otherwise the node is recorded under
     * its id, `lastId` is raised to that id, and the node's context is this one.
     */
    method Register(n: Node) returns (r: Outcome<string>)
      requires Valid()
      modifies this`nodes, this`lastId, n`context
      ensures Valid()
      ensures r.Fail? <==> old(n.id in nodes)
      ensures r.Fail? ==> unchanged(this) && unchanged(n)
      ensures r.Pass? ==> nodes == old(nodes)[n.id := n] && n.context == this
      ensures r.Pass? ==> lastId == (if n.id > old(lastId) then n.id else old(lastId))
    {
      if n.id in nodes {
        r := Fail("The id was already taken");
      } else {
        nodes := nodes[n.id := n];
        if n.id > lastId {
          lastId := n.id;
        }
        n.context := this;
        r := Pass;
      }
    }
  }
}
