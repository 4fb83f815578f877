/**
 * The post-processing pass that marks references to builtins: a non-negative
 * reference that the reader's context cannot resolve is rewritten to -1.
 */
module BuiltinNormalizer {
  import opened Ast
  import opened IdentifierPathNode
  import opened UserDefinedTypeNameNode
  import YulIdentifierNode

  /** The node kinds the pass applies to, by their `type` tag. */
  const SupportedNodeTypes: set<string> :=
    {"Identifier", "MemberAccess", "IdentifierPath", "UserDefinedTypeName"}

  /**
   * `isSupportedNode`: identifiers, member accesses, identifier paths and user-defined
   * type names; Yul identifiers, which also carry a reference, are not normalised.
   */
  predicate IsSupportedNode(n: Node): (r: bool)
    reads n
    ensures r <==> n.nodeType in {"Identifier", "MemberAccess", IdentifierPathType, UserDefinedTypeNameType}
    ensures n.nodeType == YulIdentifierNode.YulIdentifierType ==> !r
    ensures n.nodeType == StructuredDocumentationType ==> !r
  {
    n.nodeType in SupportedNodeTypes
  }

  /**
   * The reference after the pass: afterwards every reference is either negative
   * (a builtin) or resolves in the context, and only unresolvable ones changed.
   */
  function NormalizedReference(ref: int, ctx: Context): (r: int)
    reads ctx
    ensures r < 0 || r in ctx.nodes
    ensures r == ref || r == -1
    ensures ref < 0 || ref in ctx.nodes ==> r == ref
    ensures ref >= 0 && ref !in ctx.nodes ==> r == -1
  {
    if ref >= 0 && ctx.Locate(ref).None? then -1 else ref
  }

  /** Running the pass a second time changes nothing. */
  lemma NormalizeIdempotent(ref: int, ctx: Context)
    ensures NormalizedReference(NormalizedReference(ref, ctx), ctx) == NormalizedReference(ref, ctx)
  {
  }

  /** `process` on an identifier path. */
  method ProcessIdentifierPath(n: IdentifierPath, ctx: Context)
    modifies n`referencedDeclaration
    ensures n.referencedDeclaration == NormalizedReference(old(n.referencedDeclaration), ctx)
  {
    if n.referencedDeclaration >= 0 && ctx.Locate(n.referencedDeclaration).None? {
      n.referencedDeclaration := -1;
    }
  }

  /** `process` on a user-defined type name. */
  method ProcessUserDefinedTypeName(n: UserDefinedTypeName, ctx: Context)
    modifies n`referencedDeclaration
    ensures n.referencedDeclaration == NormalizedReference(old(n.referencedDeclaration), ctx)
  {
    if n.referencedDeclaration >= 0 && ctx.Locate(n.referencedDeclaration).None? {
      n.referencedDeclaration := -1;
    }
  }
}
