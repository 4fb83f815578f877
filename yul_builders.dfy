/**
 * The Yul expression builders used by the arithmetic helpers: each one creates a node
 * with the next id of the context and the source range "0:0:0", and registers it.
 */
module YulBuilders {
  import opened Wrappers
  import opened Ast
  import Numeric
  import JsStrings
  import EvalConst
  import opened MiscUtils
  import opened YulLiteralNode
  import opened YulIdentifierNode
  import opened YulFunctionCallNode

  /** The source range every built node carries. */
  const BuiltSrc: string := "0:0:0"

  /** A Yul expression, by its class. */
  datatype YulExpression =
    | Lit(literal: YulLiteral)
    | Ident(identifier: YulIdentifier)
    | Call(call: YulFunctionCall)
    | OtherExpression(other: Node)

  /** The node part of an expression. */
  function ExprNode(e: YulExpression): Node {
    match e
    case Lit(l) => l.node
    case Ident(i) => i.node
    case Call(c) => c.node
    case OtherExpression(n) => n
  }

  /** `CastableToYulExpression`: an expression, a string or a number. */
  datatype Castable = CastNumber(n: int) | CastString(s: string) | CastExpression(e: YulExpression)

  /** A non-empty run of `0x` followed by hex digits. */
  predicate IsHexNumeral(s: string) {
    |s| > 2 && s[..2] == "0x" && Numeric.AllDigits(s[2..], 16)
  }

  /** A non-empty run of decimal digits. */
  predicate IsDecimalNumeral(s: string) {
    |s| > 0 && Numeric.AllDigits(s, 10)
  }

  /**
   * `isNumeric` as written: a number, or a string matching `^(0x)?[0-9a-fA-F]+$`,
   * which lets bare hex digits through, so names such as `a` or `add` count as numbers.
   */
  predicate IsNumericAsWritten(v: Castable) {
    match v
    case CastNumber(_) => true
    case CastString(s) => IsHexNumeral(s) || (|s| > 0 && Numeric.AllDigits(s, 16))
    case CastExpression(_) => false
  }

  /** `isNumeric` as intended: a number, a `0x` hex numeral or a decimal numeral. */
  predicate IsNumeric(v: Castable) {
    match v
    case CastNumber(_) => true
    case CastString(s) => IsHexNumeral(s) || IsDecimalNumeral(s)
    case CastExpression(_) => false
  }

  /** The name `a` is taken for a number literal as written, and that literal cannot be evaluated. */
  lemma AsWrittenTakesNameForNumber()
    ensures IsNumericAsWritten(CastString("a")) && !IsNumeric(CastString("a"))
    ensures EvalConst.EvalYulLiteral(EvalConst.YulNumber, "a").Failure?
  {
    assert Numeric.IsDigit("a"[0], 16);
    assert !Numeric.IsDigit("a"[0], 10);
    assert JsStrings.Trim("a") == "a" by {
      JsStrings.TrimUnchanged("a");
    }
  }

  /** The intended test accepts only what the written one accepts. */
  lemma NumericIsNumericAsWritten(v: Castable)
    ensures IsNumeric(v) ==> IsNumericAsWritten(v)
  {
    if v.CastString? && IsDecimalNumeral(v.s) {
      forall i | 0 <= i < |v.s| ensures Numeric.IsDigit(v.s[i], 16) {
        assert Numeric.IsDigit(v.s[i], 10);
      }
    }
  }

  /** The text a number or a string gets as a literal. */
  function LiteralArgument(v: Castable): LiteralValue
    requires !v.CastExpression?
  {
    if v.CastNumber? then LitNumber(v.n) else LitString(v.s)
  }

  /** Every numeric value, as intended, makes a number literal that evaluates; a number to itself. */
  lemma NumericLiteralEvaluates(v: Castable)
    requires IsNumeric(v)
    ensures EvalConst.EvalYulLiteral(EvalConst.YulNumber, ValueText(LiteralArgument(v))).Success?
    ensures v.CastNumber? ==>
      EvalConst.EvalYulLiteral(EvalConst.YulNumber, ValueText(LiteralArgument(v))) == Success(v.n)
  {
    if v.CastNumber? {
      ValueTextEvaluates(LitNumber(v.n));
    } else if IsHexNumeral(v.s) {
      assert v.s == "0x" + v.s[2..];
      Numeric.HexPrefixed(v.s[2..]);
    } else {
      DecimalNumeralParses(v.s);
    }
  }

  /** `BigInt` reads a decimal numeral. */
  lemma DecimalNumeralParses(s: string)
    requires IsDecimalNumeral(s)
    ensures Numeric.BigIntFromString(s).Some?
  {
    assert Numeric.IsDigit(s[0], 10);
    assert Numeric.IsDigit(s[|s| - 1], 10);
    JsStrings.TrimUnchanged(s);
    if |s| >= 2 {
      assert Numeric.IsDigit(s[1], 10);
    }
  }

  /**
   * `makeYulLiteral`: a number literal with the next id, "0:0:0" as source, no hex
   * form and no type string, registered in the context.
   */
  method MakeYulLiteral(ctx: Context, value: LiteralValue) returns (lit: YulLiteral)
    requires ctx.Valid()
    modifies ctx`nodes, ctx`lastId
    ensures ctx.Valid()
    ensures fresh(lit) && fresh(lit.node)
    ensures lit.node.id == old(ctx.lastId) + 1 && lit.node.src == BuiltSrc && lit.node.offset == 0
    ensures lit.kind == EvalConst.YulNumber && lit.value == ValueText(value)
    ensures lit.hexValue == "" && lit.typeString == ""
    ensures lit.node.parent == null && lit.node.context == ctx
    ensures ctx.nodes == old(ctx.nodes)[lit.node.id := lit.node] && ctx.lastId == lit.node.id
  {
    lit := new YulLiteral(ctx.lastId + 1, BuiltSrc, 0, EvalConst.YulNumber, value, "", "");
    var registered := ctx.Register(lit.node);
  }

  /**
   * `makeYulIdentifier` (and `getBuiltinFunctionId`, which does the same): an
   * identifier with the given name, the next id and no reference, registered.
   */
  method MakeYulIdentifier(ctx: Context, name: string) returns (ident: YulIdentifier)
    requires ctx.Valid()
    modifies ctx`nodes, ctx`lastId
    ensures ctx.Valid()
    ensures fresh(ident) && fresh(ident.node)
    ensures ident.node.id == old(ctx.lastId) + 1 && ident.node.src == BuiltSrc && ident.node.offset == 0
    ensures ident.name == name && ident.referencedDeclaration == -1
    ensures ident.node.parent == null && ident.node.context == ctx
    ensures ctx.nodes == old(ctx.nodes)[ident.node.id := ident.node] && ctx.lastId == ident.node.id
  {
    ident := new YulIdentifier(ctx.lastId + 1, BuiltSrc, 0, name, NoReference);
    var registered := ctx.Register(ident.node);
  }

  /**
   * `getBuiltInFunctionCall`: registers the callee's identifier first, then the call,
   * so the two get consecutive ids; the call is the parent of the callee and of
   * every argument.
   */
  method GetBuiltInFunctionCall(ctx: Context, name: string, args: seq<Node>) returns (call: YulFunctionCall)
    requires ctx.Valid()
    modifies ctx`nodes, ctx`lastId, (set a | a in args)`parent
    ensures ctx.Valid()
    ensures fresh(call) && fresh(call.node) && fresh(call.vFunctionName) && fresh(call.vFunctionName.node)
    ensures call.vFunctionName.name == name && call.vFunctionName.referencedDeclaration == -1
    ensures call.vFunctionName.node.id == old(ctx.lastId) + 1 && call.node.id == old(ctx.lastId) + 2
    ensures call.node.src == BuiltSrc && call.vFunctionName.node.src == BuiltSrc
    ensures call.vArguments == args
    ensures forall c :: c in call.Children() ==> c.parent == call.node
    ensures call.node.context == ctx && call.vFunctionName.node.context == ctx
    ensures ctx.nodes == old(ctx.nodes)[call.vFunctionName.node.id := call.vFunctionName.node][call.node.id := call.node]
    ensures ctx.lastId == call.node.id
  {
    var ident := MakeYulIdentifier(ctx, name);
    call := new YulFunctionCall(ctx.lastId + 1, BuiltSrc, 0, ident, args);
    var registered := ctx.Register(call.node);
  }

  /** What `coerceExpression` made of `v`, as far as the objects `e` refers to show it. */
  ghost predicate CoercedFrom(v: Castable, e: YulExpression)
    reads if e.Lit? then {e.literal} else {}, if e.Ident? then {e.identifier} else {}
  {
    (v.CastExpression? ==> e == v.e) &&
    (IsNumericAsWritten(v) ==>
      e.Lit? && e.literal.kind == EvalConst.YulNumber && e.literal.value == ValueText(LiteralArgument(v))) &&
    (v.CastString? && !IsNumericAsWritten(v) ==>
      e.Ident? && e.identifier.name == v.s && e.identifier.referencedDeclaration == -1)
  }

  /**
   * `coerceExpression`, with `isNumeric` as written: a numeric value becomes a number
   * literal, any other string an identifier, both registered under the next id. An
   * expression is returned as it is and nothing is registered.
   */
  method CoerceExpression(ctx: Context, value: Castable) returns (e: YulExpression)
    requires ctx.Valid()
    modifies ctx`nodes, ctx`lastId
    ensures ctx.Valid()
    ensures CoercedFrom(value, e)
    ensures forall k :: k in old(ctx.nodes) ==> k in ctx.nodes && ctx.nodes[k] == old(ctx.nodes)[k]
    ensures value.CastExpression? ==> ctx.nodes == old(ctx.nodes) && ctx.lastId == old(ctx.lastId)
    ensures !value.CastExpression? ==>
      fresh(ExprNode(e)) && ExprNode(e).id == old(ctx.lastId) + 1 && ExprNode(e).src == BuiltSrc &&
      ExprNode(e).context == ctx && ctx.lastId == ExprNode(e).id &&
      ctx.nodes == old(ctx.nodes)[ExprNode(e).id := ExprNode(e)]
  {
    if IsNumericAsWritten(value) {
      var lit := MakeYulLiteral(ctx, LiteralArgument(value));
      e := Lit(lit);
    } else if value.CastString? {
      var ident := MakeYulIdentifier(ctx, value.s);
      e := Ident(ident);
    } else {
      e := value.e;
    }
  }

  /** A numeric value, as intended, is coerced to a number literal that evaluates. */
  lemma CoercedLiteralEvaluates(v: Castable, e: YulExpression)
    requires IsNumeric(v) && CoercedFrom(v, e)
    ensures e.Lit? && EvalConst.EvalYulLiteral(e.literal.kind, e.literal.value).Success?
    ensures v.CastNumber? ==> EvalConst.EvalYulLiteral(e.literal.kind, e.literal.value) == Success(v.n)
  {
    NumericIsNumericAsWritten(v);
    NumericLiteralEvaluates(v);
  }

  /** The name `a` is coerced to a number literal `a`, which cannot be evaluated. */
  lemma CoercedNameFails(e: YulExpression)
    requires CoercedFrom(CastString("a"), e)
    ensures e.Lit? && e.literal.kind == EvalConst.YulNumber && e.literal.value == "a"
    ensures EvalConst.EvalYulLiteral(e.literal.kind, e.literal.value).Failure?
  {
    AsWrittenTakesNameForNumber();
    assert ValueText(LitString("a")) == "a";
  }

  /** How many of the values `coerceExpression` builds a node for. */
  function NewNodes(items: seq<Castable>): (r: nat)
    ensures r <= |items|
  {
    if |items| == 0 then 0
    else NewNodes(items[..|items| - 1]) + (if items[|items| - 1].CastExpression? then 0 else 1)
  }

  /** The node built for the `j`-th value got the id after `base` and the nodes built before it. */
  predicate IdsInOrder(base: int, items: seq<Castable>, r: seq<YulExpression>)
    requires |r| <= |items|
  {
    forall j :: 0 <= j < |r| && !items[j].CastExpression? ==> ExprNode(r[j]).id == base + NewNodes(items[..j]) + 1
  }

  /** `n` is registered in `ctx` under its id and knows it. */
  ghost predicate Registered(ctx: Context, n: Node)
    reads ctx, n
  {
    n.id in ctx.nodes && ctx.nodes[n.id] == n && n.context == ctx
  }

  /** Coercing one more value keeps the ids in order and counts the new node. */
  lemma IdsStep(base: int, items: seq<Castable>, r: seq<YulExpression>, e: YulExpression)
    requires |r| < |items| && IdsInOrder(base, items, r)
    requires !items[|r|].CastExpression? ==> ExprNode(e).id == base + NewNodes(items[..|r|]) + 1
    ensures IdsInOrder(base, items, r + [e])
    ensures NewNodes(items[..|r| + 1]) == NewNodes(items[..|r|]) + (if items[|r|].CastExpression? then 0 else 1)
  {
    assert items[..|r| + 1][..|r|] == items[..|r|];
  }

  /**
   * `coerceExpressionList`: one expression per value of `coerceArray(values)`, in
   * order; the `k`-th new node gets the `k`-th next id and is registered, and nothing
   * registered before is changed.
   */
  method CoerceExpressionList(ctx: Context, values: OneOrMany<Castable>) returns (r: seq<YulExpression>)
    requires ctx.Valid()
    modifies ctx`nodes, ctx`lastId
    ensures ctx.Valid()
    ensures |r| == |CoerceArray(values)|
    ensures forall i :: 0 <= i < |r| ==> CoercedFrom(CoerceArray(values)[i], r[i])
    ensures IdsInOrder(old(ctx.lastId), CoerceArray(values), r)
    ensures forall i :: 0 <= i < |r| && !CoerceArray(values)[i].CastExpression? ==> Registered(ctx, ExprNode(r[i]))
    ensures ctx.lastId == old(ctx.lastId) + NewNodes(CoerceArray(values))
    ensures forall k :: k in old(ctx.nodes) ==> k in ctx.nodes && ctx.nodes[k] == old(ctx.nodes)[k]
  {
    var items := CoerceArray(values);
    ghost var base := ctx.lastId;
    r := [];
    var i := 0;
    while i < |items|
      invariant 0 <= i <= |items| && |r| == i && ctx.Valid()
      invariant forall j :: 0 <= j < i ==> CoercedFrom(items[j], r[j])
      invariant IdsInOrder(base, items, r)
      invariant forall j :: 0 <= j < i && !items[j].CastExpression? ==> Registered(ctx, ExprNode(r[j]))
      invariant ctx.lastId == base + NewNodes(items[..i])
      invariant forall k :: k in old(ctx.nodes) ==> k in ctx.nodes && ctx.nodes[k] == old(ctx.nodes)[k]
    {
      r := CoerceNext(ctx, base, items, r);
      i := i + 1;
    }
    assert items[..|items|] == items;
  }

  /** One step of `coerceExpressionList`: the next value is coerced and appended. */
  method CoerceNext(ctx: Context, ghost base: int, items: seq<Castable>, r: seq<YulExpression>) returns (r': seq<YulExpression>)
    requires ctx.Valid() && |r| < |items|
    requires forall j :: 0 <= j < |r| ==> CoercedFrom(items[j], r[j])
    requires IdsInOrder(base, items, r)
    requires forall j :: 0 <= j < |r| && !items[j].CastExpression? ==> Registered(ctx, ExprNode(r[j]))
    requires ctx.lastId == base + NewNodes(items[..|r|])
    modifies ctx`nodes, ctx`lastId
    ensures ctx.Valid() && |r'| == |r| + 1
    ensures forall j :: 0 <= j < |r'| ==> CoercedFrom(items[j], r'[j])
    ensures IdsInOrder(base, items, r')
    ensures forall j :: 0 <= j < |r'| && !items[j].CastExpression? ==> Registered(ctx, ExprNode(r'[j]))
    ensures ctx.lastId == base + NewNodes(items[..|r'|])
    ensures forall k :: k in old(ctx.nodes) ==> k in ctx.nodes && ctx.nodes[k] == old(ctx.nodes)[k]
  {
    var e := CoerceKeeping(ctx, items, r);
    IdsStep(base, items, r, e);
    AppendKept(ctx, items, r, e);
    r' := r + [e];
  }

  /**
   * `coerceExpression` on the next value, stated so that the values coerced before
   * keep what they were made of and stay registered.
   */
  method CoerceKeeping(ctx: Context, items: seq<Castable>, r: seq<YulExpression>) returns (e: YulExpression)
    requires ctx.Valid() && |r| < |items|
    requires forall j :: 0 <= j < |r| ==> CoercedFrom(items[j], r[j])
    requires forall j :: 0 <= j < |r| && !items[j].CastExpression? ==> Registered(ctx, ExprNode(r[j]))
    modifies ctx`nodes, ctx`lastId
    ensures ctx.Valid() && CoercedFrom(items[|r|], e)
    ensures forall j :: 0 <= j < |r| ==> CoercedFrom(items[j], r[j])
    ensures forall j :: 0 <= j < |r| && !items[j].CastExpression? ==> Registered(ctx, ExprNode(r[j]))
    ensures forall k :: k in old(ctx.nodes) ==> k in ctx.nodes && ctx.nodes[k] == old(ctx.nodes)[k]
    ensures items[|r|].CastExpression? ==> ctx.lastId == old(ctx.lastId)
    ensures !items[|r|].CastExpression? ==>
      ExprNode(e).id == old(ctx.lastId) + 1 && ctx.lastId == ExprNode(e).id && Registered(ctx, ExprNode(e))
  {
    e := CoerceExpression(ctx, items[|r|]);
  }

  /** Appending the next coerced value keeps every value's coercion and registration. */
  lemma AppendKept(ctx: Context, items: seq<Castable>, r: seq<YulExpression>, e: YulExpression)
    requires |r| < |items|
    requires forall j :: 0 <= j < |r| ==> CoercedFrom(items[j], r[j])
    requires forall j :: 0 <= j < |r| && !items[j].CastExpression? ==> Registered(ctx, ExprNode(r[j]))
    requires CoercedFrom(items[|r|], e)
    requires !items[|r|].CastExpression? ==> Registered(ctx, ExprNode(e))
    ensures forall j :: 0 <= j < |r| + 1 ==> CoercedFrom(items[j], (r + [e])[j])
    ensures forall j :: 0 <= j < |r| + 1 && !items[j].CastExpression? ==> Registered(ctx, ExprNode((r + [e])[j]))
  {
    forall j | 0 <= j < |r| + 1 ensures (r + [e])[j] == if j < |r| then r[j] else e {}
  }
}
