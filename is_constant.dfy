/**
 * `isConstant`: whether an expression or declaration can be evaluated at
 * compile time. References are unfolded into the tree, so an identifier
 * holds the declaration it refers to.
 */
module ConstantExpr {
  import opened Wrappers

  datatype CallKind = TypeConversion | OrdinaryCall | StructConstructorCall

  /** The nodes `isConstant` distinguishes; every other node is `OtherNode`. */
  datatype Node =
    | Literal
    | YulLiteral
    | UnaryOperation(sub: Node)
    | BinaryOperation(left: Node, right: Node)
    | TupleExpression(isInlineArray: bool, components: seq<Option<Node>>)
    | Conditional(condition: Node, whenTrue: Node, whenFalse: Node)
    | Identifier(ref: Option<Node>)
    | MemberAccess(ref: Option<Node>)
    | YulIdentifier(ref: Option<Node>)
    | IndexAccess(base: Node, index: Option<Node>)
    | FunctionCall(kind: CallKind, args: seq<Node>)
    | YulFunctionCall(isBuiltin: bool, name: string, yulArgs: seq<Node>)
    | VariableDeclaration(constant: bool, value: Option<Node>)
    | YulVariableDeclaration(yulValue: Option<Node>)
    | OtherNode

  /** The builtin table: `(name, version)` is in `pure` when builtin `name` exists and is pure in compiler `version`. */
  type BuiltinTable = set<(string, string)>

  predicate IsVariable(n: Node) {
    n.VariableDeclaration? || n.YulVariableDeclaration?
  }

  /**
   * `isConstant(expr, version)` as written: every recursive call leaves out
   * `version`, so nested nodes are judged against `latest`, the default.
   */
  function IsConstantAsWritten(e: Node, version: string, latest: string, pure: BuiltinTable): bool
    decreases e
  {
    match e
    case Literal => true
    case YulLiteral => true
    case UnaryOperation(sub) => IsConstantAsWritten(sub, latest, latest, pure)
    case BinaryOperation(l, r) =>
      IsConstantAsWritten(l, latest, latest, pure) && IsConstantAsWritten(r, latest, latest, pure)
    case TupleExpression(inline, comps) =>
      !inline && |comps| == 1 && comps[0].Some? && IsConstantAsWritten(comps[0].value, latest, latest, pure)
    case Conditional(c, t, f) =>
      IsConstantAsWritten(c, latest, latest, pure) && IsConstantAsWritten(t, latest, latest, pure)
      && IsConstantAsWritten(f, latest, latest, pure)
    case Identifier(ref) => ref.Some? && IsVariable(ref.value) && IsConstantAsWritten(ref.value, latest, latest, pure)
    case MemberAccess(ref) => ref.Some? && IsVariable(ref.value) && IsConstantAsWritten(ref.value, latest, latest, pure)
    case YulIdentifier(ref) => ref.Some? && IsVariable(ref.value) && IsConstantAsWritten(ref.value, latest, latest, pure)
    case IndexAccess(base, index) =>
      IsConstantAsWritten(base, latest, latest, pure) && index.Some? && IsConstantAsWritten(index.value, latest, latest, pure)
    case FunctionCall(kind, args) => kind == TypeConversion && |args| > 0 && IsConstantAsWritten(args[0], latest, latest, pure)
    case YulFunctionCall(builtin, name, args) =>
      builtin && (name, version) in pure && forall i :: 0 <= i < |args| ==> IsConstantAsWritten(args[i], latest, latest, pure)
    case VariableDeclaration(constant, value) => constant && value.Some? && IsConstantAsWritten(value.value, latest, latest, pure)
    case YulVariableDeclaration(value) => value.Some? && IsConstantAsWritten(value.value, latest, latest, pure)
    case OtherNode => false
  }

  /** `isConstant(expr, version)` with `version` passed on to every nested node. */
  function IsConstant(e: Node, version: string, pure: BuiltinTable): (r: bool)
    ensures e.OtherNode? ==> !r
    ensures e.VariableDeclaration? && !e.constant ==> !r
    ensures (e.Identifier? || e.MemberAccess? || e.YulIdentifier?) && (e.ref.None? || !IsVariable(e.ref.value)) ==> !r
    ensures e.YulFunctionCall? && r ==> e.isBuiltin && (e.name, version) in pure
    decreases e
  {
    match e
    case Literal => true
    case YulLiteral => true
    case UnaryOperation(sub) => IsConstant(sub, version, pure)
    case BinaryOperation(l, r) => IsConstant(l, version, pure) && IsConstant(r, version, pure)
    case TupleExpression(inline, comps) =>
      !inline && |comps| == 1 && comps[0].Some? && IsConstant(comps[0].value, version, pure)
    case Conditional(c, t, f) =>
      IsConstant(c, version, pure) && IsConstant(t, version, pure) && IsConstant(f, version, pure)
    case Identifier(ref) => ref.Some? && IsVariable(ref.value) && IsConstant(ref.value, version, pure)
    case MemberAccess(ref) => ref.Some? && IsVariable(ref.value) && IsConstant(ref.value, version, pure)
    case YulIdentifier(ref) => ref.Some? && IsVariable(ref.value) && IsConstant(ref.value, version, pure)
    case IndexAccess(base, index) =>
      IsConstant(base, version, pure) && index.Some? && IsConstant(index.value, version, pure)
    case FunctionCall(kind, args) => kind == TypeConversion && |args| > 0 && IsConstant(args[0], version, pure)
    case YulFunctionCall(builtin, name, args) =>
      builtin && (name, version) in pure && forall i :: 0 <= i < |args| ==> IsConstant(args[i], version, pure)
    case VariableDeclaration(constant, value) => constant && value.Some? && IsConstant(value.value, version, pure)
    case YulVariableDeclaration(value) => value.Some? && IsConstant(value.value, version, pure)
    case OtherNode => false
  }

  /** Called for the latest version, the code as written and the corrected definition agree. */
  lemma {:induction false} AsWrittenAtLatest(e: Node, latest: string, pure: BuiltinTable)
    ensures IsConstantAsWritten(e, latest, latest, pure) == IsConstant(e, latest, pure)
    decreases e, 1
  {
    match e
    case Literal =>
    case YulLiteral =>
    case UnaryOperation(sub) => AsWrittenAtLatest(sub, latest, pure);
    case BinaryOperation(l, r) => AsWrittenAtLatest(l, latest, pure); AsWrittenAtLatest(r, latest, pure);
    case TupleExpression(inline, comps) =>
      if |comps| == 1 && comps[0].Some? {
        AsWrittenAtLatest(comps[0].value, latest, pure);
      }
    case Conditional(c, t, f) =>
      AsWrittenAtLatest(c, latest, pure); AsWrittenAtLatest(t, latest, pure); AsWrittenAtLatest(f, latest, pure);
    case Identifier(ref) => if ref.Some? { AsWrittenAtLatest(ref.value, latest, pure); }
    case MemberAccess(ref) => if ref.Some? { AsWrittenAtLatest(ref.value, latest, pure); }
    case YulIdentifier(ref) => if ref.Some? { AsWrittenAtLatest(ref.value, latest, pure); }
    case IndexAccess(base, index) =>
      AsWrittenAtLatest(base, latest, pure);
      if index.Some? {
        AsWrittenAtLatest(index.value, latest, pure);
      }
    case FunctionCall(kind, args) => if |args| > 0 { AsWrittenAtLatest(args[0], latest, pure); }
    case YulFunctionCall(builtin, name, args) => AsWrittenArgsAtLatest(e, latest, pure);
    case VariableDeclaration(constant, value) => if value.Some? { AsWrittenAtLatest(value.value, latest, pure); }
    case YulVariableDeclaration(value) => if value.Some? { AsWrittenAtLatest(value.value, latest, pure); }
    case OtherNode =>
  }

  /** The arguments of a Yul call are judged alike by both definitions at the latest version. */
  lemma AsWrittenArgsAtLatest(e: Node, latest: string, pure: BuiltinTable)
    requires e.YulFunctionCall?
    ensures forall i :: 0 <= i < |e.yulArgs| ==>
      IsConstantAsWritten(e.yulArgs[i], latest, latest, pure) == IsConstant(e.yulArgs[i], latest, pure)
    decreases e, 0
  {
    forall i | 0 <= i < |e.yulArgs|
      ensures IsConstantAsWritten(e.yulArgs[i], latest, latest, pure) == IsConstant(e.yulArgs[i], latest, pure)
    {
      AsWrittenAtLatest(e.yulArgs[i], latest, pure);
    }
  }

  /** Two builtin tables that agree on `version`. */
  ghost predicate AgreeOn(pure: BuiltinTable, pure': BuiltinTable, version: string) {
    forall name: string :: (name, version) in pure <==> (name, version) in pure'
  }

  /** Whether an expression is constant for `version` depends only on the table's entries for `version`. */
  lemma {:induction false} DependsOnlyOnVersion(e: Node, version: string, pure: BuiltinTable, pure': BuiltinTable)
    requires AgreeOn(pure, pure', version)
    ensures IsConstant(e, version, pure) == IsConstant(e, version, pure')
    decreases e, 1
  {
    match e
    case Literal =>
    case YulLiteral =>
    case UnaryOperation(sub) => DependsOnlyOnVersion(sub, version, pure, pure');
    case BinaryOperation(l, r) => DependsOnlyOnVersion(l, version, pure, pure'); DependsOnlyOnVersion(r, version, pure, pure');
    case TupleExpression(inline, comps) =>
      if |comps| == 1 && comps[0].Some? {
        DependsOnlyOnVersion(comps[0].value, version, pure, pure');
      }
    case Conditional(c, t, f) =>
      DependsOnlyOnVersion(c, version, pure, pure');
      DependsOnlyOnVersion(t, version, pure, pure');
      DependsOnlyOnVersion(f, version, pure, pure');
    case Identifier(ref) => if ref.Some? { DependsOnlyOnVersion(ref.value, version, pure, pure'); }
    case MemberAccess(ref) => if ref.Some? { DependsOnlyOnVersion(ref.value, version, pure, pure'); }
    case YulIdentifier(ref) => if ref.Some? { DependsOnlyOnVersion(ref.value, version, pure, pure'); }
    case IndexAccess(base, index) =>
      DependsOnlyOnVersion(base, version, pure, pure');
      if index.Some? {
        DependsOnlyOnVersion(index.value, version, pure, pure');
      }
    case FunctionCall(kind, args) => if |args| > 0 { DependsOnlyOnVersion(args[0], version, pure, pure'); }
    case YulFunctionCall(builtin, name, args) => ArgsDependOnlyOnVersion(e, version, pure, pure');
    case VariableDeclaration(constant, value) => if value.Some? { DependsOnlyOnVersion(value.value, version, pure, pure'); }
    case YulVariableDeclaration(value) => if value.Some? { DependsOnlyOnVersion(value.value, version, pure, pure'); }
    case OtherNode =>
  }

  /** The arguments of a Yul call are judged alike under tables that agree on `version`. */
  lemma ArgsDependOnlyOnVersion(e: Node, version: string, pure: BuiltinTable, pure': BuiltinTable)
    requires AgreeOn(pure, pure', version) && e.YulFunctionCall?
    ensures forall i :: 0 <= i < |e.yulArgs| ==>
      IsConstant(e.yulArgs[i], version, pure) == IsConstant(e.yulArgs[i], version, pure')
    decreases e, 0
  {
    forall i | 0 <= i < |e.yulArgs|
      ensures IsConstant(e.yulArgs[i], version, pure) == IsConstant(e.yulArgs[i], version, pure')
    {
      DependsOnlyOnVersion(e.yulArgs[i], version, pure, pure');
    }
  }

  /** Declaring more builtins pure never makes an expression non-constant. */
  lemma {:induction false} MorePureBuiltins(e: Node, version: string, pure: BuiltinTable, pure': BuiltinTable)
    requires pure <= pure'
    requires IsConstant(e, version, pure)
    ensures IsConstant(e, version, pure')
    decreases e
  {
    match e
    case Literal =>
    case YulLiteral =>
    case UnaryOperation(sub) => MorePureBuiltins(sub, version, pure, pure');
    case BinaryOperation(l, r) => MorePureBuiltins(l, version, pure, pure'); MorePureBuiltins(r, version, pure, pure');
    case TupleExpression(inline, comps) => MorePureBuiltins(comps[0].value, version, pure, pure');
    case Conditional(c, t, f) =>
      MorePureBuiltins(c, version, pure, pure');
      MorePureBuiltins(t, version, pure, pure');
      MorePureBuiltins(f, version, pure, pure');
    case Identifier(ref) => MorePureBuiltins(ref.value, version, pure, pure');
    case MemberAccess(ref) => MorePureBuiltins(ref.value, version, pure, pure');
    case YulIdentifier(ref) => MorePureBuiltins(ref.value, version, pure, pure');
    case IndexAccess(base, index) =>
      MorePureBuiltins(base, version, pure, pure');
      MorePureBuiltins(index.value, version, pure, pure');
    case FunctionCall(kind, args) => MorePureBuiltins(args[0], version, pure, pure');
    case YulFunctionCall(builtin, name, args) =>
      forall i | 0 <= i < |args|
        ensures IsConstant(args[i], version, pure')
      {
        MorePureBuiltins(args[i], version, pure, pure');
      }
    case VariableDeclaration(constant, value) => MorePureBuiltins(value.value, version, pure, pure');
    case YulVariableDeclaration(value) => MorePureBuiltins(value.value, version, pure, pure');
  }

  /**
   * The code as written judges a nested builtin call against the latest
   * version: `f(g(literal))`, with both builtins pure in the requested version
   * but not in the latest, is constant for the corrected definition and not
   * for the code as written.
   */
  lemma NestedBuiltinIgnoresVersion()
    ensures var inner := YulFunctionCall(true, "g", [YulLiteral]);
            var outer := YulFunctionCall(true, "f", [inner]);
            var pure := {("f", "0.8.0"), ("g", "0.8.0")};
            IsConstant(outer, "0.8.0", pure) && !IsConstantAsWritten(outer, "0.8.0", "0.8.30", pure)
  {
    var inner := YulFunctionCall(true, "g", [YulLiteral]);
    var outer := YulFunctionCall(true, "f", [inner]);
    var pure := {("f", "0.8.0"), ("g", "0.8.0")};
    assert IsConstant(inner, "0.8.0", pure) by {
      assert IsConstant([YulLiteral][0], "0.8.0", pure);
    }
    assert [inner][0] == inner;
    assert !IsConstantAsWritten(inner, "0.8.30", "0.8.30", pure);
  }
}
