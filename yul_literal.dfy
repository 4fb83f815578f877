/**
 * A Yul literal: its kind, its value as text, its hexadecimal form and its Yul type
 * string. Whatever value the constructor is given is stored through `toString`.
 */
module YulLiteralNode {
  import opened Ast
  import opened Wrappers
  import Numeric
  import EvalConst

  const YulLiteralType: string := "YulLiteral"

  /** The constructor's value argument: a string, a number, a boolean, or nothing. */
  datatype LiteralValue = LitString(s: string) | LitNumber(n: int) | LitBool(b: bool) | LitNone

  /** `value?.toString() ?? ""`: numbers in decimal, booleans as `true`/`false`, nothing as "". */
  function ValueText(v: LiteralValue): string {
    match v
    case LitString(s) => s
    case LitNumber(n) => Numeric.DecimalString(n)
    case LitBool(b) => if b then "true" else "false"
    case LitNone => ""
  }

  /**
   * The stored text reads back as the value it came from: a number literal evaluates
   * to the number, a boolean literal to 1 or 0.
   */
  lemma ValueTextEvaluates(v: LiteralValue)
    ensures v.LitNumber? ==> EvalConst.EvalYulLiteral(EvalConst.YulNumber, ValueText(v)) == Success(v.n)
    ensures v.LitBool? ==>
      EvalConst.EvalYulLiteral(EvalConst.YulBool, ValueText(v)) == Success(if v.b then 1 else 0)
  {
    if v.LitNumber? {
      Numeric.DecimalStringRoundTrip(v.n);
    }
  }

  class YulLiteral {
    /** The node part: id, source range, parent and context. */
    const node: Node
    var kind: EvalConst.YulLiteralKind
    var value: string
    var hexValue: string
    var typeString: string

    constructor(id: int, src: string, offset: int, kind: EvalConst.YulLiteralKind, value: LiteralValue,
                hexValue: string, typeString: string)
      ensures fresh(node) && node.nodeType == YulLiteralType
      ensures node.id == id && node.src == src && node.offset == offset
      ensures node.parent == null && node.context == null && node.ownChildren == []
      ensures this.kind == kind && this.value == ValueText(value)
      ensures this.hexValue == hexValue && this.typeString == typeString
    {
      node := new Node(YulLiteralType, id, src, offset);
      this.kind := kind;
      this.value := ValueText(value);
      this.hexValue := hexValue;
      this.typeString := typeString;
    }
  }
}
