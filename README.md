# solc-typed-ast core, modelled in Dafny

This project models the deterministic core of solc-typed-ast. That library turns the
Solidity compiler's JSON AST into a typed, mutable graph of nodes. The model covers:

- the constant evaluator's integer, boolean and byte fragment (`src/types/eval_const.ts`),
  including `isConstant` over an expression datatype;
- documentation placement: doc-comment stripping, and the lookup and setters of
  preceding and dangling documentation (`src/ast/documentation.ts`), with its owner
  `YulObject`;
- cross-reference fields resolved through an `ASTContext`, the `-1` builtin sentinel,
  and the normaliser that rewrites unresolvable ids;
- in-place child-list edits, the fresh-id Yul builders and the modern node
  processor's id/src defaulting;
- remapping parsing, compiler-error filtering, hex/byte conversion and the XPath
  selector builder;
- the generic helpers `forAll`, `forAny`, `assert`, `deepFindIn`, `extractProperties`
  and `coerceArray`.

Each source file is one Dafny module. Pure code becomes functions and lemmas. Loops
become methods with invariants, each proved against a specification function. Node
classes whose fields are updated in place become classes with `modifies` frames.

The base classes `ASTNode` and `ASTContext` (`ast_node.ts`, `ast_reader.ts`) are not part
of this model. `Ast.Node` and `Ast.Context` are an abstract stand-in:

- a node has an id, a kind, a src, a source offset, a parent, a context and its own
  child list, with `appendChild`, `insertAtBeginning`, `removeChild` and
  `replaceChild`;
- a context is a map from id to node plus `lastId`, `nextId`, `locate`, `contains` and
  `register`.

Every concrete node class holds its base part as `node: Ast.Node`.

Some modules model the JavaScript runtime rather than the repository:

- `Wrappers`: results and options;
- `JsStrings`: `trim`, `split`, `join`, first-occurrence `replace` and `padEnd`;
- `Numeric`: digits, big-endian bytes and `BigInt(string)` (`Numeric.BigIntFromString`);
- `BigIntBits`: two's-complement `& | ^ ~ << >>` on unbounded integers;
- `Json`: JavaScript values with own properties in order.

## Model

| member | source | states |
|---|---|---|
| Hex.HexToBytes | src/misc/hex.ts:1-7 | the array has `|hex|/2` bytes, and byte i is the value of hex characters 2i and 2i+1 |
| Hex.HexRoundTrip | src/misc/hex.ts:1-11 | `hexToBytes(bytesToHex(b)) == b` for every byte sequence |
| Hex.BytesToHexAt | src/misc/hex.ts:9-11 | every byte becomes exactly two lowercase, zero-padded hex digits, in order |
| Hex.BytesToHexDigits | src/misc/hex.ts:9-11 | the output consists only of hex digits |
| Hex.HexDigitsValue | src/misc/hex.ts:9-11 | read as a hex numeral, the output is the big-endian value of the bytes |
| Hex.BufferFromHexRoundTrip | src/types/eval_const.ts:477-479 | `Buffer.from(bytesToHex(b), "hex")` gives back `b` |
| EvalConst.ToDec | src/types/eval_const.ts:98-116 | only a boolean is rejected; a decimal is kept as is |
| EvalConst.ToDecBytes | src/types/eval_const.ts:107-113 | strings and buffers are read as big-endian unsigned integers |
| EvalConst.ToInt | src/types/eval_const.ts:118-136 | integers pass unchanged; booleans and non-integral decimals throw |
| EvalConst.ToIntBytes | src/types/eval_const.ts:127-133 | strings and buffers read as big-endian unsigned integers, and empty ones give 0 |
| EvalConst.ToIntDecimal | src/types/eval_const.ts:123-125 | a non-negative integral decimal converts to its value; a negative one throws, because `BigInt("0x-…")` is a syntax error |
| EvalConst.CoerceInteger | src/types/eval_const.ts:82-92 | booleans give 1 or 0, a buffer gives 1, a string throws, an integer passes |
| EvalConst.CoerceAgreesWithToInt | src/types/eval_const.ts:82-136 | on integers and non-negative decimals, `coerceInteger` and `toInt` agree |
| EvalConst.CastToType | src/types/eval_const.ts:142-196 | string to bytes and bytes to string keep the bytes; every other supported cast returns the value unchanged |
| EvalConst.CastToFixedBytes | src/types/eval_const.ts:157-192 | casting to `bytesN` keeps the first n bytes, padded on the right with zeros, read big-endian |
| EvalConst.CastBytesFit | src/types/eval_const.ts:162-174 | the padded or truncated hex string denotes exactly the first n bytes, zero-extended |
| EvalConst.BytesStringRoundTrip | src/types/eval_const.ts:157-193 | string to bytes to string is the identity |
| EvalConst.Demote | src/types/eval_const.ts:138-140 | a decimal becomes an integer exactly when it is integral, with the same value |
| EvalConst.EvalLiteralImpl | src/types/eval_const.ts:468-507 | a bool literal is true exactly for `"true"`; failures happen only for number literals; a number yields an integer or a decimal |
| EvalConst.LiteralUnderscores | src/types/eval_const.ts:486 | underscores in a number literal do not change its value |
| EvalConst.LiteralWithUnit | src/types/eval_const.ts:489-501 | an integral number with a known unit is multiplied by that unit's multiplier |
| EvalConst.LiteralUnknownUnit | src/types/eval_const.ts:492-494 | an unknown unit raises `EvalError` |
| EvalConst.LiteralDigits | src/types/eval_const.ts:485-504 | a decimal numeral without a unit evaluates to its value |
| EvalConst.HexLiteralRoundTrip | src/types/eval_const.ts:477-479 | a hex-string literal evaluates to the bytes it spells |
| EvalConst.EvalLiteral | src/types/eval_const.ts:679-709 | the literal's text is used when present; a hex-string literal always uses `hexValue` |
| EvalConst.TextlessStringLiteral | src/types/eval_const.ts:694-698 | a literal without text falls back to the bytes of its `hexValue` |
| EvalConst.EvalUnaryImpl | src/types/eval_const.ts:509-547 | `!` negates booleans only; `~` complements every bit of an integer; `+` returns a number unchanged; `-` negates an integer and a decimal (the numerator's sign flips); anything else is `EvalError` |
| EvalConst.NegateTwice | src/types/eval_const.ts:534-544 | negating twice gives back the number |
| EvalConst.ComplementTwice | src/types/eval_const.ts:518-524 | `~~x == x` |
| EvalConst.EvalBinaryImpl | src/types/eval_const.ts:549-677 | `&&` and `||` need two booleans; two strings are rejected by equality and comparison; equality with a boolean is identity, otherwise the exact equality of the two `toDec` values; a comparison is the exact order of the two `toDec` values; bitwise operators act on `toInt` of both operands; other operators raise `EvalError` |
| EvalConst.IntegerComparisons | src/types/eval_const.ts:573-619 | on two integers `< <= > >= == !=` give the ordinary integer results |
| EvalConst.NotEqualNegatesEqual | src/types/eval_const.ts:566-593 | `!=` is defined exactly when `==` is, and is its negation |
| EvalConst.EqualitySymmetric | src/types/eval_const.ts:566-593 | `==` is symmetric |
| EvalConst.LessIsFlippedGreater | src/types/eval_const.ts:595-622 | `l < r` is `r > l` |
| EvalConst.EqualityReadsBytes | src/types/eval_const.ts:577-590 | an integer equals a buffer exactly when it is the buffer's big-endian value |
| EvalConst.ShiftOperatorsRoundTrip | src/types/eval_const.ts:649-674 | `(a << n) >> n == a` |
| EvalConst.EvalIndexAccess | src/types/eval_const.ts:766-810 | a non-integer index raises `EvalError`; a buffer yields the byte at the index (negative indices count from the end) and fails out of range; any other base fails |
| EvalConst.IndexInteger | src/types/eval_const.ts:779-795 | indexing an integer reads its even-length hex form one byte per two digits |
| EvalConst.EvalYulLiteral | src/types/eval_const.ts:300-312 | a bool literal is 1 for `"true"` and 0 otherwise; a number literal succeeds exactly when its text parses as a BigInt |
| EvalConst.YulNumberLiteral | src/types/eval_const.ts:307-308 | the decimal text of any integer evaluates back to it |
| EvalConst.YulStringLiteral | src/types/eval_const.ts:301-303 | given the UTF-8 bytes of the string: up to 32 bytes are read as a word padded on the right with zero bytes; more are read as they are |
| EvalConst.EvalYulBinaryBitwise | src/types/eval_const.ts:365-395 | fails exactly for operators outside `and or xor shl shr sar byte` |
| EvalConst.YulShiftValues | src/types/eval_const.ts:368-375 | `shl(n, x)` is `x * 2^n` and `shr(n, x)` and `sar(n, x)` are `x / 2^n` rounded down, for n ≥ 0; a negative amount shifts the other way |
| EvalConst.YulAndBits | src/types/eval_const.ts:381-383 | bit i of `and(l, r)` is set exactly when bit i is set in both arguments (two's complement) |
| EvalConst.YulOrBits | src/types/eval_const.ts:377-379 | bit i of `or(l, r)` is set exactly when bit i is set in either argument |
| EvalConst.YulXorBits | src/types/eval_const.ts:385-387 | bit i of `xor(l, r)` is set exactly when bit i is set in one argument only |
| EvalConst.YulShiftRightBits | src/types/eval_const.ts:372-375 | bit i of `shr(n, x)` is bit i + n of `x` |
| EvalConst.YulShiftRoundTrip | src/types/eval_const.ts:368-375 | `shr(n, shl(n, x)) == x` |
| EvalConst.YulByte | src/types/eval_const.ts:389-392 | `byte(n, w)` is byte n of a 32-byte big-endian word |
| EvalConst.YulByteOutOfRange | src/types/eval_const.ts:389-392 | `byte(n, x)` is 0 for n ≥ 32 |
| ConstantExpr.IsConstant | src/types/eval_const.ts:198-298 | unknown nodes, non-constant variables, unresolved identifiers and impure or user-defined calls are never constant |
| ConstantExpr.AsWrittenAtLatest | src/types/eval_const.ts:198-298 | at the latest version, the code as written and the corrected definition agree |
| ConstantExpr.DependsOnlyOnVersion | src/types/eval_const.ts:285-295 | the verdict depends only on the builtin table at the requested version |
| ConstantExpr.MorePureBuiltins | src/types/eval_const.ts:285-295 | making more builtins pure never makes a constant expression non-constant |
| ConstantExpr.NestedBuiltinIgnoresVersion | src/types/eval_const.ts:210-292 | the code as written judges nested builtins at the latest version, not the requested one |
| Documentation.ExtractDocumentationText | src/ast/documentation.ts:4-21 | the result is the line-by-line cleaning of the block, joined, and has no leading or trailing whitespace |
| Documentation.CleanLines | src/ast/documentation.ts:10-18 | one cleaned line per input line, in order |
| Documentation.SingleLineComment | src/ast/documentation.ts:7-20 | `"/// t"` gives back `t` |
| Documentation.BlockComment | src/ast/documentation.ts:7-20 | `"/** t */"` gives back `t` |
| Documentation.FirstPreceding | src/ast/documentation.ts:53-67 | the first child whose offset is at most the owner's, scanning front to back |
| Documentation.LastDangling | src/ast/documentation.ts:107-121 | the last child whose offset is after the owner's, scanning back to front |
| Documentation.GetDocumentation | src/ast/documentation.ts:43-70 | the stored string when defined, otherwise the first preceding documentation child |
| Documentation.GetDanglingDocumentation | src/ast/documentation.ts:97-124 | the stored string when defined, otherwise the last dangling documentation child |
| Documentation.SetDocumentation | src/ast/documentation.ts:72-95 | a new node replaces the old one in place, is a no-op when it is the same node, or is inserted first; a string removes the old node; reading back gives the value set |
| Documentation.SetDanglingDocumentation | src/ast/documentation.ts:126-149 | the same child-list edits as `setDocumentation`, except that a new node is appended last; a string reads back; a node reads back when it was appended, was already there, or replaced the old node where the lookup found it; when the old node also occurs earlier, `replaceChild` swaps that earlier occurrence and the old node still reads back |
| Documentation.LastDanglingKept | src/ast/documentation.ts:137 | overwriting a child before the found dangling node leaves that node found |
| Documentation.FirstPrecedingInserted | src/ast/documentation.ts:86 | a node inserted first is the one found |
| Documentation.FirstPrecedingReplaced | src/ast/documentation.ts:83 | replacing the found node in place keeps its position found |
| Documentation.LastDanglingAppended | src/ast/documentation.ts:140 | a dangling node appended last is the one found |
| YulObjectNode.YulObject.constructor | src/ast/implementation/yul/declaration/yul_object.ts:24-45 | the code is the first child and the sub-objects follow in order, all parented; documentation is set after them and reads back |
| YulObjectNode.AppendEach | src/ast/implementation/yul/declaration/yul_object.ts:40-42 | the sub-objects are appended after the existing children, in order, and each gets the object as its parent |
| YulObjectNode.YulObject.GetDocumentationValue | src/ast/implementation/yul/declaration/yul_object.ts:53-55 | the preceding-documentation lookup over this node's children |
| YulObjectNode.YulObject.SetDocumentationValue | src/ast/implementation/yul/declaration/yul_object.ts:57-59 | the string field becomes the string or is cleared; a new node replaces the old one at its index, is a no-op when it is the same node, or is inserted first; a string or nothing removes the old node; the parents of the new and old node are updated and no other child's parent changes; a string, or a node at or before the owner's offset, reads back |
| YulObjectNode.YulObject.GetDanglingDocumentationValue | src/ast/implementation/yul/declaration/yul_object.ts:69-71 | the dangling-documentation lookup |
| YulObjectNode.YulObject.SetDanglingDocumentationValue | src/ast/implementation/yul/declaration/yul_object.ts:73-75 | the same child-list and parent edits as the `documentation` setter, except that a new node is appended last; reads back as `Documentation.SetDanglingDocumentation` states |
| CompileUtils.MatchRemapping | src/compile/utils.ts:105 | a match splits the entry into `context:prefix=target`, with no `:` in the context, no `=` in the prefix and a non-empty target |
| CompileUtils.RemappingWithContext | src/compile/utils.ts:105-113 | every well-formed `context:prefix=target` is matched to exactly those three parts |
| CompileUtils.RemappingWithoutContext | src/compile/utils.ts:113 | an entry without a context part gets context `""` |
| CompileUtils.ContextGroupSkipped | src/compile/utils.ts:105 | `a=b:c` has no context; the colon belongs to the target |
| CompileUtils.ParsePathRemapping | src/compile/utils.ts:104-117 | succeeds exactly when every entry matches, giving one triple per entry in order; otherwise it fails naming an entry that does not match |
| CompileUtils.EntryErrorsCases | src/compile/utils.ts:193-206 | an object contributes its `formattedMessage` when its severity is `"error"`; a string contributes itself unless it contains `"Warning"`; anything else contributes nothing |
| CompileUtils.CollectErrorsAppend | src/compile/utils.ts:190-208 | the errors of consecutive entries are concatenated in order |
| CompileUtils.CollectErrorsFromEntries | src/compile/utils.ts:190-208 | at most one error per entry, and each comes from some entry |
| CompileUtils.DetectCompileErrors | src/compile/utils.ts:186-212 | the filtered errors when `errors` is an array, otherwise none; fails exactly for `null` or `undefined` data or a `null` entry |
| CompileUtils.ConsistentlyContainsOneOf | src/compile/utils.ts:89-102 | true exactly when some listed property is present in every section |
| CompileUtils.SourceText | src/compile/utils.ts:124 | a section counts only when it is truthy and its `source` is a string |
| CompileUtils.FillFilesFromSources | src/compile/utils.ts:119-128 | the map after recording every section with source text, in order |
| CompileUtils.FilledRecordsSources | src/compile/utils.ts:119-128 | every section with source text is recorded under its name; other names keep what the map held |
| MiscUtils.ForAll | src/misc/utils.ts:3-11 | true exactly when the callback holds everywhere; the scan stops at the first failure |
| MiscUtils.ForAny | src/misc/utils.ts:13-21 | true exactly when the callback holds somewhere; the scan stops at the first success |
| MiscUtils.Assert | src/misc/utils.ts:23-33 | passes exactly when the condition holds, and otherwise fails with the message |
| MiscUtils.ExtractProperties | src/misc/utils.ts:82-87 | one value per key, in order: the i-th is `obj[keys[i]]` |
| MiscUtils.ExtractPropertiesAppend | src/misc/utils.ts:82-87 | extracting two key lists one after the other concatenates the results |
| MiscUtils.CoerceArray | src/misc/utils.ts:89 | an array is returned unchanged, and a single value is wrapped in a singleton |
| MiscUtils.MatchResult | src/misc/utils.ts:55-61 | without a callback, the matched value; with one, its result when truthy or a number, with a boolean result replaced by the value |
| MiscUtils.DeepFindIn | src/misc/utils.ts:45-68 | equals the property-order scan, which collects matches and searches nested arrays and objects |
| MiscUtils.FindInProperty | src/misc/utils.ts:54-64 | what one own property contributes: its match, or the full nested search below it |
| MiscUtils.MatchedValueCollected | src/misc/utils.ts:52-62 | without a callback, every value under the key is collected |
| MiscUtils.NestedFindsCollected | src/misc/utils.ts:62-64 | everything found inside a nested, unmatched value is in the result |
| MiscUtils.OnlyFirstTakesFirstContribution | src/misc/utils.ts:63-65 | `onlyFirst` returns the whole contribution of the first contributing property |
| MiscUtils.OnlyFirstIsPrefix | src/misc/utils.ts:63-65 | the `onlyFirst` result is a prefix of the full result, and it is empty only when the full result is |
| AstSearch.WrapEmpty | src/ast/ast_search.ts:156-159 | the result is empty exactly for an empty list, and otherwise starts with `l` |
| AstSearch.AttrSelector | src/ast/ast_search.ts:166-175 | an `@` is added unless the key already starts with one; numbers are bare and other values are quoted |
| AstSearch.CombineProperties | src/ast/ast_search.ts:161-185 | the attribute selectors, then `child::…`, then `ancestor::…` |
| AstSearch.PushAxis | src/ast/ast_search.ts:177-183 | one `child::` or `ancestor::` selector per nested search is appended, in order |
| AstSearch.EmptyGroupDropped | src/ast/ast_search.ts:193-204 | a group becomes its wrapped conditions; an empty group is filtered out |
| AstSearch.PushGroup | src/ast/ast_search.ts:193-203 | one wrapped selector per group item is appended, in order |
| AstSearch.NonEmpty | src/ast/ast_search.ts:204 | keeps exactly the non-empty selectors |
| AstSearch.BuildSelector | src/ast/ast_search.ts:187-207 | equals the selector specification: the tag followed by `[c1andc2…]`: the non-empty conditions joined with `and` and no spaces |
| AstSearch.SelectorShape | src/ast/ast_search.ts:204-206 | the bare tag exactly when there are no conditions, otherwise `tag[…]` |
| AstSearch.KeptBases | src/ast/ast_search.ts:123-127 | the direct bases kept are exactly the contracts, or every kind when interfaces are allowed |
| AstSearch.PushNewAncestors | src/ast/ast_search.ts:130-134 | appends only ancestors whose name is not yet present, and every ancestor's name ends up present |
| AstSearch.GetParentsRecursive | src/ast/ast_search.ts:119-137 | succeeds when every base resolves; every entry is a kept ancestor of the contract (reached through kept bases); the direct bases come first, every later entry has a new name, and every entry's kept bases have their names present |
| AstSearch.WalkRound | src/ast/ast_search.ts:128-135 | one round of the outer loop: succeeds when every base resolves, keeps the walk invariant for one more entry and only appends; every entry, the pushed ones included, is a kept ancestor of the contract |
| AstSearch.WalkStepAncestors | src/ast/ast_search.ts:128-135 | the entries pushed from the walk of one entry are ancestors of that entry, so of the contract too |
| AstSearch.AncestorTrans | src/ast/ast_search.ts:128-135 | an ancestor of an ancestor is an ancestor: the recursion on one entry only reaches further up the same inheritance graph |
| YulFunctionCallNode.YulFunctionCall.constructor | src/ast/implementation/yul/expression/yul_function_call.ts:20-32 | the name and arguments are the given ones, and all are parented to the call |
| YulFunctionCallNode.YulFunctionCall.Children | src/ast/implementation/yul/expression/yul_function_call.ts:34-36 | the callee identifier followed by the arguments in order |
| YulFunctionCallNode.YulFunctionCall.RemoveChild | src/ast/implementation/yul/expression/yul_function_call.ts:38-50 | a non-argument fails and changes nothing; otherwise its first occurrence is deleted with order kept, its parent is cleared, and it is returned |
| YulFunctionCallNode.YulFunctionCall.AppendChild | src/ast/implementation/yul/expression/yul_function_call.ts:52-58 | the node becomes the last argument, parented to the call |
| YulFunctionCallNode.RemoveAppended | src/ast/implementation/yul/expression/yul_function_call.ts:38-58 | removing a just-appended argument restores the list |
| YulFunctionCallNode.YulFunctionCall.ReferencedDeclaration | src/ast/implementation/yul/expression/yul_function_call.ts:77-79 | the callee identifier's reference, looked up in its context: fails without a context, and otherwise is the node stored under that id, if any |
| YulFunctionCallNode.YulFunctionCall.FunctionCallType | src/ast/implementation/yul/expression/yul_function_call.ts:70-72 | the callee identifier's reference type |
| YulIdentifierNode.ReferenceForms | src/ast/implementation/yul/expression/yul_identifier.ts:28-32 | a node reference and an id reference store the same id unless it is 0; id 0 and no reference store -1 |
| YulIdentifierNode.YulIdentifier.constructor | src/ast/implementation/yul/expression/yul_identifier.ts:18-33 | stores the name and the normalised reference |
| YulIdentifierNode.YulIdentifier.ReferencedDeclaration | src/ast/implementation/yul/expression/yul_identifier.ts:40-42 | the context lookup of the stored id |
| YulIdentifierNode.YulIdentifier.SetReferencedDeclaration | src/ast/implementation/yul/expression/yul_identifier.ts:44-54 | nothing stores -1; a node from another context fails with no change; otherwise its id is stored and reads back |
| YulIdentifierNode.YulIdentifier.IdentifierType | src/ast/implementation/yul/expression/yul_identifier.ts:59-63 | UserDefined exactly when the lookup finds a node, otherwise Builtin |
| IdentifierPathNode.IdentifierPath.constructor | src/ast/implementation/meta/identifier_path.ts:16-21 | stores the name and reference as given |
| IdentifierPathNode.IdentifierPath.ReferencedDeclaration | src/ast/implementation/meta/identifier_path.ts:28-30 | the context lookup of the stored id |
| IdentifierPathNode.IdentifierPath.SetReferencedDeclaration | src/ast/implementation/meta/identifier_path.ts:32-42 | nothing stores -1; a node from another context fails with no change; otherwise its id is stored |
| UserDefinedTypeNameNode.UserDefinedTypeName.constructor | src/ast/implementation/type/user_defined_type_name.ts:23-39 | stores the fields as given, and the path is parented |
| UserDefinedTypeNameNode.UserDefinedTypeName.Children | src/ast/implementation/type/user_defined_type_name.ts:41-43 | only the path, when present |
| UserDefinedTypeNameNode.UserDefinedTypeName.ReferencedDeclaration | src/ast/implementation/type/user_defined_type_name.ts:48-50 | the context lookup of the stored id |
| UserDefinedTypeNameNode.UserDefinedTypeName.SetReferencedDeclaration | src/ast/implementation/type/user_defined_type_name.ts:52-58 | a node from another context fails with no change; otherwise its id is stored and reads back |
| ReturnNode.Return.constructor | src/ast/implementation/statement/return.ts:20-35 | stores the return-parameters id and the optional expression, all children parented |
| ReturnNode.Return.Children | src/ast/implementation/statement/return.ts:37-39 | the documentation node, then the expression, each only when present |
| ReturnNode.Return.FunctionReturnParameters | src/ast/implementation/statement/return.ts:44-46 | the context lookup of the stored id |
| ReturnNode.Return.SetFunctionReturnParameters | src/ast/implementation/statement/return.ts:48-54 | a node from another context fails with no change; otherwise its id is stored and reads back |
| StructDefinitionNode.StructDefinition.constructor | src/ast/implementation/declaration/struct_definition.ts:34-56 | the members are the children in order, after the documentation node, all parented |
| StructDefinitionNode.StructDefinition.Children | src/ast/implementation/declaration/struct_definition.ts:72-74 | the documentation node, if any, followed by the members |
| StructDefinitionNode.StructDefinition.Scope | src/ast/implementation/declaration/struct_definition.ts:79-81 | the context lookup of `scope` |
| StructDefinitionNode.StructDefinition.SetScope | src/ast/implementation/declaration/struct_definition.ts:83-89 | a node from another context fails with no change; otherwise its id is stored and reads back |
| EnumDefinitionNode.EnumDefinition.constructor | src/ast/implementation/declaration/enum_definition.ts:23-44 | the members are the children in order, after the documentation node, all parented |
| EnumDefinitionNode.EnumDefinition.Children | src/ast/implementation/declaration/enum_definition.ts:60-62 | the documentation node, if any, followed by the members |
| EnumDefinitionNode.EnumDefinition.Scope | src/ast/implementation/declaration/enum_definition.ts:67-69 | the parent node, not a context lookup |
| BuiltinNormalizer.IsSupportedNode | src/ast/postprocessing/builtin_referenced_declaration_normalizer.ts:20-27 | exactly identifiers, member accesses, identifier paths and user-defined type names are processed; Yul identifiers and documentation nodes are not |
| BuiltinNormalizer.NormalizedReference | src/ast/postprocessing/builtin_referenced_declaration_normalizer.ts:12-17 | negative and resolvable references are kept; a non-negative one the context cannot locate becomes -1 |
| BuiltinNormalizer.NormalizeIdempotent | src/ast/postprocessing/builtin_referenced_declaration_normalizer.ts:11-18 | running the pass twice is the same as running it once |
| BuiltinNormalizer.ProcessIdentifierPath | src/ast/postprocessing/builtin_referenced_declaration_normalizer.ts:11-18 | rewrites an identifier path's reference in place |
| BuiltinNormalizer.ProcessUserDefinedTypeName | src/ast/postprocessing/builtin_referenced_declaration_normalizer.ts:11-18 | rewrites a type name's reference in place |
| YulLiteralNode.ValueTextEvaluates | src/ast/implementation/yul/expression/yul_literal.ts:39 | the stored text of a number evaluates back to that number, and that of a boolean to 1 or 0 |
| YulLiteralNode.YulLiteral.constructor | src/ast/implementation/yul/expression/yul_literal.ts:27-42 | stores the kind, the value as text, the hex value and the type string |
| YulBuilders.MakeYulLiteral | src/ast/implementation/yul/algebra/yul_builders.ts:6-10 | a Number literal with id `lastId + 1` and src `"0:0:0"`, registered |
| YulBuilders.MakeYulIdentifier | src/ast/implementation/yul/algebra/yul_builders.ts:12-22 | an identifier with id `lastId + 1`, src `"0:0:0"` and no reference, registered |
| YulBuilders.GetBuiltInFunctionCall | src/ast/implementation/yul/algebra/yul_builders.ts:28-37 | registers the callee identifier, then a call over it and `args`, with consecutive ids |
| YulBuilders.IsNumericAsWritten | src/ast/implementation/yul/algebra/yul_builders.ts:24-26 | numbers, and hex-digit strings optionally prefixed by `0x` |
| YulBuilders.AsWrittenTakesNameForNumber | src/ast/implementation/yul/algebra/yul_builders.ts:24-26 | `"a"` passes the test as written, and the literal made from it cannot be evaluated |
| YulBuilders.NumericIsNumericAsWritten | src/ast/implementation/yul/algebra/yul_builders.ts:24-26 | the corrected test only narrows the one as written |
| YulBuilders.NumericLiteralEvaluates | src/ast/implementation/yul/algebra/yul_builders.ts:24-26 | every value the corrected test accepts gives a literal that evaluates, and a number evaluates to itself |
| YulBuilders.CoerceExpression | src/ast/implementation/yul/algebra/yul_builders.ts:41-52 | with `isNumeric` as written, numbers and hex-digit strings (names such as `a` included) become registered Number literals and other strings registered identifiers, each under the next id; expressions come back unchanged with nothing registered |
| YulBuilders.CoercedLiteralEvaluates | src/ast/implementation/yul/algebra/yul_builders.ts:41-52 | a value the intended numeric test accepts is coerced to a literal that evaluates, a number to itself |
| YulBuilders.CoercedNameFails | src/ast/implementation/yul/algebra/yul_builders.ts:41-52 | the name `a` is coerced to a Number literal `a`, which cannot be evaluated |
| YulBuilders.CoerceExpressionList | src/ast/implementation/yul/algebra/yul_builders.ts:54-61 | one result per element of the coerced array, in order, each as `coerceExpression` makes it, with fresh ids allocated consecutively and registered |
| NodeProcessor.Process | src/ast/modern/node_processor.ts:5-13 | a raw id that is not null or undefined is kept (0 included), otherwise the next id; src defaults to `"-1;-1;-1"`; the raw record is passed through |

## Left out

- `ast_node.ts` and `ast_reader.ts` (`ASTNode`, `ASTContext`, `ASTReader`) are not part of this model.
  - `Ast.Node` and `Ast.Context` stand in for them.
  - `register` is taken to raise `lastId` to the registered id. The builders depend on this when they call `lastId + 1` twice in a row.
  - `requiredContext` is taken to fail exactly when a node has no context.
- Source locations are not parsed from `src`: each node carries its offset explicitly.
- `TextEncoder` and `TextDecoder` are not modelled as such. In `evalYulLiteral`, `utf8ToHex` (src/types/eval_const.ts:73-77) is the explicit UTF-8 encoder `Numeric.Utf8Encode`. Everywhere else, string values of the evaluator are already-encoded byte sequences, so the `Buffer` `utf-8` conversions keep the bytes. `hexToUtf8` is left out.
- Decimal.js arithmetic, with its 100-digit precision, is left out:
  - `+ - * / % **` (src/types/eval_const.ts:624-647);
  - `evalYulBinaryArithmetic` and `evalYulTernary` (335-363, 444-466);
  - ordering of non-integral values.

  Decimals appear only as exact fractions built by literals and negation.
- EvalConst.EvalIndexAccess: a decimal base or index is excluded by its precondition, because reading it needs Decimal.js.
- EvalConst.CastToType: the integer branch (src/types/eval_const.ts:143-155) is excluded, because it depends on the unseen `clampIntToType`.
- `evalUnary`, `evalBinary`, `evalFunctionCall` and the Yul builtin dispatch are left out. They depend on the unseen type inference and builtin tables. `isConstant` takes the builtin table as a parameter.
- JavaScript numbers are integers here: NaN, infinities and fractional numbers do not occur.
- AstSearch.GetParentsRecursive takes a ghost rank map (the inheritance graph is acyclic) to justify termination. The source relies on the compiler for this.
- XPath query execution (`queryAll`) is not modelled. `AstSearch.FindQuery` builds the `//` query string only.
- `console.log` calls are left out (src/ast/documentation.ts:16, src/ast/ast_search.ts:205).
- MiscUtils.DeepFindIn:
  - a numeric `matchKey` is not modelled;
  - prototype (inherited) properties are not modelled, only own properties.
- Inherited (prototype) properties are not modelled anywhere: `Json.HasProperty` and `Json.Get` see own properties only, so CompileUtils.ConsistentlyContainsOneOf (JavaScript `in`) and MiscUtils.ExtractProperties (`obj[key]`) ignore the prototype chain. The keys used with them (`ast`, `legacyAST`, `AST`, `source`) are never inherited.
- MiscUtils.Assert: the failure carries the raw `message`; the `fmt(message, ...details)` formatting (src/misc/utils.ts:32) needs the pretty-printer, which is not part of this model.
- MiscUtils.ExtractProperties requires an object, because reading a key of `null` or `undefined` throws a TypeError; every caller passes an object.
- MiscUtils.DeepFindIn requires an object, because `Object.getOwnPropertyNames(null)` throws a TypeError; the recursion only descends into truthy objects and the callers pass objects.
- NodeProcessor.Process requires a raw record that is not `null` or `undefined`, because `raw.id` then throws a TypeError; the reader passes JSON objects only.
- CompileUtils.ConsistentlyContainsOneOf requires every section to be an object or array, because `in` on a primitive throws a TypeError in JavaScript.
- CompileUtils.FillFilesFromSources returns the new map instead of mutating a `Map` argument, and a Dafny `map` has no insertion order, so the iteration order of the source's `Map` is not modelled.
- `getBuiltinFunctionId` (src/ast/implementation/yul/algebra/yul_builders.ts:18-22) does the same as `makeYulIdentifier` and is represented by `YulBuilders.MakeYulIdentifier`.
- YulLiteralNode.YulLiteral.constructor: a `bigint` value and a `number` value share one integer case, `LitNumber`.
- Compiler download and invocation, the Yul algebra wrappers over mathjs, the reader-driven processors and the field-only node classes are outside this model. `YulLiteral` is modelled because the builders create it.

## Findings

| source | as written | input that shows it | evidently intended | confidence | as-written member | corrected member |
|---|---|---|---|---|---|---|
| src/ast/implementation/yul/algebra/yul_builders.ts:24-26 | `isNumeric` accepts any string of hex digits without a `0x` prefix, so a name such as `"a"` or `"add"` becomes a Number literal | `coerceExpression(ctx, "a")` makes a Number literal `"a"`, and `BigInt("a")` throws when it is evaluated | only numbers, `0x` hex numerals and decimal numerals are numeric; other strings are identifiers | medium, not executed | YulBuilders.CoercedNameFails | YulBuilders.NumericLiteralEvaluates |
| src/types/eval_const.ts:210-292 | the recursive calls of `isConstant` drop `version`, so nested nodes are judged at the latest compiler version | `f(g(1))`, where both builtins are pure in the requested version and neither is pure in the latest, is judged not constant | every recursive call passes the requested `version` on | medium, not executed | ConstantExpr.NestedBuiltinIgnoresVersion | ConstantExpr.DependsOnlyOnVersion |
