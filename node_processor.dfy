/**
 * The modern-format node processor: it turns a raw JSON node into the leading
 * constructor arguments of the node class, falling back to a fresh id and to the
 * "unknown" source range when the raw node lacks them.
 */
module NodeProcessor {
  import opened Json
  import opened Ast

  /** The source range of a node the compiler gave none: "-1;-1;-1". */
  const UnknownSrc: string := "-1;-1;-1"

  /** The constructor arguments `[id, src, undefined, raw]`; the third is always `undefined`. */
  datatype ConstructorArgs = ConstructorArgs(id: Value, src: Value, raw: Value)

  /** `x ?? y` takes `y` exactly for these. */
  predicate Nullish(v: Value) {
    v.Null? || v.Undefined?
  }

  /**
   * `process(reader, config, raw)`: `raw.id ?? reader.context.nextId` and
   * `raw.src ?? "-1;-1;-1"`. A fresh id is drawn only when the raw id is missing, so
   * only then does the context's `lastId` advance.
   */
  method Process(ctx: Context, raw: Value) returns (args: ConstructorArgs)
    requires ctx.Valid() && !Nullish(raw)
    modifies ctx`lastId
    ensures ctx.Valid() && args.raw == raw
    ensures !Nullish(Get(raw, "id")) ==> args.id == Get(raw, "id") && ctx.lastId == old(ctx.lastId)
    ensures Nullish(Get(raw, "id")) ==>
      args.id == Number(old(ctx.lastId) + 1) && ctx.lastId == old(ctx.lastId) + 1 && args.id.n !in ctx.nodes
    ensures args.src == (if Nullish(Get(raw, "src")) then Str(UnknownSrc) else Get(raw, "src"))
  {
    var id := Get(raw, "id");
    if Nullish(id) {
      var next := ctx.NextId();
      id := Number(next);
    }
    var src := Get(raw, "src");
    if Nullish(src) {
      src := Str(UnknownSrc);
    }
    args := ConstructorArgs(id, src, raw);
  }
}
