/**
 * The part of Go's context package that the field store uses: an
 * immutable chain of key/value bindings rooted at an empty context, and
 * the lookup that returns the innermost binding of a key.
 */
module Contexts {

  import opened Options
  import opened Fields

  /**
   * A context key. Go compares keys by dynamic type and value, so a value
   * of the zax package's unexported type `key` never equals a key of any
   * other type, even one with the same text; only the zax package can
   * build a ZaxKey.
   */
  datatype ContextKey =
    | ZaxKey(name: string)
    | CallerKey(typeName: string, name: string)

  /** A value stored in a context: a field slice, or any other value. */
  datatype Any =
    | FieldSlice(fields: seq<Field>)
    | OtherValue(typeName: string, repr: string)

  /**
   * context.Background() (and context.TODO(), which carries no values
   * either), or a context derived by context.WithValue. A context value is
   * never changed: deriving one builds a new value that points at its parent.
   */
  datatype Context =
    | Background
    | WithValue(parent: Context, key: ContextKey, val: Any)

  /** ctx.Value(key): the innermost binding of key, or None. */
  function Value(ctx: Context, key: ContextKey): Option<Any> {
    match ctx
    case Background => None
    case WithValue(parent, k, v) => if k == key then Some(v) else Value(parent, key)
  }
}
