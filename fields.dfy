/**
 * Structured log fields, as the zap logger represents them: a key and a
 * typed value. The field store never looks inside a value, so only the
 * kinds of value it builds or that its callers typically pass are told
 * apart; every other zap field type is an opaque value.
 */
module Fields {

  datatype FieldValue =
    | NoValue                                      // the zero zap.Field carries no value
    | StringValue(s: string)                       // built by zap.String
    | StringsValue(items: seq<string>)             // built by zap.Strings: an array of strings
    | OpaqueValue(typeName: string, repr: string)  // any other zap field type

  datatype Field = Field(key: string, value: FieldValue)

  /** The zero value of zap.Field: empty key, no value. */
  const ZeroField: Field := Field("", NoValue)

  /** zap.String(key, s). */
  function String(key: string, s: string): Field {
    Field(key, StringValue(s))
  }

  /** zap.Strings(key, items). */
  function Strings(key: string, items: seq<string>): Field {
    Field(key, StringsValue(items))
  }

  /** The keys of a field sequence, in order. */
  function KeysOf(fs: seq<Field>): (ks: seq<string>)
    ensures |ks| == |fs|
    ensures forall i :: 0 <= i < |fs| ==> ks[i] == fs[i].key
  {
    if fs == [] then [] else [fs[0].key] + KeysOf(fs[1..])
  }
}
