/**
 * The zax field store: an ordered sequence of log fields kept inside an
 * immutable context under one private key.
 */
module Zax {

  import opened Options
  import opened Fields
  import opened Contexts

  /** The private context key under which the field sequence is bound. */
  const LoggerKey: ContextKey := ZaxKey("zax")

  /** The key of the synthetic field that lists the keys GetFields did not find. */
  const AbsentFieldsKey: string := "_absentFields"

  /**
   * `ctx.Value(loggerKey).([]zap.Field)`: the field sequence bound to ctx,
   * or None when nothing is bound under the private key or what is bound
   * is not a field slice (the type assertion fails).
   */
  function BoundFields(ctx: Context): (r: Option<seq<Field>>)
    ensures ctx.Background? ==> r == None
    ensures ctx.WithValue? && ctx.key == LoggerKey ==>
      r == if ctx.val.FieldSlice? then Some(ctx.val.fields) else None
    ensures ctx.WithValue? && ctx.key != LoggerKey ==> r == BoundFields(ctx.parent)
  {
    match Value(ctx, LoggerKey)
    case Some(FieldSlice(fs)) => Some(fs)
    case _ => None
  }

  /**
   * GetAll: the field slice of the innermost binding of the private key,
   * or the empty (nil) sequence when there is none or it is not a field
   * slice; bindings under callers' keys are looked through.
   */
  function GetAll(ctx: Context): (r: seq<Field>)
    ensures ctx.Background? ==> r == []
    ensures ctx.WithValue? && ctx.key == LoggerKey ==>
      r == if ctx.val.FieldSlice? then ctx.val.fields else []
    ensures ctx.WithValue? && ctx.key != LoggerKey ==> r == GetAll(ctx.parent)
  {
    match BoundFields(ctx)
    case Some(fs) => fs
    case None => []
  }

  /**
   * Set: a child of ctx whose bound sequence is exactly `fields`, whatever
   * ctx had bound; no other key of the context sees a different value.
   * So Set after Set or after Append reads back only the last Set's fields.
   */
  function Set(ctx: Context, fields: seq<Field>): (r: Context)
    ensures GetAll(r) == fields
    ensures r.WithValue? && r.parent == ctx
    ensures forall k :: k != LoggerKey ==> Value(r, k) == Value(ctx, k)
  {
    WithValue(ctx, LoggerKey, FieldSlice(fields))
  }

  /**
   * Append: a child of ctx whose bound sequence is the new fields followed
   * by the ones ctx had bound; nothing is dropped or deduplicated, and no
   * other key of the context sees a different value. So two Appends read
   * back as the later batch, then the earlier batch, then the original
   * fields; and two children appended onto one parent each read back their
   * own fields in front of the parent's, never each other's.
   */
  function Append(ctx: Context, fields: seq<Field>): (r: Context)
    ensures GetAll(r) == fields + GetAll(ctx)
    ensures |GetAll(r)| == |fields| + |GetAll(ctx)|
    ensures r.WithValue? && r.parent == ctx
    ensures forall k :: k != LoggerKey ==> Value(r, k) == Value(ctx, k)
  {
    var merged := match BoundFields(ctx)
      case Some(existing) => fields + existing
      case None => fields;
    WithValue(ctx, LoggerKey, FieldSlice(merged))
  }

  /** Some field of fs has the given key. */
  predicate HasKey(fs: seq<Field>, key: string) {
    exists i :: 0 <= i < |fs| && fs[i].key == key
  }

  /**
   * The position of the first field of fs with the given key, or |fs|
   * when there is none: the order in which a front-to-back scan meets it.
   */
  function FirstIndex(fs: seq<Field>, key: string): (i: nat)
    ensures i <= |fs|
    ensures i < |fs| ==> fs[i].key == key
    ensures forall j :: 0 <= j < i ==> fs[j].key != key
    ensures i < |fs| <==> HasKey(fs, key)
  {
    if fs == [] then 0
    else if fs[0].key == key then 0
    else 1 + FirstIndex(fs[1..], key)
  }

  /** The first field of fs with the given key, if any. */
  function Find(fs: seq<Field>, key: string): (r: Option<Field>)
    ensures r.Some? <==> HasKey(fs, key)
    ensures r.Some? ==> r.value.key == key && r.value in fs
    ensures r.Some? ==>
      exists i :: 0 <= i < |fs| && fs[i] == r.value && (forall j :: 0 <= j < i ==> fs[j].key != key)
  {
    var i := FirstIndex(fs, key);
    if i < |fs| then Some(fs[i]) else None
  }

  /**
   * GetField: a front-to-back scan of the bound sequence that returns the
   * first field with the key and true, or the zero field and false when no
   * bound field has the key (including when nothing is bound).
   */
  method GetField(ctx: Context, key: string) returns (field: Field, ok: bool)
    ensures ok <==> HasKey(GetAll(ctx), key)
    ensures ok ==> field.key == key && field == GetAll(ctx)[FirstIndex(GetAll(ctx), key)]
    ensures !ok ==> field == ZeroField
    ensures (if ok then Some(field) else None) == Find(GetAll(ctx), key)
  {
    var bound := BoundFields(ctx);
    if bound.Some? {
      var fs := bound.value;
      for i := 0 to |fs|
        invariant forall j :: 0 <= j < i ==> fs[j].key != key
      {
        if fs[i].key == key {
          return fs[i], true;
        }
      }
    }
    return ZeroField, false;
  }

  /**
   * The fields GetFields finds for keys, in request order: for each key
   * that some field of fs has, that key's first field.
   */
  function FoundFields(fs: seq<Field>, keys: seq<string>): (r: seq<Field>)
    ensures |r| <= |keys|
    ensures forall i :: 0 <= i < |r| ==> r[i].key in keys && Find(fs, r[i].key) == Some(r[i])
    decreases |keys|
  {
    if keys == [] then []
    else
      var rest := FoundFields(fs, keys[..|keys| - 1]);
      var i := FirstIndex(fs, keys[|keys| - 1]);
      if i < |fs| then rest + [fs[i]] else rest
  }

  /** The requested keys that no field of fs has, in request order. */
  function AbsentKeys(fs: seq<Field>, keys: seq<string>): (r: seq<string>)
    ensures |r| + |FoundFields(fs, keys)| == |keys|
    ensures forall i :: 0 <= i < |r| ==> r[i] in keys && !HasKey(fs, r[i])
    decreases |keys|
  {
    if keys == [] then []
    else
      var rest := AbsentKeys(fs, keys[..|keys| - 1]);
      var k := keys[|keys| - 1];
      if FirstIndex(fs, k) < |fs| then rest else rest + [k]
  }

  /**
   * What GetFields returns: the found fields, then the synthetic field
   * under AbsentFieldsKey whose value lists the absent keys.
   */
  function FieldsFor(ctx: Context, keys: seq<string>): (r: seq<Field>)
    ensures 1 <= |r| <= |keys| + 1
    ensures r[|r| - 1] == Strings(AbsentFieldsKey, AbsentKeys(GetAll(ctx), keys))
    ensures forall i :: 0 <= i < |r| - 1 ==>
      r[i].key in keys && Find(GetAll(ctx), r[i].key) == Some(r[i])
  {
    var fs := GetAll(ctx);
    FoundFields(fs, keys) + [Strings(AbsentFieldsKey, AbsentKeys(fs, keys))]
  }

  /**
   * GetFields: looks each requested key up with GetField, collects the
   * fields found and the keys not found, and always ends with one field
   * under AbsentFieldsKey listing the keys not found.
   */
  method GetFields(ctx: Context, keys: seq<string>) returns (r: seq<Field>)
    ensures r == FieldsFor(ctx, keys)
    ensures |r| == |FoundFields(GetAll(ctx), keys)| + 1
    ensures r[|r| - 1] == Strings(AbsentFieldsKey, AbsentKeys(GetAll(ctx), keys))
  {
    var absentKeys: seq<string> := [];
    var fields: seq<Field> := [];
    for i := 0 to |keys|
      invariant fields == FoundFields(GetAll(ctx), keys[..i])
      invariant absentKeys == AbsentKeys(GetAll(ctx), keys[..i])
    {
      var field, ok := GetField(ctx, keys[i]);
      assert keys[..i + 1][..i] == keys[..i];
      if ok {
        fields := fields + [field];
      } else {
        absentKeys := absentKeys + [keys[i]];
      }
    }
    assert keys[..|keys|] == keys;
    r := fields + [Strings(AbsentFieldsKey, absentKeys)];
  }
}
