/**
 * Properties of the zax field store that relate several operations:
 * replacement by Set, prepending by Append, first-match lookup and the
 * shape of the multi-key lookup.
 */
module ZaxProperties {

  import opened Options
  import opened Fields
  import opened Contexts
  import opened Zax

  /* ---------- Contexts that were never given fields ---------- */

  /** No binding anywhere in the chain uses the private key. */
  ghost predicate NeverGivenFields(ctx: Context) {
    match ctx
    case Background => true
    case WithValue(parent, k, _) => k != LoggerKey && NeverGivenFields(parent)
  }

  /** A context that never went through Set or Append has no fields; this is not an error. */
  lemma {:induction false} NeverGivenFieldsHasNone(ctx: Context)
    requires NeverGivenFields(ctx)
    ensures BoundFields(ctx) == None
    ensures GetAll(ctx) == []
    ensures forall key :: !HasKey(GetAll(ctx), key)
  {
    match ctx
    case Background =>
    case WithValue(parent, _, _) =>
      NeverGivenFieldsHasNone(parent);
  }

  /** Callers' own WithValue bindings do not disturb the bound sequence. */
  lemma {:induction false} CallerBindingsPreserveFields(ctx: Context, k: ContextKey, v: Any)
    requires k.CallerKey?
    ensures GetAll(WithValue(ctx, k, v)) == GetAll(ctx)
    ensures NeverGivenFields(ctx) ==> NeverGivenFields(WithValue(ctx, k, v))
  {
  }

  /* ---------- First-match lookup ---------- */

  /** A first-match scan of a concatenation looks at the front part first. */
  lemma {:induction false} FirstIndexConcat(front: seq<Field>, back: seq<Field>, key: string)
    ensures FirstIndex(front + back, key) ==
      if HasKey(front, key) then FirstIndex(front, key) else |front| + FirstIndex(back, key)
  {
    if front == [] {
      assert front + back == back;
    } else if front[0].key == key {
      assert (front + back)[0].key == key;
    } else {
      assert (front + back)[1..] == front[1..] + back;
      FirstIndexConcat(front[1..], back, key);
      {
        assert HasKey(front, key) <==> HasKey(front[1..], key) by {
          if HasKey(front, key) {
            var i :| 0 <= i < |front| && front[i].key == key;
            assert front[1..][i - 1].key == key;
          }
          if HasKey(front[1..], key) {
            var i :| 0 <= i < |front[1..]| && front[1..][i].key == key;
            assert front[i + 1].key == key;
          }
        }
      }
    }
  }

  /**
   * After Append, a key that the new fields carry is found there (the new
   * fields shadow the old); any other key is found as before.
   */
  lemma FindAfterAppend(ctx: Context, fields: seq<Field>, key: string)
    ensures Find(GetAll(Append(ctx, fields)), key) ==
      if HasKey(fields, key) then Find(fields, key) else Find(GetAll(ctx), key)
  {
    FirstIndexConcat(fields, GetAll(ctx), key);
  }

  /** Shadowing: a field appended under a key is what a later lookup of that key returns. */
  lemma Shadowing(ctx: Context, key: string, v: FieldValue)
    ensures Find(GetAll(Append(ctx, [Field(key, v)])), key) == Some(Field(key, v))
  {
  }

  /* ---------- The multi-key lookup ---------- */

  /** The requested keys that some field of fs has, in request order (a front-to-back reference definition). */
  ghost function PresentKeys(fs: seq<Field>, keys: seq<string>): seq<string> {
    if keys == [] then []
    else (if HasKey(fs, keys[0]) then [keys[0]] else []) + PresentKeys(fs, keys[1..])
  }

  /** The requested keys that no field of fs has, in request order (a front-to-back reference definition). */
  ghost function MissingKeys(fs: seq<Field>, keys: seq<string>): seq<string> {
    if keys == [] then []
    else (if HasKey(fs, keys[0]) then [] else [keys[0]]) + MissingKeys(fs, keys[1..])
  }

  lemma {:induction false} PresentMissingSnoc(fs: seq<Field>, keys: seq<string>, k: string)
    ensures PresentKeys(fs, keys + [k]) == PresentKeys(fs, keys) + (if HasKey(fs, k) then [k] else [])
    ensures MissingKeys(fs, keys + [k]) == MissingKeys(fs, keys) + (if HasKey(fs, k) then [] else [k])
  {
    if keys != [] {
      assert (keys + [k])[1..] == keys[1..] + [k];
      PresentMissingSnoc(fs, keys[1..], k);
    }
  }

  /** The absent keys are exactly the requested keys that no bound field has, in request order. */
  lemma {:induction false} AbsentKeysInRequestOrder(fs: seq<Field>, keys: seq<string>)
    ensures AbsentKeys(fs, keys) == MissingKeys(fs, keys)
    decreases |keys|
  {
    if keys != [] {
      var init, k := keys[..|keys| - 1], keys[|keys| - 1];
      assert keys == init + [k];
      AbsentKeysInRequestOrder(fs, init);
      PresentMissingSnoc(fs, init, k);
    }
  }

  /**
   * The found fields carry exactly the requested keys that some bound field
   * has, in request order (each is that key's first match, by FoundFields'
   * contract).
   */
  lemma {:induction false} FoundFieldsInRequestOrder(fs: seq<Field>, keys: seq<string>)
    ensures KeysOf(FoundFields(fs, keys)) == PresentKeys(fs, keys)
    decreases |keys|
  {
    if keys != [] {
      var init, k := keys[..|keys| - 1], keys[|keys| - 1];
      assert keys == init + [k];
      FoundFieldsInRequestOrder(fs, init);
      PresentMissingSnoc(fs, init, k);
      var found := FoundFields(fs, init);
      if HasKey(fs, k) {
        var f := fs[FirstIndex(fs, k)];
        assert FoundFields(fs, keys) == found + [f];
        assert KeysOf(found + [f]) == KeysOf(found) + [k];
      }
    }
  }

  /** A key is listed as absent exactly when it was requested and no bound field has it. */
  lemma {:induction false} AbsentKeysExact(fs: seq<Field>, keys: seq<string>, k: string)
    ensures k in AbsentKeys(fs, keys) <==> k in keys && !HasKey(fs, k)
    decreases |keys|
  {
    if keys != [] {
      var init := keys[..|keys| - 1];
      assert keys == init + [keys[|keys| - 1]];
      AbsentKeysExact(fs, init, k);
    }
  }

  /**
   * The result of GetFields: the found fields in request order, then one
   * field under AbsentFieldsKey listing the missing keys in request order;
   * its length is the number of keys found plus one, and the absent-keys
   * field is there even when no key was requested or every key was found.
   */
  lemma GetFieldsShape(ctx: Context, keys: seq<string>)
    ensures |FieldsFor(ctx, keys)| == |PresentKeys(GetAll(ctx), keys)| + 1
    ensures FieldsFor(ctx, keys)[|FieldsFor(ctx, keys)| - 1] ==
      Field(AbsentFieldsKey, StringsValue(MissingKeys(GetAll(ctx), keys)))
    ensures KeysOf(FieldsFor(ctx, keys)[..|FieldsFor(ctx, keys)| - 1]) == PresentKeys(GetAll(ctx), keys)
    ensures keys == [] ==> FieldsFor(ctx, keys) == [Strings(AbsentFieldsKey, [])]
    ensures (forall k :: k in keys ==> HasKey(GetAll(ctx), k)) ==>
      FieldsFor(ctx, keys)[|FieldsFor(ctx, keys)| - 1] == Strings(AbsentFieldsKey, [])
  {
    var fs := GetAll(ctx);
    AbsentKeysInRequestOrder(fs, keys);
    FoundFieldsInRequestOrder(fs, keys);
    var r := FieldsFor(ctx, keys);
    assert r[..|r| - 1] == FoundFields(fs, keys);
    if forall k :: k in keys ==> HasKey(fs, k) {
      if AbsentKeys(fs, keys) != [] {
        AbsentKeysExact(fs, keys, AbsentKeys(fs, keys)[0]);
      }
    }
  }
}
