# zax field store in Dafny

A model of the field store of the Go package `zax`: structured log fields
(a key and a typed value) kept, as one ordered sequence, inside an immutable
Go `context.Context` under the package's private key `loggerKey` (a value
of the unexported type `key`, text `"zax"`). Five operations act on it:

- `Set` binds a field sequence, discarding whatever was bound before;
- `Append` binds the new fields followed by the ones already bound (new in front);
- `GetAll` reads the bound sequence back, or the empty (nil) sequence;
- `GetField` finds the first bound field with a key, or the zero field and `false`;
- `GetFields` looks up several keys and always ends its result with one
  synthetic field under `AbsentFieldsKey` (`"_absentFields"`) listing the keys not found.

Files and modules:

- `options.dfy` (`Options`): the found / not-found outcome.
- `fields.dfy` (`Fields`): a zap field as `Field(key, value)`. The store
  never looks inside a value; the model tells apart only the zero field and
  the string array (`zap.Strings`), which the store builds, and the plain
  string (`zap.String`), which its callers typically pass. Every other
  field type is an opaque value.
- `contexts.dfy` (`Contexts`): Go's context as an immutable chain
  `Background | WithValue(parent, key, val)`; `Value` returns the innermost
  binding. Context keys are `ZaxKey(name)` (the package's private key type)
  or `CallerKey(typeName, name)` (any other type), so no caller key equals
  the private one. A stored value is a field slice or some other value.
- `zax.dfy` (`Zax`): the five operations. `Set`, `Append` and `GetAll` are
  functions; `GetField` is a method with the source's scanning loop and
  early return; `GetFields` is a method with the source's loop over two
  accumulators, proved equal to the function `FieldsFor`.
- `zax_properties.dfy` (`ZaxProperties`): laws relating the operations.
- `zax_scenarios.dfy` (`ZaxScenarios`): the cases of `zax_test.go`.

The type assertion `ctx.Value(loggerKey).([]zap.Field)` is modelled as
`BoundFields`: it fails both when nothing is bound and when the bound value
is not a field slice, and in both cases `GetAll` gives the empty sequence
and `Append` binds just the new fields. So the laws below hold for every
context, without a well-formedness assumption.

`Append` places the new fields in front (`append(fields, loggerFields...)`,
zax.go:31), so a set trace id followed by an appended span id reads back as
`[span_id, trace_id]`. The package has no deduplication operation: `Append`
keeps duplicate keys, and lookups take the first match, so the most
recently appended field of a key wins.

## Model

| member | source | states |
|---|---|---|
| Zax.BoundFields | zax.go:38 | the type assertion on the private key's value (also at zax.go:30 and 61): nothing for an empty context; for the innermost binding of the private key, its fields when the value is a field slice and nothing otherwise; bindings under other keys are looked through |
| Zax.GetAll | zax.go:36-42 | the field slice of the innermost binding of the private key, the empty (nil) sequence when there is none or it is not a field slice; with Set's and Append's contracts and NeverGivenFieldsHasNone these are its laws |
| Zax.Set | zax.go:22-25 | the new context's bound sequence is exactly the given fields, whatever was bound before (so a second Set replaces the first, and Set after Append discards the appended fields); its parent is the old context; every other key reads the same value as before |
| Zax.Append | zax.go:27-34 | the new bound sequence is the new fields followed by the old bound sequence (length the sum of both); its parent is the old context; every other key reads the same value as before; so two Appends read back as the later batch, the earlier batch, then the original fields, and children appended onto one parent each see only their own fields in front of the parent's |
| Zax.FirstIndex | zax.go:62-66 | the position a front-to-back scan stops at: a field with the key, with no earlier field having it; the end exactly when no field has the key |
| Zax.Find | zax.go:60-69 | a field is found exactly when some field has the key, and the one found is the first field of the sequence with that key |
| Zax.GetField | zax.go:59-69 | returns true exactly when a bound field has the key, together with the first such field; otherwise false and the zero field, also when nothing is bound |
| Zax.FoundFields | zax.go:48-50 | no more fields than keys requested; each carries a requested key and is the first field with that key |
| Zax.AbsentKeys | zax.go:48-53 | each listed key was requested and no field has it; together with the found fields it accounts for every requested key |
| Zax.FieldsFor | zax.go:46-56 | between one and one-more-than-the-number-of-keys fields; the last is the string-array field under AbsentFieldsKey listing the absent keys; every earlier one is the first match of a requested key |
| Zax.GetFields | zax.go:44-57 | equals the found fields in request order followed by the absent-keys field; length is the number of found fields plus one; the last field lists the absent keys |
| ZaxProperties.NeverGivenFieldsHasNone | zax.go:36-42 | a context whose chain never bound the private key has nothing bound, reads back the empty sequence and has no field under any key |
| ZaxProperties.CallerBindingsPreserveFields | zax.go:11-14 | a binding under a caller's key, whatever its text, does not change the bound field sequence |
| ZaxProperties.FirstIndexConcat | zax.go:62-66 | a first-match scan of a concatenation finds the match in the front part when there is one, else in the back part offset by the front's length |
| ZaxProperties.FindAfterAppend | zax.go:29-69 | after Append a key carried by the new fields is found among them (the new fields shadow the old), any other key is found as before |
| ZaxProperties.Shadowing | zax.go:29-69 | after appending a field under a key, looking that key up returns that field, whatever was bound before |
| ZaxProperties.AbsentKeysInRequestOrder | zax.go:48-53 | the absent keys are exactly the requested keys no field has, in request order |
| ZaxProperties.FoundFieldsInRequestOrder | zax.go:48-50 | the found fields carry exactly the requested keys some field has, in request order |
| ZaxProperties.AbsentKeysExact | zax.go:48-54 | a key is listed as absent exactly when it was requested and no bound field has it |
| ZaxProperties.GetFieldsShape | zax.go:45-57 | the result has one field per requested key found plus one; the last is always the absent-keys field under AbsentFieldsKey listing the missing keys in request order; for no keys the result is just that field with an empty list, and when every key is found its list is empty |
| ZaxScenarios.SetCases | zax_test.go:69-94 | Set with nil reads back nothing; a set trace id reads back; a second Set replaces the trace id |
| ZaxScenarios.AppendCases | zax_test.go:107-122 | appending nothing keeps one field; appending a span id gives two, the span id first |
| ZaxScenarios.GetFieldCases | zax_test.go:136-194 | an empty context yields no fields and no trace id; a context with a set trace id yields it |
| ZaxScenarios.GetFieldsCase | zax_test.go:196-224 | three keys with two present give the two fields in request order and an absent-keys field listing the third |

## Left out

- Slice aliasing: Go's `append` in `Append` may write into spare capacity of the caller's `fields` backing array, and `GetAll` hands out the stored slice itself, so a caller can change a context's fields after the fact. The model treats sequences as values and does not capture this sharing.
- zap's field representation and encoding: field types other than string and string array are opaque values, and `zap.Strings` is modelled as a field whose value is the list of strings (its `ArrayMarshaler` and printing are not modelled).
- Contexts other than `Background` and `WithValue`: cancellation, deadlines and their goroutines are not modelled; `context.TODO()` carries no values and is modelled as `Background`.
- Nil versus empty slices: both are the empty sequence.
- Nil contexts: on a nil `ctx` every Go function here panics (`context.WithValue` refuses a nil parent, and `ctx.Value` is a call on a nil interface); the model's `Context` has no nil value, so every modelled operation is total.
- Deduplication: the code has no such operation, so none is modelled.
- The test helpers `Logger`, `NewLogger`, `AssertLogEntryExist` and `AssertLogEntryKeyExist` record and inspect log output through zap's observer; the scenarios state what the tests check directly on the returned fields.
