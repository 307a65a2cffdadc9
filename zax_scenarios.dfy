/** The cases exercised by the package's tests, stated on the model. */
module ZaxScenarios {

  import opened Options
  import opened Fields
  import opened Contexts
  import opened Zax

  const TraceIdKey: string := "trace_id"
  const SpanIdKey: string := "span_id"
  const TestTraceId: string := "test-trace-id-3333"

  /** TestSet: a nil field set, one trace id, and a trace id replaced by a second Set. */
  lemma SetCases()
    ensures GetAll(Set(Background, [])) == []
    ensures GetAll(Set(Background, [String(TraceIdKey, TestTraceId)])) == [String(TraceIdKey, TestTraceId)]
    ensures GetAll(Set(Set(Background, [String(TraceIdKey, TestTraceId)]),
                       [String(TraceIdKey, "test-trace-id-new")]))
         == [String(TraceIdKey, "test-trace-id-new")]
  {
  }

  /** TestAppend: appending nothing keeps one field; appending a span id gives two, newest first. */
  lemma AppendCases()
    ensures var ctx := Set(Background, [String(TraceIdKey, TestTraceId)]);
      |GetAll(Append(ctx, []))| == 1 &&
      GetAll(Append(ctx, [String(SpanIdKey, TestTraceId)]))
        == [String(SpanIdKey, TestTraceId), String(TraceIdKey, TestTraceId)]
  {
  }

  /** TestGet and TestGetField: an empty context has no trace id; a Set one does. */
  lemma GetFieldCases()
    ensures GetAll(Background) == []
    ensures Find(GetAll(Background), TraceIdKey) == None
    ensures Find(GetAll(Set(Background, [String(TraceIdKey, TestTraceId)])), TraceIdKey)
         == Some(String(TraceIdKey, TestTraceId))
  {
  }

  const GetFieldsCaseFields: seq<Field> :=
    [String(TraceIdKey, TestTraceId), String("additionalKey", "additionalValue"), String("superfluous", "")]

  /** TestGetFields: two keys found, one absent, three fields in all. */
  lemma GetFieldsCase()
    ensures FieldsFor(Set(Background, GetFieldsCaseFields), [TraceIdKey, "additionalKey", "absentKey"])
         == [String(TraceIdKey, TestTraceId),
             String("additionalKey", "additionalValue"),
             Strings(AbsentFieldsKey, ["absentKey"])]
  {
    var fs := GetFieldsCaseFields;
    var keys := [TraceIdKey, "additionalKey", "absentKey"];
    assert GetAll(Set(Background, fs)) == fs;
    GetFieldsCaseScan(fs, keys);
  }

  lemma GetFieldsCaseScan(fs: seq<Field>, keys: seq<string>)
    requires fs == GetFieldsCaseFields && keys == [TraceIdKey, "additionalKey", "absentKey"]
    ensures FoundFields(fs, keys) == [fs[0], fs[1]] && AbsentKeys(fs, keys) == ["absentKey"]
  {
    assert FirstIndex(fs, TraceIdKey) == 0;
    assert FirstIndex(fs, "additionalKey") == 1;
    assert FirstIndex(fs, "absentKey") == 3;
    assert keys[..2] == [TraceIdKey, "additionalKey"];
    assert keys[..2][..1] == [TraceIdKey];
    assert [TraceIdKey][..0] == [];
    assert FoundFields(fs, [TraceIdKey]) == [fs[0]] && AbsentKeys(fs, [TraceIdKey]) == [];
    assert FoundFields(fs, keys[..2]) == [fs[0], fs[1]] && AbsentKeys(fs, keys[..2]) == [];
  }
}
