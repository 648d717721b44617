/** An abstract JSON value: what JSON.parse may return and what
    JSON.stringify accepts. Numbers keep their lexeme, since floating point
    is not part of the model. */
module Json {
  import opened Wrappers

  datatype Value =
    | Null
    | Bool(b: bool)
    | Number(lexeme: string)
    | Str(s: string)
    | Array(items: seq<Value>)
    | Object(members: seq<(string, Value)>)

  /** The first member named key of an object; None for a missing key or a
      value that is not an object. */
  function Field(v: Value, key: string): (r: Option<Value>)
    ensures r.Some? ==> v.Object? && exists k :: 0 <= k < |v.members| && v.members[k] == (key, r.value)
    ensures v.Object? && (exists k :: 0 <= k < |v.members| && v.members[k].0 == key) ==> r.Some?
    decreases if v.Object? then |v.members| else 0
  {
    if !v.Object? || |v.members| == 0 then None
    else if v.members[0].0 == key then Some(v.members[0].1)
    else
      var r := Field(Object(v.members[1..]), key);
      assert r.Some? ==> exists k :: 0 <= k < |v.members| && v.members[k] == (key, r.value) by {
        if r.Some? {
          var k :| 0 <= k < |v.members| - 1 && v.members[1..][k] == (key, r.value);
          assert v.members[k + 1] == (key, r.value);
        }
      }
      assert (exists k :: 0 <= k < |v.members| && v.members[k].0 == key) ==> r.Some? by {
        if exists k :: 0 <= k < |v.members| && v.members[k].0 == key {
          var k :| 0 <= k < |v.members| && v.members[k].0 == key;
          assert v.members[1..][k - 1].0 == key;
        }
      }
      r
  }

  /** The empty object {}. */
  const EmptyObject: Value := Object([])

  /** The object {raw: text} that wraps a body that is not JSON. */
  function RawWrapper(text: string): (r: Value)
    ensures Field(r, "raw") == Some(Str(text))
    ensures r.Object? && |r.members| == 1
  {
    Object([("raw", Str(text))])
  }

  /** The wrapper is the only one-member object whose raw field is the text. */
  lemma RawWrapperUnique(v: Value, text: string)
    requires v.Object? && |v.members| == 1 && Field(v, "raw") == Some(Str(text))
    ensures v == RawWrapper(text)
  {
    assert v.members[0] == ("raw", Str(text));
    assert v.members == [("raw", Str(text))];
  }
}
