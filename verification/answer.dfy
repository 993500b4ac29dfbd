/** The generator's reply and how the answer text is picked out of it
    (app.py, step 5 of `chat()`). */
module Answer {
  import opened Results

  /** A decoded JSON value, as Python sees the generator's reply. */
  datatype Value =
    | Null
    | Bool(b: bool)
    | Num(x: real)
    | Str(s: string)
    | Arr(items: seq<Value>)
    | Obj(fields: map<string, Value>)

  /** Python truthiness: `None`, `False`, zero, and empty strings, lists and
      dicts are false; everything else is true. */
  predicate Truthy(v: Value) {
    match v
    case Null => false
    case Bool(b) => b
    case Num(x) => x != 0.0
    case Str(s) => s != []
    case Arr(items) => items != []
    case Obj(fields) => fields != map[]
  }

  /** Python's `d.get(key)`: the value under `key`, or `None`. */
  function Get(fields: map<string, Value>, key: string): Value {
    if key in fields then fields[key] else Null
  }

  /** The reply fields that may hold the answer, in the order they are tried. */
  const AnswerKeys: seq<string> := ["response", "text", "output"]

  /** The value under `keys[n]` is truthy and those under earlier keys are not. */
  predicate FirstTruthyAt(fields: map<string, Value>, keys: seq<string>, n: nat)
    requires n < |keys|
  {
    Truthy(Get(fields, keys[n])) && forall m :: 0 <= m < n ==> !Truthy(Get(fields, keys[m]))
  }

  /** Python's `d.get(k0) or d.get(k1) or ...` without the final fallback:
      the value of the first key whose value is truthy, if any. */
  function FirstTruthy(fields: map<string, Value>, keys: seq<string>): (r: Option<Value>)
    ensures r.Some? ==> exists n :: 0 <= n < |keys| && FirstTruthyAt(fields, keys, n) && r.value == Get(fields, keys[n])
    ensures r.None? <==> forall n :: 0 <= n < |keys| ==> !Truthy(Get(fields, keys[n]))
  {
    if keys == [] then None
    else if Truthy(Get(fields, keys[0])) then Some(Get(fields, keys[0]))
    else
      var r := FirstTruthy(fields, keys[1..]);
      assert forall n :: 1 <= n < |keys| ==> keys[n] == keys[1..][n - 1];
      assert r.Some? ==> exists n :: 0 <= n < |keys| && FirstTruthyAt(fields, keys, n) && r.value == Get(fields, keys[n]) by {
        if r.Some? {
          var n :| 0 <= n < |keys[1..]| && FirstTruthyAt(fields, keys[1..], n) && r.value == Get(fields, keys[1..][n]);
          assert FirstTruthyAt(fields, keys, n + 1);
        }
      }
      r
  }

  /** The answer returned to the browser. For a dict reply: the first truthy
      value among `response`, `text`, `output`; otherwise, and for any reply
      that is not a dict, `str(resp)`, given here as `render`. */
  function ExtractAnswer(resp: Value, render: Value -> string): (r: Value)
    ensures resp.Obj? && Truthy(Get(resp.fields, "response")) ==>
              r == Get(resp.fields, "response")
    ensures (resp.Obj? && !Truthy(Get(resp.fields, "response"))
             && Truthy(Get(resp.fields, "text"))) ==>
              r == Get(resp.fields, "text")
    ensures (resp.Obj? && !Truthy(Get(resp.fields, "response"))
             && !Truthy(Get(resp.fields, "text")) && Truthy(Get(resp.fields, "output"))) ==>
              r == Get(resp.fields, "output")
    ensures (!resp.Obj? || (!Truthy(Get(resp.fields, "response"))
             && !Truthy(Get(resp.fields, "text")) && !Truthy(Get(resp.fields, "output")))) ==>
              r == Str(render(resp))
  {
    assert AnswerKeys[0] == "response" && AnswerKeys[1] == "text" && AnswerKeys[2] == "output";
    if resp.Obj? then
      match FirstTruthy(resp.fields, AnswerKeys)
      case Some(v) => v
      case None => Str(render(resp))
    else
      Str(render(resp))
  }

  /** The answer is either a truthy reply field or the rendering of the whole reply. */
  lemma AnswerSource(resp: Value, render: Value -> string)
    ensures var r := ExtractAnswer(resp, render);
      || r == Str(render(resp))
      || (resp.Obj? && Truthy(r) && exists key :: key in AnswerKeys && r == Get(resp.fields, key))
  {
  }

  /** A reply `{"response": "Go to video 3 at 02:15"}` yields exactly that text. */
  lemma ResponseFieldExample(render: Value -> string)
    ensures ExtractAnswer(Obj(map["response" := Str("Go to video 3 at 02:15")]), render)
      == Str("Go to video 3 at 02:15")
  {
  }

  /** An empty `response` string is skipped in favour of a later field. */
  lemma EmptyResponseSkipped(render: Value -> string)
    ensures ExtractAnswer(Obj(map["response" := Str(""), "text" := Str("hi")]), render) == Str("hi")
  {
  }
}
