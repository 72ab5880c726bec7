/** `update_from_dict`: every item of a dictionary overwrites its property,
    strings verbatim and everything else as canonical JSON text. */
module Scalar {
  import opened Wrappers
  import opened Json
  import opened JsonParse
  import opened JsonRoundTrip
  import opened Dicts
  import opened ConfigStore
  import JsonExamples

  /** The text one value is stored as: a string as it is, any other value
      as `json.dumps(v, sort_keys=True, ensure_ascii=False)`. */
  function ScalarText(v: Json): (r: string)
    ensures v.JString? ==> r == v.s
    ensures !v.JString? ==> r == Encode(v) && Decode(r) == Some(v)
  {
    match v
    case JString(s) => s
    case _ =>
      DecodeEncode(v);
      Encode(v)
  }

  /** The items of `d` are written in iteration order, so each key of `d`
      ends up holding the text of its last value and no other property is
      touched. */
  function UpdateFromDict(store: Store, d: Dict<Json>): (r: Store)
    ensures r.Keys == store.Keys + Keys(d)
    ensures forall k | k in Keys(d) :: r[k] == ScalarText(Lookup(d, k).value)
    ensures forall k | k in store && k !in Keys(d) :: r[k] == store[k]
    decreases |d|
  {
    if |d| == 0 then store
    else
      var front := d[..|d| - 1];
      var last := d[|d| - 1];
      KeysSnoc(front, last);
      assert d == front + [last];
      UpdateFromDict(store, front)[last.0 := ScalarText(last.1)]
  }

  /** Reading a property back after setting it gives the value set: the
      string itself, or the canonical text of the value, which decodes back
      to it. */
  lemma ReadBack(store: Store, k: string, v: Json)
    ensures var r := UpdateFromDict(store, [(k, v)]);
      && k in r
      && (v.JString? ==> r[k] == v.s)
      && (!v.JString? ==> r[k] == Encode(v) && Decode(r[k]) == Some(v))
  {
    var d: Dict<Json> := [];
    KeysSnoc(d, (k, v));
    assert d + [(k, v)] == [(k, v)];
  }

  /** Setting the same dictionary twice is the same as setting it once. */
  lemma {:induction false} UpdateIdempotent(store: Store, d: Dict<Json>)
    ensures UpdateFromDict(UpdateFromDict(store, d), d) == UpdateFromDict(store, d)
  {
    var once := UpdateFromDict(store, d);
    var twice := UpdateFromDict(once, d);
    assert twice.Keys == once.Keys;
    forall k | k in once
      ensures twice[k] == once[k]
    {
    }
  }

  /** Setting `d1` then `d2` is setting their concatenation: later items win. */
  lemma {:induction false} UpdateSequence(store: Store, d1: Dict<Json>, d2: Dict<Json>)
    ensures UpdateFromDict(UpdateFromDict(store, d1), d2) == UpdateFromDict(store, d1 + d2)
    decreases |d2|
  {
    if |d2| == 0 {
      assert d1 + d2 == d1;
    } else {
      var front := d2[..|d2| - 1];
      assert (d1 + d2)[..|d1 + d2| - 1] == d1 + front;
      assert (d1 + d2)[|d1 + d2| - 1] == d2[|d2| - 1];
      UpdateSequence(store, d1, front);
    }
  }

  /** Setting a one-item dictionary writes that item's text and nothing else. */
  lemma SetOne(store: Store, k: string, v: Json)
    ensures UpdateFromDict(store, [(k, v)]) == store[k := ScalarText(v)]
  {
    var d: Dict<Json> := [];
    assert d + [(k, v)] == [(k, v)];
    assert [(k, v)][..0] == d;
  }

  /** A three-item dictionary is set one item after another. */
  lemma SetThree(store: Store, i1: (string, Json), i2: (string, Json), i3: (string, Json))
    ensures UpdateFromDict(store, [i1, i2, i3])
         == store[i1.0 := ScalarText(i1.1)][i2.0 := ScalarText(i2.1)][i3.0 := ScalarText(i3.1)]
  {
    UpdateSequence(store, [i1], [i2]);
    UpdateSequence(store, [i1, i2], [i3]);
    assert [i1] + [i2] == [i1, i2];
    assert [i1, i2] + [i3] == [i1, i2, i3];
    SetOne(store, i1.0, i1.1);
    SetOne(UpdateFromDict(store, [i1]), i2.0, i2.1);
    SetOne(UpdateFromDict(store, [i1, i2]), i3.0, i3.1);
  }

  /** `str(123)`. */
  lemma IntText123()
    ensures ScalarText(JInt(123)) == "123"
  {
    assert NatText(1) == "1";
    assert NatText(12) == NatText(1) + "2";
    assert NatText(123) == NatText(12) + "3";
  }

  /** The dictionary of the `update_from_dict` test,
      `{"a": 123, "b": "c d e", "c": [{"k": "v", "b": True}]}`, set on an empty
      store: the integer as its decimal text, the string verbatim, the list
      as its canonical text. */
  lemma TestUpdateFromDict(obj: Json)
    requires obj == JObject(map["k" := JString("v"), "b" := JBool(true)])
    ensures UpdateFromDict(map[], [("a", JInt(123)), ("b", JString("c d e")), ("c", JArray([obj]))])
         == map["a" := "123", "b" := "c d e", "c" := "[{\"b\": true, \"k\": \"v\"}]"]
  {
    SetThree(map[], ("a", JInt(123)), ("b", JString("c d e")), ("c", JArray([obj])));
    IntText123();
    JsonExamples.TestListText(obj);
  }

  /** `reset_configuration` followed by a set leaves exactly the properties
      set. */
  lemma ResetThenSet(store: Store, d: Dict<Json>)
    ensures UpdateFromDict(Reset(store), d).Keys == Keys(d)
  {
  }
}
