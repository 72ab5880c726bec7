/** `add_from_dict`: every item of a dictionary of lists and dictionaries is
    merged into its property, which is then written back as canonical JSON.
    The merged value `jv` lives across iterations: an item that is neither a
    list nor a dictionary writes the previous item's result again, and the
    empty list when it comes first. */
module Composite {
  import opened Wrappers
  import opened Json
  import opened JsonParse
  import opened JsonRoundTrip
  import opened Dicts
  import opened ConfigStore
  import opened Merge
  import Strings

  /** How a run over several properties ends: every item written, or an
      exception after the writes that came before it. The store is closed,
      and so saved, either way. */
  datatype Outcome = Done(store: Store) | Aborted(store: Store, error: Error)

  /** The value written for one item: the merged list or dictionary, or the
      previous value `jv` when the item is neither. */
  function Step(store: Store, defaults: Defaults, key: string, vs: Json, jv: Json): (r: Result<Json, Error>)
    ensures !vs.IsComposite() ==> r == Ok(jv)
    ensures r.Ok? && vs.IsComposite() ==> r.value.IsComposite()
  {
    match vs
    case JArray(items) =>
      (match AppendToList(store, defaults, key, items)
       case Ok(xs) => Ok(JArray(xs))
       case Err(e) => Err(e))
    case JObject(fields) =>
      (match AddToDict(store, defaults, key, fields)
       case Ok(m) => Ok(JObject(m))
       case Err(e) => Err(e))
    case _ => Ok(jv)
  }

  /** The loop of `add_from_dict` from the item `dj[0]` on, with `jv` the
      value the previous iteration left. */
  function AddEntries(store: Store, defaults: Defaults, dj: Dict<Json>, jv: Json): (r: Outcome)
    ensures store.Keys <= r.store.Keys <= store.Keys + Keys(dj)
    ensures forall k | k in store && k !in Keys(dj) :: r.store[k] == store[k]
    ensures r.Done? ==> Keys(dj) <= r.store.Keys
    decreases |dj|
  {
    if |dj| == 0 then Done(store)
    else
      KeysCons(dj);
      var (key, vs) := dj[0];
      match Step(store, defaults, key, vs, jv)
      case Err(e) => Aborted(store, e)
      case Ok(v) => AddEntries(store[key := Encode(v)], defaults, dj[1..], v)
  }

  /** Every property a completed run writes holds the JSON text of a list or
      a dictionary, provided the value carried in is one. */
  lemma {:induction false} AddEntriesWritesComposite(store: Store, defaults: Defaults, dj: Dict<Json>, jv: Json)
    requires jv.IsComposite()
    ensures var r := AddEntries(store, defaults, dj, jv);
      r.Done? ==> forall k | k in Keys(dj) :: k in r.store && Decode(r.store[k]).Some? && Decode(r.store[k]).value.IsComposite()
    decreases |dj|
  {
    if |dj| > 0 {
      KeysCons(dj);
      AddEntriesCons(store, defaults, dj, jv);
      var first := Step(store, defaults, dj[0].0, dj[0].1, jv);
      if first.Ok? {
        var next := store[dj[0].0 := Encode(first.value)];
        AddEntriesWritesComposite(next, defaults, dj[1..], first.value);
        DecodeEncode(first.value);
      }
    }
  }

  /** `add_from_dict`: `jv` starts as the empty list. */
  function AddFromDict(store: Store, defaults: Defaults, dj: Dict<Json>): (r: Outcome)
    ensures store.Keys <= r.store.Keys <= store.Keys + Keys(dj)
    ensures forall k | k in store && k !in Keys(dj) :: r.store[k] == store[k]
    ensures r.Done? ==> Keys(dj) <= r.store.Keys
  {
    AddEntries(store, defaults, dj, JArray([]))
  }

  /** After a completed run every property of `dj` holds JSON text that
      `_get_current_as_json` accepts. */
  lemma AddFromDictWritesComposite(store: Store, defaults: Defaults, dj: Dict<Json>)
    ensures var r := AddFromDict(store, defaults, dj);
      r.Done? ==> forall k | k in Keys(dj) :: k in r.store && Decode(r.store[k]).Some? && Decode(r.store[k]).value.IsComposite()
  {
    AddEntriesWritesComposite(store, defaults, dj, JArray([]));
  }

  /** One iteration of the loop, unfolded. */
  lemma AddEntriesCons(store: Store, defaults: Defaults, dj: Dict<Json>, jv: Json)
    requires |dj| > 0
    ensures AddEntries(store, defaults, dj, jv) ==
      match Step(store, defaults, dj[0].0, dj[0].1, jv)
      case Err(e) => Aborted(store, e)
      case Ok(v) => AddEntries(store[dj[0].0 := Encode(v)], defaults, dj[1..], v)
  {
  }

  /** Writing the result of one merge: its canonical text, or nothing and
      the error. */
  function WriteOne(store: Store, key: string, step: Result<Json, Error>): (r: Outcome)
    ensures r.Done? <==> step.Ok?
    ensures step.Ok? ==> key in r.store && Decode(r.store[key]) == Some(step.value)
    ensures forall k | k != key :: (k in r.store <==> k in store) && (k in store ==> r.store[k] == store[k])
  {
    match step
    case Err(e) => Aborted(store, e)
    case Ok(v) =>
      DecodeEncode(v);
      Done(store[key := Encode(v)])
  }

  /** A dictionary of one item: its merge is written, or nothing is. */
  lemma AddOne(store: Store, defaults: Defaults, key: string, vs: Json, jv: Json)
    ensures AddEntries(store, defaults, [(key, vs)], jv) == WriteOne(store, key, Step(store, defaults, key, vs, jv))
  {
    var dj := [(key, vs)];
    AddEntriesCons(store, defaults, dj, jv);
    assert dj[1..] == [];
  }

  /** Writing twice to one property keeps only the second write; a failed
      first write changes nothing. */
  lemma WriteTwice(store: Store, key: string, first: Result<Json, Error>, second: Result<Json, Error>, combined: Result<Json, Error>)
    requires first.Ok? ==> second == combined && combined.Ok?
    requires first.Err? ==> second == combined
    ensures WriteOne(WriteOne(store, key, first).store, key, second) == WriteOne(store, key, combined)
  {
    if first.Ok? {
      var once := store[key := Encode(first.value)];
      assert once[key := Encode(second.value)] == store[key := Encode(second.value)];
    }
  }

  /** Merging a list or dictionary into one property depends neither on the
      previous value nor on writes to other properties. */
  lemma StepLocal(store: Store, defaults: Defaults, key: string, vs: Json, jv: Json, jv': Json, other: string, text: string)
    requires vs.IsComposite() && other != key
    ensures Step(store[other := text], defaults, key, vs, jv') == Step(store, defaults, key, vs, jv)
  {
    CurrentLocal(store, defaults, key, other, text);
  }

  /** Every item of `dj` is a list or a dictionary, as documented. */
  predicate AllComposite(dj: Dict<Json>) {
    forall i | 0 <= i < |dj| :: dj[i].1.IsComposite()
  }

  /** Writing a property no item of `dj` names leaves every merge of `dj`
      as it was, whatever value is carried in. */
  lemma StepsAfterWrite(store: Store, defaults: Defaults, dj: Dict<Json>, jv: Json, jv': Json, key: string, text: string)
    requires AllComposite(dj) && key !in Keys(dj)
    ensures forall i | 0 <= i < |dj| :: Step(store[key := text], defaults, dj[i].0, dj[i].1, jv') == Step(store, defaults, dj[i].0, dj[i].1, jv)
  {
    forall i | 0 <= i < |dj|
      ensures Step(store[key := text], defaults, dj[i].0, dj[i].1, jv') == Step(store, defaults, dj[i].0, dj[i].1, jv)
    {
      StepLocal(store, defaults, dj[i].0, dj[i].1, jv, jv', key, text);
    }
  }

  /** The tail of a dictionary keeps its distinct keys and composite items,
      and no longer names its first key. */
  lemma RestOf(dj: Dict<Json>)
    requires |dj| > 0 && DistinctKeys(dj) && AllComposite(dj)
    ensures DistinctKeys(dj[1..]) && AllComposite(dj[1..]) && dj[0].0 !in Keys(dj[1..])
  {
    assert forall i | 0 <= i < |dj| - 1 :: dj[1..][i] == dj[i + 1];
  }

  /** Every item of `dj`, merged against `store` with `jv` carried in,
      succeeds. */
  predicate AllMerge(store: Store, defaults: Defaults, dj: Dict<Json>, jv: Json) {
    forall i | 0 <= i < |dj| :: Step(store, defaults, dj[i].0, dj[i].1, jv).Ok?
  }

  /** `out` holds, for every item of `dj`, the canonical text of its merge
      against `store`. */
  predicate Written(out: Store, store: Store, defaults: Defaults, dj: Dict<Json>, jv: Json) {
    forall i | 0 <= i < |dj| ::
      var step := Step(store, defaults, dj[i].0, dj[i].1, jv);
      step.Ok? && dj[i].0 in out && out[dj[i].0] == Encode(step.value)
  }

  /** `AllMerge` item by item, when the merges of the tail see the same
      results against `next` as against `store`. */
  lemma AllMergeCons(store: Store, next: Store, defaults: Defaults, dj: Dict<Json>, jv: Json, jv': Json)
    requires |dj| > 0
    requires forall i | 0 <= i < |dj| - 1 :: Step(next, defaults, dj[1..][i].0, dj[1..][i].1, jv') == Step(store, defaults, dj[i + 1].0, dj[i + 1].1, jv)
    ensures AllMerge(store, defaults, dj, jv) <==> Step(store, defaults, dj[0].0, dj[0].1, jv).Ok? && AllMerge(next, defaults, dj[1..], jv')
  {
    if !AllMerge(store, defaults, dj, jv) && Step(store, defaults, dj[0].0, dj[0].1, jv).Ok? {
      var i :| 0 <= i < |dj| && !Step(store, defaults, dj[i].0, dj[i].1, jv).Ok?;
      assert !Step(next, defaults, dj[1..][i - 1].0, dj[1..][i - 1].1, jv').Ok?;
    }
  }

  /** `Written` item by item, under the same condition. */
  lemma WrittenCons(out: Store, store: Store, next: Store, defaults: Defaults, dj: Dict<Json>, jv: Json, jv': Json)
    requires |dj| > 0
    requires forall i | 0 <= i < |dj| - 1 :: Step(next, defaults, dj[1..][i].0, dj[1..][i].1, jv') == Step(store, defaults, dj[i + 1].0, dj[i + 1].1, jv)
    requires Written(out, next, defaults, dj[1..], jv')
    requires Step(store, defaults, dj[0].0, dj[0].1, jv).Ok?
    requires dj[0].0 in out && out[dj[0].0] == Encode(Step(store, defaults, dj[0].0, dj[0].1, jv).value)
    ensures Written(out, store, defaults, dj, jv)
  {
    forall i | 0 < i < |dj|
      ensures var step := Step(store, defaults, dj[i].0, dj[i].1, jv);
        step.Ok? && dj[i].0 in out && out[dj[i].0] == Encode(step.value)
    {
      assert dj[i] == dj[1..][i - 1];
    }
  }

  /** With distinct keys and list or dictionary items only, each item is
      merged against the store as it was before the call: the run completes
      exactly when every such merge succeeds, and then each property holds
      the canonical text of its merge. */
  lemma {:induction false} AddEntriesIndependent(store: Store, defaults: Defaults, dj: Dict<Json>, jv: Json)
    requires DistinctKeys(dj) && AllComposite(dj)
    ensures var r := AddEntries(store, defaults, dj, jv);
      && (r.Done? <==> AllMerge(store, defaults, dj, jv))
      && (r.Done? ==> Written(r.store, store, defaults, dj, jv))
    decreases |dj|
  {
    if |dj| > 0 {
      var rest := dj[1..];
      RestOf(dj);
      AddEntriesCons(store, defaults, dj, jv);
      var first := Step(store, defaults, dj[0].0, dj[0].1, jv);
      if first.Ok? {
        var text := Encode(first.value);
        var next := store[dj[0].0 := text];
        AddEntriesIndependent(next, defaults, rest, first.value);
        StepsAfterWrite(store, defaults, rest, jv, first.value, dj[0].0, text);
        assert forall i | 0 <= i < |dj| - 1 :: rest[i] == dj[i + 1];
        AllMergeCons(store, next, defaults, dj, jv, first.value);
        var r := AddEntries(next, defaults, rest, first.value);
        if r.Done? {
          WrittenCons(r.store, store, next, defaults, dj, jv, first.value);
        }
      } else {
        assert !Step(store, defaults, dj[0].0, dj[0].1, jv).Ok?;
      }
    }
  }

  /** The first `i` items of a dictionary, seen from its tail. */
  lemma PrefixOf(dj: Dict<Json>, i: nat)
    requires 0 < i <= |dj|
    ensures dj[..i][0] == dj[0] && dj[..i][1..] == dj[1..][..i - 1]
    ensures Keys(dj[1..][..i - 1]) <= Keys(dj[1..])
    ensures Keys(dj[..i]) == {dj[0].0} + Keys(dj[1..][..i - 1])
  {
    assert forall j | 0 <= j < i - 1 :: dj[1..][..i - 1][j] == dj[1..][j];
    KeysCons(dj[..i]);
  }

  /** The merges of the tail against `next` are those of `dj` against
      `store`, one index on. */
  predicate TailSteps(store: Store, next: Store, defaults: Defaults, dj: Dict<Json>, jv: Json, jv': Json)
    requires |dj| > 0
  {
    forall j | 0 <= j < |dj| - 1 :: Step(next, defaults, dj[1..][j].0, dj[1..][j].1, jv') == Step(store, defaults, dj[j + 1].0, dj[j + 1].1, jv)
  }

  /** The premises of a refusal at `dj[i]`, moved onto the tail. */
  lemma AbortPremises(store: Store, next: Store, defaults: Defaults, dj: Dict<Json>, jv: Json, jv': Json, i: nat)
    requires 0 < i < |dj| && TailSteps(store, next, defaults, dj, jv, jv')
    requires AllMerge(store, defaults, dj[..i], jv)
    ensures Step(store, defaults, dj[0].0, dj[0].1, jv).Ok?
    ensures AllMerge(next, defaults, dj[1..][..i - 1], jv')
    ensures Step(next, defaults, dj[1..][i - 1].0, dj[1..][i - 1].1, jv') == Step(store, defaults, dj[i].0, dj[i].1, jv)
  {
    PrefixOf(dj, i);
    var pre := dj[..i];
    assert forall j | 0 <= j < |pre| - 1 :: pre[1..][j] == dj[1..][j] && pre[j + 1] == dj[j + 1];
    AllMergeCons(store, next, defaults, pre, jv, jv');
  }

  /** What a refusal at `dj[i]` leaves, assembled from what the run over the
      tail left. */
  lemma AbortStore(out: Store, store: Store, next: Store, defaults: Defaults, dj: Dict<Json>, jv: Json, jv': Json, i: nat)
    requires 0 < i < |dj| && TailSteps(store, next, defaults, dj, jv, jv')
    requires dj[0].0 !in Keys(dj[1..])
    requires Step(store, defaults, dj[0].0, dj[0].1, jv).Ok?
    requires next == store[dj[0].0 := Encode(Step(store, defaults, dj[0].0, dj[0].1, jv).value)]
    requires out.Keys == next.Keys + Keys(dj[1..][..i - 1])
    requires Written(out, next, defaults, dj[1..][..i - 1], jv')
    requires forall k | k in next && k !in Keys(dj[1..][..i - 1]) :: out[k] == next[k]
    ensures out.Keys == store.Keys + Keys(dj[..i])
    ensures Written(out, store, defaults, dj[..i], jv)
    ensures forall k | k in store && k !in Keys(dj[..i]) :: out[k] == store[k]
  {
    PrefixOf(dj, i);
    var pre := dj[..i];
    assert forall j | 0 <= j < |pre| - 1 :: pre[1..][j] == dj[1..][j] && pre[j + 1] == dj[j + 1];
    WrittenCons(out, store, next, defaults, pre, jv, jv');
  }

  /** With distinct keys and list or dictionary items only, a run whose
      first refused item is `dj[i]` ends with that item's error; the store
      it leaves holds the canonical text of the merge of each earlier item,
      and every other property as it was. */
  lemma {:induction false} AddEntriesAbortsAt(store: Store, defaults: Defaults, dj: Dict<Json>, jv: Json, i: nat)
    requires DistinctKeys(dj) && AllComposite(dj) && i < |dj|
    requires AllMerge(store, defaults, dj[..i], jv)
    requires Step(store, defaults, dj[i].0, dj[i].1, jv).Err?
    ensures var r := AddEntries(store, defaults, dj, jv);
      && r.Aborted?
      && r.error == Step(store, defaults, dj[i].0, dj[i].1, jv).error
      && r.store.Keys == store.Keys + Keys(dj[..i])
      && Written(r.store, store, defaults, dj[..i], jv)
      && (forall k | k in store && k !in Keys(dj[..i]) :: r.store[k] == store[k])
    decreases i
  {
    RestOf(dj);
    AddEntriesCons(store, defaults, dj, jv);
    if i == 0 {
      assert dj[..0] == [];
    } else {
      var rest := dj[1..];
      var first := Step(store, defaults, dj[0].0, dj[0].1, jv);
      assert dj[..i][0] == dj[0];
      var v := first.value;
      var next := store[dj[0].0 := Encode(v)];
      StepsAfterWrite(store, defaults, rest, jv, v, dj[0].0, Encode(v));
      assert TailSteps(store, next, defaults, dj, jv, v);
      AbortPremises(store, next, defaults, dj, jv, v, i);
      AddEntriesAbortsAt(next, defaults, rest, v, i - 1);
      var r := AddEntries(next, defaults, rest, v);
      AbortStore(r.store, store, next, defaults, dj, jv, v, i);
    }
  }

  /** `add_from_dict` refused at item `dj[i]`: the `finally` saves the merges
      of the items before it, and nothing else changes. */
  lemma AddFromDictAbortsAt(store: Store, defaults: Defaults, dj: Dict<Json>, i: nat)
    requires DistinctKeys(dj) && AllComposite(dj) && i < |dj|
    requires AllMerge(store, defaults, dj[..i], JArray([]))
    requires Step(store, defaults, dj[i].0, dj[i].1, JArray([])).Err?
    ensures var r := AddFromDict(store, defaults, dj);
      && r.Aborted?
      && r.error == Step(store, defaults, dj[i].0, dj[i].1, JArray([])).error
      && r.store.Keys == store.Keys + Keys(dj[..i])
      && Written(r.store, store, defaults, dj[..i], JArray([]))
      && (forall k | k in store && k !in Keys(dj[..i]) :: r.store[k] == store[k])
  {
    AddEntriesAbortsAt(store, defaults, dj, JArray([]), i);
  }

  /** An item that is neither a list nor a dictionary writes the value
      written for the item before it. */
  lemma NonCompositeRepeatsPrevious(store: Store, defaults: Defaults, k1: string, v1: Json, k2: string, v2: Json)
    requires k1 != k2 && !v2.IsComposite()
    requires Step(store, defaults, k1, v1, JArray([])).Ok?
    ensures var r := AddFromDict(store, defaults, [(k1, v1), (k2, v2)]);
      && r.Done? && k1 in r.store && k2 in r.store
      && r.store[k2] == r.store[k1] == Encode(Step(store, defaults, k1, v1, JArray([])).value)
  {
    var dj := [(k1, v1), (k2, v2)];
    var v := Step(store, defaults, k1, v1, JArray([])).value;
    AddEntriesCons(store, defaults, dj, JArray([]));
    assert dj[1..] == [(k2, v2)];
    var next := store[k1 := Encode(v)];
    AddOne(next, defaults, k2, v2, v);
  }

  /** An item that is neither a list nor a dictionary and comes first writes
      the empty list. */
  lemma NonCompositeFirstWritesEmptyList(store: Store, defaults: Defaults, key: string, v: Json)
    requires !v.IsComposite()
    ensures AddFromDict(store, defaults, [(key, v)]) == Done(store[key := "[]"])
  {
    AddOne(store, defaults, key, v, JArray([]));
    EmptyListText();
  }

  lemma EmptyListText()
    ensures Encode(JArray([])) == "[]"
  {
  }

  /** The steps of two one-item runs on the same property compose into the
      step of one: the second step, against what the first wrote, agrees
      with the combined step and succeeds, and when the first step fails, so
      do the other two with the same error. */
  predicate Composes(store: Store, defaults: Defaults, key: string, x: Json, y: Json, xy: Json) {
    var first := Step(store, defaults, key, x, JArray([]));
    var combined := Step(store, defaults, key, xy, JArray([]));
    && (first.Ok? ==> Step(store[key := Encode(first.value)], defaults, key, y, JArray([])) == combined && combined.Ok?)
    && (first.Err? ==> Step(store, defaults, key, y, JArray([])) == combined == first)
  }

  /** The successful case of `Composes`, for a first step whose value is `v`. */
  lemma ComposesFromNext(store: Store, defaults: Defaults, key: string, x: Json, y: Json, xy: Json, v: Json)
    requires Step(store, defaults, key, x, JArray([])) == Ok(v)
    requires Step(store[key := Encode(v)], defaults, key, y, JArray([])) == Step(store, defaults, key, xy, JArray([]))
    requires Step(store, defaults, key, xy, JArray([])).Ok?
    ensures Composes(store, defaults, key, x, y, xy)
  {
  }

  /** Two one-item runs compose into one when their steps do. */
  lemma TwiceFromSteps(store: Store, defaults: Defaults, key: string, x: Json, y: Json, xy: Json)
    requires Composes(store, defaults, key, x, y, xy)
    ensures var once := AddFromDict(store, defaults, [(key, x)]);
      AddFromDict(once.store, defaults, [(key, y)]) == AddFromDict(store, defaults, [(key, xy)])
  {
    var empty := JArray([]);
    var first := Step(store, defaults, key, x, empty);
    var combined := Step(store, defaults, key, xy, empty);
    AddOne(store, defaults, key, x, empty);
    AddOne(store, defaults, key, xy, empty);
    var once := WriteOne(store, key, first).store;
    var second := Step(once, defaults, key, y, empty);
    AddOne(once, defaults, key, y, empty);
    WriteTwice(store, key, first, second, combined);
  }

  /** Appending to a property whose current list is what appending `a`
      produced is appending `a + b` to the original. */
  lemma AppendStepsOk(store: Store, next: Store, defaults: Defaults, key: string, a: seq<Json>, b: seq<Json>)
    requires AppendToList(store, defaults, key, a).Ok?
    requires CurrentAsJson(next, defaults, key) == Ok(Some(JArray(AppendToList(store, defaults, key, a).value)))
    ensures Step(next, defaults, key, JArray(b), JArray([])) == Step(store, defaults, key, JArray(a + b), JArray([]))
    ensures Step(store, defaults, key, JArray(a + b), JArray([])).Ok?
  {
    var existing := ExistingItems(CurrentAsJson(store, defaults, key).value);
    assert AppendToList(store, defaults, key, a).value == existing + a;
    assert existing + a + b == existing + (a + b);
  }

  lemma AppendStepsErr(store: Store, defaults: Defaults, key: string, a: seq<Json>, b: seq<Json>)
    requires AppendToList(store, defaults, key, a).Err?
    ensures Step(store, defaults, key, JArray(a), JArray([])) == Err(AppendToList(store, defaults, key, a).error)
    ensures Step(store, defaults, key, JArray(b), JArray([])) == Step(store, defaults, key, JArray(a + b), JArray([])) == Step(store, defaults, key, JArray(a), JArray([]))
  {
    AppendRefusalIgnoresValues(store, defaults, key, a, b);
    AppendRefusalIgnoresValues(store, defaults, key, a, a + b);
  }

  /** Adding to a property whose current dictionary is what adding `a`
      produced is adding `a + b` to the original. */
  lemma OverlayStepsOk(store: Store, next: Store, defaults: Defaults, key: string, a: map<string, Json>, b: map<string, Json>)
    requires AddToDict(store, defaults, key, a).Ok?
    requires CurrentAsJson(next, defaults, key) == Ok(Some(JObject(AddToDict(store, defaults, key, a).value)))
    ensures Step(next, defaults, key, JObject(b), JArray([])) == Step(store, defaults, key, JObject(a + b), JArray([]))
    ensures Step(store, defaults, key, JObject(a + b), JArray([])).Ok?
  {
    var existing := ExistingFields(CurrentAsJson(store, defaults, key).value);
    assert AddToDict(store, defaults, key, a).value == existing + a;
    UnionAssociative(existing, a, b);
  }

  lemma OverlayStepsErr(store: Store, defaults: Defaults, key: string, a: map<string, Json>, b: map<string, Json>)
    requires AddToDict(store, defaults, key, a).Err?
    ensures Step(store, defaults, key, JObject(a), JArray([])) == Err(AddToDict(store, defaults, key, a).error)
    ensures Step(store, defaults, key, JObject(b), JArray([])) == Step(store, defaults, key, JObject(a + b), JArray([])) == Step(store, defaults, key, JObject(a), JArray([]))
  {
    AddRefusalIgnoresValues(store, defaults, key, a, b);
    AddRefusalIgnoresValues(store, defaults, key, a, a + b);
  }

  lemma AppendComposes(store: Store, defaults: Defaults, key: string, a: seq<Json>, b: seq<Json>)
    ensures Composes(store, defaults, key, JArray(a), JArray(b), JArray(a + b))
  {
    if AppendToList(store, defaults, key, a).Ok? {
      AppendComposesOk(store, defaults, key, a, b);
    } else {
      AppendStepsErr(store, defaults, key, a, b);
    }
  }

  lemma AppendComposesOk(store: Store, defaults: Defaults, key: string, a: seq<Json>, b: seq<Json>)
    requires AppendToList(store, defaults, key, a).Ok?
    ensures Composes(store, defaults, key, JArray(a), JArray(b), JArray(a + b))
  {
    var merged := JArray(AppendToList(store, defaults, key, a).value);
    var next := store[key := Encode(merged)];
    ReadBackEncoded(store, defaults, key, merged);
    AppendStepsOk(store, next, defaults, key, a, b);
    ComposesFromNext(store, defaults, key, JArray(a), JArray(b), JArray(a + b), merged);
  }

  /** Appending `a` and then `b` to one property is appending `a + b`, and a
      refusal leaves the store as it was and is repeated. */
  lemma AppendTwice(store: Store, defaults: Defaults, key: string, a: seq<Json>, b: seq<Json>)
    ensures var once := AddFromDict(store, defaults, [(key, JArray(a))]);
      AddFromDict(once.store, defaults, [(key, JArray(b))]) == AddFromDict(store, defaults, [(key, JArray(a + b))])
  {
    AppendComposes(store, defaults, key, a, b);
    TwiceFromSteps(store, defaults, key, JArray(a), JArray(b), JArray(a + b));
  }

  lemma OverlayComposes(store: Store, defaults: Defaults, key: string, a: map<string, Json>, b: map<string, Json>)
    ensures Composes(store, defaults, key, JObject(a), JObject(b), JObject(a + b))
  {
    if AddToDict(store, defaults, key, a).Ok? {
      OverlayComposesOk(store, defaults, key, a, b);
    } else {
      OverlayStepsErr(store, defaults, key, a, b);
    }
  }

  lemma OverlayComposesOk(store: Store, defaults: Defaults, key: string, a: map<string, Json>, b: map<string, Json>)
    requires AddToDict(store, defaults, key, a).Ok?
    ensures Composes(store, defaults, key, JObject(a), JObject(b), JObject(a + b))
  {
    var merged := JObject(AddToDict(store, defaults, key, a).value);
    var next := store[key := Encode(merged)];
    ReadBackEncoded(store, defaults, key, merged);
    OverlayStepsOk(store, next, defaults, key, a, b);
    ComposesFromNext(store, defaults, key, JObject(a), JObject(b), JObject(a + b), merged);
  }

  /** Adding `a` and then `b` to one property is adding `a` overridden by `b`,
      and a refusal leaves the store as it was and is repeated. */
  lemma OverlayTwice(store: Store, defaults: Defaults, key: string, a: map<string, Json>, b: map<string, Json>)
    ensures var once := AddFromDict(store, defaults, [(key, JObject(a))]);
      AddFromDict(once.store, defaults, [(key, JObject(b))]) == AddFromDict(store, defaults, [(key, JObject(a + b))])
  {
    OverlayComposes(store, defaults, key, a, b);
    TwiceFromSteps(store, defaults, key, JObject(a), JObject(b), JObject(a + b));
  }

  /** A dictionary item for a property that holds a list is refused before
      anything is written. */
  lemma MismatchLeavesStore(store: Store, defaults: Defaults, key: string, items: seq<Json>, fields: map<string, Json>)
    ensures AddFromDict(store[key := Encode(JArray(items))], defaults, [(key, JObject(fields))])
         == Aborted(store[key := Encode(JArray(items))], ExpectedDict(key, JArray(items)))
  {
    var stored := store[key := Encode(JArray(items))];
    ReadBackEncoded(store, defaults, key, JArray(items));
    AddOne(stored, defaults, key, JObject(fields), JArray([]));
  }

  /** A second write to a property replaces the first. */
  lemma Overwrite(store: Store, key: string, first: string, second: string)
    ensures store[key := first][key := second] == store[key := second]
  {
  }

  lemma StoredListStep(store: Store, defaults: Defaults, key: string, xs: seq<Json>, ys: seq<Json>)
    ensures Step(store[key := Encode(JArray(xs))], defaults, key, JArray(ys), JArray([])) == Ok(JArray(xs + ys))
  {
    ReadBackEncoded(store, defaults, key, JArray(xs));
  }

  lemma StoredDictStep(store: Store, defaults: Defaults, key: string, xs: map<string, Json>, ys: map<string, Json>)
    ensures Step(store[key := Encode(JObject(xs))], defaults, key, JObject(ys), JArray([])) == Ok(JObject(xs + ys))
  {
    ReadBackEncoded(store, defaults, key, JObject(xs));
  }

  /** A list stored by a scalar set is extended by a later append, the new
      items after the old. */
  lemma ExtendStoredList(store: Store, defaults: Defaults, key: string, xs: seq<Json>, ys: seq<Json>)
    ensures AddFromDict(store[key := Encode(JArray(xs))], defaults, [(key, JArray(ys))])
         == Done(store[key := Encode(JArray(xs + ys))])
  {
    StoredListStep(store, defaults, key, xs, ys);
    AddOne(store[key := Encode(JArray(xs))], defaults, key, JArray(ys), JArray([]));
    Overwrite(store, key, Encode(JArray(xs)), Encode(JArray(xs + ys)));
  }

  /** A dictionary stored by a scalar set is updated by a later add: new
      fields win, the others stay. */
  lemma UpdateStoredDict(store: Store, defaults: Defaults, key: string, xs: map<string, Json>, ys: map<string, Json>)
    ensures AddFromDict(store[key := Encode(JObject(xs))], defaults, [(key, JObject(ys))])
         == Done(store[key := Encode(JObject(xs + ys))])
  {
    StoredDictStep(store, defaults, key, xs, ys);
    AddOne(store[key := Encode(JObject(xs))], defaults, key, JObject(ys), JArray([]));
    Overwrite(store, key, Encode(JObject(xs)), Encode(JObject(xs + ys)));
  }

  /** An unset OMERO.web property whose default is a list gets the default
      followed by the new items. */
  lemma ExtendDefaultList(store: Store, defaults: Defaults, key: string, xs: seq<Json>, ys: seq<Json>)
    requires key !in store && Strings.HasPrefix(key, WebPrefix)
    requires defaults(key) == Computed(JArray(xs))
    ensures AddFromDict(store, defaults, [(key, JArray(ys))]) == Done(store[key := Encode(JArray(xs + ys))])
  {
    AddOne(store, defaults, key, JArray(ys), JArray([]));
  }

  /** An unset property with no default takes the new list or dictionary
      as it is. */
  lemma FreshProperty(store: Store, defaults: Defaults, key: string, vs: Json)
    requires key !in store && vs.IsComposite()
    requires Strings.HasPrefix(key, WebPrefix) ==> defaults(key).NoSetting?
    ensures AddFromDict(store, defaults, [(key, vs)]) == Done(store[key := Encode(vs)])
  {
    AddOne(store, defaults, key, vs, JArray([]));
  }
}
