/** Reading a property as a list or dictionary and merging new items into
    it: `_get_omeroweb_default`, `_get_current_as_json`, `_append_to_list`
    and `_add_to_dict`. */
module Merge {
  import opened Wrappers
  import opened Strings
  import opened Json
  import opened JsonParse
  import opened JsonRoundTrip
  import opened ConfigStore

  /** Properties with this prefix fall back on OMERO.web's defaults. */
  const WebPrefix := "omero.web."

  /** Why a merge is refused; each is an exception in the source. */
  datatype Error =
    | Undecodable(key: string, raw: string)
    | StoredNotComposite(key: string, value: Json)
    | DefaultRaised(key: string)
    | DefaultNotComposite(key: string, value: Json)
    | ExpectedDict(key: string, current: Json)
    | ExpectedList(key: string, current: Json)
    | SectionNotMapping(section: string)

  /** What OMERO.web's settings table gives for a property: no (or an empty)
      entry, the value its parser computes from the default text, or an
      exception from the import, the lookup or the parser. */
  datatype DefaultSetting = NoSetting | Computed(value: Json) | Raised

  /** The settings table of OMERO.web, which lives outside this model. */
  type Defaults = string -> DefaultSetting

  /** `_get_omeroweb_default`: the computed default of a property, which must
      be a list or a dictionary. */
  function WebDefault(defaults: Defaults, key: string): (r: Result<Option<Json>, Error>)
    ensures r == Ok(None) <==> defaults(key).NoSetting?
    ensures forall v :: r == Ok(Some(v)) <==> defaults(key) == Computed(v) && v.IsComposite()
    ensures r == Err(DefaultRaised(key)) <==> defaults(key).Raised?
    ensures forall v :: r == Err(DefaultNotComposite(key, v)) <==> defaults(key) == Computed(v) && !v.IsComposite()
  {
    match defaults(key)
    case NoSetting => Ok(None)
    case Raised => Err(DefaultRaised(key))
    case Computed(v) =>
      if v.IsComposite() then Ok(Some(v)) else Err(DefaultNotComposite(key, v))
  }

  /** `_get_current_as_json`: the stored value decoded from JSON, else the
      OMERO.web default for a web property, else nothing. Whatever it yields
      is a list or a dictionary. */
  function CurrentAsJson(store: Store, defaults: Defaults, key: string): (r: Result<Option<Json>, Error>)
    ensures r.Ok? && r.value.Some? ==> r.value.value.IsComposite()
    ensures key in store ==> (r.Ok? <==> Decode(store[key]).Some? && Decode(store[key]).value.IsComposite())
    ensures key in store && r.Ok? ==> r.value == Decode(store[key])
    ensures key !in store && !HasPrefix(key, WebPrefix) ==> r == Ok(None)
    ensures key !in store && HasPrefix(key, WebPrefix) ==> r == WebDefault(defaults, key)
    ensures r == Ok(None) ==> key !in store && (HasPrefix(key, WebPrefix) ==> defaults(key).NoSetting?)
  {
    if key in store then
      match Decode(store[key])
      case None => Err(Undecodable(key, store[key]))
      case Some(v) =>
        if v.IsComposite() then Ok(Some(v)) else Err(StoredNotComposite(key, v))
    else if HasPrefix(key, WebPrefix) then
      WebDefault(defaults, key)
    else
      Ok(None)
  }

  /** Composite text written by the canonical encoder reads back as itself. */
  lemma ReadBackEncoded(store: Store, defaults: Defaults, key: string, j: Json)
    requires j.IsComposite()
    ensures CurrentAsJson(store[key := Encode(j)], defaults, key) == Ok(Some(j))
  {
    DecodeEncode(j);
  }

  /** A stored value hides the default: the table is consulted only for
      properties that are not set. */
  lemma StoredShadowsDefault(store: Store, defaults1: Defaults, defaults2: Defaults, key: string)
    requires key in store
    ensures CurrentAsJson(store, defaults1, key) == CurrentAsJson(store, defaults2, key)
  {
  }

  /** Properties outside OMERO.web never see its defaults. */
  lemma NonWebIgnoresDefaults(store: Store, defaults1: Defaults, defaults2: Defaults, key: string)
    requires !HasPrefix(key, WebPrefix)
    ensures CurrentAsJson(store, defaults1, key) == CurrentAsJson(store, defaults2, key)
  {
  }

  /** Reading one property looks at no other: writing `other` leaves it alone. */
  lemma CurrentLocal(store: Store, defaults: Defaults, key: string, other: string, text: string)
    requires other != key
    ensures CurrentAsJson(store[other := text], defaults, key) == CurrentAsJson(store, defaults, key)
  {
    assert (key in store[other := text]) == (key in store);
    if key in store {
      assert store[other := text][key] == store[key];
    }
  }

  /** The items a property already holds for an append: those of its list,
      or none when it has no value. */
  function ExistingItems(current: Option<Json>): seq<Json> {
    if current.Some? && current.value.JArray? then current.value.items else []
  }

  /** `_append_to_list`: the current list with `values` after its items, or
      `values` alone when the property has no value; a dictionary is refused. */
  function AppendToList(store: Store, defaults: Defaults, key: string, values: seq<Json>): (r: Result<seq<Json>, Error>)
    ensures var c := CurrentAsJson(store, defaults, key);
      && (r.Ok? <==> c.Ok? && (c.value.None? || c.value.value.JArray?))
      && (r.Ok? ==> r.value == ExistingItems(c.value) + values)
      && (c.Err? ==> r == Err(c.error))
      && (c.Ok? && c.value.Some? && c.value.value.JObject? ==> r == Err(ExpectedList(key, c.value.value)))
  {
    match CurrentAsJson(store, defaults, key)
    case Err(e) => Err(e)
    case Ok(None) => Ok(values)
    case Ok(Some(current)) =>
      if current.JArray? then Ok(current.items + values)
      else Err(ExpectedList(key, current))
  }

  /** The fields a property already holds for an update: those of its
      dictionary, or none when it has no value. */
  function ExistingFields(current: Option<Json>): map<string, Json> {
    if current.Some? && current.value.JObject? then current.value.fields else map[]
  }

  /** `_add_to_dict`: the current dictionary updated with `values`, or
      `values` alone when the property has no value; a list is refused. */
  function AddToDict(store: Store, defaults: Defaults, key: string, values: map<string, Json>): (r: Result<map<string, Json>, Error>)
    ensures var c := CurrentAsJson(store, defaults, key);
      && (r.Ok? <==> c.Ok? && (c.value.None? || c.value.value.JObject?))
      && (c.Err? ==> r == Err(c.error))
      && (c.Ok? && c.value.Some? && c.value.value.JArray? ==> r == Err(ExpectedDict(key, c.value.value)))
  {
    match CurrentAsJson(store, defaults, key)
    case Err(e) => Err(e)
    case Ok(None) => Ok(values)
    case Ok(Some(current)) =>
      if current.JObject? then Ok(current.fields + values)
      else Err(ExpectedDict(key, current))
  }

  /** Whether an append is refused depends on the property, never on the
      items appended. */
  lemma AppendRefusalIgnoresValues(store: Store, defaults: Defaults, key: string, a: seq<Json>, b: seq<Json>)
    requires AppendToList(store, defaults, key, a).Err?
    ensures AppendToList(store, defaults, key, b) == AppendToList(store, defaults, key, a)
  {
  }

  /** Whether an update is refused depends on the property, never on the
      fields added. */
  lemma AddRefusalIgnoresValues(store: Store, defaults: Defaults, key: string, a: map<string, Json>, b: map<string, Json>)
    requires AddToDict(store, defaults, key, a).Err?
    ensures AddToDict(store, defaults, key, b) == AddToDict(store, defaults, key, a)
  {
  }

  /** What `dict.update` promises: every new field with its new value, every
      other field of the current dictionary as it was, and nothing else. */
  lemma AddToDictFields(store: Store, defaults: Defaults, key: string, values: map<string, Json>)
    requires AddToDict(store, defaults, key, values).Ok?
    ensures var existing := ExistingFields(CurrentAsJson(store, defaults, key).value);
      var r := AddToDict(store, defaults, key, values).value;
      && r.Keys == existing.Keys + values.Keys
      && (forall k | k in values :: r[k] == values[k])
      && (forall k | k in existing && k !in values :: r[k] == existing[k])
  {
  }

  /** Appending `a`, storing the list, then appending `b` gives what
      appending `a + b` at once gives. */
  lemma AppendAssociative(store: Store, defaults: Defaults, key: string, a: seq<Json>, b: seq<Json>)
    requires AppendToList(store, defaults, key, a).Ok?
    ensures var first := AppendToList(store, defaults, key, a).value;
      AppendToList(store[key := Encode(JArray(first))], defaults, key, b) == AppendToList(store, defaults, key, a + b)
  {
    var first := AppendToList(store, defaults, key, a).value;
    ReadBackEncoded(store, defaults, key, JArray(first));
    var c := CurrentAsJson(store, defaults, key);
    assert first + b == ExistingItems(c.value) + (a + b);
  }

  /** Adding `a`, storing the dictionary, then adding `b` gives what adding
      `a` overridden by `b` gives. */
  lemma OverlayAssociative(store: Store, defaults: Defaults, key: string, a: map<string, Json>, b: map<string, Json>)
    requires AddToDict(store, defaults, key, a).Ok?
    ensures var first := AddToDict(store, defaults, key, a).value;
      AddToDict(store[key := Encode(JObject(first))], defaults, key, b) == AddToDict(store, defaults, key, a + b)
  {
    var first := AddToDict(store, defaults, key, a).value;
    var existing := ExistingFields(CurrentAsJson(store, defaults, key).value);
    assert first == existing + a;
    ReadBackEncoded(store, defaults, key, JObject(first));
    UnionAssociative(existing, a, b);
  }

  lemma UnionAssociative(x: map<string, Json>, a: map<string, Json>, b: map<string, Json>)
    ensures (x + a) + b == x + (a + b)
  {
  }
}
