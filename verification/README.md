# omero-cli-externalconfig: the configuration merge core in Dafny

`omero_externalconfig/externalconfig.py` writes OMERO properties into
`config.xml` from three kinds of source:
- `CONFIG_*` environment variables;
- flat dictionaries of values (`update_from_dict`);
- dictionaries of lists and dictionaries, merged into what a property already
  holds (`add_from_dict`).

`update_from_multilevel_dictfile` dispatches the sections of a parsed
YAML/JSON document onto the last two. `reset_configuration` clears every
property.

This project models that core over a property store `map<string, string>`.
- **`Json`**: the values that travel through it are a JSON datatype.
  `Encode` is the canonical text `json.dumps(v, sort_keys=True,
  ensure_ascii=False)` produces: `", "` and `": "` separators, object
  members in ascending key order, and Python's string escapes.
- **`JsonParse.Decode`**: `json.loads` without floats, `NaN`/`Infinity` or
  lone surrogates. It accepts whitespace between tokens, `\/`, and hex
  escapes in either case, so text written by others is read too.
  `Decode(Encode(j)) == Some(j)` is proved.
- **`Dicts`**: the Python dictionaries a caller passes in are sequences of
  items in iteration order.
- **`Merge`**: OMERO.web's settings table is a function injected as a
  parameter. It gives, for a property, no setting, a computed value, or an
  exception.
- **`Composite`**: an `add_from_dict` run ends `Done(store)` or
  `Aborted(store, error)`. The store of an aborted run keeps the writes
  made before the failure, because the `finally: cfg.close()` saves them.

Modules, one per file: `Wrappers`, `Strings`, `Json`, `JsonExamples`, `JsonParse`,
`JsonRoundTrip`, `Dicts`, `ConfigStore` (store.dfy), `Scalar`,
`Environment`, `Merge`, `Composite` (add_from_dict.dfy) and `Document`.

Two behaviours of the code are modelled as written:
- **Name decoding.** The `re.sub("([^_])_([^_])", ...)` pass scans left to
  right without overlapping. A one-character segment such as `a_b_c`
  therefore decodes to `a.b_c`, not `a.b.c`.
- **The `jv` quirk.** In `add_from_dict`, `jv` is initialised once, before
  the loop. An item that is neither a list nor a dictionary therefore writes
  the value written for the item before it, or `[]` when it comes first.
  The docstring (lines 189-192) says such items must not occur, but the
  code raises nothing for one, and this model follows the code.

## Model

| member | source | states |
|---|---|---|
| ConfigStore.Reset | omero_externalconfig/externalconfig.py:128-138 | after a reset no property is set |
| Environment.PropertyName | omero_externalconfig/externalconfig.py:154-157 | a variable names a property exactly when it starts with `CONFIG_`; the decoded name is no longer than the rest of the variable name |
| Environment.DotPassChanges | omero_externalconfig/externalconfig.py:156 | the first substitution only turns an underscore into a dot, and only one with a non-underscore on each side |
| Environment.UnderscorePassKeeps | omero_externalconfig/externalconfig.py:157 | text without a doubled underscore passes the second substitution unchanged |
| Environment.NameRoundTrip | omero_externalconfig/externalconfig.py:145-157 | a property name written with the docstring's rule ("." as "_", "_" as "__") decodes back to itself, whenever each dot sits between plain characters and no segment has one character |
| Environment.DecodeWord | omero_externalconfig/externalconfig.py:156-157 | a word followed by a single underscore and a non-underscore decodes to the word followed by a dot |
| Environment.DecodePair | omero_externalconfig/externalconfig.py:156-157 | a word followed by a doubled underscore decodes to the word followed by one underscore |
| Environment.DecodePlain | omero_externalconfig/externalconfig.py:156-157 | a word without underscores decodes to itself |
| Environment.DataDirName | tests/unit/test_externalconfig.py:40-48 | `CONFIG_omero_data_dir` sets `omero.data.dir` |
| Environment.UrlFilterName | tests/unit/test_externalconfig.py:40-48 | `CONFIG_omero_web_public_url__filter` sets `omero.web.public.url_filter` |
| Environment.DotBesideUnderscore | omero_externalconfig/externalconfig.py:156-157 | the documented rule writes `a._b` as `a___b`, which decodes to `a__b` |
| Environment.OneCharacterSegment | omero_externalconfig/externalconfig.py:156 | the documented rule writes `a.b.c` as `a_b_c`, which the non-overlapping scan decodes to `a.b_c` |
| Environment.Collect | omero_externalconfig/externalconfig.py:152-158 | the dictionary built from the variables has distinct keys, and each property maps to the value of the last variable naming it |
| Environment.UpdateFromEnvironment | omero_externalconfig/externalconfig.py:141-159 | every property some variable names takes the value of the last such variable, verbatim; every other property is kept or stays absent |
| Scalar.ScalarText | omero_externalconfig/externalconfig.py:175-176 | a string is stored verbatim; any other value is stored as its canonical `json.dumps` text, which decodes back to the value |
| Scalar.UpdateFromDict | omero_externalconfig/externalconfig.py:162-180 | exactly the store's keys and the dictionary's keys are set afterwards; each key of the dictionary holds the text of its last value; every other property is unchanged |
| Scalar.ReadBack | omero_externalconfig/externalconfig.py:174-178 | a property read back after a set gives the string set, or the canonical text of the value set, which decodes to it |
| Scalar.UpdateIdempotent | omero_externalconfig/externalconfig.py:162-180 | setting the same dictionary twice is setting it once |
| Scalar.SetOne | omero_externalconfig/externalconfig.py:174-178 | a one-item dictionary writes exactly that item's text |
| Scalar.SetThree | omero_externalconfig/externalconfig.py:174-178 | a three-item dictionary writes its items one after another |
| Scalar.IntText123 | omero_externalconfig/externalconfig.py:176 | the integer 123 is stored as `123` |
| Scalar.TestUpdateFromDict | tests/unit/test_externalconfig.py:50-63 | `{"a": 123, "b": "c d e", "c": [{"k": "v", "b": True}]}` set on an empty store gives `a` = `123`, `b` = `c d e` and `c` = `[{"b": true, "k": "v"}]`, and nothing else |
| Scalar.ResetThenSet | omero_externalconfig/cli.py:69-78 | the reset of the command runs before any file is applied, so after a reset and a set exactly the properties set are present |
| Scalar.UpdateSequence | omero_externalconfig/externalconfig.py:174-178 | setting `d1` and then `d2` is setting their concatenation, so a later value wins |
| JsonRoundTrip.DecodeEncode | omero_externalconfig/externalconfig.py:63 | `json.loads` of the text `json.dumps` wrote gives the value back |
| JsonExamples.EscapePlain | omero_externalconfig/externalconfig.py:176 | a string without quotes, backslashes or control characters is written between quotes as it is |
| JsonExamples.SortedTwo | omero_externalconfig/externalconfig.py:204 | the members of a two-key object are written smaller key first |
| JsonExamples.TwoMembers | omero_externalconfig/externalconfig.py:176 | a two-member object is written `{"a": A, "b": B}`: sorted keys, `": "` after each key, `", "` between members |
| JsonExamples.TestObjectText | tests/unit/test_externalconfig.py:55-63 | `{"k": "v", "b": True}` is written `{"b": true, "k": "v"}` |
| JsonExamples.TestListText | tests/unit/test_externalconfig.py:55-63 | the list holding it encodes as `[{"b": true, "k": "v"}]`; `Scalar.TestUpdateFromDict` shows `update_from_dict` stores that text |
| JsonRoundTrip.EncodeInjective | omero_externalconfig/externalconfig.py:204 | different values are written as different texts |
| Merge.WebDefault | omero_externalconfig/externalconfig.py:34-54 | a missing or empty setting gives nothing; a computed list or dictionary is returned; a raised exception, or a computed value of another type, is an error naming the property |
| Merge.CurrentAsJson | omero_externalconfig/externalconfig.py:57-71 | a stored property is read exactly when its text decodes to a list or dictionary, and then yields that value; an unset `omero.web.` property yields its OMERO.web default; an unset non-web property yields nothing; nothing is yielded only for an unset property without a web default |
| Merge.ReadBackEncoded | omero_externalconfig/externalconfig.py:57-68 | a list or dictionary written as canonical text is read back as itself |
| Merge.StoredShadowsDefault | omero_externalconfig/externalconfig.py:62-68 | a stored value hides the OMERO.web default |
| Merge.NonWebIgnoresDefaults | omero_externalconfig/externalconfig.py:69-71 | properties outside `omero.web.` never consult the defaults |
| Merge.CurrentLocal | omero_externalconfig/externalconfig.py:57-71 | reading a property is unaffected by writes to any other property |
| Merge.AppendToList | omero_externalconfig/externalconfig.py:91-107 | succeeds exactly when the current value is absent or a list, and yields its items followed by the new ones; read errors pass through; a current dictionary is refused naming the key and value |
| Merge.AddToDict | omero_externalconfig/externalconfig.py:74-88 | succeeds exactly when the current value is absent or a dictionary; read errors pass through; a current list is refused naming the key and value |
| Merge.AddToDictFields | omero_externalconfig/externalconfig.py:83-85 | the merged dictionary has the old and new fields, the new values win, and the other old fields are kept |
| Merge.AppendRefusalIgnoresValues | omero_externalconfig/externalconfig.py:97-107 | whether an append is refused depends only on the property |
| Merge.AddRefusalIgnoresValues | omero_externalconfig/externalconfig.py:78-88 | whether an update is refused depends only on the property |
| Merge.AppendAssociative | omero_externalconfig/externalconfig.py:91-107 | appending `a`, storing the list, then appending `b` equals appending `a + b` |
| Merge.OverlayAssociative | omero_externalconfig/externalconfig.py:74-88 | adding `a`, storing the dictionary, then adding `b` equals adding `a` overridden by `b` |
| Composite.Step | omero_externalconfig/externalconfig.py:197-203 | an item that is neither list nor dictionary yields the previous `jv`; a merged list or dictionary stays one |
| Composite.AddEntries | omero_externalconfig/externalconfig.py:195-204 | a run only adds properties named by the dictionary, never removes one, leaves other properties unchanged, and when completed has written every named property |
| Composite.AddFromDict | omero_externalconfig/externalconfig.py:183-206 | the same bounds for a run that starts with `jv` the empty list |
| Composite.AddEntriesAbortsAt | omero_externalconfig/externalconfig.py:195-206 | when the items before `i` merge and item `i` fails, the run aborts with item `i`'s error; the store holds the earlier merges and the old values of every other property, and nothing else |
| Composite.AddFromDictAbortsAt | omero_externalconfig/externalconfig.py:183-206 | the same for a whole `add_from_dict`: the writes made before the failing item are kept, as `finally: cfg.close()` saves them |
| Composite.AddEntriesWritesComposite | omero_externalconfig/externalconfig.py:195-204 | after a completed run every named property holds text that decodes to a list or dictionary |
| Composite.AddFromDictWritesComposite | omero_externalconfig/externalconfig.py:183-206 | after a completed `add_from_dict` every named property can be read by `_get_current_as_json` |
| Composite.WriteOne | omero_externalconfig/externalconfig.py:199-204 | a successful merge is written and reads back as the merged value; a failed one writes nothing; no other property changes |
| Composite.AddOne | omero_externalconfig/externalconfig.py:197-204 | a one-item dictionary writes the merge of its item, or nothing |
| Composite.WriteTwice | omero_externalconfig/externalconfig.py:204 | two writes to one property keep only the second; a failed first write changes nothing |
| Composite.StepLocal | omero_externalconfig/externalconfig.py:197-203 | merging a list or dictionary depends neither on `jv` nor on writes to other properties |
| Composite.AddEntriesIndependent | omero_externalconfig/externalconfig.py:195-204 | with distinct keys and list or dictionary items, a run completes exactly when every item's merge against the original store succeeds, and each property then holds its merge's canonical text |
| Composite.NonCompositeRepeatsPrevious | omero_externalconfig/externalconfig.py:196-204 | an item that is neither list nor dictionary writes the text written for the item before it |
| Composite.NonCompositeFirstWritesEmptyList | omero_externalconfig/externalconfig.py:196-204 | such an item, coming first, writes `[]` |
| Composite.TwiceFromSteps | omero_externalconfig/externalconfig.py:183-206 | two one-item runs on a property equal one run whenever their merges compose |
| Composite.AppendTwice | omero_externalconfig/externalconfig.py:183-206 | appending `a` and then `b` to one property equals appending `a + b`, including identical refusals |
| Composite.OverlayTwice | omero_externalconfig/externalconfig.py:183-206 | adding `a` and then `b` to one property equals adding `a` overridden by `b`, including identical refusals |
| Composite.MismatchLeavesStore | omero_externalconfig/externalconfig.py:74-88 | a dictionary item for a property holding a list aborts with the expected-dictionary error and writes nothing |
| Composite.ExtendStoredList | tests/unit/test_externalconfig.py:70-79 | a list stored earlier is extended, the new items after the old |
| Composite.UpdateStoredDict | tests/unit/test_externalconfig.py:86-103 | a dictionary stored earlier is updated, new fields winning and the others kept |
| Composite.ExtendDefaultList | tests/unit/test_externalconfig.py:195-198 | an unset OMERO.web property whose default is a list gets the default followed by the new items |
| Composite.FreshProperty | omero_externalconfig/externalconfig.py:79-82 | an unset property without a default takes the new list or dictionary as it is |
| Document.Classify | omero_externalconfig/externalconfig.py:246-252 | a top-level key is appended exactly when it ends in `_append`, set exactly when it ends in `_set`, and ignored otherwise |
| Document.ApplySection | omero_externalconfig/externalconfig.py:246-252 | an `_append` dictionary is passed to `add_from_dict` and a `_set` dictionary to `update_from_dict`; an ignored section leaves the store; a section that is not a dictionary is refused under `_set` or `_append`; only the section's properties can change and none is removed |
| Document.ApplyInOrder | omero_externalconfig/externalconfig.py:246-252 | sections in the given order only add or change properties some relevant section names |
| Document.InOrderConcat | omero_externalconfig/externalconfig.py:246-252 | applying the keys `ks1 + ks2` applies `ks1` and then, unless that aborted, `ks2` to the resulting store |
| Document.InOrderSameSections | omero_externalconfig/externalconfig.py:246-252 | the run depends only on the sections under the keys visited |
| Document.LeastFirst | omero_externalconfig/externalconfig.py:222 | the least top-level key is processed first; its abort ends the run, otherwise the rest of the document is processed from the store it leaves |
| Document.UpdateFromMultilevel | omero_externalconfig/externalconfig.py:209-252 | only properties named in a `_set` or `_append` section change, and none is removed |
| Document.Unignored | omero_externalconfig/externalconfig.py:246 | keeps exactly the keys that are not ignored, in sorted order when the input was sorted |
| Document.InOrderUnignored | omero_externalconfig/externalconfig.py:246-252 | applying a key order equals applying it with the ignored keys filtered out |
| Document.IgnoredSectionsInert | omero_externalconfig/externalconfig.py:251-252 | removing the ignored sections from the document changes nothing |
| Document.IgnoredPropertyStaysAbsent | tests/unit/test_externalconfig.py:165-174 | a property named only under an ignored key stays unset |
| Document.SingleSection | omero_externalconfig/externalconfig.py:246-252 | a one-section document is that section applied |
| Document.SortedPair | omero_externalconfig/externalconfig.py:246 | of two sections the lower key is applied first, and the higher one only after it succeeds |
| Document.TwoSetSections | omero_externalconfig/externalconfig.py:246-250 | two `_set` sections act as one set of their concatenation, the higher key winning |
| Document.FailureStops | omero_externalconfig/externalconfig.py:246-250 | a relevant section that is not a dictionary aborts the run, and later sections are not applied |

## Left out

- The command-line plugin (`cli.py`, `omero/plugins/externalconfig.py`) is not part of this model. It only parses arguments and calls the functions above.
- `ConfigXml` is a store map. Not modelled: its XML file, its `omero.config.version` bookkeeping, file locking, and the reading and writing done by `close`.
- File parsing in `update_from_multilevel_dictfile` (lines 232-243) is left out: `pydict_text_io.load` and the Jinja2 rendering of `.j2` files (`_parse_jinja2`, lines 110-125). The model starts from the parsed document. A file that fails to parse raises before any property is touched.
- The process environment is a sequence of name and value pairs passed as a parameter.
- OMERO.web's settings table, and the parser each setting carries, are a function of the property name passed as a parameter.
- Logging (`log.info`, `log.warning`) is left out; it does not affect the store.
- JSON floats, `NaN`/`Infinity`, and `\u` escapes of lone surrogates are not in `Json`. `Decode` rejects text containing them, so such a stored property reads as `Undecodable`, where Python would read it.
- Non-string dictionary keys are left out. `json.dumps` would coerce them to strings, or fail for `sort_keys` with mixed key types.
- Python's exception types are replaced by the `Error` datatype. One example: a section that is not a mapping raises `AttributeError` on `.items()`, which the model reports as `SectionNotMapping`.
- Concurrency is not modelled. Each call runs on its own store, as each call opens and closes `config.xml` itself.
- Environment.NameRoundTrip: requires `EnvSafe`, because the documented naming rule does not invert for a one-character segment (`Environment.OneCharacterSegment`) or for a dot next to an underscore (`Environment.DotBesideUnderscore`).
- Composite.AddEntriesIndependent: requires distinct keys and list or dictionary items; the `jv` carried over from a non-composite item is described by `Composite.NonCompositeRepeatsPrevious` instead.
- Values `json.dumps` cannot serialise are not modelled: YAML dates and timestamps, sets, bytes. For them, `update_from_dict` (line 176) and `add_from_dict` (line 204) raise `TypeError` in the middle of the loop, and the earlier writes are kept. The `Json` datatype has no such values.
- Document.ApplyInOrder: its own contract states only which properties can change. Sequential application, and stopping at the first failure, are stated by `Document.InOrderConcat` and `Document.LeastFirst`.
- Composite.AddEntriesAbortsAt: requires distinct keys and list or dictionary items. The error of a failing item and the kept earlier writes are stated for that case. With repeated keys or non-composite items, `Composite.AddEntries` gives only the bounds.
