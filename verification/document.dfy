/** `update_from_multilevel_dictfile` once the file is parsed: a document of
    named sections, applied in ascending order of their names, where a name
    ending in `_append` merges its section into the store, a name ending in
    `_set` sets it, and any other section is ignored. */
module Document {
  import opened Strings
  import opened Json
  import opened Dicts
  import opened ConfigStore
  import opened Scalar
  import opened Merge
  import opened Composite

  const AppendSuffix := "_append"
  const SetSuffix := "_set"

  /** The value under one top-level key: a dictionary of properties, or
      anything else, which has no `.items()` to iterate. */
  datatype Section = Mapping(entries: Dict<Json>) | NotMapping(value: Json)

  /** The parsed file: top-level keys and their sections. */
  type Document = map<string, Section>

  /** What a top-level key asks for. */
  datatype Kind = Appended | Assigned | Ignored

  /** A key ending in `_append` ends in `d`, so it does not end in `_set`. */
  lemma SuffixesExclusive(topk: string)
    ensures HasSuffix(topk, AppendSuffix) ==> !HasSuffix(topk, SetSuffix)
  {
    if HasSuffix(topk, AppendSuffix) {
      assert topk[|topk| - 1] == 'd';
    }
  }

  /** The dispatch on a top-level key: `_append` is looked for first, then `_set`;
      no key ends in both, so the order of the tests does not matter. */
  function Classify(topk: string): (r: Kind)
    ensures r == Appended <==> HasSuffix(topk, AppendSuffix)
    ensures r == Assigned <==> HasSuffix(topk, SetSuffix)
    ensures r == Ignored <==> !HasSuffix(topk, AppendSuffix) && !HasSuffix(topk, SetSuffix)
  {
    SuffixesExclusive(topk);
    if HasSuffix(topk, AppendSuffix) then Appended
    else if HasSuffix(topk, SetSuffix) then Assigned
    else Ignored
  }

  /** The properties a section may write: those it names, when it is not
      ignored and is a dictionary. */
  function SectionKeys(topk: string, section: Section): set<string> {
    if Classify(topk) != Ignored && section.Mapping? then Keys(section.entries) else {}
  }

  /** Every property some section of the document may write. */
  function Touched(doc: Document): set<string> {
    set topk, k | topk in doc && k in SectionKeys(topk, doc[topk]) :: k
  }

  /** One iteration of the dispatch loop. */
  function ApplySection(store: Store, defaults: Defaults, topk: string, section: Section): (r: Outcome)
    ensures Classify(topk) == Ignored ==> r == Done(store)
    ensures Classify(topk) != Ignored && section.NotMapping? ==> r == Aborted(store, SectionNotMapping(topk))
    ensures Classify(topk) == Appended && section.Mapping? ==> r == AddFromDict(store, defaults, section.entries)
    ensures Classify(topk) == Assigned && section.Mapping? ==> r == Done(UpdateFromDict(store, section.entries))
    ensures store.Keys <= r.store.Keys <= store.Keys + SectionKeys(topk, section)
    ensures forall k | k in store && k !in SectionKeys(topk, section) :: r.store[k] == store[k]
  {
    match Classify(topk)
    case Ignored => Done(store)
    case Appended =>
      (match section
       case NotMapping(_) => Aborted(store, SectionNotMapping(topk))
       case Mapping(entries) => AddFromDict(store, defaults, entries))
    case Assigned =>
      (match section
       case NotMapping(_) => Aborted(store, SectionNotMapping(topk))
       case Mapping(entries) => Done(UpdateFromDict(store, entries)))
  }

  /** The sections named by `keys`, one after another; the first failure
      ends the loop and the exception leaves the function. */
  function ApplyInOrder(store: Store, defaults: Defaults, doc: Document, keys: seq<string>): (r: Outcome)
    requires forall k | k in keys :: k in doc
    ensures store.Keys <= r.store.Keys <= store.Keys + Touched(doc)
    ensures forall k | k in store && k !in Touched(doc) :: r.store[k] == store[k]
    decreases |keys|
  {
    if |keys| == 0 then Done(store)
    else
      var topk := keys[0];
      assert SectionKeys(topk, doc[topk]) <= Touched(doc);
      var first := ApplySection(store, defaults, topk, doc[topk]);
      if first.Aborted? then first else ApplyInOrder(first.store, defaults, doc, keys[1..])
  }

  /** `update_from_multilevel_dictfile` on a parsed document: its sections
      in ascending order of their keys. Only properties named in a `_set`
      or `_append` section can change, and none is removed. */
  function UpdateFromMultilevel(store: Store, defaults: Defaults, doc: Document): (r: Outcome)
    ensures store.Keys <= r.store.Keys <= store.Keys + Touched(doc)
    ensures forall k | k in store && k !in Touched(doc) :: r.store[k] == store[k]
  {
    ApplyInOrder(store, defaults, doc, SortedKeys(doc.Keys))
  }

  /** Running the keys `ks1 + ks2` is running `ks1` and then, unless that
      failed, `ks2` on the store it left: the loop applies the sections one
      after another and stops at the first failure. */
  lemma {:induction false} InOrderConcat(store: Store, defaults: Defaults, doc: Document, ks1: seq<string>, ks2: seq<string>)
    requires forall k | k in ks1 :: k in doc
    requires forall k | k in ks2 :: k in doc
    ensures var first := ApplyInOrder(store, defaults, doc, ks1);
      ApplyInOrder(store, defaults, doc, ks1 + ks2) ==
        if first.Aborted? then first else ApplyInOrder(first.store, defaults, doc, ks2)
    decreases |ks1|
  {
    if |ks1| == 0 {
      assert ks1 + ks2 == ks2;
    } else {
      var keys := ks1 + ks2;
      assert keys[0] == ks1[0] && keys[1..] == ks1[1..] + ks2;
      var step := ApplySection(store, defaults, ks1[0], doc[ks1[0]]);
      if step.Done? {
        InOrderConcat(step.store, defaults, doc, ks1[1..], ks2);
      }
    }
  }

  /** Only the sections named by `keys` matter to a run over `keys`. */
  lemma {:induction false} InOrderSameSections(store: Store, defaults: Defaults, doc1: Document, doc2: Document, keys: seq<string>)
    requires forall k | k in keys :: k in doc1 && k in doc2 && doc1[k] == doc2[k]
    ensures ApplyInOrder(store, defaults, doc1, keys) == ApplyInOrder(store, defaults, doc2, keys)
    decreases |keys|
  {
    if |keys| > 0 {
      var step := ApplySection(store, defaults, keys[0], doc1[keys[0]]);
      if step.Done? {
        InOrderSameSections(step.store, defaults, doc1, doc2, keys[1..]);
      }
    }
  }

  /** `sorted` puts the smallest key first. */
  lemma SortedKeysLeast(s: set<string>, k: string)
    requires IsLeast(k, s)
    ensures SortedKeys(s) == [k] + SortedKeys(s - {k})
  {
    LeastUnique(s);
    assert Least(s) == k;
  }

  /** The section with the smallest key is applied first; if it fails the
      run ends with its error, otherwise the rest of the document is applied
      to the store it left. */
  lemma LeastFirst(store: Store, defaults: Defaults, doc: Document, k: string)
    requires IsLeast(k, doc.Keys)
    ensures var first := ApplySection(store, defaults, k, doc[k]);
      UpdateFromMultilevel(store, defaults, doc) ==
        if first.Aborted? then first else UpdateFromMultilevel(first.store, defaults, doc - {k})
  {
    var rest := doc - {k};
    assert rest.Keys == doc.Keys - {k};
    SortedKeysLeast(doc.Keys, k);
    var keys := SortedKeys(doc.Keys);
    assert keys[0] == k && keys[1..] == SortedKeys(rest.Keys);
    var first := ApplySection(store, defaults, k, doc[k]);
    if first.Done? {
      InOrderSameSections(first.store, defaults, doc, rest, keys[1..]);
    }
  }

  /** The sections that are not ignored. */
  function Relevant(doc: Document): (r: Document)
    ensures r.Keys <= doc.Keys
    ensures forall k | k in doc :: k in r <==> Classify(k) != Ignored
  {
    map k | k in doc && Classify(k) != Ignored :: doc[k]
  }

  /** The keys of `keys` that are not ignored, in the same order. */
  function Unignored(keys: seq<string>): (r: seq<string>)
    ensures forall k :: k in r <==> k in keys && Classify(k) != Ignored
    ensures StrictlySorted(keys) ==> StrictlySorted(r)
    decreases |keys|
  {
    if |keys| == 0 then []
    else
      var rest := Unignored(keys[1..]);
      if Classify(keys[0]) == Ignored then rest
      else
        assert StrictlySorted(keys) ==> forall k | k in keys[1..] :: Less(keys[0], k);
        SortedCons(keys[0], rest);
        [keys[0]] + rest
  }

  lemma SortedCons(x: string, rest: seq<string>)
    ensures StrictlySorted(rest) && (forall k | k in rest :: Less(x, k)) ==> StrictlySorted([x] + rest)
  {
    var r := [x] + rest;
    if StrictlySorted(rest) && (forall k | k in rest :: Less(x, k)) {
      forall i, j | 0 <= i < j < |r| ensures Less(r[i], r[j]) {
        assert r[j] == rest[j - 1];
        if i > 0 {
          assert r[i] == rest[i - 1];
        }
      }
    }
  }

  lemma {:induction false} InOrderUnignored(store: Store, defaults: Defaults, doc: Document, keys: seq<string>)
    requires forall k | k in keys :: k in doc
    ensures ApplyInOrder(store, defaults, doc, keys) == ApplyInOrder(store, defaults, Relevant(doc), Unignored(keys))
    decreases |keys|
  {
    if |keys| > 0 {
      var topk := keys[0];
      var relevant := Relevant(doc);
      if Classify(topk) == Ignored {
        InOrderUnignored(store, defaults, doc, keys[1..]);
      } else {
        var after := ApplySection(store, defaults, topk, doc[topk]);
        var filtered := Unignored(keys);
        assert filtered[0] == topk && filtered[1..] == Unignored(keys[1..]);
        if after.Done? {
          InOrderUnignored(after.store, defaults, doc, keys[1..]);
        }
      }
    }
  }

  /** Sections under any other key never matter: the document gives the
      same result without them. */
  lemma IgnoredSectionsInert(store: Store, defaults: Defaults, doc: Document)
    ensures UpdateFromMultilevel(store, defaults, doc) == UpdateFromMultilevel(store, defaults, Relevant(doc))
  {
    var keys := SortedKeys(doc.Keys);
    InOrderUnignored(store, defaults, doc, keys);
    SortedUnique(Unignored(keys), SortedKeys(Relevant(doc).Keys));
  }

  /** A document of one section is that section applied to the store. */
  lemma SingleSection(store: Store, defaults: Defaults, topk: string, section: Section)
    ensures UpdateFromMultilevel(store, defaults, map[topk := section]) == ApplySection(store, defaults, topk, section)
  {
    var doc := map[topk := section];
    var keys := SortedKeys(doc.Keys);
    assert doc.Keys == {topk};
    SortedUnique(keys, [topk]);
    assert keys[0] == topk && keys[1..] == [];
    var first := ApplySection(store, defaults, topk, section);
    if first.Done? {
      assert ApplyInOrder(first.store, defaults, doc, []) == Done(first.store) == first;
    }
  }

  /** A property named only under an ignored top-level key is not written:
      if it was absent it stays absent, whatever the other sections do. */
  lemma IgnoredPropertyStaysAbsent(store: Store, defaults: Defaults, doc: Document, topk: string, k: string)
    requires topk in doc && Classify(topk) == Ignored && doc[topk].Mapping? && k in Keys(doc[topk].entries)
    requires forall t | t in doc && t != topk :: k !in SectionKeys(t, doc[t])
    requires k !in store
    ensures k !in UpdateFromMultilevel(store, defaults, doc).store
  {
    assert k !in Touched(doc);
  }

  /** Two sections are applied in ascending order of their keys: the lower
      one first, and the higher one only if the lower one succeeded. */
  lemma SortedPair(store: Store, defaults: Defaults, a: string, sa: Section, b: string, sb: Section)
    requires Less(a, b)
    ensures var first := ApplySection(store, defaults, a, sa);
      UpdateFromMultilevel(store, defaults, map[a := sa, b := sb]) ==
        if first.Aborted? then first else ApplySection(first.store, defaults, b, sb)
  {
    LessIrreflexive(a);
    var doc := map[a := sa, b := sb];
    assert doc.Keys == {a, b} && doc[a] == sa && doc[b] == sb;
    var keys := SortedKeys(doc.Keys);
    assert StrictlySorted([a, b]);
    SortedUnique(keys, [a, b]);
    assert keys[0] == a && keys[1..] == [b];
    var first := ApplySection(store, defaults, a, sa);
    if first.Done? {
      var second := ApplySection(first.store, defaults, b, sb);
      assert [b][1..] == [];
      assert ApplyInOrder(first.store, defaults, doc, [b]) == if second.Aborted? then second else Done(second.store);
    }
  }

  /** Two `_set` sections act as one set of the lower section's items
      followed by the higher one's: on a shared property the higher key wins. */
  lemma TwoSetSections(store: Store, defaults: Defaults, a: string, da: Dict<Json>, b: string, db: Dict<Json>)
    requires Less(a, b) && HasSuffix(a, SetSuffix) && HasSuffix(b, SetSuffix)
    ensures UpdateFromMultilevel(store, defaults, map[a := Mapping(da), b := Mapping(db)]) == Done(UpdateFromDict(store, da + db))
  {
    SortedPair(store, defaults, a, Mapping(da), b, Mapping(db));
    UpdateSequence(store, da, db);
  }

  /** A section that is not a dictionary stops the run at its key: sections
      after it are not applied. */
  lemma FailureStops(store: Store, defaults: Defaults, a: string, v: Json, b: string, sb: Section)
    requires Less(a, b) && Classify(a) != Ignored
    ensures UpdateFromMultilevel(store, defaults, map[a := NotMapping(v), b := sb]) == Aborted(store, SectionNotMapping(a))
  {
    SortedPair(store, defaults, a, NotMapping(v), b, sb);
  }
}
