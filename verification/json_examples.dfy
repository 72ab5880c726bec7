/** The shape of the canonical text on small objects, and the texts the
    property store is expected to hold for the values of the unit tests. */
module JsonExamples {
  import opened Strings
  import opened Json

  /** A character the encoder writes as itself. */
  predicate Unescaped(c: char) {
    c != '"' && c != '\\' && c as int >= 0x20
  }

  /** A string without quotes, backslashes or control characters is quoted
      as it is. */
  lemma {:induction false} EscapePlain(s: string)
    requires forall i | 0 <= i < |s| :: Unescaped(s[i])
    ensures Escape(s) == s
    decreases |s|
  {
    if |s| > 0 {
      EscapePlain(s[1..]);
      assert s == [s[0]] + s[1..];
    }
  }

  /** Two keys are written in ascending order. */
  lemma SortedTwo(a: string, b: string)
    requires Less(a, b)
    ensures SortedKeys({a, b}) == [a, b]
  {
    LessIrreflexive(a);
    assert StrictlySorted([a, b]);
    SortedUnique(SortedKeys({a, b}), [a, b]);
  }

  /** One member, then the members after it. */
  lemma MembersCons(obj: Json, keys: seq<string>)
    requires obj.JObject? && |keys| > 1 && forall k | k in keys :: k in obj.fields
    ensures EncodeMembers(obj, keys) == Quote(keys[0]) + ": " + Encode(obj.fields[keys[0]]) + ", " + EncodeMembers(obj, keys[1..])
  {
  }

  /** The last member. */
  lemma MembersLast(obj: Json, k: string)
    requires obj.JObject? && k in obj.fields
    ensures EncodeMembers(obj, [k]) == Quote(k) + ": " + Encode(obj.fields[k])
  {
  }

  /** An object of two members: the smaller key first, `": "` after each
      key and `", "` between the members. */
  lemma TwoMembers(obj: Json, a: string, b: string)
    requires obj.JObject? && obj.fields.Keys == {a, b} && Less(a, b)
    ensures Encode(obj) == "{" + Quote(a) + ": " + Encode(obj.fields[a]) + ", " + Quote(b) + ": " + Encode(obj.fields[b]) + "}"
  {
    SortedTwo(a, b);
    var keys := [a, b];
    assert keys[1..] == [b];
    MembersCons(obj, keys);
    MembersLast(obj, b);
  }

  lemma QuoteWord(s: string)
    requires forall i | 0 <= i < |s| :: Unescaped(s[i])
    ensures Quote(s) == "\"" + s + "\""
  {
    EscapePlain(s);
  }

  /** The object of the `update_from_dict` test, member by member. */
  lemma TestObjectMembers(obj: Json)
    requires obj == JObject(map["k" := JString("v"), "b" := JBool(true)])
    ensures Encode(obj) == "{" + Quote("b") + ": " + Encode(JBool(true)) + ", " + Quote("k") + ": " + Encode(JString("v")) + "}"
  {
    assert obj.fields.Keys == {"b", "k"};
    assert Less("b", "k");
    TwoMembers(obj, "b", "k");
  }

  lemma QuotedLetter(c: char)
    requires c == 'b' || c == 'k' || c == 'v'
    ensures Quote([c]) == ['"', c, '"']
  {
    QuoteWord([c]);
  }

  lemma AssembleObject(qb: string, t: string, qk: string, qv: string)
    requires qb == ['"', 'b', '"'] && t == "true" && qk == ['"', 'k', '"'] && qv == ['"', 'v', '"']
    ensures "{" + qb + ": " + t + ", " + qk + ": " + qv + "}" == "{\"b\": true, \"k\": \"v\"}"
  {
  }

  /** The object of the `update_from_dict` test, `{"k": "v", "b": True}`:
      keys sorted, `": "` and `", "` separators. */
  lemma TestObjectText(obj: Json)
    requires obj == JObject(map["k" := JString("v"), "b" := JBool(true)])
    ensures Encode(obj) == "{\"b\": true, \"k\": \"v\"}"
  {
    TestObjectMembers(obj);
    QuotedLetter('b');
    QuotedLetter('k');
    QuotedLetter('v');
    assert "b" == ['b'] && "k" == ['k'] && "v" == ['v'];
    AssembleObject(Quote("b"), Encode(JBool(true)), Quote("k"), Encode(JString("v")));
  }

  /** A list of one element is that element in brackets. */
  lemma SingletonList(v: Json)
    ensures Encode(JArray([v])) == "[" + Encode(v) + "]"
  {
    assert [v][1..] == [];
  }

  lemma BracketObject(text: string)
    requires text == "{\"b\": true, \"k\": \"v\"}"
    ensures "[" + text + "]" == "[{\"b\": true, \"k\": \"v\"}]"
  {
  }

  /** The list around it, as the test expects it stored. */
  lemma TestListText(obj: Json)
    requires obj == JObject(map["k" := JString("v"), "b" := JBool(true)])
    ensures Encode(JArray([obj])) == "[{\"b\": true, \"k\": \"v\"}]"
  {
    TestObjectText(obj);
    SingletonList(obj);
    BracketObject(Encode(obj));
  }
}
