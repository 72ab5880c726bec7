/** The canonical text of every value reads back as that value:
    `json.loads(json.dumps(v, sort_keys=True, ensure_ascii=False)) == v`. */
module JsonRoundTrip {
  import opened Wrappers
  import opened Json
  import opened JsonParse
  import Strings

  /** A character that can begin the canonical text of a value. */
  predicate StartsValue(c: char) {
    c == '"' || c == '{' || c == '[' || c == 'n' || c == 't' || c == 'f' || c == '-' || IsDigit(c)
  }

  /** Text that cannot extend a number written just before it. */
  predicate NotDigitStart(rest: string) {
    |rest| == 0 || !IsDigit(rest[0])
  }

  /** The members of `m` named in `keys`. */
  function Restrict(m: map<string, Json>, keys: seq<string>): map<string, Json>
    requires forall k | k in keys :: k in m
  {
    map k | k in keys :: m[k]
  }

  lemma {:induction false} NatTextDigits(n: nat)
    ensures |NatText(n)| > 0
    ensures forall i | 0 <= i < |NatText(n)| :: IsDigit(NatText(n)[i])
    ensures n > 0 ==> NatText(n)[0] != '0'
    decreases n
  {
    if n >= 10 {
      NatTextDigits(n / 10);
    }
  }

  lemma {:induction false} NatTextValue(n: nat)
    ensures (forall i | 0 <= i < |NatText(n)| :: IsDigit(NatText(n)[i])) && DigitsValue(NatText(n)) == n
    decreases n
  {
    NatTextDigits(n);
    if n >= 10 {
      var ds := NatText(n);
      NatTextDigits(n / 10);
      assert ds[..|ds| - 1] == NatText(n / 10);
      NatTextValue(n / 10);
    }
  }

  lemma {:induction false} DigitRunOf(p: string, rest: string)
    requires forall i | 0 <= i < |p| :: IsDigit(p[i])
    requires NotDigitStart(rest)
    ensures DigitRun(p + rest) == |p|
    decreases |p|
  {
    if |p| > 0 {
      assert (p + rest)[1..] == p[1..] + rest;
      DigitRunOf(p[1..], rest);
    } else {
      assert p + rest == rest;
    }
  }

  /** The digits of `NatText(m)` are exactly what the number reader takes. */
  lemma DigitsRead(m: nat, rest: string)
    requires NotDigitStart(rest)
    ensures var t := NatText(m) + rest;
      && |t| > 0 && IsDigit(t[0])
      && (if t[0] == '0' then 1 else DigitRun(t)) == |NatText(m)|
      && t[..|NatText(m)|] == NatText(m)
      && t[|NatText(m)|..] == rest
  {
    var ds := NatText(m);
    var t := ds + rest;
    NatTextDigits(m);
    assert t[0] == ds[0];
    if m == 0 {
      assert ds == "0";
    } else {
      DigitRunOf(ds, rest);
    }
    assert t[..|ds|] == ds;
    assert t[|ds|..] == rest;
  }

  lemma UnsignedRoundTrip(m: nat, rest: string)
    requires NotDigitStart(rest)
    ensures ParseNumber(NatText(m) + rest) == Some((JInt(m), rest))
  {
    var t := NatText(m) + rest;
    DigitsRead(m, rest);
    NatTextValue(m);
    assert t[0] != '-';
  }

  lemma NegativeRoundTrip(n: int, rest: string)
    requires n < 0 && NotDigitStart(rest)
    ensures ParseNumber("-" + (NatText(-n) + rest)) == Some((JInt(n), rest))
  {
    var t := NatText(-n) + rest;
    assert ("-" + t)[1..] == t;
    DigitsRead(-n, rest);
    NatTextValue(-n);
  }

  lemma NumberRoundTrip(n: int, rest: string)
    requires NotDigitStart(rest)
    ensures ParseNumber(IntText(n) + rest) == Some((JInt(n), rest))
  {
    if n < 0 {
      assert IntText(n) + rest == "-" + (NatText(-n) + rest);
      NegativeRoundTrip(n, rest);
    } else {
      UnsignedRoundTrip(n, rest);
    }
  }

  lemma HexRoundTrip(d: nat)
    requires d < 16
    ensures HexValue(HexChar(d)) == Some(d)
  {
  }

  /** An escape sequence that the escape reader maps back to `c` contributes
      exactly `c` to the string being read. */
  lemma BackslashStep(esc: string, c: char, tail: string)
    requires ParseEscape(esc + tail) == Some((c, tail))
    ensures ParseStringBody("\\" + esc + tail) ==
      match ParseStringBody(tail)
      case None => None
      case Some((cs, after)) => Some(([c] + cs, after))
  {
    assert ("\\" + esc + tail)[1..] == esc + tail;
  }

  lemma ShortEscape(c: char, tail: string)
    requires |EscapeChar(c)| == 2
    ensures ParseEscape(EscapeChar(c)[1..] + tail) == Some((c, tail))
  {
    var e := EscapeChar(c);
    assert (e[1..] + tail)[1..] == tail;
  }

  lemma HexEscape(c: char, tail: string)
    requires |EscapeChar(c)| > 2
    ensures ParseEscape(EscapeChar(c)[1..] + tail) == Some((c, tail))
  {
    var v := c as int;
    assert v < 0x20;
    var hex := "00" + [HexChar(v / 16), HexChar(v % 16)];
    var u := hex + tail;
    assert EscapeChar(c)[1..] + tail == "u" + u;
    assert ("u" + u)[1..] == u;
    HexRoundTrip(v / 16);
    HexRoundTrip(v % 16);
    assert u[0] == '0' && u[1] == '0' && u[2] == HexChar(v / 16) && u[3] == HexChar(v % 16);
    assert Hex4(u) == Some(v);
    assert u[4..] == tail;
    assert (v as char) == c;
  }

  /** Reading the escaped form of one character yields that character and
      leaves the parser exactly where it would have been without it. */
  lemma EscapeCharStep(c: char, tail: string)
    ensures ParseStringBody(EscapeChar(c) + tail) ==
      match ParseStringBody(tail)
      case None => None
      case Some((cs, after)) => Some(([c] + cs, after))
  {
    var e := EscapeChar(c);
    if |e| == 1 {
      assert (e + tail)[1..] == tail;
    } else {
      assert e == "\\" + e[1..];
      if |e| == 2 {
        ShortEscape(c, tail);
      } else {
        HexEscape(c, tail);
      }
      BackslashStep(e[1..], c, tail);
    }
  }

  lemma {:induction false} StringRoundTrip(str: string, rest: string)
    ensures ParseStringBody(Escape(str) + "\"" + rest) == Some((str, rest))
    decreases |str|
  {
    if |str| == 0 {
      assert Escape(str) + "\"" + rest == "\"" + rest;
    } else {
      var tail := Escape(str[1..]) + "\"" + rest;
      assert Escape(str) + "\"" + rest == EscapeChar(str[0]) + tail;
      EscapeCharStep(str[0], tail);
      StringRoundTrip(str[1..], rest);
      assert [str[0]] + str[1..] == str;
    }
  }

  lemma {:induction false} EncodeStart(j: Json)
    ensures |Encode(j)| > 0 && StartsValue(Encode(j)[0])
  {
    match j
    case JInt(n) =>
      var m: nat := if n < 0 then -n else n;
      NatTextDigits(m);
    case _ =>
  }

  lemma SkipSpace(s: string)
    ensures SkipWs(" " + s) == SkipWs(s)
  {
    assert (" " + s)[1..] == s;
  }

  /** A space after a separator changes nothing for the next value. */
  lemma ValueAfterSpace(s: string)
    ensures ParseValue(" " + s) == ParseValue(s)
  {
    SkipSpace(s);
  }

  lemma ElementsAfterSpace(s: string, acc: seq<Json>)
    ensures ParseElements(" " + s, acc) == ParseElements(s, acc)
  {
    ValueAfterSpace(s);
  }

  lemma MembersAfterSpace(s: string, acc: map<string, Json>)
    ensures ParseMembers(" " + s, acc) == ParseMembers(s, acc)
  {
    SkipSpace(s);
  }

  lemma {:induction false} ValueRoundTrip(j: Json, rest: string)
    requires NotDigitStart(rest)
    ensures ParseValue(Encode(j) + rest) == Some((j, rest))
    decreases j, 2
  {
    var s := Encode(j) + rest;
    EncodeStart(j);
    assert s[0] == Encode(j)[0];
    assert SkipWs(s) == s;
    ValueAtRoundTrip(j, rest);
  }

  lemma NullRoundTrip(rest: string)
    ensures ParseValueAt("null" + rest) == Some((JNull, rest))
  {
    var s := "null" + rest;
    assert s[..4] == "null" && s[4..] == rest;
  }

  lemma BoolRoundTrip(b: bool, rest: string)
    ensures ParseValueAt(Encode(JBool(b)) + rest) == Some((JBool(b), rest))
  {
    var s := Encode(JBool(b)) + rest;
    if b {
      assert s[..4] == "true" && s[4..] == rest;
    } else {
      assert s[..4] != "null" && s[..4] != "true";
      assert s[..5] == "false" && s[5..] == rest;
    }
  }

  /** Restricting a map to its sorted keys gives the whole map. */
  lemma RestrictSorted(m: map<string, Json>)
    ensures map[] + Restrict(m, Strings.SortedKeys(m.Keys)) == m
  {
    var keys := Strings.SortedKeys(m.Keys);
    var r := Restrict(m, keys);
    assert forall k :: k in r <==> k in keys;
    assert forall k | k in r :: r[k] == m[k];
    assert map[] + r == r;
  }

  lemma NotLiteral(s: string)
    requires |s| > 0 && s[0] != 'n' && s[0] != 't' && s[0] != 'f'
    ensures !Strings.HasPrefix(s, "null") && !Strings.HasPrefix(s, "true") && !Strings.HasPrefix(s, "false")
  {
    if |s| >= 4 {
      assert s[..4][0] == s[0];
    }
    if |s| >= 5 {
      assert s[..5][0] == s[0];
    }
  }

  lemma IntRoundTrip(n: int, rest: string)
    requires NotDigitStart(rest)
    ensures ParseValueAt(Encode(JInt(n)) + rest) == Some((JInt(n), rest))
  {
    var s := IntText(n) + rest;
    var m: nat := if n < 0 then -n else n;
    NatTextDigits(m);
    assert s[0] == IntText(n)[0];
    assert s[0] == '-' || IsDigit(s[0]);
    NotLiteral(s);
    NumberRoundTrip(n, rest);
  }

  lemma StringValueRoundTrip(str: string, rest: string)
    ensures ParseValueAt(Encode(JString(str)) + rest) == Some((JString(str), rest))
  {
    var s := Encode(JString(str)) + rest;
    assert s[1..] == Escape(str) + "\"" + rest;
    StringRoundTrip(str, rest);
  }

  lemma ArrayOpen(body: string)
    ensures ParseValueAt("[" + body) == ParseArray(body)
  {
    assert ("[" + body)[1..] == body;
  }

  lemma ObjectOpen(body: string)
    ensures ParseValueAt("{" + body) == ParseObject(body)
  {
    assert ("{" + body)[1..] == body;
  }

  lemma EmptyArray(rest: string)
    ensures ParseArray("]" + rest) == Some((JArray([]), rest))
  {
    assert ("]" + rest)[1..] == rest;
  }

  lemma EmptyObject(rest: string)
    ensures ParseObject("}" + rest) == Some((JObject(map[]), rest))
  {
    assert ("}" + rest)[1..] == rest;
  }

  lemma ArrayItems(body: string)
    requires |body| > 0 && !IsWs(body[0]) && body[0] != ']'
    ensures ParseArray(body) == ParseElements(body, [])
  {
  }

  lemma ObjectMembers(body: string)
    requires |body| > 0 && !IsWs(body[0]) && body[0] != '}'
    ensures ParseObject(body) == ParseMembers(body, map[])
  {
  }

  /** What follows an array item decides whether the array goes on. */
  lemma ElementsStep(s: string, acc: seq<Json>, v: Json, tail: string)
    requires ParseValue(s) == Some((v, tail))
    requires |tail| > 0 && (tail[0] == ',' || tail[0] == ']')
    ensures tail[0] == ']' ==> ParseElements(s, acc) == Some((JArray(acc + [v]), tail[1..]))
    ensures tail[0] == ',' ==> ParseElements(s, acc) == ParseElements(tail[1..], acc + [v])
  {
    assert SkipWs(tail) == tail;
  }

  /** One object member: key, colon, value, then what follows decides
      whether the object goes on. */
  lemma MembersStep(t: string, acc: map<string, Json>, key: string, afterKey: string, v: Json, tail: string)
    requires |t| > 0 && t[0] == '"'
    requires ParseStringBody(t[1..]) == Some((key, afterKey))
    requires |afterKey| > 0 && afterKey[0] == ':'
    requires ParseValue(afterKey[1..]) == Some((v, tail))
    requires |tail| > 0 && (tail[0] == ',' || tail[0] == '}')
    ensures tail[0] == '}' ==> ParseMembers(t, acc) == Some((JObject(acc[key := v]), tail[1..]))
    ensures tail[0] == ',' ==> ParseMembers(t, acc) == ParseMembers(tail[1..], acc[key := v])
  {
    assert SkipWs(t) == t;
    assert SkipWs(afterKey) == afterKey;
    assert SkipWs(tail) == tail;
  }

  lemma {:induction false} ValueAtRoundTrip(j: Json, rest: string)
    requires NotDigitStart(rest)
    ensures ParseValueAt(Encode(j) + rest) == Some((j, rest))
    decreases j, 1
  {
    match j
    case JNull => NullRoundTrip(rest);
    case JBool(b) => BoolRoundTrip(b, rest);
    case JInt(n) => IntRoundTrip(n, rest);
    case JString(str) => StringValueRoundTrip(str, rest);
    case JArray(items) => ArrayRoundTrip(j, rest);
    case JObject(fields) => ObjectRoundTrip(j, rest);
  }

  lemma {:induction false} ArrayRoundTrip(j: Json, rest: string)
    requires j.JArray?
    ensures ParseValueAt(Encode(j) + rest) == Some((j, rest))
    decreases j, 0
  {
    var items := j.items;
    var body := EncodeItems(items) + "]" + rest;
    assert Encode(j) + rest == "[" + body;
    ArrayOpen(body);
    if |items| == 0 {
      assert body == "]" + rest;
      EmptyArray(rest);
    } else {
      EncodeStart(items[0]);
      assert body[0] == Encode(items[0])[0];
      ArrayItems(body);
      ItemsRoundTrip(items, [], rest);
      assert [] + items == items;
    }
  }

  lemma {:induction false} ObjectRoundTrip(j: Json, rest: string)
    requires j.JObject?
    ensures ParseValueAt(Encode(j) + rest) == Some((j, rest))
    decreases j, 0
  {
    var fields := j.fields;
    var keys := Strings.SortedKeys(fields.Keys);
    var body := EncodeMembers(j, keys) + "}" + rest;
    assert ParseValueAt(Encode(j) + rest) == ParseObject(body) by {
      assert Encode(j) + rest == "{" + body;
      ObjectOpen(body);
    }
    if |keys| == 0 {
      assert ParseObject(body) == Some((j, rest)) by {
        assert fields == map[];
        assert body == "}" + rest;
        EmptyObject(rest);
      }
    } else {
      assert ParseObject(body) == ParseMembers(body, map[]) by {
        assert body[0] == '"';
        ObjectMembers(body);
      }
      assert ParseMembers(body, map[]) == Some((j, rest)) by {
        MembersRoundTrip(j, keys, map[], rest);
        RestrictSorted(fields);
      }
    }
  }

  lemma DropComma(more: string)
    ensures (", " + more)[1..] == " " + more
  {
  }

  lemma DropFirst(c: char, more: string)
    ensures ([c] + more)[1..] == more
  {
  }

  lemma ItemShape(v: string, m: string, rest: string)
    ensures v + (", " + m) + "]" + rest == v + (", " + (m + "]" + rest))
  {
  }

  /** Reading the first item of an array's text. */
  lemma {:induction false} ItemFirst(items: seq<Json>, acc: seq<Json>, rest: string)
    requires |items| > 0
    ensures ParseElements(EncodeItems(items) + "]" + rest, acc)
      == if |items| == 1 then Some((JArray(acc + [items[0]]), rest))
         else ParseElements(EncodeItems(items[1..]) + "]" + rest, acc + [items[0]])
    decreases items, 0
  {
    var s := EncodeItems(items) + "]" + rest;
    if |items| == 1 {
      var tail := "]" + rest;
      assert s == Encode(items[0]) + tail;
      ValueRoundTrip(items[0], tail);
      ElementsStep(s, acc, items[0], tail);
      DropFirst(']', rest);
    } else {
      var more := EncodeItems(items[1..]) + "]" + rest;
      var tail := ", " + more;
      assert s == Encode(items[0]) + tail by {
        assert EncodeItems(items) == Encode(items[0]) + (", " + EncodeItems(items[1..]));
        ItemShape(Encode(items[0]), EncodeItems(items[1..]), rest);
      }
      ValueRoundTrip(items[0], tail);
      ElementsStep(s, acc, items[0], tail);
      DropComma(more);
      ElementsAfterSpace(more, acc + [items[0]]);
    }
  }

  lemma {:induction false} ItemsRoundTrip(items: seq<Json>, acc: seq<Json>, rest: string)
    requires |items| > 0
    ensures ParseElements(EncodeItems(items) + "]" + rest, acc) == Some((JArray(acc + items), rest))
    decreases items, 1
  {
    ItemFirst(items, acc, rest);
    if |items| == 1 {
      assert acc + [items[0]] == acc + items;
    } else {
      ItemsRoundTrip(items[1..], acc + [items[0]], rest);
      assert acc + [items[0]] + items[1..] == acc + items;
    }
  }

  /** Adding members one key at a time builds the same map as adding them at once. */
  lemma RestrictCons(m: map<string, Json>, keys: seq<string>, acc: map<string, Json>)
    requires |keys| > 0 && forall k | k in keys :: k in m
    ensures |keys| == 1 ==> acc[keys[0] := m[keys[0]]] == acc + Restrict(m, keys)
    ensures acc[keys[0] := m[keys[0]]] + Restrict(m, keys[1..]) == acc + Restrict(m, keys)
  {
    var a := acc[keys[0] := m[keys[0]]] + Restrict(m, keys[1..]);
    var b := acc + Restrict(m, keys);
    assert forall k :: k in keys <==> k == keys[0] || k in keys[1..];
    assert a.Keys == b.Keys;
    if |keys| == 1 {
      assert Restrict(m, keys[1..]) == map[];
    }
  }

  /** Reading the value that follows a member's colon. */
  lemma {:induction false} MemberHead(v: Json, tail: string)
    requires NotDigitStart(tail)
    ensures ParseValue((": " + Encode(v) + tail)[1..]) == Some((v, tail))
    decreases v, 3
  {
    var body := Encode(v) + tail;
    assert (": " + Encode(v) + tail)[1..] == " " + body;
    ValueAfterSpace(body);
    ValueRoundTrip(v, tail);
  }

  lemma LastMemberShape(e: string, v: string, rest: string)
    ensures ("\"" + e + "\"") + ": " + v + "" + "}" + rest == "\"" + (e + "\"" + (": " + v + ("}" + rest)))
  {
  }

  lemma MemberShape(e: string, v: string, m: string, rest: string)
    ensures ("\"" + e + "\"") + ": " + v + (", " + m) + "}" + rest
         == "\"" + (e + "\"" + (": " + v + (", " + (m + "}" + rest))))
  {
  }

  /** Reading the first member of an object's text. */
  lemma {:induction false} MemberFirst(obj: Json, keys: seq<string>, acc: map<string, Json>, rest: string)
    requires obj.JObject? && |keys| > 0
    requires forall k | k in keys :: k in obj.fields
    ensures var acc' := acc[keys[0] := obj.fields[keys[0]]];
      ParseMembers(EncodeMembers(obj, keys) + "}" + rest, acc)
      == if |keys| == 1 then Some((JObject(acc'), rest))
         else ParseMembers(EncodeMembers(obj, keys[1..]) + "}" + rest, acc')
    decreases obj, 0, |keys|, 0
  {
    var k := keys[0];
    var v := obj.fields[k];
    var s := EncodeMembers(obj, keys) + "}" + rest;
    var more := if |keys| == 1 then rest else EncodeMembers(obj, keys[1..]) + "}" + rest;
    var tail := if |keys| == 1 then "}" + rest else ", " + more;
    var afterKey := ": " + Encode(v) + tail;
    assert s == "\"" + (Escape(k) + "\"" + afterKey) by {
      if |keys| == 1 {
        assert EncodeMembers(obj, keys) == Quote(k) + ": " + Encode(v) + "";
        LastMemberShape(Escape(k), Encode(v), rest);
      } else {
        assert EncodeMembers(obj, keys) == Quote(k) + ": " + Encode(v) + (", " + EncodeMembers(obj, keys[1..]));
        MemberShape(Escape(k), Encode(v), EncodeMembers(obj, keys[1..]), rest);
      }
    }
    assert s[1..] == Escape(k) + "\"" + afterKey;
    StringRoundTrip(k, afterKey);
    MemberHead(v, tail);
    MembersStep(s, acc, k, afterKey, v, tail);
    if |keys| == 1 {
      DropFirst('}', rest);
    } else {
      DropComma(more);
      MembersAfterSpace(more, acc[k := v]);
    }
  }

  lemma {:induction false} MembersRoundTrip(obj: Json, keys: seq<string>, acc: map<string, Json>, rest: string)
    requires obj.JObject? && |keys| > 0
    requires forall k | k in keys :: k in obj.fields
    ensures ParseMembers(EncodeMembers(obj, keys) + "}" + rest, acc)
         == Some((JObject(acc + Restrict(obj.fields, keys)), rest))
    decreases obj, 0, |keys|, 1
  {
    MemberFirst(obj, keys, acc, rest);
    RestrictCons(obj.fields, keys, acc);
    if |keys| > 1 {
      MembersRoundTrip(obj, keys[1..], acc[keys[0] := obj.fields[keys[0]]], rest);
    }
  }

  /** `json.loads` inverts the canonical `json.dumps`. */
  lemma DecodeEncode(j: Json)
    ensures Decode(Encode(j)) == Some(j)
  {
    ValueRoundTrip(j, []);
    assert Encode(j) + [] == Encode(j);
  }

  /** Distinct values have distinct canonical texts. */
  lemma EncodeInjective(a: Json, b: Json)
    requires Encode(a) == Encode(b)
    ensures a == b
  {
    DecodeEncode(a);
    DecodeEncode(b);
  }
}
