/** Reading JSON text back into a value: the part of `json.loads` the
    configuration core needs. Each parser takes the remaining input and
    returns the value read with the input left over, or `None` where
    `json.loads` raises. */
module JsonParse {
  import opened Wrappers
  import opened Json
  import Strings

  /** JSON insignificant whitespace. */
  predicate IsWs(c: char) {
    c == ' ' || c == '\t' || c == '\n' || c == '\r'
  }

  predicate IsDigit(c: char) {
    '0' <= c <= '9'
  }

  function SkipWs(s: string): (t: string)
    ensures |t| <= |s|
    ensures (|s| == 0 || !IsWs(s[0])) ==> t == s
    decreases |s|
  {
    if |s| > 0 && IsWs(s[0]) then SkipWs(s[1..]) else s
  }

  function DigitValue(c: char): nat
    requires IsDigit(c)
  {
    c as int - '0' as int
  }

  /** The number of leading decimal digits. */
  function DigitRun(s: string): (k: nat)
    ensures k <= |s|
    ensures forall i | 0 <= i < k :: IsDigit(s[i])
    ensures k < |s| ==> !IsDigit(s[k])
    decreases |s|
  {
    if |s| > 0 && IsDigit(s[0]) then 1 + DigitRun(s[1..]) else 0
  }

  /** The number a run of decimal digits denotes. */
  function DigitsValue(ds: string): nat
    requires forall i | 0 <= i < |ds| :: IsDigit(ds[i])
    decreases |ds|
  {
    if |ds| == 0 then 0 else DigitsValue(ds[..|ds| - 1]) * 10 + DigitValue(ds[|ds| - 1])
  }

  /** An integer literal: an optional minus sign, then either a lone `0` or a
      non-zero digit followed by any digits. */
  function ParseNumber(s: string): (r: Option<(Json, string)>)
    ensures r.Some? ==> |r.value.1| < |s|
  {
    var neg := |s| > 0 && s[0] == '-';
    var t := if neg then s[1..] else s;
    if |t| == 0 || !IsDigit(t[0]) then None
    else
      var k := if t[0] == '0' then 1 else DigitRun(t);
      var v: int := DigitsValue(t[..k]);
      Some((JInt(if neg then -v else v), t[k..]))
  }

  function HexValue(c: char): Option<nat> {
    if '0' <= c <= '9' then Some(c as int - '0' as int)
    else if 'a' <= c <= 'f' then Some(c as int - 'a' as int + 10)
    else if 'A' <= c <= 'F' then Some(c as int - 'A' as int + 10)
    else None
  }

  /** The value of four leading hexadecimal digits. */
  function Hex4(s: string): (r: Option<nat>)
    ensures r.Some? ==> |s| >= 4 && r.value < 0x10000
  {
    if |s| < 4 then None
    else
      match (HexValue(s[0]), HexValue(s[1]), HexValue(s[2]), HexValue(s[3]))
      case (Some(a), Some(b), Some(c), Some(d)) =>
        if a < 16 && b < 16 && c < 16 && d < 16 then Some(((a * 16 + b) * 16 + c) * 16 + d) else None
      case _ => None
  }

  /** The character after `\u`. A high surrogate must be followed by a `\u`
      low surrogate and the pair denotes one character; a lone surrogate has
      no character to denote. */
  function ParseUnicodeEscape(s: string): (r: Option<(char, string)>)
    ensures r.Some? ==> |r.value.1| < |s|
  {
    match Hex4(s)
    case None => None
    case Some(v) =>
      if 0xD800 <= v < 0xDC00 then
        if |s| >= 6 && s[4] == '\\' && s[5] == 'u' then
          match Hex4(s[6..])
          case Some(w) =>
            if 0xDC00 <= w < 0xE000
            then Some(((0x10000 + (v - 0xD800) * 0x400 + (w - 0xDC00)) as char, s[10..]))
            else None
          case None => None
        else None
      else if 0xDC00 <= v < 0xE000 then None
      else Some((v as char, s[4..]))
  }

  /** The character an escape sequence denotes; `s` starts after the backslash. */
  function ParseEscape(s: string): (r: Option<(char, string)>)
    ensures r.Some? ==> |r.value.1| < |s|
  {
    if |s| == 0 then None
    else if s[0] == '"' then Some(('"', s[1..]))
    else if s[0] == '\\' then Some(('\\', s[1..]))
    else if s[0] == '/' then Some(('/', s[1..]))
    else if s[0] == 'b' then Some((8 as char, s[1..]))
    else if s[0] == 'f' then Some((12 as char, s[1..]))
    else if s[0] == 'n' then Some(('\n', s[1..]))
    else if s[0] == 'r' then Some(('\r', s[1..]))
    else if s[0] == 't' then Some(('\t', s[1..]))
    else if s[0] == 'u' then ParseUnicodeEscape(s[1..])
    else None
  }

  /** The contents of a string literal up to its closing quote; `s` starts
      after the opening quote. Raw control characters are refused. */
  function ParseStringBody(s: string): (r: Option<(string, string)>)
    ensures r.Some? ==> |r.value.1| < |s|
    decreases |s|
  {
    if |s| == 0 then None
    else if s[0] == '"' then Some(([], s[1..]))
    else if s[0] == '\\' then
      match ParseEscape(s[1..])
      case None => None
      case Some((c, rest)) =>
        match ParseStringBody(rest)
        case None => None
        case Some((cs, after)) => Some(([c] + cs, after))
    else if (s[0] as int) < 0x20 then None
    else
      match ParseStringBody(s[1..])
      case None => None
      case Some((cs, after)) => Some(([s[0]] + cs, after))
  }

  /** One value, after optional leading whitespace. */
  function ParseValue(s: string): (r: Option<(Json, string)>)
    ensures r.Some? ==> |r.value.1| < |s|
    decreases |s|, 2
  {
    ParseValueAt(SkipWs(s))
  }

  /** One value starting at the first character of `t`. */
  function ParseValueAt(t: string): (r: Option<(Json, string)>)
    ensures r.Some? ==> |r.value.1| < |t|
    decreases |t|, 1
  {
    if |t| == 0 then None
    else if t[0] == '"' then
      match ParseStringBody(t[1..])
      case None => None
      case Some((str, rest)) => Some((JString(str), rest))
    else if t[0] == '{' then ParseObject(t[1..])
    else if t[0] == '[' then ParseArray(t[1..])
    else if Strings.HasPrefix(t, "null") then Some((JNull, t[4..]))
    else if Strings.HasPrefix(t, "true") then Some((JBool(true), t[4..]))
    else if Strings.HasPrefix(t, "false") then Some((JBool(false), t[5..]))
    else ParseNumber(t)
  }

  /** The rest of an array; `s` starts after the `[`. */
  function ParseArray(s: string): (r: Option<(Json, string)>)
    ensures r.Some? ==> |r.value.1| < |s|
    decreases |s|, 4
  {
    var t := SkipWs(s);
    if |t| > 0 && t[0] == ']' then Some((JArray([]), t[1..]))
    else ParseElements(t, [])
  }

  /** Array items from `s` on, after the items `acc` already read: a value,
      then either `,` and more items or the closing `]`. */
  function ParseElements(s: string, acc: seq<Json>): (r: Option<(Json, string)>)
    ensures r.Some? ==> |r.value.1| < |s|
    decreases |s|, 3
  {
    match ParseValue(s)
    case None => None
    case Some((v, rest)) =>
      var u := SkipWs(rest);
      if |u| == 0 then None
      else if u[0] == ',' then ParseElements(u[1..], acc + [v])
      else if u[0] == ']' then Some((JArray(acc + [v]), u[1..]))
      else None
  }

  /** The rest of an object; `s` starts after the `{`. */
  function ParseObject(s: string): (r: Option<(Json, string)>)
    ensures r.Some? ==> |r.value.1| < |s|
    decreases |s|, 4
  {
    var t := SkipWs(s);
    if |t| > 0 && t[0] == '}' then Some((JObject(map[]), t[1..]))
    else ParseMembers(t, map[])
  }

  /** Object members from `s` on, after the members `acc` already read: a
      quoted key, `:`, a value, then either `,` and more members or the
      closing `}`. A repeated key keeps its last value. */
  function ParseMembers(s: string, acc: map<string, Json>): (r: Option<(Json, string)>)
    ensures r.Some? ==> |r.value.1| < |s|
    decreases |s|, 3
  {
    ParseMembersAt(SkipWs(s), acc)
  }

  /** Object members starting at the first character of `t`. */
  function ParseMembersAt(t: string, acc: map<string, Json>): (r: Option<(Json, string)>)
    ensures r.Some? ==> |r.value.1| < |t|
    decreases |t|, 2
  {
    if |t| == 0 || t[0] != '"' then None
    else
      match ParseStringBody(t[1..])
      case None => None
      case Some((key, afterKey)) =>
        var u := SkipWs(afterKey);
        if |u| == 0 || u[0] != ':' then None
        else
          match ParseValue(u[1..])
          case None => None
          case Some((v, rest)) =>
            var w := SkipWs(rest);
            if |w| == 0 then None
            else if w[0] == ',' then ParseMembers(w[1..], acc[key := v])
            else if w[0] == '}' then Some((JObject(acc[key := v]), w[1..]))
            else None
  }

  /** `json.loads(s)`: one value, with only whitespace around it. */
  function Decode(s: string): Option<Json> {
    match ParseValue(s)
    case None => None
    case Some((v, rest)) => if |SkipWs(rest)| == 0 then Some(v) else None
  }
}
