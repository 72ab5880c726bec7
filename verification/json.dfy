/** JSON values as the configuration core handles them, and their canonical
    text: what `json.dumps(v, sort_keys=True, ensure_ascii=False)` writes. */
module Json {
  import Strings

  /** A JSON value. Numbers are integers only; objects are maps because the
      canonical text sorts their keys, so insertion order never shows. */
  datatype Json =
    | JNull
    | JBool(b: bool)
    | JInt(n: int)
    | JString(s: string)
    | JArray(items: seq<Json>)
    | JObject(fields: map<string, Json>)
  {
    /** `isinstance(v, (dict, list))`. */
    predicate IsComposite() {
      JArray? || JObject?
    }
  }

  /** The character for a decimal digit. */
  function DigitChar(d: nat): (c: char)
    requires d < 10
    ensures '0' <= c <= '9'
  {
    ('0' as int + d) as char
  }

  /** A lower-case hexadecimal digit, as `'{0:04x}'.format` writes it. */
  function HexChar(d: nat): char
    requires d < 16
  {
    if d < 10 then DigitChar(d) else ('a' as int + d - 10) as char
  }

  /** Decimal text of a natural number, most significant digit first, no leading zeros. */
  function NatText(n: nat): string
    decreases n
  {
    if n < 10 then [DigitChar(n)] else NatText(n / 10) + [DigitChar(n % 10)]
  }

  /** `str(n)` for an integer. */
  function IntText(n: int): string {
    if n < 0 then "-" + NatText(-n) else NatText(n)
  }

  /** One character inside a string literal, escaped as Python's encoder does
      when `ensure_ascii` is off: quote, backslash and control characters only. */
  function EscapeChar(c: char): string {
    if c == '"' then "\\\""
    else if c == '\\' then "\\\\"
    else if c == '\n' then "\\n"
    else if c == '\r' then "\\r"
    else if c == '\t' then "\\t"
    else if c as int == 8 then "\\b"
    else if c as int == 12 then "\\f"
    else if c as int < 0x20 then "\\u00" + [HexChar(c as int / 16), HexChar(c as int % 16)]
    else [c]
  }

  function Escape(s: string): string {
    if |s| == 0 then "" else EscapeChar(s[0]) + Escape(s[1..])
  }

  /** A string literal. */
  function Quote(s: string): string {
    "\"" + Escape(s) + "\""
  }

  /** Canonical text of a value: `", "` between items and members, `": "`
      after a key, and object members in ascending key order. */
  function Encode(j: Json): string
    decreases j
  {
    match j
    case JNull => "null"
    case JBool(b) => if b then "true" else "false"
    case JInt(n) => IntText(n)
    case JString(s) => Quote(s)
    case JArray(items) => "[" + EncodeItems(items) + "]"
    case JObject(fields) => "{" + EncodeMembers(j, Strings.SortedKeys(fields.Keys)) + "}"
  }

  /** The items of an array, separated by `", "`. */
  function EncodeItems(items: seq<Json>): string
    decreases items
  {
    if |items| == 0 then ""
    else if |items| == 1 then Encode(items[0])
    else Encode(items[0]) + ", " + EncodeItems(items[1..])
  }

  /** The members of object `obj` named by `keys`, in that order. */
  function EncodeMembers(obj: Json, keys: seq<string>): string
    requires obj.JObject?
    requires forall k | k in keys :: k in obj.fields
    decreases obj, |keys|
  {
    if |keys| == 0 then ""
    else
      Quote(keys[0]) + ": " + Encode(obj.fields[keys[0]])
      + (if |keys| == 1 then "" else ", " + EncodeMembers(obj, keys[1..]))
  }
}
