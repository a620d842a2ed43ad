/** The printer and the recursive-descent parser of apps/lua/scripts/json.lua, as functions. Lua strings
    are sequences of characters, bytes being those below 256; positions count from 0. */
module Json {
  import opened Numerals

  /** A Lua value. `Arr` is a table with keys 1 to n, `Obj` one with string keys, its fields in the order
      `pairs` visits them; the empty table is `Arr([])`. `Nil` inside an array is a slot without a value.
      `Float` is a number that is not an integer below 10^14, known by the text it was read from. */
  datatype Value =
    | Nil
    | Bool(b: bool)
    | Num(n: int)
    | Float(text: string)
    | Str(s: string)
    | Arr(items: seq<Value>)
    | Obj(fields: seq<(string, Value)>)

  // -------------------------------------------------------------------------------------------
  // Encode
  // -------------------------------------------------------------------------------------------

  const LIMIT := 100_000_000_000_000

  /** The tables and numbers the model covers: arrays without holes, objects with distinct keys. */
  predicate Encodable(v: Value)
    decreases v
  {
    match v
    case Nil => false
    case Bool(_) => true
    case Num(n) => -LIMIT < n < LIMIT
    case Float(_) => false
    case Str(_) => true
    case Arr(items) => forall i :: 0 <= i < |items| ==> Encodable(items[i])
    case Obj(fields) =>
      && fields != []
      && (forall i :: 0 <= i < |fields| ==> Encodable(fields[i].1))
      && (forall i, j :: 0 <= i < j < |fields| ==> fields[i].0 != fields[j].0)
  }

  /** escape_char_map. */
  function EscapeLetter(c: char): (r: char)
    ensures r != '\0' ==> r in {'\\', '\"', 'b', 'f', 'n', 'r', 't'}
  {
    if c == '\\' then '\\'
    else if c == '\"' then '\"'
    else if c as int == 8 then 'b'
    else if c as int == 12 then 'f'
    else if c as int == 10 then 'n'
    else if c as int == 13 then 'r'
    else if c as int == 9 then 't'
    else '\0'
  }

  function HexChar(d: int): char
    requires 0 <= d < 16
  {
    if d < 10 then DigitChar(d) else (d - 10 + 'a' as int) as char
  }

  /** `%04x`. */
  function Hex4(n: int): (s: string)
    requires 0 <= n < 0x1_0000
    ensures |s| == 4
  {
    [HexChar(n / 4096), HexChar(n / 256 % 16), HexChar(n / 16 % 16), HexChar(n % 16)]
  }

  predicate NeedsEscape(c: char) {
    c as int < 32 || c == '\\' || c == '\"'
  }

  function EscapeChar(c: char): string
    requires NeedsEscape(c)
  {
    if EscapeLetter(c) != '\0' then ['\\', EscapeLetter(c)] else ['\\', 'u'] + Hex4(c as int)
  }

  function Escaped(s: string): string {
    if s == "" then ""
    else (if NeedsEscape(s[0]) then EscapeChar(s[0]) else [s[0]]) + Escaped(s[1..])
  }

  function EncodeString(s: string): string {
    "\"" + Escaped(s) + "\""
  }

  function EncodeNumber(n: int): string {
    if n < 0 then "-" + Padded(-n, DigitCount(-n)) else Padded(n, DigitCount(n))
  }

  function Encode(v: Value): string
    requires v == Nil || Encodable(v)
    decreases v, 1
  {
    match v
    case Nil => "null"
    case Bool(b) => if b then "true" else "false"
    case Num(n) => EncodeNumber(n)
    case Str(s) => EncodeString(s)
    case Arr(items) => "[" + JoinItems(v, 0) + "]"
    case Obj(fields) => "{" + JoinFields(v, 0) + "}"
  }

  /** The items from `i` on, encoded and separated by commas. */
  function JoinItems(v: Value, i: nat): string
    requires v.Arr? && Encodable(v) && i <= |v.items|
    decreases v, 0, |v.items| - i
  {
    if i == |v.items| then ""
    else if i + 1 == |v.items| then Encode(v.items[i])
    else Encode(v.items[i]) + "," + JoinItems(v, i + 1)
  }

  function JoinFields(v: Value, i: nat): string
    requires v.Obj? && Encodable(v) && i <= |v.fields|
    decreases v, 0, |v.fields| - i
  {
    if i == |v.fields| then ""
    else
      var field := EncodeString(v.fields[i].0) + ":" + Encode(v.fields[i].1);
      if i + 1 == |v.fields| then field else field + "," + JoinFields(v, i + 1)
  }

  // -------------------------------------------------------------------------------------------
  // Decode
  // -------------------------------------------------------------------------------------------

  const SPACE: set<char> := {' ', '\t', '\r', '\n'}
  const DELIM: set<char> := {' ', '\t', '\r', '\n', ']', '}', ','}

  datatype Result = Error | Ok(value: Value, next: nat)

  datatype Chars = BadChars | Text(s: string, next: nat)

  /** `next_char`: the first position from `i` on whose membership in `chars` is `wanted`. */
  function NextChar(s: string, i: nat, chars: set<char>, wanted: bool): (j: nat)
    ensures i <= |s| ==> i <= j <= |s|
    ensures |s| < i ==> j == |s|
    ensures j < |s| ==> (s[j] in chars) == wanted
    decreases |s| - i
  {
    if i >= |s| then |s|
    else if (s[i] in chars) == wanted then i
    else NextChar(s, i + 1, chars, wanted)
  }

  datatype Bytes = NoBytes | Bytes(s: string)

  function Byte(n: int): char
    requires 0 <= n < 256
  {
    n as char
  }

  function CodepointToUtf8(n: nat): Bytes {
    if n <= 0x7f then Bytes([Byte(n)])
    else if n <= 0x7ff then Bytes([Byte(n / 64 + 192), Byte(n % 64 + 128)])
    else if n <= 0xffff then Bytes([Byte(n / 4096 + 224), Byte(n % 4096 / 64 + 128), Byte(n % 64 + 128)])
    else if n <= 0x10ffff then
      Bytes([Byte(n / 262144 + 240), Byte(n % 262144 / 4096 + 128), Byte(n % 4096 / 64 + 128), Byte(n % 64 + 128)])
    else NoBytes
  }

  predicate IsHex(c: char) {
    '0' <= c <= '9' || 'a' <= c <= 'f' || 'A' <= c <= 'F'
  }

  function HexValue(c: char): (d: int)
    requires IsHex(c)
    ensures 0 <= d < 16
  {
    if '0' <= c <= '9' then c as int - '0' as int
    else if 'a' <= c <= 'f' then c as int - 'a' as int + 10
    else c as int - 'A' as int + 10
  }

  predicate AllHex(s: string) {
    forall c <- s :: IsHex(c)
  }

  /** `tonumber(s, 16)` of four hexadecimal digits. */
  function Hex4Value(s: string): (n: int)
    requires |s| == 4 && AllHex(s)
    ensures 0 <= n < 0x1_0000
  {
    HexValue(s[0]) * 4096 + HexValue(s[1]) * 256 + HexValue(s[2]) * 16 + HexValue(s[3])
  }

  /** The first pattern: a high surrogate and any second escape. */
  predicate IsPair(s: string, i: nat) {
    && i + 10 <= |s|
    && s[i] in {'d', 'D'} && s[i + 1] in {'8', '9', 'a', 'A', 'b', 'B'}
    && AllHex(s[i..i + 4]) && s[i + 4] == '\\' && s[i + 5] == 'u' && AllHex(s[i + 6..i + 10])
  }

  predicate IsSingle(s: string, i: nat) {
    i + 4 <= |s| && AllHex(s[i..i + 4])
  }

  function PairCodepoint(n1: int, n2: int): int {
    (n1 - 0xd800) * 0x400 + (n2 - 0xdc00) + 0x10000
  }

  lemma PairNotNegative(s: string, i: nat)
    requires IsPair(s, i)
    ensures 0xd800 <= Hex4Value(s[i..i + 4])
    ensures 0 <= PairCodepoint(Hex4Value(s[i..i + 4]), Hex4Value(s[i + 6..i + 10]))
  {
    var h := s[i..i + 4];
    assert h[0] == s[i] && h[1] == s[i + 1];
  }

  /** What the escape at `i`, behind its `u`, stands for, and how long it is. */
  function UnicodeEscape(s: string, i: nat): (r: (Bytes, nat))
    ensures r.0 != NoBytes ==> r.1 in {4, 10} && i + r.1 <= |s|
  {
    if IsPair(s, i) then
      PairNotNegative(s, i);
      (CodepointToUtf8(PairCodepoint(Hex4Value(s[i..i + 4]), Hex4Value(s[i + 6..i + 10]))), 10)
    else if IsSingle(s, i) then (CodepointToUtf8(Hex4Value(s[i..i + 4])), 4)
    else (NoBytes, 0)
  }

  /** escape_char_map_inv, for the letters escape_chars allows besides `u`. */
  function Unescape(c: char): char {
    if c == 'b' then 8 as char
    else if c == 'f' then 12 as char
    else if c == 'n' then 10 as char
    else if c == 'r' then 13 as char
    else if c == 't' then 9 as char
    else c
  }

  const ESCAPES: set<char> := {'\\', '/', '\"', 'b', 'f', 'n', 'r', 't'}

  function Prepend(a: string, r: Chars): Chars {
    match r
    case BadChars => BadChars
    case Text(s, next) => Text(a + s, next)
  }

  /** The characters of a string from `j` to its closing quote, and the position behind that. */
  function StringChars(s: string, j: nat): (r: Chars)
    ensures r.Text? ==> j < r.next <= |s|
    decreases |s| - j
  {
    if j >= |s| || s[j] as int < 32 then BadChars
    else if s[j] == '\\' then
      if j + 1 >= |s| then BadChars
      else if s[j + 1] == 'u' then
        var (utf8, len) := UnicodeEscape(s, j + 2);
        if utf8 == NoBytes then BadChars else Prepend(utf8.s, StringChars(s, j + 2 + len))
      else if s[j + 1] in ESCAPES then Prepend([Unescape(s[j + 1])], StringChars(s, j + 2))
      else BadChars
    else if s[j] == '\"' then Text("", j + 1)
    else Prepend([s[j]], StringChars(s, j + 1))
  }

  function ParseString(s: string, i: nat): Result {
    match StringChars(s, i + 1)
    case BadChars => Error
    case Text(t, next) => Ok(Str(t), next)
  }

  /** A decimal integer of at most fourteen digits. */
  predicate IsPlainInteger(t: string) {
    var digits := if t != "" && t[0] == '-' then t[1..] else t;
    1 <= |digits| <= 14 && forall c <- digits :: IsDigit(c)
  }

  function PlainInteger(t: string): int
    requires IsPlainInteger(t)
  {
    if t[0] == '-' then 0 - Numerals.Value(t[1..]) else Numerals.Value(t)
  }

  /** `isNumber` says which other texts Lua's tonumber accepts. */
  function ParseNumber(s: string, i: nat, isNumber: string -> bool): Result
    requires i <= |s|
  {
    var x := NextChar(s, i, DELIM, true);
    var t := s[i..x];
    if IsPlainInteger(t) then Ok(Num(PlainInteger(t)), x)
    else if isNumber(t) then Ok(Float(t), x)
    else Error
  }

  function ParseLiteral(s: string, i: nat): Result
    requires i <= |s|
  {
    var x := NextChar(s, i, DELIM, true);
    var t := s[i..x];
    if t == "true" then Ok(Bool(true), x)
    else if t == "false" then Ok(Bool(false), x)
    else if t == "null" then Ok(Nil, x)
    else Error
  }

  /** `res[key] = val`: storing nil removes the field. */
  function SetField(fields: seq<(string, Value)>, key: string, v: Value): seq<(string, Value)> {
    if fields == [] then if v == Nil then [] else [(key, v)]
    else if fields[0].0 == key then if v == Nil then fields[1..] else [(key, v)] + fields[1..]
    else [fields[0]] + SetField(fields[1..], key, v)
  }

  function TableOf(fields: seq<(string, Value)>): Value {
    if fields == [] then Arr([]) else Obj(fields)
  }

  /** `parse`: dispatch on the first character. */
  function Parse(s: string, i: nat, isNumber: string -> bool): (r: Result)
    ensures r.Ok? ==> i < r.next <= |s|
    decreases |s| - i, 0
  {
    if i >= |s| then Error
    else if s[i] == '\"' then ParseString(s, i)
    else if s[i] == '-' || IsDigit(s[i]) then ParseNumber(s, i, isNumber)
    else if s[i] in {'t', 'f', 'n'} then ParseLiteral(s, i)
    else if s[i] == '[' then ArrayLoop(s, i + 1, [], isNumber)
    else if s[i] == '{' then ObjectLoop(s, i + 1, [], isNumber)
    else Error
  }

  /** The loop of `parse_array`, with the items read so far. */
  function ArrayLoop(s: string, i: nat, items: seq<Value>, isNumber: string -> bool): (r: Result)
    requires i <= |s|
    ensures r.Ok? ==> i < r.next <= |s|
    decreases |s| - i, 1
  {
    var a := NextChar(s, i, SPACE, false);
    if a < |s| && s[a] == ']' then Ok(Arr(items), a + 1)
    else
      match Parse(s, a, isNumber)
      case Error => Error
      case Ok(v, b) =>
        var c := NextChar(s, b, SPACE, false);
        if c >= |s| then Error
        else if s[c] == ']' then Ok(Arr(items + [v]), c + 1)
        else if s[c] == ',' then ArrayLoop(s, c + 1, items + [v], isNumber)
        else Error
  }

  /** The loop of `parse_object`, with the fields set so far. */
  function ObjectLoop(s: string, i: nat, fields: seq<(string, Value)>, isNumber: string -> bool): (r: Result)
    requires i <= |s|
    ensures r.Ok? ==> i < r.next <= |s|
    decreases |s| - i, 1
  {
    var a := NextChar(s, i, SPACE, false);
    if a < |s| && s[a] == '}' then Ok(TableOf(fields), a + 1)
    else if a >= |s| || s[a] != '\"' then Error
    else
      match StringChars(s, a + 1)
      case BadChars => Error
      case Text(key, b) =>
        var c := NextChar(s, b, SPACE, false);
        if c >= |s| || s[c] != ':' then Error
        else
          match Parse(s, NextChar(s, c + 1, SPACE, false), isNumber)
          case Error => Error
          case Ok(v, d) =>
            var e := NextChar(s, d, SPACE, false);
            if e >= |s| then Error
            else if s[e] == '}' then Ok(TableOf(SetField(fields, key, v)), e + 1)
            else if s[e] == ',' then ObjectLoop(s, e + 1, SetField(fields, key, v), isNumber)
            else Error
  }

  datatype Decoded = Rejected | Accepted(value: Value)

  /** `json.decode`. */
  function Decode(s: string, isNumber: string -> bool): Decoded {
    match Parse(s, NextChar(s, 0, SPACE, false), isNumber)
    case Error => Rejected
    case Ok(v, i) => if NextChar(s, i, SPACE, false) < |s| then Rejected else Accepted(v)
  }
}
