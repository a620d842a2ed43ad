/** apps/lua/scripts/json.lua as it runs: loops over positions, result tables filled step by step. */
module JsonMethods {
  import opened Numerals
  import opened Json

  method FindChar(s: string, i: nat, chars: set<char>, wanted: bool) returns (j: nat)
    ensures j == NextChar(s, i, chars, wanted)
  {
    j := i;
    while j < |s|
      invariant NextChar(s, j, chars, wanted) == NextChar(s, i, chars, wanted)
    {
      if (s[j] in chars) == wanted {
        return j;
      }
      j := j + 1;
    }
    return |s|;
  }

  lemma PrependTwice(a: string, b: string, r: Chars)
    ensures Prepend(a, Prepend(b, r)) == Prepend(a + b, r)
  {
    if r.Text? {
      assert a + (b + r.s) == (a + b) + r.s;
    }
  }

  /** `parse_string`: plain characters are copied in runs, from `k` up to the next escape. */
  method StringLoop(s: string, i: nat) returns (r: Chars)
    ensures r == StringChars(s, i + 1)
  {
    hide UnicodeEscape, Unescape, Prepend;
    var res := "";
    var j := i + 1;
    var k := j;
    if |s| < j {
      return BadChars;
    }
    PrependNothing(StringChars(s, j));
    assert res + s[k..j] == "";
    while j < |s|
      invariant i < k <= j <= |s|
      invariant StringChars(s, i + 1) == Prepend(res + s[k..j], StringChars(s, j))
      decreases |s| - j
    {
      var x := s[j] as int;
      ghost var before := res + s[k..j];
      PrependBad(before);
      if x < 32 {
        return BadChars;
      } else if x == 92 {
        res := res + s[k..j];
        j := j + 1;
        if j >= |s| {
          return BadChars;
        }
        if s[j] == 'u' {
          var (utf8, len) := UnicodeEscape(s, j + 1);
          if utf8 == NoBytes {
            return BadChars;
          }
          PrependTwice(before, utf8.s, StringChars(s, j + 1 + len));
          res := res + utf8.s;
          j := j + len;
        } else {
          if s[j] !in ESCAPES {
            return BadChars;
          }
          PrependTwice(before, [Unescape(s[j])], StringChars(s, j + 1));
          res := res + [Unescape(s[j])];
        }
        k := j + 1;
        assert res + s[k..k] == res;
      } else if x == 34 {
        res := res + s[k..j];
        PrependEmpty(res, j + 1);
        return Text(res, j + 1);
      } else {
        PrependTwice(before, [s[j]], StringChars(s, j + 1));
        assert before + [s[j]] == res + s[k..j + 1];
      }
      j := j + 1;
    }
    PrependBad(res + s[k..j]);
    return BadChars;
  }

  lemma PrependBad(a: string)
    ensures Prepend(a, BadChars) == BadChars
  {
  }

  lemma PrependEmpty(a: string, next: nat)
    ensures Prepend(a, Text("", next)) == Text(a, next)
  {
    assert a + "" == a;
  }

  lemma PrependNothing(r: Chars)
    ensures Prepend("", r) == r
  {
    if r.Text? {
      assert "" + r.s == r.s;
    }
  }

  method NumberAt(s: string, i: nat, isNumber: string -> bool) returns (r: Result)
    requires i <= |s|
    ensures r == ParseNumber(s, i, isNumber)
  {
    var x := FindChar(s, i, DELIM, true);
    var t := s[i..x];
    if IsPlainInteger(t) {
      return Ok(Num(PlainInteger(t)), x);
    }
    return if isNumber(t) then Ok(Float(t), x) else Error;
  }

  method LiteralAt(s: string, i: nat) returns (r: Result)
    requires i <= |s|
    ensures r == ParseLiteral(s, i)
  {
    var x := FindChar(s, i, DELIM, true);
    var t := s[i..x];
    if t == "true" {
      return Ok(Bool(true), x);
    } else if t == "false" {
      return Ok(Bool(false), x);
    } else if t == "null" {
      return Ok(Nil, x);
    }
    return Error;
  }

  /** `parse`. */
  method ParseAt(s: string, i: nat, isNumber: string -> bool) returns (r: Result)
    ensures r == Parse(s, i, isNumber)
    decreases |s| - i, 0
  {
    if i >= |s| {
      return Error;
    } else if s[i] == '\"' {
      var t := StringLoop(s, i);
      return match t case BadChars => Error case Text(text, next) => Ok(Str(text), next);
    } else if s[i] == '-' || IsDigit(s[i]) {
      r := NumberAt(s, i, isNumber);
    } else if s[i] in {'t', 'f', 'n'} {
      r := LiteralAt(s, i);
    } else if s[i] == '[' {
      r := ArrayAt(s, i, isNumber);
    } else if s[i] == '{' {
      r := ObjectAt(s, i, isNumber);
    } else {
      return Error;
    }
  }

  /** `parse_array`. */
  method ArrayAt(s: string, start: nat, isNumber: string -> bool) returns (r: Result)
    requires start < |s|
    ensures r == ArrayLoop(s, start + 1, [], isNumber)
    decreases |s| - start - 1, 1
  {
    var res := [];
    var i := start + 1;
    while true
      invariant start < i <= |s|
      invariant ArrayLoop(s, start + 1, [], isNumber) == ArrayLoop(s, i, res, isNumber)
      decreases |s| - i
    {
      i := FindChar(s, i, SPACE, false);
      if i < |s| && s[i] == ']' {
        return Ok(Arr(res), i + 1);
      }
      var x := ParseAt(s, i, isNumber);
      if x.Error? {
        return Error;
      }
      res := res + [x.value];
      i := FindChar(s, x.next, SPACE, false);
      if i >= |s| {
        return Error;
      }
      var chr := s[i];
      i := i + 1;
      if chr == ']' {
        return Ok(Arr(res), i);
      }
      if chr != ',' {
        return Error;
      }
    }
  }

  /** `parse_object`. */
  method ObjectAt(s: string, start: nat, isNumber: string -> bool) returns (r: Result)
    requires start < |s|
    ensures r == ObjectLoop(s, start + 1, [], isNumber)
    decreases |s| - start - 1, 1
  {
    hide Parse, StringChars, SetField, TableOf, NextChar;
    var res := [];
    var i := start + 1;
    while true
      invariant start < i <= |s|
      invariant ObjectLoop(s, start + 1, [], isNumber) == ObjectLoop(s, i, res, isNumber)
      decreases |s| - i
    {
      i := FindChar(s, i, SPACE, false);
      if i < |s| && s[i] == '}' {
        return Ok(TableOf(res), i + 1);
      }
      if i >= |s| || s[i] != '\"' {
        return Error;
      }
      var key := StringLoop(s, i);
      if key.BadChars? {
        return Error;
      }
      i := FindChar(s, key.next, SPACE, false);
      if i >= |s| || s[i] != ':' {
        return Error;
      }
      i := FindChar(s, i + 1, SPACE, false);
      var val := ParseAt(s, i, isNumber);
      if val.Error? {
        return Error;
      }
      res := SetField(res, key.s, val.value);
      i := FindChar(s, val.next, SPACE, false);
      if i >= |s| {
        return Error;
      }
      var chr := s[i];
      i := i + 1;
      if chr == '}' {
        return Ok(TableOf(res), i);
      }
      if chr != ',' {
        return Error;
      }
    }
  }

  /** `json.decode`. */
  method DecodeText(s: string, isNumber: string -> bool) returns (r: Decoded)
    ensures r == Decode(s, isNumber)
  {
    var i := FindChar(s, 0, SPACE, false);
    var x := ParseAt(s, i, isNumber);
    if x.Error? {
      return Rejected;
    }
    i := FindChar(s, x.next, SPACE, false);
    return if i < |s| then Rejected else Accepted(x.value);
  }

  // -------------------------------------------------------------------------------------------
  // Encode
  // -------------------------------------------------------------------------------------------

  /** `table.concat(parts, ",")`. */
  function Commas(parts: seq<string>): string {
    if parts == [] then ""
    else if |parts| == 1 then parts[0]
    else parts[0] + "," + Commas(parts[1..])
  }

  lemma {:induction false} CommasOfItems(v: Value, parts: seq<string>, k: nat)
    requires v.Arr? && Encodable(v) && k + |parts| == |v.items|
    requires forall i :: 0 <= i < |parts| ==> Encodable(v.items[k + i]) && parts[i] == Encode(v.items[k + i])
    ensures Commas(parts) == JoinItems(v, k)
    decreases |parts|
  {
    if 1 < |parts| {
      CommasOfItems(v, parts[1..], k + 1);
    }
  }

  function FieldOf(field: (string, Value)): string
    requires Encodable(field.1)
  {
    EncodeString(field.0) + ":" + Encode(field.1)
  }

  predicate FieldText(v: Value, part: string, k: nat) {
    v.Obj? && k < |v.fields| && Encodable(v.fields[k].1) && part == FieldOf(v.fields[k])
  }

  /** The encoded fields from the `k`-th on. */
  predicate FieldTexts(v: Value, parts: seq<string>, k: nat) {
    && v.Obj? && Encodable(v) && k + |parts| == |v.fields|
    && forall i :: 0 <= i < |parts| ==> FieldText(v, parts[i], k + i)
  }

  lemma FieldTextsRest(v: Value, parts: seq<string>, k: nat)
    requires FieldTexts(v, parts, k) && parts != []
    ensures FieldText(v, parts[0], k) && FieldTexts(v, parts[1..], k + 1)
  {
    hide Encodable, FieldText;
    assert FieldText(v, parts[0], k + 0);
    forall i | 0 <= i < |parts[1..]| ensures FieldText(v, parts[1..][i], k + 1 + i) {
      assert FieldText(v, parts[1 + i], k + (1 + i));
    }
  }

  lemma {:induction false} CommasOfFields(v: Value, parts: seq<string>, k: nat)
    requires FieldTexts(v, parts, k)
    ensures Commas(parts) == JoinFields(v, k)
    decreases |parts|
  {
    hide Encode, EncodeString;
    if parts != [] {
      FieldTextsRest(v, parts, k);
      if 1 < |parts| {
        CommasOfFields(v, parts[1..], k + 1);
      }
    }
  }

  /** `encode`. */
  method EncodeValue(v: Value) returns (text: string)
    requires v == Nil || Encodable(v)
    ensures text == Encode(v)
    decreases v, 1
  {
    match v
    case Nil => text := "null";
    case Bool(b) => text := if b then "true" else "false";
    case Num(n) => text := EncodeNumber(n);
    case Str(s) => text := EncodeString(s);
    case Arr(_) => text := EncodeTable(v);
    case Obj(_) => text := EncodeTable(v);
  }

  /** `encode_table`. */
  method EncodeTable(v: Value) returns (text: string)
    requires (v.Arr? || v.Obj?) && Encodable(v)
    ensures text == Encode(v)
    decreases v, 0, 1
  {
    if v.Arr? {
      text := EncodeItems(v);
    } else {
      text := EncodeFields(v);
    }
  }

  method EncodeItems(v: Value) returns (text: string)
    requires v.Arr? && Encodable(v)
    ensures text == Encode(v)
    decreases v, 0, 0
  {
    var res: seq<string> := [];
    hide JoinItems;
    for i := 0 to |v.items|
      invariant |res| == i
      invariant forall k :: 0 <= k < i ==> Encodable(v.items[k]) && res[k] == Encode(v.items[k])
    {
      var item := EncodeValue(v.items[i]);
      res := res + [item];
    }
    CommasOfItems(v, res, 0);
    return "[" + Commas(res) + "]";
  }

  method EncodeFields(v: Value) returns (text: string)
    requires v.Obj? && Encodable(v)
    ensures text == Encode(v)
    decreases v, 0, 0
  {
    var res: seq<string> := [];
    hide JoinFields, EncodeString;
    for i := 0 to |v.fields|
      invariant |res| == i
      invariant forall k :: 0 <= k < i ==> FieldText(v, res[k], 0 + k)
    {
      var val := EncodeValue(v.fields[i].1);
      res := res + [EncodeString(v.fields[i].0) + ":" + val];
    }
    CommasOfFields(v, res, 0);
    return "{" + Commas(res) + "}";
  }
}
