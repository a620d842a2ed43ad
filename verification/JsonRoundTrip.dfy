/** Decoding undoes encoding: what the printer writes is a text of the grammar without any gaps. */
module JsonRoundTrip {
  import opened Numerals
  import opened Json
  import opened JsonTexts
  import opened JsonGrammar

  // -------------------------------------------------------------------------------------------
  // Strings
  // -------------------------------------------------------------------------------------------

  const SMALL: seq<bool> := [false, false, false, false]

  /** How one character is written inside an encoded string. */
  function PieceFor(c: char): Piece {
    if !NeedsEscape(c) then Raw(c)
    else if EscapeLetter(c) != '\0' then Short(EscapeLetter(c))
    else Unit(c as int, SMALL)
  }

  function PiecesFor(t: string): seq<Piece> {
    if t == "" then [] else [PieceFor(t[0])] + PiecesFor(t[1..])
  }

  lemma HexSmall(n: int)
    requires 0 <= n < 0x1_0000
    ensures HexText(n, SMALL) == Hex4(n)
  {
    SmallDigit(n / 4096);
    SmallDigit(n / 256 % 16);
    SmallDigit(n / 16 % 16);
    SmallDigit(n % 16);
    hide HexDigit, HexChar;
  }

  lemma SmallDigit(d: int)
    requires 0 <= d < 16
    ensures HexDigit(d, false) == HexChar(d)
  {
  }

  /** An escaped character means itself. */
  lemma PieceOfChar(c: char)
    ensures var p := PieceFor(c);
            && ValidPiece(p) && PieceMeaning(p) == [c] && (p.Unit? ==> !IsHigh(p.n))
            && PieceText(p) == if NeedsEscape(c) then EscapeChar(c) else [c]
  {
    if NeedsEscape(c) && EscapeLetter(c) == '\0' {
      HexSmall(c as int);
      assert Byte(c as int) == c;
      hide HexText, Hex4;
    }
  }

  lemma {:induction false} PiecesOfString(t: string)
    ensures var ps := PiecesFor(t); ValidPieces(ps) && PiecesText(ps) == Escaped(t) && PiecesMeaning(ps) == t
  {
    if t != "" {
      var p, later := PieceFor(t[0]), PiecesFor(t[1..]);
      PieceOfChar(t[0]);
      PiecesOfString(t[1..]);
      assert ([p] + later)[1..] == later && [t[0]] + t[1..] == t;
      hide PieceText, PieceMeaning, ValidPiece, EscapeChar, NeedsEscape, PieceFor;
    }
  }

  /** An encoded string is parsed back exactly, and the parser stops right behind it. */
  lemma ParseOfString(s: string, i: nat, t: string, isNumber: string -> bool)
    requires Here(s, i, EncodeString(t))
    ensures Parse(s, i, isNumber) == Ok(Str(t), i + |EncodeString(t)|)
  {
    PiecesOfString(t);
    var d := Chars(PiecesFor(t));
    hide PiecesText, PiecesMeaning, ValidPieces, PiecesFor, Escaped, Parse;
    assert DocText(d, isNumber) == EncodeString(t);
    DocRead(s, i, d, isNumber);
  }

  // -------------------------------------------------------------------------------------------
  // Numbers
  // -------------------------------------------------------------------------------------------

  function Power10(k: nat): nat {
    if k == 0 then 1 else 10 * Power10(k - 1)
  }

  lemma {:induction false} DigitCountBound(n: nat, k: nat)
    requires 1 <= k && n < Power10(k)
    ensures DigitCount(n) <= k
  {
    if 10 <= n {
      assert Power10(k) == 10 * Power10(k - 1);
      DigitCountBound(n / 10, k - 1);
    }
  }

  lemma LimitDigits(n: nat)
    requires n < LIMIT
    ensures DigitCount(n) <= 14
  {
    assert Power10(7) == 10_000_000;
    assert Power10(14) == 10_000_000 * Power10(7);
    DigitCountBound(n, 14);
  }

  /** The numeral of an integer: what it looks like, and that it denotes the integer. */
  lemma NumeralOf(n: int, isNumber: string -> bool)
    requires -LIMIT < n < LIMIT
    ensures var t := EncodeNumber(n); ValidNumber(t, isNumber) && NumberOf(t) == Num(n)
  {
    var m := if n < 0 then -n else n;
    var digits := Padded(m, DigitCount(m));
    LimitDigits(m);
    ValueOfPadded(m, DigitCount(m));
    NumeralText(n < 0, digits);
  }

  lemma NumeralText(negative: bool, digits: string)
    requires 1 <= |digits| <= 14 && forall c <- digits :: IsDigit(c)
    ensures var t := if negative then "-" + digits else digits;
            && IsPlainInteger(t)
            && PlainInteger(t) == (if negative then 0 - Numerals.Value(digits) else Numerals.Value(digits))
            && t != "" && (t[0] == '-' || IsDigit(t[0])) && forall c <- t :: c !in DELIM
  {
    hide Numerals.Value;
    assert digits[0] in digits;
    if negative {
      assert ("-" + digits)[1..] == digits;
      assert forall c <- "-" + digits :: c == '-' || c in digits;
    }
  }

  /** Every integer below 10^14 in magnitude is parsed back from its numeral. */
  lemma ParseOfNumber(s: string, i: nat, n: int, isNumber: string -> bool)
    requires -LIMIT < n < LIMIT
    requires Here(s, i, EncodeNumber(n)) && Ends(s, i + |EncodeNumber(n)|)
    ensures Parse(s, i, isNumber) == Ok(Num(n), i + |EncodeNumber(n)|)
  {
    NumeralOf(n, isNumber);
    hide EncodeNumber, ValidNumber, NumberOf, Parse;
    NumberRead(s, i, EncodeNumber(n), isNumber);
  }

  // -------------------------------------------------------------------------------------------
  // Values
  // -------------------------------------------------------------------------------------------

  /** The text of a value without gaps. */
  function DocFor(v: Value): Doc
    requires Encodable(v)
    decreases v, 1
  {
    match v
    case Bool(b) => Truth(b)
    case Num(n) => Number(EncodeNumber(n))
    case Str(t) => Chars(PiecesFor(t))
    case Arr(_) => List(EntriesFor(v, 0))
    case Obj(_) => Dict(MembersFor(v, 0))
  }

  function EntriesFor(v: Value, k: nat): Entries
    requires v.Arr? && Encodable(v) && k <= |v.items|
    decreases v, 0, |v.items| - k
  {
    if k == |v.items| then NoMore("")
    else if k + 1 == |v.items| then LastOne("", DocFor(v.items[k]), "")
    else More("", DocFor(v.items[k]), "", EntriesFor(v, k + 1))
  }

  function MembersFor(v: Value, k: nat): Members
    requires v.Obj? && Encodable(v) && k <= |v.fields|
    decreases v, 0, |v.fields| - k
  {
    if k == |v.fields| then NoMember("")
    else
      var key := Key("", PiecesFor(v.fields[k].0), "", "");
      if k + 1 == |v.fields| then LastMember(key, DocFor(v.fields[k].1), "")
      else NextMember(key, DocFor(v.fields[k].1), "", MembersFor(v, k + 1))
  }

  /** What the printer writes for a value is its text without gaps, and denotes the value. */
  lemma {:induction false} EncodedDoc(v: Value, isNumber: string -> bool)
    requires Encodable(v)
    ensures var d := DocFor(v); Valid(d, isNumber) && DocText(d, isNumber) == Encode(v) && Denotes(d, isNumber) == v
    decreases v, 1
  {
    match v
    case Bool(b) =>
    case Num(n) => NumeralOf(n, isNumber);
    case Str(t) => PiecesOfString(t);
    case Arr(items) =>
      EncodedEntries(v, 0, isNumber);
      hide EntriesFor, EntriesText, Items, JoinItems, ValidEntries;
      assert items[0..] == items;
      Bracketed("[", JoinItems(v, 0), "]");
    case Obj(fields) =>
      EncodedMembers(v, 0, isNumber);
      hide MembersFor, MembersText, Fields, JoinFields, ValidMembers;
      assert fields[..0] == [];
      Bracketed("{", JoinFields(v, 0), "}");
  }

  lemma Bracketed(a: string, t: string, b: string)
    ensures a + (t + b) == a + t + b
  {
  }

  lemma {:induction false} EncodedEntries(v: Value, k: nat, isNumber: string -> bool)
    requires v.Arr? && Encodable(v) && k <= |v.items|
    ensures var es := EntriesFor(v, k);
            && ValidEntries(es, isNumber) && EntriesText(es, isNumber) == JoinItems(v, k)
            && Items(es, isNumber) == v.items[k..]
    decreases v, 0, |v.items| - k
  {
    hide DocFor, DocText, Denotes, Encode, Valid;
    if k < |v.items| {
      EncodedDoc(v.items[k], isNumber);
      GapFree(Encode(v.items[k]));
      assert v.items[k..] == [v.items[k]] + v.items[k + 1..];
      if k + 1 < |v.items| {
        EncodedEntries(v, k + 1, isNumber);
        Commas(Encode(v.items[k]), JoinItems(v, k + 1));
      }
    }
  }

  lemma GapFree(t: string)
    ensures "" + (t + "") == t && Space("")
  {
  }

  lemma Commas(t: string, later: string)
    ensures "" + (t + ("" + ("," + later))) == t + "," + later
  {
  }

  /** The members behind the first `k` set the rest of the fields. */
  lemma {:induction false} EncodedMembers(v: Value, k: nat, isNumber: string -> bool)
    requires v.Obj? && Encodable(v) && k <= |v.fields|
    ensures var ms := MembersFor(v, k);
            && ValidMembers(ms, isNumber) && MembersText(ms, isNumber) == JoinFields(v, k)
            && Fields(v.fields[..k], ms, isNumber) == v.fields
    decreases v, 0, |v.fields| - k
  {
    if k == |v.fields| {
      assert v.fields[..k] == v.fields;
    } else {
      hide DocFor, DocText, Denotes, Encode, Valid, EncodeString, KeyText, PiecesText, PiecesMeaning, ValidPieces, SetField;
      var name, value := v.fields[k].0, v.fields[k].1;
      EncodedDoc(value, isNumber);
      EncodedKey(name);
      FieldsDistinct(v, k);
      SetNewField(v.fields[..k], name, value);
      assert v.fields[..k] + [(name, value)] == v.fields[..k + 1];
      FieldText(name, Encode(value), if k + 1 < |v.fields| then JoinFields(v, k + 1) else "");
      if k + 1 < |v.fields| {
        EncodedMembers(v, k + 1, isNumber);
      } else {
        assert v.fields[..k + 1] == v.fields;
      }
    }
  }

  lemma EncodedKey(name: string)
    ensures var key := Key("", PiecesFor(name), "", "");
            ValidKey(key) && PiecesMeaning(key.name) == name && KeyText(key) == EncodeString(name) + ":"
  {
    PiecesOfString(name);
    hide PiecesText, PiecesMeaning, ValidPieces, Escaped, PiecesFor;
    assert "" + (EncodeString(name) + ("" + (":" + ""))) == EncodeString(name) + ":";
    assert "\"" + (Escaped(name) + "\"") == EncodeString(name);
  }

  lemma FieldText(name: string, text: string, later: string)
    ensures (EncodeString(name) + ":") + (text + "") == EncodeString(name) + ":" + text
    ensures (EncodeString(name) + ":") + (text + ("" + ("," + later))) == EncodeString(name) + ":" + text + "," + later
  {
    hide EncodeString;
  }

  lemma FieldsDistinct(v: Value, k: nat)
    requires v.Obj? && Encodable(v) && k < |v.fields|
    ensures Encodable(v.fields[k].1) && v.fields[k].1 != Nil && v.fields != []
    ensures forall i :: 0 <= i < |v.fields[..k]| ==> v.fields[..k][i].0 != v.fields[k].0
  {
  }

  lemma {:induction false} SetNewField(fields: seq<(string, Value)>, key: string, v: Value)
    requires v != Nil && forall i :: 0 <= i < |fields| ==> fields[i].0 != key
    ensures SetField(fields, key, v) == fields + [(key, v)]
  {
    if fields != [] {
      SetNewField(fields[1..], key, v);
      assert fields == [fields[0]] + fields[1..];
    } else {
      assert fields + [(key, v)] == [(key, v)];
    }
  }

  // -------------------------------------------------------------------------------------------
  // The round trip
  // -------------------------------------------------------------------------------------------

  /** `parse` on a text with an encoded value at `i` yields that value and stops right behind it,
      whatever stands before, when the value is followed by a delimiter or the end. */
  lemma ParseOfEncoded(s: string, i: nat, v: Value, isNumber: string -> bool)
    requires Encodable(v) && Here(s, i, Encode(v)) && Ends(s, i + |Encode(v)|)
    ensures Parse(s, i, isNumber) == Ok(v, i + |Encode(v)|)
  {
    hide *;
    EncodedDoc(v, isNumber);
    DocRead(s, i, DocFor(v), isNumber);
  }

  /** Decoding what was encoded gives the value back, also with white space around it. */
  lemma DecodeUndoesEncode(v: Value, before: string, after: string, isNumber: string -> bool)
    requires (v == Nil || Encodable(v)) && Space(before) && Space(after)
    ensures Decode(before + (Encode(v) + after), isNumber) == Accepted(v)
  {
    if v == Nil {
      assert DocText(Null, isNumber) == Encode(v);
      DecodeRead(before + (Encode(v) + after), before, Null, after, isNumber);
    } else {
      EncodedDoc(v, isNumber);
      hide Encode, DocFor, Denotes, DocText, Valid, Space;
      DecodeRead(before + (Encode(v) + after), before, DocFor(v), after, isNumber);
    }
  }

  /** So two values never have the same encoding. */
  lemma EncodeInjective(v: Value, w: Value)
    requires (v == Nil || Encodable(v)) && (w == Nil || Encodable(w)) && Encode(v) == Encode(w)
    ensures v == w
  {
    DecodeUndoesEncode(v, "", "", _ => false);
    DecodeUndoesEncode(w, "", "", _ => false);
  }
}
