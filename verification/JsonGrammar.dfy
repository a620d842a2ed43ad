/** The grammar of JSON texts (sections 2 to 7 of RFC 8259) as the code has it: white space around every bracket,
    colon and comma, and a comma that may stand behind a last entry. `parse` and `json.decode` accept exactly the
    texts of this grammar, and yield the values they denote. */
module JsonGrammar {
  import opened Numerals
  import opened Json
  import opened JsonTexts

  /** A text with its structure. A number is known by its text. */
  datatype Doc =
    | Null
    | Truth(b: bool)
    | Number(text: string)
    | Chars(pieces: seq<Piece>)
    | List(entries: Entries)
    | Dict(members: Members)

  /** What stands between the brackets of an array: the gap before its end, or an entry in its gaps, the last
      one or one followed by a comma. */
  datatype Entries = NoMore(gap: string) | LastOne(before: string, doc: Doc, after: string)
    | More(before: string, doc: Doc, after: string, rest: Entries)

  datatype Members = NoMember(gap: string) | LastMember(key: Key, doc: Doc, after: string)
    | NextMember(key: Key, doc: Doc, after: string, rest: Members)

  /** A key in its gaps, and the gap behind its colon. */
  datatype Key = Key(before: string, name: seq<Piece>, after: string, gap: string)

  predicate Space(t: string) {
    forall c <- t :: c in SPACE
  }

  predicate ValidKey(k: Key) {
    Space(k.before) && ValidPieces(k.name) && Space(k.after) && Space(k.gap)
  }

  /** A number's text: digits, or whatever else `isNumber` says Lua's tonumber accepts. */
  predicate ValidNumber(t: string, isNumber: string -> bool) {
    && t != "" && (t[0] == '-' || IsDigit(t[0])) && (forall c <- t :: c !in DELIM)
    && (IsPlainInteger(t) || isNumber(t))
  }

  predicate Valid(d: Doc, isNumber: string -> bool) {
    match d
    case Null => true
    case Truth(_) => true
    case Number(t) => ValidNumber(t, isNumber)
    case Chars(ps) => ValidPieces(ps)
    case List(es) => ValidEntries(es, isNumber)
    case Dict(ms) => ValidMembers(ms, isNumber)
  }

  predicate ValidEntries(es: Entries, isNumber: string -> bool) {
    match es
    case NoMore(gap) => Space(gap)
    case LastOne(before, doc, after) => Space(before) && Valid(doc, isNumber) && Space(after)
    case More(before, doc, after, rest) =>
      Space(before) && Valid(doc, isNumber) && Space(after) && ValidEntries(rest, isNumber)
  }

  predicate ValidMembers(ms: Members, isNumber: string -> bool) {
    match ms
    case NoMember(gap) => Space(gap)
    case LastMember(key, doc, after) => ValidKey(key) && Valid(doc, isNumber) && Space(after)
    case NextMember(key, doc, after, rest) =>
      ValidKey(key) && Valid(doc, isNumber) && Space(after) && ValidMembers(rest, isNumber)
  }

  function StringText(ps: seq<Piece>): string
    requires ValidPieces(ps)
  {
    "\"" + (PiecesText(ps) + "\"")
  }

  function KeyText(k: Key): string
    requires ValidKey(k)
  {
    k.before + (StringText(k.name) + (k.after + (":" + k.gap)))
  }

  function DocText(d: Doc, isNumber: string -> bool): string
    requires Valid(d, isNumber)
  {
    match d
    case Null => "null"
    case Truth(b) => if b then "true" else "false"
    case Number(t) => t
    case Chars(ps) => StringText(ps)
    case List(es) => "[" + (EntriesText(es, isNumber) + "]")
    case Dict(ms) => "{" + (MembersText(ms, isNumber) + "}")
  }

  function EntriesText(es: Entries, isNumber: string -> bool): string
    requires ValidEntries(es, isNumber)
  {
    match es
    case NoMore(gap) => gap
    case LastOne(before, doc, after) => before + (DocText(doc, isNumber) + after)
    case More(before, doc, after, rest) =>
      before + (DocText(doc, isNumber) + (after + ("," + EntriesText(rest, isNumber))))
  }

  function MembersText(ms: Members, isNumber: string -> bool): string
    requires ValidMembers(ms, isNumber)
  {
    match ms
    case NoMember(gap) => gap
    case LastMember(key, doc, after) => KeyText(key) + (DocText(doc, isNumber) + after)
    case NextMember(key, doc, after, rest) =>
      KeyText(key) + (DocText(doc, isNumber) + (after + ("," + MembersText(rest, isNumber))))
  }

  function NumberOf(t: string): Value {
    if IsPlainInteger(t) then Num(PlainInteger(t)) else Float(t)
  }

  /** The value a text denotes. A later member replaces an earlier one of the same name, or with null
      removes it; an object without members is the empty table. */
  function Denotes(d: Doc, isNumber: string -> bool): Value
    requires Valid(d, isNumber)
  {
    match d
    case Null => Nil
    case Truth(b) => Bool(b)
    case Number(t) => NumberOf(t)
    case Chars(ps) => Str(PiecesMeaning(ps))
    case List(es) => Arr(Items(es, isNumber))
    case Dict(ms) => TableOf(Fields([], ms, isNumber))
  }

  function Items(es: Entries, isNumber: string -> bool): seq<Value>
    requires ValidEntries(es, isNumber)
  {
    match es
    case NoMore(_) => []
    case LastOne(_, doc, _) => [Denotes(doc, isNumber)]
    case More(_, doc, _, rest) => [Denotes(doc, isNumber)] + Items(rest, isNumber)
  }

  function Fields(fields: seq<(string, Value)>, ms: Members, isNumber: string -> bool): seq<(string, Value)>
    requires ValidMembers(ms, isNumber)
    decreases ms
  {
    match ms
    case NoMember(_) => fields
    case LastMember(key, doc, _) => SetField(fields, PiecesMeaning(key.name), Denotes(doc, isNumber))
    case NextMember(key, doc, _, rest) =>
      Fields(SetField(fields, PiecesMeaning(key.name), Denotes(doc, isNumber)), rest, isNumber)
  }

  /** Texts that only a delimiter ends. */
  predicate Scalar(d: Doc) {
    d.Null? || d.Truth? || d.Number?
  }

  // -------------------------------------------------------------------------------------------
  // Setting fields
  // -------------------------------------------------------------------------------------------

  /** `t[key]`. */
  function Lookup(fields: seq<(string, Value)>, key: string): Value {
    if fields == [] then Nil else if fields[0].0 == key then fields[0].1 else Lookup(fields[1..], key)
  }

  predicate Distinct(fields: seq<(string, Value)>) {
    forall i, j :: 0 <= i < j < |fields| ==> fields[i].0 != fields[j].0
  }

  lemma {:induction false} LookupAbsent(fields: seq<(string, Value)>, key: string)
    requires forall i :: 0 <= i < |fields| ==> fields[i].0 != key
    ensures Lookup(fields, key) == Nil
  {
    if fields != [] {
      LookupAbsent(fields[1..], key);
    }
  }

  /** Setting a field sets it, leaves the others as they were, and keeps the keys distinct; setting it to nil
      removes it. */
  lemma {:induction false} SetFieldSets(fields: seq<(string, Value)>, key: string, v: Value, other: string)
    requires Distinct(fields)
    ensures Distinct(SetField(fields, key, v))
    ensures Lookup(SetField(fields, key, v), other) == if other == key then v else Lookup(fields, other)
    ensures forall f <- SetField(fields, key, v) :: f == (key, v) || f in fields
    ensures v == Nil ==> forall f <- SetField(fields, key, v) :: f in fields && f.0 != key
  {
    if fields != [] {
      SetFieldSets(fields[1..], key, v, other);
      if fields[0].0 == key {
        LookupAbsent(fields[1..], key);
      } else {
        var later := SetField(fields[1..], key, v);
        hide SetField;
        assert ([fields[0]] + later)[1..] == later;
        StillDistinct(fields, later, key);
      }
    }
  }

  lemma StillDistinct(fields: seq<(string, Value)>, later: seq<(string, Value)>, key: string)
    requires fields != [] && Distinct(fields) && Distinct(later) && fields[0].0 != key
    requires forall f <- later :: f.0 == key || f in fields[1..]
    ensures Distinct([fields[0]] + later)
  {
    forall i | 0 <= i < |later| ensures later[i].0 != fields[0].0 {
      assert later[i] in later;
      if later[i] in fields[1..] {
        var j :| 0 <= j < |fields[1..]| && fields[1..][j] == later[i];
      }
    }
  }

  // -------------------------------------------------------------------------------------------
  // Gaps and lexemes
  // -------------------------------------------------------------------------------------------

  lemma {:induction false} NextCharAt(s: string, i: nat, j: nat, chars: set<char>, wanted: bool)
    requires i <= j <= |s| && (forall k :: i <= k < j ==> (s[k] in chars) != wanted)
    requires j == |s| || (s[j] in chars) == wanted
    ensures NextChar(s, i, chars, wanted) == j
    decreases j - i
  {
    if i < j {
      NextCharAt(s, i + 1, j, chars, wanted);
    }
  }

  lemma {:induction false} BeforeNextChar(s: string, i: nat, chars: set<char>, wanted: bool)
    requires i <= |s|
    ensures forall k :: i <= k < NextChar(s, i, chars, wanted) ==> (s[k] in chars) != wanted
    decreases |s| - i
  {
    if i < |s| && (s[i] in chars) != wanted {
      BeforeNextChar(s, i + 1, chars, wanted);
    }
  }

  lemma CharsHere(s: string, i: nat, t: string)
    requires Here(s, i, t)
    ensures forall k :: i <= k < i + |t| ==> s[k] in t
  {
    forall k | i <= k < i + |t| ensures s[k] in t {
      assert s[i..i + |t|][k - i] == s[k];
    }
  }

  /** A gap is skipped. */
  lemma GapRead(s: string, i: nat, gap: string)
    requires Here(s, i, gap) && Space(gap) && (i + |gap| == |s| || s[i + |gap|] !in SPACE)
    ensures NextChar(s, i, SPACE, false) == i + |gap|
  {
    CharsHere(s, i, gap);
    NextCharAt(s, i, i + |gap|, SPACE, false);
  }

  /** What is skipped is a gap. */
  lemma GapOf(s: string, i: nat)
    requires i <= |s|
    ensures var j := NextChar(s, i, SPACE, false); Space(s[i..j]) && Here(s, i, s[i..j])
  {
    BeforeNextChar(s, i, SPACE, false);
    var j := NextChar(s, i, SPACE, false);
    HereSlice(s, i, j);
    CharsHere(s, i, s[i..j]);
    forall c | c in s[i..j] ensures c in SPACE {
      var k :| 0 <= k < |s[i..j]| && s[i..j][k] == c;
      assert s[i + k] == c;
    }
  }

  /** A text without delimiters is taken whole; */
  lemma LexemeRead(s: string, i: nat, t: string)
    requires Here(s, i, t) && Ends(s, i + |t|) && (forall c <- t :: c !in DELIM)
    ensures NextChar(s, i, DELIM, true) == i + |t| && s[i..i + |t|] == t
  {
    CharsHere(s, i, t);
    NextCharAt(s, i, i + |t|, DELIM, true);
  }

  /** and what is taken is one. */
  lemma LexemeOf(s: string, i: nat)
    requires i <= |s|
    ensures var j := NextChar(s, i, DELIM, true);
            && i <= j <= |s| && Ends(s, j) && Here(s, i, s[i..j]) && (forall c <- s[i..j] :: c !in DELIM)
  {
    BeforeNextChar(s, i, DELIM, true);
    var j := NextChar(s, i, DELIM, true);
    HereSlice(s, i, j);
    forall c | c in s[i..j] ensures c !in DELIM {
      var k :| 0 <= k < |s[i..j]| && s[i..j][k] == c;
      assert s[i + k] == c;
    }
  }

  // -------------------------------------------------------------------------------------------
  // Every text is parsed
  // -------------------------------------------------------------------------------------------

  lemma ParseDispatch(s: string, i: nat, isNumber: string -> bool)
    requires i < |s|
    ensures s[i] == '\"' ==> Parse(s, i, isNumber) == ParseString(s, i)
    ensures s[i] == '-' || IsDigit(s[i]) ==> Parse(s, i, isNumber) == ParseNumber(s, i, isNumber)
    ensures s[i] in {'t', 'f', 'n'} ==> Parse(s, i, isNumber) == ParseLiteral(s, i)
    ensures s[i] == '[' ==> Parse(s, i, isNumber) == ArrayLoop(s, i + 1, [], isNumber)
    ensures s[i] == '{' ==> Parse(s, i, isNumber) == ObjectLoop(s, i + 1, [], isNumber)
    ensures Parse(s, i, isNumber).Ok? ==>
              s[i] == '\"' || s[i] == '-' || IsDigit(s[i]) || s[i] in {'t', 'f', 'n', '[', '{'}
  {
    hide ArrayLoop, ObjectLoop, ParseString, ParseNumber, ParseLiteral;
  }

  lemma StringHere(s: string, i: nat, ps: seq<Piece>)
    requires ValidPieces(ps) && Here(s, i, StringText(ps))
    ensures i < |s| && s[i] == '\"' && StringChars(s, i + 1) == Text(PiecesMeaning(ps), i + |StringText(ps)|)
  {
    hide Here, StringChars, PiecesText, PiecesMeaning;
    HereFirst(s, i, StringText(ps));
    HereSplit(s, i, "\"", PiecesText(ps) + "\"");
    StringRead(s, i + 1, ps);
  }

  lemma LiteralRead(s: string, i: nat, t: string, v: Value, isNumber: string -> bool)
    requires (t, v) in {("true", Bool(true)), ("false", Bool(false)), ("null", Nil)}
    requires Here(s, i, t) && Ends(s, i + |t|)
    ensures Parse(s, i, isNumber) == Ok(v, i + |t|)
  {
    HereFirst(s, i, t);
    LexemeRead(s, i, t);
    ParseDispatch(s, i, isNumber);
    hide Parse, NextChar;
  }

  lemma NumberRead(s: string, i: nat, t: string, isNumber: string -> bool)
    requires ValidNumber(t, isNumber) && Here(s, i, t) && Ends(s, i + |t|)
    ensures Parse(s, i, isNumber) == Ok(NumberOf(t), i + |t|)
  {
    HereFirst(s, i, t);
    LexemeRead(s, i, t);
    ParseDispatch(s, i, isNumber);
    hide Parse, NextChar, IsPlainInteger, PlainInteger;
  }

  /** No text begins with white space or a closing bracket. */
  lemma DocBegins(d: Doc, isNumber: string -> bool)
    requires Valid(d, isNumber)
    ensures DocText(d, isNumber) != "" && DocText(d, isNumber)[0] !in SPACE && DocText(d, isNumber)[0] !in {']', '}'}
  {
    hide EntriesText, MembersText, PiecesText, ValidEntries, ValidMembers, ValidPieces;
  }

  /** Where the parts of an entry stand. */
  lemma EntryThere(s: string, i: nat, before: string, text: string, after: string, tail: string)
    requires Here(s, i, before + (text + (after + tail))) && Space(before) && Space(after)
    requires text != "" && text[0] !in SPACE && tail != "" && tail[0] in {',', ']', '}'}
    ensures var a := i + |before|; var b := a + |text|; var c := b + |after|;
            && NextChar(s, i, SPACE, false) == a && Here(s, a, text) && a < |s| && s[a] == text[0]
            && b <= |s| && Ends(s, b) && NextChar(s, b, SPACE, false) == c
            && c < |s| && s[c] == tail[0] && Here(s, c, tail)
  {
    var a := i + |before|;
    var b := a + |text|;
    hide *;
    MarkNoSpace(tail[0]);
    FirstOf(text, after + tail);
    GapThere(s, i, before, text + (after + tail));
    HereSplit(s, a, text, after + tail);
    GapThere(s, b, after, tail);
    GapEnds(s, b, after, tail);
  }

  lemma FirstOf(t: string, more: string)
    requires t != ""
    ensures t + more != "" && (t + more)[0] == t[0]
  {
  }

  lemma MarkNoSpace(c: char)
    requires c in {',', ']', '}'}
    ensures c !in SPACE && c in DELIM
  {
  }

  lemma GapEnds(s: string, i: nat, gap: string, tail: string)
    requires Here(s, i, gap + tail) && Space(gap) && tail != "" && tail[0] in {',', ']', '}'}
    ensures Ends(s, i) && i <= |s|
  {
    HereFirst(s, i, gap + tail);
    if gap != "" {
      assert gap[0] in gap;
    }
  }

  lemma ArrayTurn(s: string, i: nat, items: seq<Value>, a: nat, v: Value, b: nat, c: nat, isNumber: string -> bool)
    requires NextChar(s, i, SPACE, false) == a && i <= a < |s| && s[a] != ']'
    requires Parse(s, a, isNumber) == Ok(v, b) && NextChar(s, b, SPACE, false) == c && c < |s|
    ensures ArrayLoop(s, i, items, isNumber)
         == if s[c] == ']' then Ok(Arr(items + [v]), c + 1)
            else if s[c] == ',' then ArrayLoop(s, c + 1, items + [v], isNumber)
            else Error
  {
    hide Parse, NextChar;
  }

  lemma ArrayEnd(s: string, i: nat, items: seq<Value>, a: nat, isNumber: string -> bool)
    requires NextChar(s, i, SPACE, false) == a && i <= a < |s| && s[a] == ']'
    ensures ArrayLoop(s, i, items, isNumber) == Ok(Arr(items), a + 1)
  {
    hide Parse, NextChar;
  }

  lemma ObjectTurn(s: string, i: nat, fields: seq<(string, Value)>, a: nat, key: string, b: nat, c: nat, e: nat,
                   v: Value, d: nat, f: nat, isNumber: string -> bool)
    requires NextChar(s, i, SPACE, false) == a && i <= a < |s| && s[a] == '\"'
    requires StringChars(s, a + 1) == Text(key, b) && NextChar(s, b, SPACE, false) == c && c < |s| && s[c] == ':'
    requires NextChar(s, c + 1, SPACE, false) == e && Parse(s, e, isNumber) == Ok(v, d)
    requires NextChar(s, d, SPACE, false) == f && f < |s|
    ensures var now := SetField(fields, key, v);
            ObjectLoop(s, i, fields, isNumber)
              == if s[f] == '}' then Ok(TableOf(now), f + 1)
                 else if s[f] == ',' then ObjectLoop(s, f + 1, now, isNumber)
                 else Error
  {
    hide Parse, NextChar, StringChars, SetField, TableOf;
  }

  lemma ObjectEnd(s: string, i: nat, fields: seq<(string, Value)>, a: nat, isNumber: string -> bool)
    requires NextChar(s, i, SPACE, false) == a && i <= a < |s| && s[a] == '}'
    ensures ObjectLoop(s, i, fields, isNumber) == Ok(TableOf(fields), a + 1)
  {
    hide Parse, NextChar, StringChars, SetField, TableOf;
  }

  /** Where the parts of a key stand. */
  lemma KeyThere(s: string, i: nat, k: Key, tail: string)
    requires ValidKey(k) && Here(s, i, KeyText(k) + tail) && tail != "" && tail[0] !in SPACE
    ensures var a := i + |k.before|; var b := a + |StringText(k.name)|; var c := b + |k.after|; var e := c + 1 + |k.gap|;
            && NextChar(s, i, SPACE, false) == a && a < |s| && s[a] == '\"'
            && StringChars(s, a + 1) == Text(PiecesMeaning(k.name), b)
            && b <= |s| && NextChar(s, b, SPACE, false) == c && c < |s| && s[c] == ':'
            && NextChar(s, c + 1, SPACE, false) == e && e == i + |KeyText(k)| && Here(s, e, tail)
  {
    hide *;
    KeyParts(k, tail);
    var name := StringText(k.name);
    var a := i + |k.before|;
    var b := a + |name|;
    var c := b + |k.after|;
    GapThere(s, i, k.before, name + (k.after + (":" + (k.gap + tail))));
    HereSplit(s, a, name, k.after + (":" + (k.gap + tail)));
    StringHere(s, a, k.name);
    GapThere(s, b, k.after, ":" + (k.gap + tail));
    HereSplit(s, c, ":", k.gap + tail);
    GapThere(s, c + 1, k.gap, tail);
  }

  lemma KeyParts(k: Key, tail: string)
    requires ValidKey(k)
    ensures Space(k.before) && ValidPieces(k.name) && Space(k.after) && Space(k.gap)
    ensures KeyText(k) + tail == k.before + (StringText(k.name) + (k.after + (":" + (k.gap + tail))))
    ensures |KeyText(k)| == |k.before| + |StringText(k.name)| + |k.after| + 1 + |k.gap|
    ensures StringText(k.name) != "" && StringText(k.name)[0] == '\"' && '\"' !in SPACE && ':' !in SPACE
  {
    hide ValidPieces, PiecesText, Space;
  }

  /** A gap and what follows it. */
  lemma GapThere(s: string, i: nat, gap: string, tail: string)
    requires Here(s, i, gap + tail) && Space(gap) && tail != "" && tail[0] !in SPACE
    ensures var j := i + |gap|;
            NextChar(s, i, SPACE, false) == j && Here(s, j, tail) && j < |s| && s[j] == tail[0]
  {
    HereSplit(s, i, gap, tail);
    HereFirst(s, i + |gap|, tail);
    hide NextChar, Space, Here;
    GapRead(s, i, gap);
  }

  /** `parse` on a text of the grammar at `i`, whatever stands before, yields the value it denotes and stops
      right behind it. */
  lemma {:induction false} DocRead(s: string, i: nat, d: Doc, isNumber: string -> bool)
    requires Valid(d, isNumber) && Here(s, i, DocText(d, isNumber))
    requires Scalar(d) ==> Ends(s, i + |DocText(d, isNumber)|)
    ensures Parse(s, i, isNumber) == Ok(Denotes(d, isNumber), i + |DocText(d, isNumber)|)
    decreases d, 1
  {
    match d
    case Null => LiteralRead(s, i, "null", Nil, isNumber);
    case Truth(b) => LiteralRead(s, i, if b then "true" else "false", Bool(b), isNumber);
    case Number(t) => NumberRead(s, i, t, isNumber);
    case Chars(ps) =>
      StringHere(s, i, ps);
      ParseDispatch(s, i, isNumber);
    case List(es) =>
      hide *;
      ListText(es, isNumber);
      BracketHere(s, i, "[", EntriesText(es, isNumber) + "]");
      EntriesRead(s, i + 1, es, [], isNumber);
      ParseDispatch(s, i, isNumber);
    case Dict(ms) =>
      hide *;
      DictText(ms, isNumber);
      BracketHere(s, i, "{", MembersText(ms, isNumber) + "}");
      MembersRead(s, i + 1, ms, [], isNumber);
      ParseDispatch(s, i, isNumber);
  }

  lemma ListText(es: Entries, isNumber: string -> bool)
    requires Valid(List(es), isNumber)
    ensures ValidEntries(es, isNumber)
    ensures DocText(List(es), isNumber) == "[" + (EntriesText(es, isNumber) + "]")
    ensures Denotes(List(es), isNumber) == Arr([] + Items(es, isNumber))
  {
    hide EntriesText, Items, ValidEntries;
  }

  lemma DictText(ms: Members, isNumber: string -> bool)
    requires Valid(Dict(ms), isNumber)
    ensures ValidMembers(ms, isNumber)
    ensures DocText(Dict(ms), isNumber) == "{" + (MembersText(ms, isNumber) + "}")
    ensures Denotes(Dict(ms), isNumber) == TableOf(Fields([], ms, isNumber))
  {
    hide MembersText, Fields, ValidMembers;
  }

  lemma BracketHere(s: string, i: nat, bracket: string, tail: string)
    requires |bracket| == 1 && Here(s, i, bracket + tail)
    ensures i < |s| && s[i] == bracket[0] && Here(s, i + 1, tail)
  {
    HereSplit(s, i, bracket, tail);
    HereFirst(s, i, bracket);
  }

  /** The array loop on the entries of a list. */
  lemma {:induction false} EntriesRead(s: string, i: nat, es: Entries, items: seq<Value>, isNumber: string -> bool)
    requires ValidEntries(es, isNumber) && Here(s, i, EntriesText(es, isNumber) + "]")
    ensures i <= |s|
    ensures ArrayLoop(s, i, items, isNumber)
         == Ok(Arr(items + Items(es, isNumber)), i + |EntriesText(es, isNumber)| + 1)
    decreases es, 0
  {
    hide *;
    EntriesParts(es, isNumber);
    match es
    case NoMore(gap) =>
      BracketNoSpace();
      GapThere(s, i, gap, "]");
      ArrayEnd(s, i, items, i + |gap|, isNumber);
      NoItems(items);
    case LastOne(before, doc, after) =>
      var text := DocText(doc, isNumber);
      DocBegins(doc, isNumber);
      EntryThere(s, i, before, text, after, "]");
      var a := i + |before|;
      DocRead(s, a, doc, isNumber);
      ArrayTurn(s, i, items, a, Denotes(doc, isNumber), a + |text|, a + |text| + |after|, isNumber);
    case More(before, doc, after, rest) =>
      var text := DocText(doc, isNumber);
      var later := EntriesText(rest, isNumber) + "]";
      DocBegins(doc, isNumber);
      EntryThere(s, i, before, text, after, "," + later);
      var a := i + |before|;
      var c := a + |text| + |after|;
      DocRead(s, a, doc, isNumber);
      ArrayTurn(s, i, items, a, Denotes(doc, isNumber), a + |text|, c, isNumber);
      HereSplit(s, c, ",", later);
      EntriesRead(s, c + 1, rest, items + [Denotes(doc, isNumber)], isNumber);
      MoreItems(items, Denotes(doc, isNumber), Items(rest, isNumber));
  }

  lemma BracketNoSpace()
    ensures ']' !in SPACE && '}' !in SPACE && '\"' !in SPACE && ':' !in SPACE
  {
  }

  lemma NoItems(items: seq<Value>)
    ensures items + [] == items
  {
  }

  lemma MoreItems(items: seq<Value>, v: Value, later: seq<Value>)
    ensures (items + [v]) + later == items + ([v] + later)
  {
  }

  lemma EntriesParts(es: Entries, isNumber: string -> bool)
    requires ValidEntries(es, isNumber)
    ensures es.NoMore? ==> Space(es.gap) && EntriesText(es, isNumber) == es.gap && Items(es, isNumber) == []
    ensures !es.NoMore? ==> Space(es.before) && Valid(es.doc, isNumber) && Space(es.after)
    ensures es.LastOne? ==>
              && EntriesText(es, isNumber) + "]" == es.before + (DocText(es.doc, isNumber) + (es.after + "]"))
              && |EntriesText(es, isNumber)| == |es.before| + |DocText(es.doc, isNumber)| + |es.after|
              && Items(es, isNumber) == [Denotes(es.doc, isNumber)]
    ensures es.More? ==>
              && ValidEntries(es.rest, isNumber)
              && EntriesText(es, isNumber) + "]"
                 == es.before + (DocText(es.doc, isNumber) + (es.after + ("," + (EntriesText(es.rest, isNumber) + "]"))))
              && |EntriesText(es, isNumber)|
                 == |es.before| + |DocText(es.doc, isNumber)| + |es.after| + 1 + |EntriesText(es.rest, isNumber)|
              && Items(es, isNumber) == [Denotes(es.doc, isNumber)] + Items(es.rest, isNumber)
  {
    hide DocText, Denotes, Valid, Space;
  }

  lemma MembersParts(ms: Members, isNumber: string -> bool)
    requires ValidMembers(ms, isNumber)
    ensures ms.NoMember? ==> Space(ms.gap) && MembersText(ms, isNumber) == ms.gap
    ensures !ms.NoMember? ==> ValidKey(ms.key) && Valid(ms.doc, isNumber) && Space(ms.after)
    ensures ms.LastMember? ==>
              && MembersText(ms, isNumber) + "}"
                 == KeyText(ms.key) + ("" + (DocText(ms.doc, isNumber) + (ms.after + "}")))
              && |MembersText(ms, isNumber)| == |KeyText(ms.key)| + |DocText(ms.doc, isNumber)| + |ms.after|
    ensures ms.NextMember? ==>
              && ValidMembers(ms.rest, isNumber)
              && MembersText(ms, isNumber) + "}"
                 == KeyText(ms.key)
                    + ("" + (DocText(ms.doc, isNumber) + (ms.after + ("," + (MembersText(ms.rest, isNumber) + "}")))))
              && |MembersText(ms, isNumber)|
                 == |KeyText(ms.key)| + |DocText(ms.doc, isNumber)| + |ms.after| + 1 + |MembersText(ms.rest, isNumber)|
  {
    hide DocText, Valid, Space, KeyText, ValidKey;
  }

  /** What the members set, one after the other. */
  lemma FieldsParts(fields: seq<(string, Value)>, ms: Members, isNumber: string -> bool)
    requires ValidMembers(ms, isNumber)
    ensures ms.NoMember? ==> Fields(fields, ms, isNumber) == fields
    ensures !ms.NoMember? ==>
              ValidKey(ms.key) && ValidPieces(ms.key.name) && Valid(ms.doc, isNumber)
    ensures ms.LastMember? ==>
              Fields(fields, ms, isNumber) == SetField(fields, PiecesMeaning(ms.key.name), Denotes(ms.doc, isNumber))
    ensures ms.NextMember? ==>
              && ValidMembers(ms.rest, isNumber)
              && Fields(fields, ms, isNumber)
                 == Fields(SetField(fields, PiecesMeaning(ms.key.name), Denotes(ms.doc, isNumber)), ms.rest, isNumber)
  {
    hide SetField, PiecesMeaning, Denotes, Valid, ValidPieces, Space;
  }

  /** The object loop on the members of an object. */
  lemma {:induction false} MembersRead(s: string, i: nat, ms: Members, fields: seq<(string, Value)>,
                                       isNumber: string -> bool)
    requires ValidMembers(ms, isNumber) && Here(s, i, MembersText(ms, isNumber) + "}")
    ensures i <= |s|
    ensures ObjectLoop(s, i, fields, isNumber)
         == Ok(TableOf(Fields(fields, ms, isNumber)), i + |MembersText(ms, isNumber)| + 1)
    decreases ms, 0
  {
    hide *;
    MembersParts(ms, isNumber);
    FieldsParts(fields, ms, isNumber);
    BracketNoSpace();
    match ms
    case NoMember(gap) =>
      GapThere(s, i, gap, "}");
      ObjectEnd(s, i, fields, i + |gap|, isNumber);
    case LastMember(key, doc, after) =>
      var f := MemberRead(s, i, key, doc, after, "}", fields, isNumber);
    case NextMember(key, doc, after, rest) =>
      var later := MembersText(rest, isNumber) + "}";
      var f := MemberRead(s, i, key, doc, after, "," + later, fields, isNumber);
      HereSplit(s, f, ",", later);
      MembersRead(s, f + 1, rest, SetField(fields, PiecesMeaning(key.name), Denotes(doc, isNumber)), isNumber);
  }

  /** One turn of the object loop, up to the mark behind the member. */
  lemma {:induction false} MemberRead(s: string, i: nat, key: Key, doc: Doc, after: string, tail: string,
                                      fields: seq<(string, Value)>, isNumber: string -> bool) returns (f: nat)
    requires ValidKey(key) && ValidPieces(key.name) && Valid(doc, isNumber) && Space(after)
    requires tail != "" && tail[0] in {',', '}'}
    requires Here(s, i, KeyText(key) + ("" + (DocText(doc, isNumber) + (after + tail))))
    ensures f == i + |KeyText(key)| + |DocText(doc, isNumber)| + |after|
    ensures i <= |s| && f < |s| && s[f] == tail[0] && Here(s, f, tail)
    ensures var now := SetField(fields, PiecesMeaning(key.name), Denotes(doc, isNumber));
            ObjectLoop(s, i, fields, isNumber)
              == if s[f] == '}' then Ok(TableOf(now), f + 1) else ObjectLoop(s, f + 1, now, isNumber)
    decreases doc, 2
  {
    hide *;
    var text := DocText(doc, isNumber);
    var e := i + |KeyText(key)|;
    f := e + |text| + |after|;
    DocBegins(doc, isNumber);
    NoGap(text + (after + tail));
    KeyThere(s, i, key, text + (after + tail));
    EntryThere(s, e, "", text, after, tail);
    DocRead(s, e, doc, isNumber);
    var a := i + |key.before|;
    var b := a + |StringText(key.name)|;
    ObjectTurn(s, i, fields, a, PiecesMeaning(key.name), b, b + |key.after|, e, Denotes(doc, isNumber),
               e + |text|, f, isNumber);
  }

  lemma NoGap(t: string)
    ensures "" + t == t && Space("")
  {
  }

  // -------------------------------------------------------------------------------------------
  // Nothing else is parsed
  // -------------------------------------------------------------------------------------------

  /** Whatever `parse` accepts at `i` is a text of the grammar, and so `DocRead` says what it yields. */
  lemma {:induction false} DocOf(s: string, i: nat, isNumber: string -> bool) returns (d: Doc)
    requires Parse(s, i, isNumber).Ok?
    ensures Valid(d, isNumber) && Here(s, i, DocText(d, isNumber))
    ensures Scalar(d) ==> Ends(s, i + |DocText(d, isNumber)|)
    decreases |s| - i, 0, 0
  {
    InText(s, i, isNumber);
    ParseDispatch(s, i, isNumber);
    if s[i] == '[' {
      hide *;
      var es := EntriesOf(s, i + 1, [], isNumber);
      ListOf(s, i, es, isNumber);
      d := List(es);
    } else if s[i] == '{' {
      hide *;
      var ms := MembersOf(s, i + 1, [], isNumber);
      DictOf(s, i, ms, isNumber);
      d := Dict(ms);
    } else {
      d := LeafOf(s, i, isNumber);
    }
  }

  lemma InText(s: string, i: nat, isNumber: string -> bool)
    requires Parse(s, i, isNumber).Ok?
    ensures i < |s|
  {
    hide ArrayLoop, ObjectLoop, ParseString, ParseNumber, ParseLiteral;
  }

  lemma ListOf(s: string, i: nat, es: Entries, isNumber: string -> bool)
    requires i < |s| && s[i] == '[' && ValidEntries(es, isNumber) && Here(s, i + 1, EntriesText(es, isNumber) + "]")
    ensures Valid(List(es), isNumber) && Here(s, i, DocText(List(es), isNumber)) && !Scalar(List(es))
  {
    assert s[i..i + 1] == "[";
    hide EntriesText;
    HereJoin(s, i, "[", EntriesText(es, isNumber) + "]");
  }

  lemma DictOf(s: string, i: nat, ms: Members, isNumber: string -> bool)
    requires i < |s| && s[i] == '{' && ValidMembers(ms, isNumber) && Here(s, i + 1, MembersText(ms, isNumber) + "}")
    ensures Valid(Dict(ms), isNumber) && Here(s, i, DocText(Dict(ms), isNumber)) && !Scalar(Dict(ms))
  {
    assert s[i..i + 1] == "{";
    hide MembersText;
    HereJoin(s, i, "{", MembersText(ms, isNumber) + "}");
  }

  lemma QuotedOf(s: string, i: nat) returns (ps: seq<Piece>)
    requires i < |s| && s[i] == '\"' && StringChars(s, i + 1).Text?
    ensures ValidPieces(ps) && Here(s, i, StringText(ps))
  {
    assert s[i..i + 1] == "\"";
    ps := StringOf(s, i + 1);
    hide StringChars, PiecesText, ValidPieces;
    HereJoin(s, i, "\"", PiecesText(ps) + "\"");
  }

  lemma LeafOf(s: string, i: nat, isNumber: string -> bool) returns (d: Doc)
    requires i < |s| && Parse(s, i, isNumber).Ok? && s[i] != '[' && s[i] != '{'
    ensures Valid(d, isNumber) && Here(s, i, DocText(d, isNumber))
    ensures Scalar(d) ==> Ends(s, i + |DocText(d, isNumber)|)
  {
    ParseDispatch(s, i, isNumber);
    LexemeOf(s, i);
    var x := NextChar(s, i, DELIM, true);
    hide Parse, NextChar, StringChars, StringText, ValidPieces;
    if s[i] == '\"' {
      var ps := QuotedOf(s, i);
      d := Chars(ps);
    } else if s[i] in {'t', 'f', 'n'} {
      d := if s[i..x] == "true" then Truth(true) else if s[i..x] == "false" then Truth(false) else Null;
    } else {
      d := Number(s[i..x]);
      hide IsPlainInteger;
      DigitStarts(s, i, x);
    }
  }

  lemma DigitStarts(s: string, i: nat, x: nat)
    requires i < |s| && i <= x <= |s| && (s[i] == '-' || IsDigit(s[i])) && (x < |s| ==> s[x] in DELIM)
    ensures i < x && s[i..x] != "" && s[i..x][0] == s[i]
  {
  }

  lemma ArrayUnfold(s: string, i: nat, items: seq<Value>, isNumber: string -> bool)
    requires i <= |s| && ArrayLoop(s, i, items, isNumber).Ok?
    ensures var a := NextChar(s, i, SPACE, false);
            && a < |s|
            && (s[a] != ']' ==>
                  && Parse(s, a, isNumber).Ok?
                  && var b := Parse(s, a, isNumber).next; var c := NextChar(s, b, SPACE, false);
                     && a < b <= c < |s|
                     && (s[c] == ']'
                         || (s[c] == ',' && ArrayLoop(s, c + 1, items + [Parse(s, a, isNumber).value], isNumber).Ok?)))
  {
    InText2(s, NextChar(s, i, SPACE, false), isNumber);
    hide Parse, NextChar;
  }

  lemma InText2(s: string, i: nat, isNumber: string -> bool)
    ensures Parse(s, i, isNumber).Ok? ==> i < |s|
  {
    hide ArrayLoop, ObjectLoop, ParseString, ParseNumber, ParseLiteral;
  }

  lemma {:induction false} EntriesOf(s: string, i: nat, items: seq<Value>, isNumber: string -> bool) returns (es: Entries)
    requires i <= |s| && ArrayLoop(s, i, items, isNumber).Ok?
    ensures ValidEntries(es, isNumber) && Here(s, i, EntriesText(es, isNumber) + "]")
    decreases |s| - i, 1, 0
  {
    hide *;
    ArrayUnfold(s, i, items, isNumber);
    var a := NextChar(s, i, SPACE, false);
    if s[a] == ']' {
      es := NoMore(s[i..a]);
      GapMark(s, i, ']');
      EndText(s[i..a], isNumber);
    } else {
      var before, doc, after, c := EntryOf(s, i, isNumber);
      if s[c] == ']' {
        es := LastOne(before, doc, after);
        LastText(before, doc, after, isNumber);
        MarkAt(s, c, "]");
        EntryHere(s, i, before, DocText(doc, isNumber), after, "]");
      } else {
        var rest := EntriesOf(s, c + 1, items + [Parse(s, a, isNumber).value], isNumber);
        var tail := EntriesText(rest, isNumber) + "]";
        es := More(before, doc, after, rest);
        MoreText(before, doc, after, rest, isNumber);
        MarkAt(s, c, ",");
        HereJoin(s, c, ",", tail);
        EntryHere(s, i, before, DocText(doc, isNumber), after, "," + tail);
      }
    }
  }

  /** The entry that stands at `i`, in its gaps, and where the mark behind it stands. */
  lemma {:induction false} EntryOf(s: string, i: nat, isNumber: string -> bool)
      returns (before: string, doc: Doc, after: string, c: nat)
    requires i <= |s| && Parse(s, NextChar(s, i, SPACE, false), isNumber).Ok?
    ensures Space(before) && Valid(doc, isNumber) && Space(after)
    ensures Here(s, i, before) && Here(s, i + |before|, DocText(doc, isNumber))
    ensures Here(s, i + |before| + |DocText(doc, isNumber)|, after)
    ensures c == i + |before| + |DocText(doc, isNumber)| + |after|
    ensures c == NextChar(s, Parse(s, NextChar(s, i, SPACE, false), isNumber).next, SPACE, false)
    decreases |s| - i, 0, 1
  {
    hide *;
    var a := NextChar(s, i, SPACE, false);
    before := TakeGap(s, i);
    doc := DocOf(s, a, isNumber);
    DocRead(s, a, doc, isNumber);
    HereBound(s, a, DocText(doc, isNumber));
    after := TakeGap(s, a + |DocText(doc, isNumber)|);
    c := a + |DocText(doc, isNumber)| + |after|;
  }

  lemma HereBound(s: string, i: nat, t: string)
    requires Here(s, i, t)
    ensures i + |t| <= |s|
  {
  }

  lemma TakeGap(s: string, i: nat) returns (gap: string)
    requires i <= |s|
    ensures Space(gap) && Here(s, i, gap) && NextChar(s, i, SPACE, false) == i + |gap|
  {
    GapOf(s, i);
    gap := s[i..NextChar(s, i, SPACE, false)];
  }

  lemma MarkAt(s: string, i: nat, mark: string)
    requires i < |s| && |mark| == 1 && s[i] == mark[0]
    ensures Here(s, i, mark)
  {
    assert s[i..i + 1] == mark;
  }

  lemma GapMark(s: string, i: nat, c: char)
    requires i <= |s|
    requires NextChar(s, i, SPACE, false) < |s| && s[NextChar(s, i, SPACE, false)] == c
    ensures var gap := s[i..NextChar(s, i, SPACE, false)]; Space(gap) && Here(s, i, gap + [c])
  {
    GapOf(s, i);
    var a := NextChar(s, i, SPACE, false);
    assert s[i..a + 1] == s[i..a] + [c];
  }

  lemma EntryHere(s: string, i: nat, before: string, text: string, after: string, tail: string)
    requires Here(s, i, before) && Here(s, i + |before|, text) && Here(s, i + |before| + |text|, after)
    requires Here(s, i + |before| + |text| + |after|, tail)
    ensures Here(s, i, before + (text + (after + tail)))
  {
    hide *;
    HereJoin(s, i + |before| + |text|, after, tail);
    HereJoin(s, i + |before|, text, after + tail);
    HereJoin(s, i, before, text + (after + tail));
  }

  lemma EndText(gap: string, isNumber: string -> bool)
    requires Space(gap)
    ensures ValidEntries(NoMore(gap), isNumber) && EntriesText(NoMore(gap), isNumber) == gap
    ensures ValidMembers(NoMember(gap), isNumber) && MembersText(NoMember(gap), isNumber) == gap
  {
  }

  lemma LastText(before: string, doc: Doc, after: string, isNumber: string -> bool)
    requires Space(before) && Valid(doc, isNumber) && Space(after)
    ensures var es := LastOne(before, doc, after);
            ValidEntries(es, isNumber) && EntriesText(es, isNumber) + "]" == before + (DocText(doc, isNumber) + (after + "]"))
  {
    hide DocText;
  }

  lemma MoreText(before: string, doc: Doc, after: string, rest: Entries, isNumber: string -> bool)
    requires Space(before) && Valid(doc, isNumber) && Space(after) && ValidEntries(rest, isNumber)
    ensures var es := More(before, doc, after, rest);
            && ValidEntries(es, isNumber)
            && EntriesText(es, isNumber) + "]"
               == before + (DocText(doc, isNumber) + (after + ("," + (EntriesText(rest, isNumber) + "]"))))
  {
    hide DocText;
  }

  lemma ObjectUnfold(s: string, i: nat, fields: seq<(string, Value)>, isNumber: string -> bool)
    requires i <= |s| && ObjectLoop(s, i, fields, isNumber).Ok?
    ensures var a := NextChar(s, i, SPACE, false);
            && a < |s|
            && (s[a] != '}' ==>
                  && s[a] == '\"' && StringChars(s, a + 1).Text?
                  && var key := StringChars(s, a + 1); var c := NextChar(s, key.next, SPACE, false);
                     && a < key.next <= c < |s| && s[c] == ':'
                     && var e := NextChar(s, c + 1, SPACE, false);
                        && e < |s| && Parse(s, e, isNumber).Ok?
                        && var v := Parse(s, e, isNumber); var f := NextChar(s, v.next, SPACE, false);
                           && e < v.next <= f < |s|
                           && (s[f] == '}'
                               || (s[f] == ','
                                   && ObjectLoop(s, f + 1, SetField(fields, key.s, v.value), isNumber).Ok?)))
  {
    var a := NextChar(s, i, SPACE, false);
    hide Parse, NextChar, StringChars, SetField, TableOf;
    if a < |s| && s[a] == '\"' && StringChars(s, a + 1).Text? {
      var c := NextChar(s, StringChars(s, a + 1).next, SPACE, false);
      if c < |s| {
        InText2(s, NextChar(s, c + 1, SPACE, false), isNumber);
      }
    }
  }

  lemma {:induction false} MembersOf(s: string, i: nat, fields: seq<(string, Value)>, isNumber: string -> bool)
      returns (ms: Members)
    requires i <= |s| && ObjectLoop(s, i, fields, isNumber).Ok?
    ensures ValidMembers(ms, isNumber) && Here(s, i, MembersText(ms, isNumber) + "}")
    decreases |s| - i, 1, 0
  {
    hide *;
    ObjectUnfold(s, i, fields, isNumber);
    var a := NextChar(s, i, SPACE, false);
    if s[a] == '}' {
      ms := NoMember(s[i..a]);
      GapMark(s, i, '}');
      EndText(s[i..a], isNumber);
    } else {
      var key, e := KeyOf(s, i);
      var doc := DocOf(s, e, isNumber);
      DocRead(s, e, doc, isNumber);
      var text := DocText(doc, isNumber);
      HereBound(s, e, text);
      var after := TakeGap(s, e + |text|);
      var f := e + |text| + |after|;
      if s[f] == '}' {
        ms := LastMember(key, doc, after);
        LastMemberText(key, doc, after, isNumber);
        MarkAt(s, f, "}");
        EntryHere(s, i, KeyText(key), text, after, "}");
      } else {
        var now := SetField(fields, StringChars(s, a + 1).s, Parse(s, e, isNumber).value);
        var rest := MembersOf(s, f + 1, now, isNumber);
        ms := NextMember(key, doc, after, rest);
        var tail := MembersText(rest, isNumber) + "}";
        NextMemberText(key, doc, after, rest, isNumber);
        MarkAt(s, f, ",");
        HereJoin(s, f, ",", tail);
        EntryHere(s, i, KeyText(key), text, after, "," + tail);
      }
    }
  }

  /** The key that stands at `i`, and where its value begins. */
  lemma KeyOf(s: string, i: nat) returns (key: Key, e: nat)
    requires i <= |s|
    requires var a := NextChar(s, i, SPACE, false);
             && a < |s| && s[a] == '\"' && StringChars(s, a + 1).Text?
             && var c := NextChar(s, StringChars(s, a + 1).next, SPACE, false); c < |s| && s[c] == ':'
    ensures ValidKey(key) && Here(s, i, KeyText(key)) && e == i + |KeyText(key)|
    ensures var a := NextChar(s, i, SPACE, false);
            e == NextChar(s, NextChar(s, StringChars(s, a + 1).next, SPACE, false) + 1, SPACE, false)
  {
    hide *;
    var a := NextChar(s, i, SPACE, false);
    var before := TakeGap(s, i);
    var name := QuotedOf(s, a);
    StringHere(s, a, name);
    HereBound(s, a, StringText(name));
    var b := a + |StringText(name)|;
    var after := TakeGap(s, b);
    var c := b + |after|;
    MarkAt(s, c, ":");
    var gap := TakeGap(s, c + 1);
    key, e := Key(before, name, after, gap), c + 1 + |gap|;
    KeyPartsOf(key);
    HereJoin(s, c, ":", gap);
    HereJoin(s, b, after, ":" + gap);
    HereJoin(s, a, StringText(name), after + (":" + gap));
    HereJoin(s, i, before, StringText(name) + (after + (":" + gap)));
  }

  lemma KeyPartsOf(key: Key)
    requires Space(key.before) && ValidPieces(key.name) && Space(key.after) && Space(key.gap)
    ensures ValidKey(key) && KeyText(key) == key.before + (StringText(key.name) + (key.after + (":" + key.gap)))
    ensures |KeyText(key)| == |key.before| + |StringText(key.name)| + |key.after| + 1 + |key.gap|
  {
  }

  lemma LastMemberText(key: Key, doc: Doc, after: string, isNumber: string -> bool)
    requires ValidKey(key) && Valid(doc, isNumber) && Space(after)
    ensures var ms := LastMember(key, doc, after);
            && ValidMembers(ms, isNumber)
            && MembersText(ms, isNumber) + "}" == KeyText(key) + (DocText(doc, isNumber) + (after + "}"))
  {
    hide DocText, KeyText, ValidKey;
  }

  lemma NextMemberText(key: Key, doc: Doc, after: string, rest: Members, isNumber: string -> bool)
    requires ValidKey(key) && Valid(doc, isNumber) && Space(after) && ValidMembers(rest, isNumber)
    ensures var ms := NextMember(key, doc, after, rest);
            && ValidMembers(ms, isNumber)
            && MembersText(ms, isNumber) + "}"
               == KeyText(key) + (DocText(doc, isNumber) + (after + ("," + (MembersText(rest, isNumber) + "}"))))
  {
    hide DocText, KeyText, ValidKey;
  }

  // -------------------------------------------------------------------------------------------
  // json.decode
  // -------------------------------------------------------------------------------------------

  /** `s` is a text of the grammar between two gaps. */
  ghost predicate IsText(s: string, before: string, d: Doc, after: string, isNumber: string -> bool) {
    Space(before) && Valid(d, isNumber) && Space(after) && s == before + (DocText(d, isNumber) + after)
  }

  /** A text of the grammar, with white space around it, is decoded to the value it denotes. */
  lemma DecodeRead(s: string, before: string, d: Doc, after: string, isNumber: string -> bool)
    requires IsText(s, before, d, after, isNumber)
    ensures Decode(s, isNumber) == Accepted(Denotes(d, isNumber))
  {
    hide *;
    TextParts(s, before, d, after, isNumber);
    var text := DocText(d, isNumber);
    var a := |before|;
    var b := a + |text|;
    DocBegins(d, isNumber);
    HereFirst(s, a, text);
    GapRead(s, 0, before);
    GapRead(s, b, after);
    GapEndsText(s, b, after);
    DocRead(s, a, d, isNumber);
    DecodeParsed(s, isNumber);
  }

  lemma TextParts(s: string, before: string, d: Doc, after: string, isNumber: string -> bool)
    requires IsText(s, before, d, after, isNumber)
    ensures Space(before) && Valid(d, isNumber) && Space(after)
    ensures var a := |before|; var b := a + |DocText(d, isNumber)|;
            Here(s, 0, before) && Here(s, a, DocText(d, isNumber)) && Here(s, b, after) && b + |after| == |s|
  {
    hide DocText, Space;
  }

  lemma GapEndsText(s: string, i: nat, gap: string)
    requires Here(s, i, gap) && Space(gap) && i + |gap| == |s|
    ensures Ends(s, i)
  {
    if gap != "" {
      HereFirst(s, i, gap);
      assert gap[0] in gap;
    }
  }

  lemma DecodeParsed(s: string, isNumber: string -> bool)
    ensures var a := NextChar(s, 0, SPACE, false); var r := Parse(s, a, isNumber);
            Decode(s, isNumber)
              == if r.Ok? && NextChar(s, r.next, SPACE, false) >= |s| then Accepted(r.value) else Rejected
  {
    hide Parse, NextChar;
  }

  /** The empty object and the empty array are the same empty table. */
  lemma EmptyTable(before: string, gap: string, after: string, isNumber: string -> bool)
    requires Space(before) && Space(gap) && Space(after)
    ensures Decode(before + (("{" + (gap + "}")) + after), isNumber) == Accepted(Arr([]))
    ensures Decode(before + (("[" + (gap + "]")) + after), isNumber) == Accepted(Arr([]))
  {
    EndText(gap, isNumber);
    hide Decode, Space, IsPlainInteger;
    assert DocText(Dict(NoMember(gap)), isNumber) == "{" + (gap + "}");
    assert DocText(List(NoMore(gap)), isNumber) == "[" + (gap + "]");
    DecodeRead(before + (("{" + (gap + "}")) + after), before, Dict(NoMember(gap)), after, isNumber);
    DecodeRead(before + (("[" + (gap + "]")) + after), before, List(NoMore(gap)), after, isNumber);
  }

  /** And nothing else is: `json.decode` accepts exactly the texts of the grammar between two gaps, and yields
      the values they denote. */
  lemma DecodeExact(s: string, isNumber: string -> bool)
    ensures Decode(s, isNumber).Accepted? <==> exists before, d, after :: IsText(s, before, d, after, isNumber)
    ensures forall before, d, after | IsText(s, before, d, after, isNumber) ::
              Decode(s, isNumber) == Accepted(Denotes(d, isNumber))
  {
    forall before, d, after | IsText(s, before, d, after, isNumber)
      ensures Decode(s, isNumber) == Accepted(Denotes(d, isNumber))
    {
      DecodeRead(s, before, d, after, isNumber);
    }
    if Decode(s, isNumber).Accepted? {
      var before, d, after := TextOf(s, isNumber);
    }
  }

  lemma TextOf(s: string, isNumber: string -> bool) returns (before: string, d: Doc, after: string)
    requires Decode(s, isNumber).Accepted?
    ensures IsText(s, before, d, after, isNumber)
  {
    DecodeParsed(s, isNumber);
    var a := NextChar(s, 0, SPACE, false);
    hide Parse, DocText, Denotes;
    d := DocOf(s, a, isNumber);
    DocRead(s, a, d, isNumber);
    GapOf(s, 0);
    var b := a + |DocText(d, isNumber)|;
    GapOf(s, b);
    before, after := s[..a], s[b..];
    WholeText(s, a, DocText(d, isNumber), b);
  }

  lemma WholeText(s: string, a: nat, text: string, b: nat)
    requires Here(s, a, text) && b == a + |text|
    requires Space(s[0..a]) && Space(s[b..|s|])
    ensures s == s[..a] + (text + s[b..]) && Space(s[..a]) && Space(s[b..])
  {
    assert s[0..a] == s[..a] && s[b..|s|] == s[b..];
    assert s == s[..a] + (s[a..b] + s[b..]);
  }

  /** A text followed by anything but white space is rejected; only a number may go on as another one. */
  lemma GarbageRejected(s: string, before: string, d: Doc, after: string, c: char, rest: string,
                        isNumber: string -> bool)
    requires Space(before) && Valid(d, isNumber) && Space(after) && c !in SPACE
    requires d.Number? ==> after != "" || c in DELIM
    requires s == before + (DocText(d, isNumber) + (after + ([c] + rest)))
    ensures Decode(s, isNumber) == Rejected
  {
    hide *;
    var text, tail := DocText(d, isNumber), [c] + rest;
    var a := |before|;
    var b := a + |text|;
    DocBegins(d, isNumber);
    WholeHere(s, before, text + (after + tail));
    GapThere(s, 0, before, text + (after + tail));
    HereSplit(s, a, text, after + tail);
    DecodeParsed(s, isNumber);
    if (d.Null? || d.Truth?) && after == "" && c !in DELIM {
      NoGap(tail);
      LiteralLonger(s, a, d, c, rest, isNumber);
    } else {
      GapThere(s, b, after, tail);
      EndsBehind(s, b, after, c, rest);
      ScalarKinds(d);
      DocRead(s, a, d, isNumber);
    }
  }

  lemma WholeHere(s: string, a: string, b: string)
    requires s == a + b
    ensures Here(s, 0, a + b)
  {
  }

  lemma EndsBehind(s: string, i: nat, gap: string, c: char, rest: string)
    requires Here(s, i, gap + ([c] + rest)) && Space(gap)
    ensures gap != "" || c in DELIM ==> Ends(s, i)
  {
    HereFirst(s, i, gap + ([c] + rest));
    if gap != "" {
      assert gap[0] in gap;
    }
  }

  /** A literal with something behind it is no literal. */
  lemma LiteralLonger(s: string, i: nat, d: Doc, c: char, rest: string, isNumber: string -> bool)
    requires (d.Null? || d.Truth?) && Here(s, i, DocText(d, isNumber))
    requires Here(s, i + |DocText(d, isNumber)|, [c] + rest) && c !in DELIM
    ensures Parse(s, i, isNumber) == Error
  {
    var t := DocText(d, isNumber);
    LiteralText(d, isNumber);
    hide *;
    HereFirst(s, i, t);
    HereFirst(s, i + |t|, [c] + rest);
    LexemeBeyond(s, i, t);
    var x := NextChar(s, i, DELIM, true);
    NotLiteral(t, s[i..x]);
    ParseDispatch(s, i, isNumber);
    LiteralAt(s, i);
  }

  lemma ScalarKinds(d: Doc)
    ensures Scalar(d) <==> d.Null? || d.Truth? || d.Number?
  {
  }

  lemma LiteralText(d: Doc, isNumber: string -> bool)
    requires d.Null? || d.Truth?
    ensures var t := DocText(d, isNumber);
            t in {"null", "true", "false"} && t != "" && t[0] in {'t', 'f', 'n'} && (forall c <- t :: c !in DELIM)
  {
  }

  lemma LexemeBeyond(s: string, i: nat, t: string)
    requires Here(s, i, t) && (forall c <- t :: c !in DELIM) && i + |t| < |s| && s[i + |t|] !in DELIM
    ensures var x := NextChar(s, i, DELIM, true); i + |t| < x <= |s| && t < s[i..x]
  {
    CharsHere(s, i, t);
    LexemeLength(s, i, i + |t|);
    var x := NextChar(s, i, DELIM, true);
    hide NextChar;
    assert s[i..x][..|t|] == s[i..i + |t|];
  }

  lemma NotLiteral(t: string, w: string)
    requires t in {"null", "true", "false"} && t < w
    ensures w != "null" && w != "true" && w != "false"
  {
    assert t[0] == w[0];
    assert |"null"| == 4 && |"true"| == 4 && |"false"| == 5;
    assert "null"[0] == 'n' && "true"[0] == 't' && "false"[0] == 'f';
  }

  lemma LiteralAt(s: string, i: nat)
    requires i <= |s|
    ensures var w := s[i..NextChar(s, i, DELIM, true)];
            w != "null" && w != "true" && w != "false" ==> ParseLiteral(s, i) == Error
  {
    hide NextChar;
  }

  lemma {:induction false} LexemeLength(s: string, i: nat, j: nat)
    requires i <= j < |s| && forall k :: i <= k <= j ==> s[k] !in DELIM
    ensures j < NextChar(s, i, DELIM, true)
    decreases j - i
  {
    if i < j {
      LexemeLength(s, i + 1, j);
    }
  }
}
