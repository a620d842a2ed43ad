/** The texts of apps/lua/scripts/json.lua: a grammar in the terms of RFC 8259, with white space wherever it is
    allowed, and the value each text denotes. `parse` accepts exactly these texts, and yields that value. */
module JsonTexts {
  import opened Numerals
  import opened Json

  /** The text `t` stands at position `i`. */
  predicate Here(s: string, i: nat, t: string) {
    i + |t| <= |s| && s[i..i + |t|] == t
  }

  lemma HereSplit(s: string, i: nat, a: string, b: string)
    requires Here(s, i, a + b)
    ensures Here(s, i, a) && Here(s, i + |a|, b)
  {
    var w := s[i..i + |a + b|];
    assert s[i..i + |a|] == w[..|a|];
    assert s[i + |a|..i + |a| + |b|] == w[|a|..];
  }

  lemma HereJoin(s: string, i: nat, a: string, b: string)
    requires Here(s, i, a) && Here(s, i + |a|, b)
    ensures Here(s, i, a + b)
  {
    assert s[i..i + |a| + |b|] == s[i..i + |a|] + s[i + |a|..i + |a| + |b|];
  }

  lemma HereFirst(s: string, i: nat, t: string)
    requires Here(s, i, t) && t != ""
    ensures i < |s| && s[i] == t[0]
  {
    assert s[i..i + |t|][0] == s[i];
  }

  lemma HereSlice(s: string, i: nat, j: nat)
    requires i <= j <= |s|
    ensures Here(s, i, s[i..j]) && |s[i..j]| == j - i
  {
  }

  /** The text ends, or a delimiter stands, at position `i`. */
  predicate Ends(s: string, i: nat) {
    i == |s| || (i < |s| && s[i] in DELIM)
  }

  // -------------------------------------------------------------------------------------------
  // Hexadecimal digits
  // -------------------------------------------------------------------------------------------

  const HEX_DIGITS := "0123456789abcdef"
  const HEX_CAPITALS := "0123456789ABCDEF"

  function HexDigit(d: int, capital: bool): char
    requires 0 <= d < 16
  {
    if capital then HEX_CAPITALS[d] else HEX_DIGITS[d]
  }

  /** Four hexadecimal digits, each in either case. */
  function HexText(n: int, capitals: seq<bool>): (t: string)
    requires 0 <= n < 0x1_0000 && |capitals| == 4
    ensures |t| == 4
  {
    [HexDigit(n / 4096, capitals[0]), HexDigit(n / 256 % 16, capitals[1]),
     HexDigit(n / 16 % 16, capitals[2]), HexDigit(n % 16, capitals[3])]
  }

  lemma HexOfDigit(d: int, capital: bool)
    requires 0 <= d < 16
    ensures IsHex(HexDigit(d, capital)) && HexValue(HexDigit(d, capital)) == d
  {
  }

  lemma DigitOfHex(c: char) returns (capital: bool)
    requires IsHex(c)
    ensures HexDigit(HexValue(c), capital) == c
  {
    capital := 'A' <= c <= 'F';
  }

  lemma HexDigits(n: nat)
    ensures n == n / 4096 * 4096 + n / 256 % 16 * 256 + n / 16 % 16 * 16 + n % 16
  {
    assert n / 16 == n / 256 * 16 + n / 16 % 16;
    assert n / 256 == n / 4096 * 16 + n / 256 % 16;
  }

  lemma DigitsOf(a: int, b: int, c: int, d: int)
    requires 0 <= a < 16 && 0 <= b < 16 && 0 <= c < 16 && 0 <= d < 16
    ensures var n := a * 4096 + b * 256 + c * 16 + d;
            0 <= n < 0x1_0000 && n / 4096 == a && n / 256 % 16 == b && n / 16 % 16 == c && n % 16 == d
  {
    var n := a * 4096 + b * 256 + c * 16 + d;
    assert n / 16 == a * 256 + b * 16 + c;
    assert n / 256 == a * 16 + b;
  }

  /** Four hexadecimal digits denote the number they are digits of. */
  lemma HexRead(n: int, capitals: seq<bool>)
    requires 0 <= n < 0x1_0000 && |capitals| == 4
    ensures AllHex(HexText(n, capitals)) && Hex4Value(HexText(n, capitals)) == n
  {
    HexOfDigit(n / 4096, capitals[0]);
    HexOfDigit(n / 256 % 16, capitals[1]);
    HexOfDigit(n / 16 % 16, capitals[2]);
    HexOfDigit(n % 16, capitals[3]);
    hide HexDigit, HexValue;
    HexDigits(n);
    assert Hex4Value(HexText(n, capitals)) == n / 4096 * 4096 + n / 256 % 16 * 256 + n / 16 % 16 * 16 + n % 16;
  }

  lemma HexOf(t: string) returns (capitals: seq<bool>)
    requires |t| == 4 && AllHex(t)
    ensures |capitals| == 4 && HexText(Hex4Value(t), capitals) == t
  {
    hide *;
    HexParts(t);
    var a := DigitOfHex(t[0]);
    var b := DigitOfHex(t[1]);
    var c := DigitOfHex(t[2]);
    var d := DigitOfHex(t[3]);
    capitals := [a, b, c, d];
    HexTextOf(HexValue(t[0]), HexValue(t[1]), HexValue(t[2]), HexValue(t[3]), capitals);
  }

  lemma HexParts(t: string)
    requires |t| == 4 && AllHex(t)
    ensures IsHex(t[0]) && IsHex(t[1]) && IsHex(t[2]) && IsHex(t[3]) && t == [t[0], t[1], t[2], t[3]]
    ensures Hex4Value(t) == HexValue(t[0]) * 4096 + HexValue(t[1]) * 256 + HexValue(t[2]) * 16 + HexValue(t[3])
  {
    hide HexValue;
  }

  lemma HexTextOf(a: int, b: int, c: int, d: int, capitals: seq<bool>)
    requires 0 <= a < 16 && 0 <= b < 16 && 0 <= c < 16 && 0 <= d < 16 && |capitals| == 4
    ensures var n := a * 4096 + b * 256 + c * 16 + d;
            0 <= n < 0x1_0000
            && HexText(n, capitals)
               == [HexDigit(a, capitals[0]), HexDigit(b, capitals[1]), HexDigit(c, capitals[2]), HexDigit(d, capitals[3])]
  {
    DigitsOf(a, b, c, d);
    hide HexDigit;
  }

  // -------------------------------------------------------------------------------------------
  // Strings (section 7 of RFC 8259)
  // -------------------------------------------------------------------------------------------

  predicate IsHigh(n: int) {
    0xD800 <= n <= 0xDBFF
  }

  predicate IsLow(n: int) {
    0xDC00 <= n <= 0xDFFF
  }

  /** What the two-character escapes stand for. */
  const SHORT_ESCAPES: map<char, int> := map[
    '\"' := 0x22, '\\' := 0x5C, '/' := 0x2F, 'b' := 8, 'f' := 0x0C, 'n' := 0x0A, 'r' := 0x0D, 't' := 9]

  /** One character of a string as it is written: itself, a two-character escape, or the four hexadecimal
      digits of a code unit, or of two of which the first is a high surrogate. */
  datatype Piece =
    | Raw(c: char)
    | Short(letter: char)
    | Unit(n: int, capitals: seq<bool>)
    | Pair(high: int, capitals: seq<bool>, low: int, lowCapitals: seq<bool>)

  predicate ValidPiece(p: Piece) {
    match p
    case Raw(c) => c as int >= 32 && c != '\"' && c != '\\'
    case Short(letter) => letter in SHORT_ESCAPES
    case Unit(n, capitals) => 0 <= n < 0x1_0000 && |capitals| == 4
    case Pair(high, capitals, low, lowCapitals) =>
      && IsHigh(high) && 0 <= low < 0x1_0000 && |capitals| == |lowCapitals| == 4
      && PairCodepoint(high, low) <= 0x10FFFF
  }

  function PieceText(p: Piece): (t: string)
    requires ValidPiece(p)
    ensures t != ""
  {
    match p
    case Raw(c) => [c]
    case Short(letter) => ['\\', letter]
    case Unit(n, capitals) => "\\u" + HexText(n, capitals)
    case Pair(high, capitals, low, lowCapitals) =>
      "\\u" + HexText(high, capitals) + ("\\u" + HexText(low, lowCapitals))
  }

  lemma PairNonNegative(high: int, low: int)
    requires IsHigh(high) && 0 <= low < 0x1_0000
    ensures 0 <= PairCodepoint(high, low)
    ensures IsLow(low) ==> 0x10000 <= PairCodepoint(high, low) <= 0x10FFFF
  {
  }

  /** The character meant, as UTF-8. */
  function PieceMeaning(p: Piece): string
    requires ValidPiece(p)
  {
    match p
    case Raw(c) => [c]
    case Short(letter) => [SHORT_ESCAPES[letter] as char]
    case Unit(n, _) => CodepointToUtf8(n).s
    case Pair(high, _, low, _) => PairNonNegative(high, low); CodepointToUtf8(PairCodepoint(high, low)).s
  }

  /** A high surrogate that is not part of a pair is not followed by another code unit. */
  predicate ValidPieces(ps: seq<Piece>) {
    ps == []
    || (&& ValidPiece(ps[0]) && ValidPieces(ps[1..])
        && (ps[0].Unit? && IsHigh(ps[0].n) ==> |ps| == 1 || ps[1].Raw? || ps[1].Short?))
  }

  function PiecesText(ps: seq<Piece>): string
    requires ValidPieces(ps)
  {
    if ps == [] then "" else PieceText(ps[0]) + PiecesText(ps[1..])
  }

  function PiecesMeaning(ps: seq<Piece>): string
    requires ValidPieces(ps)
  {
    if ps == [] then "" else PieceMeaning(ps[0]) + PiecesMeaning(ps[1..])
  }

  /** An escaped code unit stands at `i`. */
  predicate UnitAt(s: string, i: nat) {
    i + 6 <= |s| && s[i] == '\\' && s[i + 1] == 'u' && AllHex(s[i + 2..i + 6])
  }

  lemma HighDigits(n: int, capitals: seq<bool>)
    requires 0 <= n < 0x1_0000 && |capitals| == 4
    ensures IsHigh(n) <==> HexText(n, capitals)[0] in {'d', 'D'} && HexText(n, capitals)[1] in {'8', '9', 'a', 'A', 'b', 'B'}
  {
    HexDigits(n);
    var a, b := n / 4096, n / 256 % 16;
    assert IsHigh(n) <==> a == 13 && 8 <= b <= 11;
    HighDigit(a, capitals[0]);
    HighDigit(b, capitals[1]);
  }

  lemma HighDigit(d: int, capital: bool)
    requires 0 <= d < 16
    ensures HexDigit(d, capital) in {'d', 'D'} <==> d == 13
    ensures HexDigit(d, capital) in {'8', '9', 'a', 'A', 'b', 'B'} <==> 8 <= d <= 11
  {
  }

  lemma UnitThere(s: string, i: nat, n: int, capitals: seq<bool>)
    requires 0 <= n < 0x1_0000 && |capitals| == 4 && Here(s, i, "\\u" + HexText(n, capitals))
    ensures UnitAt(s, i) && s[i + 2..i + 6] == HexText(n, capitals) && Hex4Value(s[i + 2..i + 6]) == n
    ensures IsHigh(n) <==> s[i + 2] in {'d', 'D'} && s[i + 3] in {'8', '9', 'a', 'A', 'b', 'B'}
  {
    HexRead(n, capitals);
    HighDigits(n, capitals);
    hide HexText, AllHex, Hex4Value;
    HereSplit(s, i, "\\u", HexText(n, capitals));
    HereFirst(s, i, "\\u");
    assert s[i..i + 2][1] == s[i + 1];
    assert s[i + 2] == s[i + 2..i + 6][0] && s[i + 3] == s[i + 2..i + 6][1];
  }

  /** A piece is read as what it means, wherever it stands. */
  lemma PieceRead(s: string, j: nat, p: Piece)
    requires ValidPiece(p) && Here(s, j, PieceText(p))
    requires p.Unit? && IsHigh(p.n) ==> !UnitAt(s, j + 6)
    ensures StringChars(s, j) == Prepend(PieceMeaning(p), StringChars(s, j + |PieceText(p)|))
  {
    HereFirst(s, j, PieceText(p));
    match p
    case Raw(c) =>
    case Short(letter) =>
      assert s[j..j + 2][1] == s[j + 1];
      ShortRead(letter);
    case Unit(n, capitals) =>
      hide *;
      UnitParts(n, capitals);
      UnitThere(s, j, n, capitals);
      UnitRead(s, j, n);
    case Pair(high, capitals, low, lowCapitals) =>
      hide *;
      PairParts(p);
      HereSplit(s, j, "\\u" + HexText(high, capitals), "\\u" + HexText(low, lowCapitals));
      UnitThere(s, j, high, capitals);
      UnitThere(s, j + 6, low, lowCapitals);
      PairRead(s, j, high, low);
  }

  lemma UnitParts(n: int, capitals: seq<bool>)
    requires ValidPiece(Unit(n, capitals))
    ensures 0 <= n < 0x1_0000 && |capitals| == 4
    ensures PieceText(Unit(n, capitals)) == "\\u" + HexText(n, capitals) && |PieceText(Unit(n, capitals))| == 6
    ensures PieceMeaning(Unit(n, capitals)) == (UnitBytes(n); CodepointToUtf8(n).s)
  {
    hide HexText, CodepointToUtf8;
  }

  lemma PairParts(p: Piece)
    requires p.Pair? && ValidPiece(p)
    ensures IsHigh(p.high) && 0 <= p.high < 0x1_0000 && 0 <= p.low < 0x1_0000 && |p.capitals| == |p.lowCapitals| == 4
    ensures PieceText(p) == "\\u" + HexText(p.high, p.capitals) + ("\\u" + HexText(p.low, p.lowCapitals))
    ensures |"\\u" + HexText(p.high, p.capitals)| == 6 && |PieceText(p)| == 12
    ensures 0 <= PairCodepoint(p.high, p.low) <= 0x10FFFF
    ensures CodepointToUtf8(PairCodepoint(p.high, p.low)).Bytes?
    ensures PieceMeaning(p) == CodepointToUtf8(PairCodepoint(p.high, p.low)).s
  {
    PairNonNegative(p.high, p.low);
    UnitBytes(PairCodepoint(p.high, p.low));
    hide HexText, CodepointToUtf8, PairCodepoint;
  }

  lemma ShortRead(letter: char)
    requires letter in SHORT_ESCAPES
    ensures letter in ESCAPES && letter != 'u' && Unescape(letter) == SHORT_ESCAPES[letter] as char
  {
  }

  lemma UnitRead(s: string, j: nat, n: int)
    requires UnitAt(s, j) && Hex4Value(s[j + 2..j + 6]) == n
    requires IsHigh(n) <==> s[j + 2] in {'d', 'D'} && s[j + 3] in {'8', '9', 'a', 'A', 'b', 'B'}
    requires IsHigh(n) ==> !UnitAt(s, j + 6)
    ensures CodepointToUtf8(n).Bytes?
    ensures StringChars(s, j) == Prepend(CodepointToUtf8(n).s, StringChars(s, j + 6))
  {
    hide AllHex, Hex4Value, CodepointToUtf8;
    assert !IsPair(s, j + 2);
    assert IsSingle(s, j + 2);
    assert UnicodeEscape(s, j + 2) == (CodepointToUtf8(n), 4);
    UnitBytes(n);
  }

  lemma UnitBytes(n: nat)
    ensures n <= 0x10FFFF <==> CodepointToUtf8(n).Bytes?
  {
  }

  lemma PairRead(s: string, j: nat, high: int, low: int)
    requires UnitAt(s, j) && Hex4Value(s[j + 2..j + 6]) == high && IsHigh(high)
    requires s[j + 2] in {'d', 'D'} && s[j + 3] in {'8', '9', 'a', 'A', 'b', 'B'}
    requires UnitAt(s, j + 6) && Hex4Value(s[j + 8..j + 12]) == low && PairCodepoint(high, low) <= 0x10FFFF
    ensures 0 <= PairCodepoint(high, low) && CodepointToUtf8(PairCodepoint(high, low)).Bytes?
    ensures StringChars(s, j) == Prepend(CodepointToUtf8(PairCodepoint(high, low)).s, StringChars(s, j + 12))
  {
    PairNonNegative(high, low);
    UnitBytes(PairCodepoint(high, low));
    hide AllHex, Hex4Value, CodepointToUtf8, PairCodepoint;
    assert IsPair(s, j + 2);
    assert UnicodeEscape(s, j + 2) == (CodepointToUtf8(PairCodepoint(high, low)), 10);
  }

  lemma NoUnitBehind(s: string, i: nat, ps: seq<Piece>)
    requires ValidPieces(ps) && Here(s, i, PiecesText(ps) + "\"") && (ps == [] || ps[0].Raw? || ps[0].Short?)
    ensures !UnitAt(s, i)
  {
    HereFirst(s, i, PiecesText(ps) + "\"");
    if ps != [] {
      var t := PieceText(ps[0]);
      assert PiecesText(ps) + "\"" == t + (PiecesText(ps[1..]) + "\"");
      HereSplit(s, i, t, PiecesText(ps[1..]) + "\"");
      if ps[0].Short? {
        ShortRead(ps[0].letter);
        assert s[i..i + 2][1] == s[i + 1];
      }
    }
  }

  /** A string is read as the characters its pieces mean, up to its closing quote. */
  lemma {:induction false} StringRead(s: string, j: nat, ps: seq<Piece>)
    requires ValidPieces(ps) && Here(s, j, PiecesText(ps) + "\"")
    ensures StringChars(s, j) == Text(PiecesMeaning(ps), j + |PiecesText(ps)| + 1)
    decreases |ps|
  {
    hide *;
    if ps == [] {
      QuoteRead(s, j);
    } else {
      var p, later := ps[0], ps[1..];
      UnconsPieces(ps);
      var t := PieceText(p);
      HereSplit(s, j, t, PiecesText(later) + "\"");
      if p.Unit? && IsHigh(p.n) {
        NoUnitBehind(s, j + |t|, later);
        UnitSize(p);
      }
      PieceRead(s, j, p);
      StringRead(s, j + |t|, later);
      PrependText(PieceMeaning(p), PiecesMeaning(later), j + |PiecesText(ps)| + 1);
    }
  }

  lemma QuoteRead(s: string, j: nat)
    requires Here(s, j, PiecesText([]) + "\"")
    ensures StringChars(s, j) == Text("", j + 1) && PiecesMeaning([]) == "" && PiecesText([]) == ""
  {
    assert PiecesText([]) + "\"" == "\"";
    HereFirst(s, j, "\"");
  }

  lemma UnconsPieces(ps: seq<Piece>)
    requires ValidPieces(ps) && ps != []
    ensures ValidPiece(ps[0]) && ValidPieces(ps[1..])
    ensures PiecesText(ps) + "\"" == PieceText(ps[0]) + (PiecesText(ps[1..]) + "\"")
    ensures |PiecesText(ps)| == |PieceText(ps[0])| + |PiecesText(ps[1..])|
    ensures PiecesMeaning(ps) == PieceMeaning(ps[0]) + PiecesMeaning(ps[1..])
    ensures ps[0].Unit? && IsHigh(ps[0].n) ==> ps[1..] == [] || ps[1..][0].Raw? || ps[1..][0].Short?
  {
    hide PieceText, PieceMeaning, ValidPiece;
  }

  lemma PrependText(a: string, t: string, next: nat)
    ensures Prepend(a, Text(t, next)) == Text(a + t, next)
  {
  }

  lemma UnitSize(p: Piece)
    requires p.Unit? && ValidPiece(p)
    ensures |PieceText(p)| == 6
  {
  }

  // -------------------------------------------------------------------------------------------
  // Every string that is read is one of these
  // -------------------------------------------------------------------------------------------

  lemma ShortOf(letter: char)
    ensures letter in ESCAPES <==> letter in SHORT_ESCAPES
  {
  }

  /** The piece that stands at `j`, when the string is read on from behind it. */
  lemma PieceOf(s: string, j: nat) returns (p: Piece)
    requires j < |s| && s[j] != '\"' && StringChars(s, j).Text?
    ensures ValidPiece(p) && Here(s, j, PieceText(p))
    ensures p.Unit? && IsHigh(p.n) ==> !UnitAt(s, j + 6)
  {
    if s[j] != '\\' {
      p := Raw(s[j]);
    } else if s[j + 1] != 'u' {
      ShortOf(s[j + 1]);
      p := Short(s[j + 1]);
    } else {
      p := EscapeOf(s, j);
    }
  }

  lemma EscapeOf(s: string, j: nat) returns (p: Piece)
    requires j + 1 < |s| && s[j] == '\\' && s[j + 1] == 'u' && StringChars(s, j).Text?
    ensures ValidPiece(p) && Here(s, j, PieceText(p))
    ensures p.Unit? && IsHigh(p.n) ==> !UnitAt(s, j + 6)
  {
    EscapeRead(s, j);
    hide StringChars, CodepointToUtf8, UnicodeEscape;
    var capitals := HexOf(s[j + 2..j + 6]);
    var n := Hex4Value(s[j + 2..j + 6]);
    UnitHere(s, j, n, capitals);
    if IsPair(s, j + 2) {
      var lowCapitals := HexOf(s[j + 8..j + 12]);
      var low := Hex4Value(s[j + 8..j + 12]);
      UnitHere(s, j + 6, low, lowCapitals);
      hide HexText, Hex4Value, AllHex;
      p := Pair(n, capitals, low, lowCapitals);
      HereJoin(s, j, "\\u" + HexText(n, capitals), "\\u" + HexText(low, lowCapitals));
    } else {
      p := Unit(n, capitals);
    }
  }

  lemma EscapeRead(s: string, j: nat)
    requires j + 1 < |s| && s[j] == '\\' && s[j + 1] == 'u' && StringChars(s, j).Text?
    ensures UnitAt(s, j)
    ensures IsPair(s, j + 2) ==>
              UnitAt(s, j + 6) && PairCodepoint(Hex4Value(s[j + 2..j + 6]), Hex4Value(s[j + 8..j + 12])) <= 0x10FFFF
    ensures !IsPair(s, j + 2) && s[j + 2] in {'d', 'D'} && s[j + 3] in {'8', '9', 'a', 'A', 'b', 'B'} ==> !UnitAt(s, j + 6)
  {
    hide AllHex, Hex4Value, PairCodepoint;
    assert UnicodeEscape(s, j + 2).0 != NoBytes;
    if IsPair(s, j + 2) {
      PairNotNegative(s, j + 2);
    }
  }

  lemma UnitHere(s: string, i: nat, n: int, capitals: seq<bool>)
    requires UnitAt(s, i) && 0 <= n < 0x1_0000 && |capitals| == 4 && HexText(n, capitals) == s[i + 2..i + 6]
    ensures Here(s, i, "\\u" + HexText(n, capitals))
    ensures IsHigh(n) <==> s[i + 2] in {'d', 'D'} && s[i + 3] in {'8', '9', 'a', 'A', 'b', 'B'}
  {
    HighDigits(n, capitals);
    hide HexText, AllHex;
    assert s[i..i + 2] == "\\u";
    HereSlice(s, i + 2, i + 6);
    HereJoin(s, i, "\\u", s[i + 2..i + 6]);
    assert s[i + 2] == s[i + 2..i + 6][0] && s[i + 3] == s[i + 2..i + 6][1];
  }

  /** Every string that is read is written in valid pieces. */
  lemma {:induction false} StringOf(s: string, j: nat) returns (ps: seq<Piece>)
    requires StringChars(s, j).Text?
    ensures ValidPieces(ps) && Here(s, j, PiecesText(ps) + "\"")
    decreases |s| - j
  {
    InString(s, j);
    hide *;
    if s[j] == '\"' {
      ps := [];
      QuoteHere(s, j);
    } else {
      var p := FirstPiece(s, j);
      var later := StringOf(s, j + |PieceText(p)|);
      ps := [p] + later;
      PrependPiece(s, j, p, later);
    }
  }

  lemma FirstPiece(s: string, j: nat) returns (p: Piece)
    requires j < |s| && s[j] != '\"' && StringChars(s, j).Text?
    ensures ValidPiece(p) && Here(s, j, PieceText(p)) && 0 < |PieceText(p)|
    ensures p.Unit? && IsHigh(p.n) ==> !UnitAt(s, j + 6)
    ensures StringChars(s, j + |PieceText(p)|).Text?
  {
    hide *;
    p := PieceOf(s, j);
    PieceRead(s, j, p);
    StillText(s, j, p);
  }

  lemma PrependPiece(s: string, j: nat, p: Piece, later: seq<Piece>)
    requires ValidPiece(p) && Here(s, j, PieceText(p)) && ValidPieces(later)
    requires Here(s, j + |PieceText(p)|, PiecesText(later) + "\"")
    requires p.Unit? && IsHigh(p.n) ==> !UnitAt(s, j + 6)
    ensures ValidPieces([p] + later) && Here(s, j, PiecesText([p] + later) + "\"")
  {
    hide *;
    if p.Unit? && IsHigh(p.n) {
      UnitSize(p);
      NoUnitThere(s, j + 6, later);
    }
    ConsPieces(p, later);
    HereJoin(s, j, PieceText(p), PiecesText(later) + "\"");
  }

  lemma InString(s: string, j: nat)
    requires StringChars(s, j).Text?
    ensures j < |s|
  {
  }

  lemma QuoteHere(s: string, j: nat)
    requires j < |s| && s[j] == '\"'
    ensures Here(s, j, PiecesText([]) + "\"")
  {
    assert PiecesText([]) + "\"" == "\"";
  }

  lemma StillText(s: string, j: nat, p: Piece)
    requires ValidPiece(p) && StringChars(s, j).Text?
    requires StringChars(s, j) == Prepend(PieceMeaning(p), StringChars(s, j + |PieceText(p)|))
    ensures StringChars(s, j + |PieceText(p)|).Text? && j < |s|
  {
    hide PieceMeaning, PieceText;
  }

  lemma ConsPieces(p: Piece, later: seq<Piece>)
    requires ValidPiece(p) && ValidPieces(later)
    requires p.Unit? && IsHigh(p.n) ==> later == [] || later[0].Raw? || later[0].Short?
    ensures ValidPieces([p] + later)
    ensures PiecesText([p] + later) + "\"" == PieceText(p) + (PiecesText(later) + "\"")
  {
    assert ([p] + later)[1..] == later;
    hide PieceText;
  }

  lemma NoUnitThere(s: string, i: nat, ps: seq<Piece>)
    requires ValidPieces(ps) && Here(s, i, PiecesText(ps) + "\"") && !UnitAt(s, i)
    ensures ps == [] || ps[0].Raw? || ps[0].Short?
  {
    if ps != [] {
      var t := PieceText(ps[0]);
      assert PiecesText(ps) + "\"" == t + (PiecesText(ps[1..]) + "\"");
      HereSplit(s, i, t, PiecesText(ps[1..]) + "\"");
      match ps[0]
      case Unit(n, capitals) => UnitThere(s, i, n, capitals);
      case Pair(high, capitals, low, lowCapitals) =>
        HereSplit(s, i, "\\u" + HexText(high, capitals), "\\u" + HexText(low, lowCapitals));
        UnitThere(s, i, high, capitals);
      case _ =>
    }
  }

  // -------------------------------------------------------------------------------------------
  // Code points
  // -------------------------------------------------------------------------------------------

  predicate Continues(c: char) {
    0x80 <= c as int < 0xC0
  }

  /** A strict decoder of one UTF-8 sequence (section 3 of RFC 3629): shortest forms only, no
      surrogates, nothing above 0x10FFFF. */
  function DecodeUtf8(s: string): int {
    var n := |s|;
    if n == 0 || exists c <- s :: c as int >= 256 then -1
    else
      var lead := s[0] as int;
      if exists i :: 1 <= i < n && !Continues(s[i]) then -1
      else if n == 1 then if lead < 0x80 then lead else -1
      else if n == 2 then
        var v := (lead - 0xC0) * 64 + (s[1] as int - 0x80);
        if 0xC0 <= lead < 0xE0 && 0x80 <= v then v else -1
      else if n == 3 then
        var v := ((lead - 0xE0) * 64 + (s[1] as int - 0x80)) * 64 + (s[2] as int - 0x80);
        if 0xE0 <= lead < 0xF0 && 0x800 <= v && !(0xD800 <= v <= 0xDFFF) then v else -1
      else if n == 4 then
        var v := (((lead - 0xF0) * 64 + (s[1] as int - 0x80)) * 64 + (s[2] as int - 0x80)) * 64 + (s[3] as int - 0x80);
        if 0xF0 <= lead < 0xF8 && 0x10000 <= v <= 0x10FFFF then v else -1
      else -1
  }

  /** The bytes of a code point are its UTF-8 form exactly when it is one that has such a form: at
      most 0x10FFFF and not a surrogate, which is encoded here but accepted by no strict decoder. */
  lemma Utf8ReadBack(n: nat)
    ensures CodepointToUtf8(n).Bytes? <==> n <= 0x10FFFF
    ensures CodepointToUtf8(n).Bytes? ==>
              (DecodeUtf8(CodepointToUtf8(n).s) == n <==> !(0xD800 <= n <= 0xDFFF))
  {
    assert n == n / 64 * 64 + n % 64;
    assert n / 64 == n / 4096 * 64 + n % 4096 / 64;
    assert n / 4096 == n / 262144 * 64 + n % 262144 / 4096;
  }

  /** Surrogate pairs correspond one to one to the code points from 0x10000 to 0x10FFFF. */
  lemma PairsOneToOne(n: int)
    requires 0x10000 <= n <= 0x10FFFF
    ensures var hi, lo := 0xD800 + (n - 0x10000) / 0x400, 0xDC00 + (n - 0x10000) % 0x400;
            && IsHigh(hi) && IsLow(lo) && PairCodepoint(hi, lo) == n
            && forall h, l | IsHigh(h) && IsLow(l) && PairCodepoint(h, l) == n :: h == hi && l == lo
  {
  }

  /** An escaped surrogate pair, in whatever case its digits are, is parsed to the UTF-8 form of the code point
      it stands for. */
  lemma EscapedPairRead(s: string, j: nat, high: int, capitals: seq<bool>, low: int, lowCapitals: seq<bool>)
    requires IsHigh(high) && IsLow(low) && |capitals| == |lowCapitals| == 4
    requires Here(s, j, "\\u" + HexText(high, capitals) + ("\\u" + HexText(low, lowCapitals)))
    ensures var utf8 := (PairNonNegative(high, low); CodepointToUtf8(PairCodepoint(high, low)));
            && utf8.Bytes? && DecodeUtf8(utf8.s) == PairCodepoint(high, low)
            && StringChars(s, j) == Prepend(utf8.s, StringChars(s, j + 12))
  {
    PairNonNegative(high, low);
    Utf8ReadBack(PairCodepoint(high, low));
    hide DecodeUtf8, CodepointToUtf8, HexText, StringChars;
    PieceRead(s, j, Pair(high, capitals, low, lowCapitals));
  }
}
