/** Formats built from the conversions of `my_strptime`, literals and white space, printed the way strftime() of
    POSIX.1-2017 prints them, zero-padded or not; and what the interpreter makes of one item. */
module StrptimeItems {
  import opened Numerals
  import opened Strptime

  /** One piece of a format. `Blank` is `%n` or `%t`; a directive may carry the modifier E or O, and is printed
      with leading zeros where `padded`. */
  datatype Item =
    | Literally(c: char)
    | White(c: char)
    | Blank(d: char)
    | Percent
    | Directive(alt: Alt, d: char, padded: bool)

  /** The conversions that print numbers. */
  const NUMERIC: set<char> := {'Y', 'm', 'd', 'e', 'H', 'k', 'I', 'l', 'M', 'S', 'j', 'y', 'w', 'U', 'W'}
  const NAMES: set<char> := {'A', 'a', 'B', 'b', 'h'}
  /** The conversions that stand for several others. */
  const COMPOSITE: set<char> := {'T', 'X', 'R', 'D', 'x', 'r', 'c'}

  /** The conversions that POSIX.1-2017 allows the modifiers E and O for, as far as they exist here. */
  const E_ALLOWED: set<char> := {'c', 'C', 'x', 'X', 'y', 'Y'}
  const O_ALLOWED: set<char> := {'d', 'e', 'H', 'I', 'm', 'M', 'S', 'U', 'w', 'W', 'y'}

  predicate Allowed(d: char, alt: Alt) {
    match alt case Plain => true case AltE => d in E_ALLOWED case AltO => d in O_ALLOWED
  }

  lemma AllowedIsLegal(d: char, alt: Alt)
    ensures Allowed(d, alt) <==> LegalAlt(d, alt)
  {
  }

  predicate WellFormed(item: Item) {
    match item
    case Literally(c) => c != '%' && c != '\0' && !IsSpace(c)
    case White(c) => IsSpace(c)
    case Blank(d) => d in {'n', 't'}
    case Percent => true
    case Directive(alt, d, _) =>
      (d in NUMERIC || d in NAMES || d == 'p' || d == 'C' || d in COMPOSITE) && Allowed(d, alt)
  }

  function Modifier(alt: Alt): string {
    match alt case Plain => "" case AltE => "E" case AltO => "O"
  }

  function ItemFormat(item: Item): string {
    match item
    case Literally(c) => [c]
    case White(c) => [c]
    case Blank(d) => ['%', d]
    case Percent => "%%"
    case Directive(alt, d, _) => "%" + Modifier(alt) + [d]
  }

  function FormatOf(items: seq<Item>): string {
    if items == [] then "" else ItemFormat(items[0]) + FormatOf(items[1..])
  }

  // -------------------------------------------------------------------------------------------
  // What is printed
  // -------------------------------------------------------------------------------------------

  /** The hour on a twelve-hour clock. */
  function Hour12(hour: int): int {
    if hour % 12 == 0 then 12 else hour % 12
  }

  /** The number a numeric conversion prints, and how wide it is with its zeros. */
  function Printed(d: char, t: Time): int {
    if d == 'Y' then t.year + TM_YEAR_BASE
    else if d == 'm' then t.mon + 1
    else if d in {'d', 'e'} then t.mday
    else if d in {'H', 'k'} then t.hour
    else if d in {'I', 'l'} then Hour12(t.hour)
    else if d == 'M' then t.min
    else if d == 'S' then t.sec
    else if d == 'j' then t.yday + 1
    else if d == 'w' then t.wday
    else if d == 'U' then (t.yday + 7 - t.wday) / 7
    else if d == 'W' then (t.yday + 7 - (t.wday + 6) % 7) / 7
    else t.year % 100
  }

  function Width(d: char): nat {
    if d == 'Y' then 4 else if d == 'j' then 3 else if d == 'w' then 1 else 2
  }

  /** The limits of a numeric conversion, in terms of the printed number. */
  function Lower(d: char): int {
    if d in {'m', 'd', 'e', 'I', 'l', 'j'} then 1 else 0
  }

  function Upper(d: char): nat {
    if d == 'Y' then 9999
    else if d in {'m', 'I', 'l'} then 12
    else if d in {'d', 'e'} then 31
    else if d in {'H', 'k'} then 23
    else if d == 'M' then 59
    else if d == 'S' then 61
    else if d == 'j' then 366
    else if d == 'w' then 6
    else if d in {'U', 'W'} then 53
    else 99
  }

  function NumberText(n: int, width: nat, padded: bool): string {
    if n < 0 then "" else if padded then Padded(n, width) else Padded(n, DigitCount(n))
  }

  function NameIn(names: seq<string>, i: int): string {
    if 0 <= i < |names| then names[i] else ""
  }

  function NameText(d: char, t: Time): string {
    if d == 'A' then NameIn(DAY, t.wday)
    else if d == 'a' then NameIn(ABDAY, t.wday)
    else if d == 'B' then NameIn(MON, t.mon)
    else NameIn(ABMON, t.mon)
  }

  /** The pieces a composite conversion stands for. */
  function Pieces(d: char, padded: bool): seq<Item> {
    var n := (x: char) => Directive(Plain, x, padded);
    if d in {'T', 'X'} then [n('H'), Literally(':'), n('M'), Literally(':'), n('S')]
    else if d == 'R' then [n('H'), Literally(':'), n('M')]
    else if d in {'D', 'x'} then [n('m'), Literally('/'), n('d'), Literally('/'), n('y')]
    else if d == 'r' then [n('I'), Literally(':'), n('M'), Literally(':'), n('S'), White(' '), n('p')]
    else [n('x'), White(' '), n('X')]
  }

  function DepthOf(item: Item): nat {
    if !item.Directive? || item.d !in COMPOSITE then 0 else if item.d == 'c' then 2 else 1
  }

  function Depth(items: seq<Item>): nat {
    if items == [] then 0
    else
      var later := Depth(items[1..]);
      if DepthOf(items[0]) <= later then later else DepthOf(items[0])
  }

  lemma PiecesDepth(d: char, padded: bool)
    requires d in COMPOSITE
    ensures Depth(Pieces(d, padded)) < DepthOf(Directive(Plain, d, padded))
  {
    var p := Pieces(d, padded);
    forall i | 0 <= i < |p| ensures DepthOf(p[i]) <= if d == 'c' then 1 else 0 {
    }
    DepthBound(p, if d == 'c' then 1 else 0);
  }

  lemma {:induction false} DepthBound(items: seq<Item>, k: nat)
    requires forall i :: 0 <= i < |items| ==> DepthOf(items[i]) <= k
    ensures Depth(items) <= k
  {
    if items != [] {
      DepthBound(items[1..], k);
    }
  }

  function ItemText(item: Item, t: Time): string
    decreases DepthOf(item), 0, 0
  {
    match item
    case Literally(c) => [c]
    case White(c) => [c]
    case Blank(d) => if d == 'n' then "\n" else "\t"
    case Percent => "%"
    case Directive(_, d, padded) =>
      if d in NUMERIC then NumberText(Printed(d, t), Width(d), padded)
      else if d in NAMES then NameText(d, t)
      else if d == 'p' then (if t.hour < 12 then "AM" else "PM")
      else if d in COMPOSITE then PiecesDepth(d, padded); PrintOf(Pieces(d, padded), t)
      else ""
  }

  /** The time, printed. */
  function PrintOf(items: seq<Item>, t: Time): string
    decreases Depth(items), |items|, 1
  {
    if items == [] then "" else ItemText(items[0], t) + PrintOf(items[1..], t)
  }

  /** `dst` with the fields a conversion mentions taken from `src`. A twelve-hour clock gives the hour of the
      half day, and the half day adds to it. */
  function CopyItem(item: Item, src: Time, dst: Time): Time {
    match item
    case Directive(_, d, _) =>
      if d in {'Y', 'y'} then dst.(year := src.year)
      else if d in {'m', 'B', 'b', 'h'} then dst.(mon := src.mon)
      else if d in {'d', 'e'} then dst.(mday := src.mday)
      else if d in {'H', 'k'} then dst.(hour := src.hour)
      else if d in {'I', 'l'} then dst.(hour := src.hour % 12)
      else if d == 'p' then dst.(hour := dst.hour + src.hour / 12 * 12)
      else if d == 'M' then dst.(min := src.min)
      else if d == 'S' then dst.(sec := src.sec)
      else if d == 'j' then dst.(yday := src.yday)
      else if d in {'w', 'A', 'a'} then dst.(wday := src.wday)
      else if d == 'R' then dst.(hour := src.hour, min := src.min)
      else if d in {'T', 'X', 'r'} then dst.(hour := src.hour, min := src.min, sec := src.sec)
      else if d in {'D', 'x'} then dst.(mon := src.mon, mday := src.mday, year := src.year)
      else if d == 'c' then
        dst.(hour := src.hour, min := src.min, sec := src.sec, mon := src.mon, mday := src.mday, year := src.year)
      else dst
    case _ => dst
  }

  function CopyMentioned(items: seq<Item>, src: Time, dst: Time): Time {
    if items == [] then dst else CopyMentioned(items[1..], src, CopyItem(items[0], src, dst))
  }

  // -------------------------------------------------------------------------------------------
  // When it can be read back
  // -------------------------------------------------------------------------------------------

  function Strip(s: string): string {
    if s != "" && IsSpace(s[0]) then Strip(s[1..]) else s
  }

  predicate NumberFits(d: char, t: Time) {
    Lower(d) <= Printed(d, t) <= Upper(d)
  }

  /** The directive prints a part of the year. */
  predicate YearPart(item: Item) {
    item.Directive? && item.d == 'y'
  }

  /** The text of `item` in `src` can be read back into `dst` where `later` and then `rest` follow it:
      - numbers are within their limits, and those without all their zeros are not followed by a digit;
      - a year of two digits is one of 1969 to 2068, and agrees with one already read;
      - what follows an abbreviated name does not complete the name;
      - AM or PM comes last, behind an hour of a half day;
      - white space at the end is not followed by more. */
  predicate ItemReady(item: Item, later: string, rest: string, src: Time, dst: Time, split: bool)
    decreases DepthOf(item), 0, 0
  {
    WellFormed(item) &&
    match item
    case Literally(_) => true
    case Percent => true
    case White(_) => Strip(later) == "" ==> Strip(rest) == rest
    case Blank(_) => Strip(later) == "" ==> Strip(rest) == rest
    case Directive(_, d, padded) =>
      if d in NUMERIC then
        && NumberFits(d, src)
        && (|ItemText(item, src)| == Width(d) || !IsDigit(At(later + rest, 0)))
        && (d == 'y' ==> 1969 <= src.year + TM_YEAR_BASE <= 2068 && (split ==> dst.year == src.year))
        && (d in {'I', 'l'} ==> 0 <= src.hour <= 23)
      else if d in {'A', 'a'} then
        0 <= src.wday < 7 && (d == 'a' ==> Unambiguous(DAY[src.wday], ABDAY[src.wday], later + rest))
      else if d in NAMES then
        0 <= src.mon < 12 && (d != 'B' ==> Unambiguous(MON[src.mon], ABMON[src.mon], later + rest))
      else if d == 'p' then 0 <= src.hour <= 23 && 0 <= dst.hour <= 11 && later + rest == ""
      else if d in COMPOSITE then
        && (d in {'r'} ==> 0 <= src.hour <= 23)
        && (PiecesDepth(d, padded); Ready(Pieces(d, padded), later + rest, src, dst, false))
      else false
  }

  predicate Unambiguous(full: string, short: string, after: string) {
    full == short || !(full <= short + after)
  }

  predicate Ready(items: seq<Item>, rest: string, src: Time, dst: Time, split: bool)
    decreases Depth(items), |items|, 1
  {
    items == []
    || (&& ItemReady(items[0], PrintOf(items[1..], src), rest, src, dst, split)
        && Ready(items[1..], rest, src, CopyItem(items[0], src, dst), split || YearPart(items[0])))
  }

  lemma ReadyRest(items: seq<Item>, rest: string, src: Time, dst: Time, split: bool)
    requires Ready(items, rest, src, dst, split) && items != []
    ensures WellFormed(items[0]) && ItemReady(items[0], PrintOf(items[1..], src), rest, src, dst, split)
    ensures Ready(items[1..], rest, src, CopyItem(items[0], src, dst), split || YearPart(items[0]))
    ensures Depth(items[1..]) <= Depth(items) && DepthOf(items[0]) <= Depth(items)
    ensures PrintOf(items, src) == ItemText(items[0], src) + PrintOf(items[1..], src)
    ensures FormatOf(items) == ItemFormat(items[0]) + FormatOf(items[1..])
    ensures CopyMentioned(items, src, dst) == CopyMentioned(items[1..], src, CopyItem(items[0], src, dst))
  {
    hide ItemFormat, ItemText, CopyItem, PrintOf, Depth, DepthOf, NumberFits, Unambiguous;
    Unfold(items, src, dst);
  }

  lemma Unfold(items: seq<Item>, src: Time, dst: Time)
    requires items != []
    ensures Depth(items[1..]) <= Depth(items) && DepthOf(items[0]) <= Depth(items)
    ensures PrintOf(items, src) == ItemText(items[0], src) + PrintOf(items[1..], src)
    ensures FormatOf(items) == ItemFormat(items[0]) + FormatOf(items[1..])
    ensures CopyMentioned(items, src, dst) == CopyMentioned(items[1..], src, CopyItem(items[0], src, dst))
  {
    hide ItemFormat, ItemText, CopyItem, DepthOf;
  }

  // -------------------------------------------------------------------------------------------
  // One step of the interpreter
  // -------------------------------------------------------------------------------------------

  /** What the interpreter makes of one item. */
  function Outcome(item: Item, buf: string, p: nat, t: Time, split: bool): Field {
    match item
    case Literally(c) => Field(if StartsWith(buf, p, [c]) then Stopped(p + 1) else Failed, t, split)
    case Percent => Field(if StartsWith(buf, p, "%") then Stopped(p + 1) else Failed, t, split)
    case White(_) => Field(Stopped(SkipSpace(buf, p)), t, split)
    case Blank(_) => Field(Stopped(SkipSpace(buf, p)), t, split)
    case Directive(_, d, _) =>
      if SubFormat(d) == "" then Elementary(d, buf, p, t, split)
      else var sub := Parse(SubFormat(d), buf, p, t, false); Field(sub.next, sub.time, split)
  }

  function Continue(f: Field, format: string, buf: string): Parsed {
    match f.next
    case Failed => Parsed(Failed, f.time)
    case Stopped(q) => Parse(format, buf, q, f.time, f.split)
  }

  lemma ItemStep(item: Item, format: string, buf: string, p: nat, t: Time, split: bool)
    requires WellFormed(item)
    ensures Parse(ItemFormat(item) + format, buf, p, t, split) == Continue(Outcome(item, buf, p, t, split), format, buf)
  {
    match item
    case Literally(c) => PlainStep(c, format, buf, p, t, split);
    case White(c) => PlainStep(c, format, buf, p, t, split);
    case Percent => PercentStep(format, buf, p, t, split);
    case Blank(d) =>
      assert (['%', d] + format)[1..] == [d] + format && ([d] + format)[1..] == format;
    case Directive(alt, d, _) => DirectiveStep(alt, d, format, buf, p, t, split);
  }

  lemma PercentStep(format: string, buf: string, p: nat, t: Time, split: bool)
    ensures Parse("%%" + format, buf, p, t, split)
         == if StartsWith(buf, p, "%") then Parse(format, buf, p + 1, t, split) else Parsed(Failed, t)
  {
    var f := ['%'] + format;
    assert "%%" + format == ['%'] + f && (['%'] + f)[1..] == f && f[1..] == format;
    assert Convert(f, Plain, buf, p, t, split) == Literal('%', format, buf, p, t, split);
    hide StartsWith;
  }

  lemma PlainStep(c: char, format: string, buf: string, p: nat, t: Time, split: bool)
    ensures IsSpace(c) ==> Parse([c] + format, buf, p, t, split) == Parse(format, buf, SkipSpace(buf, p), t, split)
    ensures !IsSpace(c) && c != '%' ==>
              Parse([c] + format, buf, p, t, split)
                == if StartsWith(buf, p, [c]) then Parse(format, buf, p + 1, t, split) else Parsed(Failed, t)
  {
    assert ([c] + format)[1..] == format;
    hide SkipSpace, StartsWith, IsSpace;
  }

  lemma DirectiveStep(alt: Alt, d: char, format: string, buf: string, p: nat, t: Time, split: bool)
    requires WellFormed(Directive(alt, d, true))
    ensures Parse("%" + Modifier(alt) + [d] + format, buf, p, t, split)
         == Continue(Outcome(Directive(alt, d, true), buf, p, t, split), format, buf)
  {
    var f := [d] + format;
    assert f[1..] == format;
    var g := Modifier(alt) + f;
    assert "%" + Modifier(alt) + [d] + format == ['%'] + g && (['%'] + g)[1..] == g;
    hide Elementary, LegalAlt, Allowed;
    if alt == Plain {
      assert g == f;
    } else {
      assert g[1..] == f;
      assert Convert(g, Plain, buf, p, t, split) == Convert(f, alt, buf, p, t, split);
    }
    ConvertStep(alt, d, format, buf, p, t, split);
  }

  lemma ConvertStep(alt: Alt, d: char, format: string, buf: string, p: nat, t: Time, split: bool)
    requires WellFormed(Directive(alt, d, true))
    ensures Convert([d] + format, alt, buf, p, t, split)
         == Continue(Outcome(Directive(alt, d, true), buf, p, t, split), format, buf)
  {
    assert ([d] + format)[1..] == format;
    AllowedIsLegal(d, alt);
    hide Elementary, SubFormat, Allowed, LegalAlt;
  }

  lemma UpperWidth(d: char)
    requires d in NUMERIC || d == 'C'
    ensures DigitCount(Upper(d)) == Width(d)
  {
    assert DigitCount(9999) == 1 + DigitCount(999) == 2 + DigitCount(99) == 3 + DigitCount(9) == 4;
    assert DigitCount(366) == 1 + DigitCount(36) == 2 + DigitCount(3) == 3;
  }

  /** What a number read does to the fields. */
  function Stored(d: char, n: int, dst: Time, split: bool): Time {
    if d == 'Y' then dst.(year := n - TM_YEAR_BASE)
    else if d == 'm' then dst.(mon := n - 1)
    else if d in {'d', 'e'} then dst.(mday := n)
    else if d in {'H', 'k'} then dst.(hour := n)
    else if d in {'I', 'l'} then dst.(hour := if n == 12 then 0 else n)
    else if d == 'M' then dst.(min := n)
    else if d == 'S' then dst.(sec := n)
    else if d == 'j' then dst.(yday := n - 1)
    else if d == 'w' then dst.(wday := n)
    else if d == 'y' then
      dst.(year := if split then TruncDiv(dst.year, 100) * 100 + n else if n < 69 then 100 + n else n)
    else if d == 'C' then dst.(year := if split then TruncMod(dst.year, 100) + 100 * n else 100 * n)
    else dst
  }

  /** Numeric conversions store what `conv_num` reads between their limits. */
  lemma NumberStored(d: char, buf: string, p: nat, dst: Time, split: bool)
    requires d in NUMERIC || d == 'C'
    ensures SubFormat(d) == ""
    ensures Elementary(d, buf, p, dst, split)
         == match ConvNum(buf, p, Lower(d), Upper(d))
            case Fail => Field(Failed, dst, split)
            case Read(n, next) => Field(Stopped(next), Stored(d, n, dst, split), split || d in {'y', 'C'})
  {
    hide ConvNum, TruncDiv, TruncMod, FindName, StartsWith, SkipSpace;
  }

  lemma ElementaryOutcome(item: Item, buf: string, p: nat, t: Time, split: bool)
    requires item.Directive? && SubFormat(item.d) == ""
    ensures Outcome(item, buf, p, t, split) == Elementary(item.d, buf, p, t, split)
    ensures YearPart(item) <==> item.d == 'y'
    ensures item.d in NUMERIC ==> item.d != 'C'
  {
    hide Elementary;
  }

  lemma DayOutcome(item: Item, buf: string, p: nat, t: Time, split: bool)
    requires item.Directive? && item.d in {'A', 'a'}
    ensures Outcome(item, buf, p, t, split)
         == match FindName(buf, p, DAY, ABDAY, 0)
            case NoName => Field(Failed, t, split)
            case Name(i, len) => Field(Stopped(p + len), t.(wday := i), split)
  {
    hide FindName;
  }

  lemma MonthOutcome(item: Item, buf: string, p: nat, t: Time, split: bool)
    requires item.Directive? && item.d in {'B', 'b', 'h'}
    ensures Outcome(item, buf, p, t, split)
         == match FindName(buf, p, MON, ABMON, 0)
            case NoName => Field(Failed, t, split)
            case Name(i, len) => Field(Stopped(p + len), t.(mon := i), split)
  {
    hide FindName;
  }

  lemma CompositeOutcome(item: Item, buf: string, p: nat, t: Time, split: bool)
    requires item.Directive? && SubFormat(item.d) != ""
    ensures var sub := Parse(SubFormat(item.d), buf, p, t, false);
            Outcome(item, buf, p, t, split) == Field(sub.next, sub.time, split)
  {
    hide Parse;
  }

  lemma Continues(f: Field, format: string, buf: string)
    ensures f.next.Stopped? ==> Continue(f, format, buf) == Parse(format, buf, f.next.at, f.time, f.split)
    ensures f.next.Failed? ==> Continue(f, format, buf) == Parsed(Failed, f.time)
  {
  }

  // -------------------------------------------------------------------------------------------
  // Composite conversions
  // -------------------------------------------------------------------------------------------

  lemma Cons(item: Item, later: seq<Item>, src: Time, dst: Time)
    ensures FormatOf([item] + later) == ItemFormat(item) + FormatOf(later)
    ensures CopyMentioned([item] + later, src, dst) == CopyMentioned(later, src, CopyItem(item, src, dst))
  {
    assert ([item] + later)[1..] == later;
  }

  lemma Nothing(src: Time, dst: Time)
    ensures FormatOf([]) == "" && CopyMentioned([], src, dst) == dst
  {
  }

  lemma ThreePieces(a: Item, b: Item, c: Item, later: seq<Item>, src: Time, dst: Time)
    ensures FormatOf([a, b, c] + later) == ItemFormat(a) + (ItemFormat(b) + (ItemFormat(c) + FormatOf(later)))
    ensures CopyMentioned([a, b, c] + later, src, dst)
         == CopyMentioned(later, src, CopyItem(c, src, CopyItem(b, src, CopyItem(a, src, dst))))
  {
    hide *;
    assert [a, b, c] + later == [a] + ([b] + ([c] + later));
    Cons(a, [b] + ([c] + later), src, dst);
    Cons(b, [c] + later, src, CopyItem(a, src, dst));
    Cons(c, later, src, CopyItem(b, src, CopyItem(a, src, dst)));
  }

  lemma TwoPieces(a: Item, b: Item, later: seq<Item>, src: Time, dst: Time)
    ensures FormatOf([a, b] + later) == ItemFormat(a) + (ItemFormat(b) + FormatOf(later))
    ensures CopyMentioned([a, b] + later, src, dst) == CopyMentioned(later, src, CopyItem(b, src, CopyItem(a, src, dst)))
  {
    hide *;
    assert [a, b] + later == [a] + ([b] + later);
    Cons(a, [b] + later, src, dst);
    Cons(b, later, src, CopyItem(a, src, dst));
  }

  /** A composite conversion is its pieces, in the format and in what it mentions. */
  lemma PiecesOf(d: char, padded: bool, src: Time, dst: Time)
    requires d in COMPOSITE
    ensures FormatOf(Pieces(d, padded)) == SubFormat(d) != ""
    ensures (d == 'r' ==> 0 <= src.hour <= 23) ==>
              CopyMentioned(Pieces(d, padded), src, dst) == CopyItem(Directive(Plain, d, padded), src, dst)
  {
    if d in {'T', 'X'} {
      TimePieces(d, padded, src, dst);
    } else if d in {'D', 'x'} {
      DatePieces(d, padded, src, dst);
    } else if d == 'r' {
      HalfDayPieces(padded, src, dst);
    } else {
      ShortPieces(d, padded, src, dst);
    }
  }

  lemma ShortPieces(d: char, padded: bool, src: Time, dst: Time)
    requires d in {'R', 'c'}
    ensures FormatOf(Pieces(d, padded)) == SubFormat(d) != ""
    ensures CopyMentioned(Pieces(d, padded), src, dst) == CopyItem(Directive(Plain, d, padded), src, dst)
  {
    hide FormatOf, CopyMentioned;
    var p := Pieces(d, padded);
    assert p == [p[0], p[1], p[2]] + [];
    ThreePieces(p[0], p[1], p[2], [], src, dst);
    Nothing(src, CopyItem(Directive(Plain, d, padded), src, dst));
  }

  lemma FivePieces(a: Item, b: Item, c: Item, d: Item, e: Item, later: seq<Item>, src: Time, dst: Time)
    ensures FormatOf([a, b, c, d, e] + later)
         == ItemFormat(a) + (ItemFormat(b) + (ItemFormat(c) + (ItemFormat(d) + (ItemFormat(e) + FormatOf(later)))))
    ensures var mid := CopyItem(c, src, CopyItem(b, src, CopyItem(a, src, dst)));
            CopyMentioned([a, b, c, d, e] + later, src, dst)
              == CopyMentioned(later, src, CopyItem(e, src, CopyItem(d, src, mid)))
  {
    hide *;
    assert [a, b, c, d, e] + later == [a, b, c] + ([d, e] + later);
    ThreePieces(a, b, c, [d, e] + later, src, dst);
    TwoPieces(d, e, later, src, CopyItem(c, src, CopyItem(b, src, CopyItem(a, src, dst))));
  }

  lemma TimePieces(d: char, padded: bool, src: Time, dst: Time)
    requires d in {'T', 'X'}
    ensures FormatOf(Pieces(d, padded)) == SubFormat(d) != ""
    ensures CopyMentioned(Pieces(d, padded), src, dst) == CopyItem(Directive(Plain, d, padded), src, dst)
  {
    FiveOf(d, padded);
    FiveMean('H', 'M', 'S', ':', "%H:%M:%S", padded, src, dst);
    hide FormatOf, CopyMentioned;
  }

  lemma DatePieces(d: char, padded: bool, src: Time, dst: Time)
    requires d in {'D', 'x'}
    ensures FormatOf(Pieces(d, padded)) == SubFormat(d) != ""
    ensures CopyMentioned(Pieces(d, padded), src, dst) == CopyItem(Directive(Plain, d, padded), src, dst)
  {
    FiveOf(d, padded);
    FiveMean('m', 'd', 'y', '/', "%m/%d/%y", padded, src, dst);
    hide FormatOf, CopyMentioned;
  }

  lemma FiveOf(d: char, padded: bool)
    ensures d in {'T', 'X'} ==> Pieces(d, padded) == Five('H', 'M', 'S', ':', padded) && SubFormat(d) == "%H:%M:%S"
    ensures d in {'D', 'x'} ==> Pieces(d, padded) == Five('m', 'd', 'y', '/', padded) && SubFormat(d) == "%m/%d/%y"
  {
  }

  /** Three numeric conversions with a mark between them. */
  function Five(a: char, b: char, c: char, mark: char, padded: bool): seq<Item> {
    [Directive(Plain, a, padded), Literally(mark), Directive(Plain, b, padded), Literally(mark),
     Directive(Plain, c, padded)]
  }

  lemma FiveMean(a: char, b: char, c: char, mark: char, format: string, padded: bool, src: Time, dst: Time)
    requires format == ['%', a, mark, '%', b, mark, '%', c]
    ensures FormatOf(Five(a, b, c, mark, padded)) == format
    ensures CopyMentioned(Five(a, b, c, mark, padded), src, dst)
         == CopyItem(Directive(Plain, c, padded), src,
                     CopyItem(Directive(Plain, b, padded), src, CopyItem(Directive(Plain, a, padded), src, dst)))
  {
    var p := Five(a, b, c, mark, padded);
    assert p == [p[0], p[1], p[2], p[3], p[4]] + [];
    FiveTexts(a, b, c, mark, padded);
    assert forall t :: CopyItem(Literally(mark), src, t) == t;
    hide FormatOf, CopyMentioned, CopyItem, ItemFormat;
    var end := CopyItem(p[4], src, CopyItem(p[2], src, CopyItem(p[0], src, dst)));
    FivePieces(p[0], p[1], p[2], p[3], p[4], [], src, dst);
    Nothing(src, end);
  }

  lemma FiveTexts(a: char, b: char, c: char, mark: char, padded: bool)
    ensures ItemFormat(Directive(Plain, a, padded)) + (ItemFormat(Literally(mark)) +
            (ItemFormat(Directive(Plain, b, padded)) + (ItemFormat(Literally(mark)) +
            (ItemFormat(Directive(Plain, c, padded)) + ""))))
         == ['%', a, mark, '%', b, mark, '%', c]
  {
  }

  lemma HalfDayPieces(padded: bool, src: Time, dst: Time)
    ensures FormatOf(Pieces('r', padded)) == SubFormat('r') != ""
    ensures 0 <= src.hour <= 23 ==>
              CopyMentioned(Pieces('r', padded), src, dst) == CopyItem(Directive(Plain, 'r', padded), src, dst)
  {
    hide FormatOf, CopyMentioned;
    var p := Pieces('r', padded);
    assert p == [p[0], p[1], p[2], p[3], p[4]] + ([p[5], p[6]] + []);
    FivePieces(p[0], p[1], p[2], p[3], p[4], [p[5], p[6]] + [], src, dst);
    var mid := dst.(hour := src.hour % 12, min := src.min, sec := src.sec);
    TwoPieces(p[5], p[6], [], src, mid);
    Nothing(src, CopyItem(Directive(Plain, 'r', padded), src, dst));
  }
}
