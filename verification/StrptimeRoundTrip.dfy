/** Parsing undoes formatting. */
module StrptimeRoundTrip {
  import opened Seqs
  import opened Numerals
  import opened Strptime
  import opened StrptimeItems

  // -------------------------------------------------------------------------------------------
  // Reading one printed item
  // -------------------------------------------------------------------------------------------

  /** The numeral that is printed, padded or not, is one of its number. */
  lemma NumberPrinted(d: char, src: Time, padded: bool)
    requires d in NUMERIC && NumberFits(d, src)
    ensures var n := Printed(d, src); var text := NumberText(n, Width(d), padded);
            && 0 <= n && 1 <= |text| <= Width(d) && (forall c <- text :: IsDigit(c)) && Value(text) == n
            && Lower(d) <= n <= Upper(d)
  {
    var n := Printed(d, src);
    UpperWidth(d);
    DigitCountMonotone(n, Upper(d));
    ValueOfPadded(n, Width(d));
    ValueOfPadded(n, DigitCount(n));
    hide Printed, Value, Padded;
  }

  lemma StoredBack(d: char, src: Time, dst: Time, split: bool)
    requires d in NUMERIC && NumberFits(d, src)
    requires d == 'y' ==> 1969 <= src.year + TM_YEAR_BASE <= 2068 && (split ==> dst.year == src.year)
    requires d in {'I', 'l'} ==> 0 <= src.hour <= 23
    ensures Stored(d, Printed(d, src), dst, split) == CopyItem(Directive(Plain, d, true), src, dst)
  {
  }

  lemma SameCopy(alt: Alt, d: char, padded: bool, src: Time, dst: Time)
    ensures CopyItem(Directive(alt, d, padded), src, dst) == CopyItem(Directive(Plain, d, true), src, dst)
  {
  }

  lemma NumberRead(item: Item, buf: string, p: nat, later: string, rest: string, src: Time, dst: Time, split: bool)
    requires item.Directive? && item.d in NUMERIC && ItemReady(item, later, rest, src, dst, split)
    requires p <= |buf| && buf[p..] == ItemText(item, src) + (later + rest)
    ensures Outcome(item, buf, p, dst, split)
         == Field(Stopped(p + |ItemText(item, src)|), CopyItem(item, src, dst), split || YearPart(item))
  {
    hide *;
    var d, n := item.d, Printed(item.d, src);
    var text := NumberText(n, Width(d), item.padded);
    NumberParts(item, later, rest, src, dst, split);
    NumberPrinted(d, src, item.padded);
    UpperWidth(d);
    NumberStored(d, buf, p, dst, split);
    StoredBack(d, src, dst, split);
    SameCopy(item.alt, d, item.padded, src, dst);
    TextThere(buf, p, text, later + rest);
    ConvNumOfDigits(buf, p, text, Lower(d), Upper(d));
    ElementaryOutcome(item, buf, p, dst, split);
  }

  lemma NumberParts(item: Item, later: string, rest: string, src: Time, dst: Time, split: bool)
    requires item.Directive? && item.d in NUMERIC && ItemReady(item, later, rest, src, dst, split)
    ensures NumberFits(item.d, src)
    ensures ItemText(item, src) == NumberText(Printed(item.d, src), Width(item.d), item.padded)
    ensures |ItemText(item, src)| == Width(item.d) || !IsDigit(At(later + rest, 0))
    ensures item.d == 'y' ==> 1969 <= src.year + TM_YEAR_BASE <= 2068 && (split ==> dst.year == src.year)
    ensures item.d in {'I', 'l'} ==> 0 <= src.hour <= 23
  {
    hide NumberFits, NumberText, Printed, Width;
  }

  lemma TextThere(buf: string, p: nat, text: string, after: string)
    requires p <= |buf| && buf[p..] == text + after
    ensures p + |text| <= |buf| && buf[p..p + |text|] == text && buf[p + |text|..] == after
    ensures At(buf, p + |text|) == At(after, 0)
  {
    assert buf[p..][..|text|] == text && buf[p..][|text|..] == after;
    assert buf[p..][..|text|] == buf[p..p + |text|] && buf[p..][|text|..] == buf[p + |text|..];
    if after != "" {
      assert buf[p + |text|..][0] == buf[p + |text|];
    }
  }

  // -------------------------------------------------------------------------------------------
  // Names
  // -------------------------------------------------------------------------------------------

  /** Names begin with their abbreviations of three letters, which are all different. */
  predicate NameTable(full: seq<string>, short: seq<string>) {
    && |full| == |short|
    && (forall i :: 0 <= i < |full| ==> |short[i]| == 3 && short[i] <= full[i])
    && (forall i, j :: 0 <= i < j < |full| ==> short[i] != short[j])
  }

  lemma DayTable()
    ensures NameTable(DAY, ABDAY) && |DAY| == 7
  {
    assert |DAY| == |ABDAY| == 7;
  }

  lemma MonthTable()
    ensures NameTable(MON, ABMON) && |MON| == 12
  {
    assert |MON| == |ABMON| == 12;
  }

  lemma {:induction false} NameFound(buf: string, p: nat, full: seq<string>, short: seq<string>, i: nat, k: nat)
    requires NameTable(full, short) && k <= i < |full| && StartsWith(buf, p, short[i])
    ensures FindName(buf, p, full, short, k)
         == Name(i, if StartsWith(buf, p, full[i]) then |full[i]| else 3)
    decreases i - k
  {
    if k < i {
      NoOtherName(buf, p, full, short, i, k);
      hide NameTable, StartsWith;
      NameFound(buf, p, full, short, i, k + 1);
    }
  }

  lemma NoOtherName(buf: string, p: nat, full: seq<string>, short: seq<string>, i: nat, k: nat)
    requires NameTable(full, short) && k < i < |full| && StartsWith(buf, p, short[i])
    ensures !StartsWith(buf, p, full[k]) && !StartsWith(buf, p, short[k])
  {
    assert short[k] != short[i];
    PrefixToo(buf, p, short[k], full[k]);
  }

  lemma PrefixToo(buf: string, p: nat, short: string, full: string)
    requires short <= full
    ensures StartsWith(buf, p, full) ==> StartsWith(buf, p, short)
  {
    if p + |full| <= |buf| {
      assert buf[p..p + |full|][..|short|] == buf[p..p + |short|];
    }
  }

  lemma PrefixStarts(buf: string, p: nat, text: string, after: string)
    requires p <= |buf| && buf[p..] == text + after
    ensures forall t: string :: StartsWith(buf, p, t) <==> t <= text + after
  {
    forall t: string ensures StartsWith(buf, p, t) <==> t <= text + after {
      if p + |t| <= |buf| {
        assert buf[p..p + |t|] == buf[p..][..|t|];
      }
    }
  }

  lemma NameThere(buf: string, p: nat, full: seq<string>, short: seq<string>, i: nat, text: string, after: string)
    requires NameTable(full, short) && i < |full| && p <= |buf| && buf[p..] == text + after
    requires text == full[i] || (text == short[i] && Unambiguous(full[i], short[i], after))
    ensures FindName(buf, p, full, short, 0) == Name(i, |text|)
  {
    PrefixStarts(buf, p, text, after);
    assert short[i] <= full[i] <= full[i] + after;
    assert short[i] <= short[i] + after;
    NameFound(buf, p, full, short, i, 0);
  }

  lemma NameRead(item: Item, buf: string, p: nat, later: string, rest: string, src: Time, dst: Time, split: bool)
    requires item.Directive? && item.d in NAMES && ItemReady(item, later, rest, src, dst, split)
    requires p <= |buf| && buf[p..] == ItemText(item, src) + (later + rest)
    ensures Outcome(item, buf, p, dst, split)
         == Field(Stopped(p + |ItemText(item, src)|), CopyItem(item, src, dst), split || YearPart(item))
  {
    var text := ItemText(item, src);
    hide *;
    NameParts(item, later, rest, src, dst, split);
    DayTable();
    MonthTable();
    if item.d in {'A', 'a'} {
      NameThere(buf, p, DAY, ABDAY, src.wday, text, later + rest);
      DayOutcome(item, buf, p, dst, split);
    } else {
      NameThere(buf, p, MON, ABMON, src.mon, text, later + rest);
      MonthOutcome(item, buf, p, dst, split);
    }
  }

  lemma NameParts(item: Item, later: string, rest: string, src: Time, dst: Time, split: bool)
    requires item.Directive? && item.d in NAMES && ItemReady(item, later, rest, src, dst, split)
    ensures !YearPart(item)
    ensures item.d in {'A', 'a'} ==>
              && 0 <= src.wday < 7 && CopyItem(item, src, dst) == dst.(wday := src.wday)
              && (ItemText(item, src) == DAY[src.wday]
                  || (ItemText(item, src) == ABDAY[src.wday]
                      && Unambiguous(DAY[src.wday], ABDAY[src.wday], later + rest)))
    ensures item.d !in {'A', 'a'} ==>
              && item.d in {'B', 'b', 'h'}
              && 0 <= src.mon < 12 && CopyItem(item, src, dst) == dst.(mon := src.mon)
              && (ItemText(item, src) == MON[src.mon]
                  || (ItemText(item, src) == ABMON[src.mon]
                      && Unambiguous(MON[src.mon], ABMON[src.mon], later + rest)))
  {
    hide Unambiguous;
    assert |DAY| == |ABDAY| == 7 && |MON| == |ABMON| == 12;
  }

  lemma HalfDayRead(item: Item, buf: string, p: nat, later: string, rest: string, src: Time, dst: Time, split: bool)
    requires item.Directive? && item.d == 'p' && ItemReady(item, later, rest, src, dst, split)
    requires p <= |buf| && buf[p..] == ItemText(item, src) + (later + rest)
    ensures Outcome(item, buf, p, dst, split)
         == Field(Stopped(p + |ItemText(item, src)|), CopyItem(item, src, dst), split || YearPart(item))
  {
    var text := ItemText(item, src);
    assert text in {"AM", "PM"} && later + rest == "";
    assert text + "" == text;
    assert |buf| == p + 2 && buf[p..p + 2] == text;
    assert "AM" != "PM" by { assert "AM"[0] != "PM"[0]; }
  }

  // -------------------------------------------------------------------------------------------
  // White space
  // -------------------------------------------------------------------------------------------

  lemma {:induction false} SkipStrips(buf: string, p: nat)
    requires p <= |buf|
    ensures SkipSpace(buf, p) <= |buf|
    ensures buf[SkipSpace(buf, p)..] == Strip(buf[p..])
    ensures forall c <- buf[p..SkipSpace(buf, p)] :: IsSpace(c)
    decreases |buf| - p
  {
    if p < |buf| && IsSpace(buf[p]) {
      assert buf[p..][1..] == buf[p + 1..];
      SkipStrips(buf, p + 1);
      var q := SkipSpace(buf, p);
      assert buf[p..q] == [buf[p]] + buf[p + 1..q];
    }
  }

  lemma {:induction false} StripTwice(s: string)
    ensures Strip(Strip(s)) == Strip(s)
  {
    if s != "" && IsSpace(s[0]) {
      StripTwice(s[1..]);
    }
  }

  lemma StripFirst(c: char, t: string)
    ensures IsSpace(c) ==> Strip([c] + t) == Strip(t)
    ensures !IsSpace(c) ==> Strip([c] + t) == [c] + t
  {
    assert ([c] + t)[1..] == t;
  }

  lemma {:induction false} StripSum(t: string, rest: string)
    requires Strip(t) == "" ==> Strip(rest) == rest
    ensures Strip(t + rest) == Strip(t) + rest
  {
    if t == "" {
      assert t + rest == rest;
    } else {
      assert (t + rest)[1..] == t[1..] + rest;
      if IsSpace(t[0]) {
        StripSum(t[1..], rest);
      }
    }
  }

  /** What is still to be read: the printed text, whole or behind white space already skipped, and the rest. */
  predicate Pending(buf: string, p: nat, printed: string, rest: string) {
    p <= |buf| && (buf[p..] == printed + rest || buf[p..] == Strip(printed) + rest)
  }

  lemma SpacePending(c: char, buf: string, p: nat, t: string, rest: string)
    requires IsSpace(c) && Pending(buf, p, [c] + t, rest) && (Strip(t) == "" ==> Strip(rest) == rest)
    ensures Pending(buf, SkipSpace(buf, p), t, rest)
  {
    SkipStrips(buf, p);
    StripFirst(c, t);
    StripTwice(t);
    StripSum([c] + t, rest);
    StripSum(Strip(t), rest);
    hide Strip, SkipSpace;
  }

  /** Anything but white space is printed as something that does not begin with white space. */
  lemma {:induction false} TextBegins(item: Item, later: string, rest: string, src: Time, dst: Time, split: bool)
    requires !item.White? && !item.Blank? && ItemReady(item, later, rest, src, dst, split)
    ensures ItemText(item, src) != "" && !IsSpace(ItemText(item, src)[0])
    decreases DepthOf(item)
  {
    if item.Directive? && item.d in NUMERIC {
      NumberBegins(item, later, rest, src, dst, split);
    } else if item.Directive? && item.d in NAMES {
      NameBegins(item, later, rest, src, dst, split);
    } else if item.Directive? && item.d in COMPOSITE {
      var pieces := Pieces(item.d, item.padded);
      PiecesReady(item, later, rest, src, dst, split);
      hide *;
      ReadyRest(pieces, later + rest, src, dst, false);
      TextBegins(pieces[0], PrintOf(pieces[1..], src), later + rest, src, dst, false);
    }
  }

  lemma NumberBegins(item: Item, later: string, rest: string, src: Time, dst: Time, split: bool)
    requires item.Directive? && item.d in NUMERIC && ItemReady(item, later, rest, src, dst, split)
    ensures ItemText(item, src) != "" && !IsSpace(ItemText(item, src)[0])
  {
    NumberPrinted(item.d, src, item.padded);
    var text := NumberText(Printed(item.d, src), Width(item.d), item.padded);
    assert ItemText(item, src) == text && text[0] in text;
    hide NumberText, Printed, Value, Width;
  }

  lemma PiecesReady(item: Item, later: string, rest: string, src: Time, dst: Time, split: bool)
    requires item.Directive? && item.d in COMPOSITE && ItemReady(item, later, rest, src, dst, split)
    ensures var pieces := Pieces(item.d, item.padded);
            && Ready(pieces, later + rest, src, dst, false) && (item.d == 'r' ==> 0 <= src.hour <= 23)
            && Depth(pieces) < DepthOf(item) && DepthOf(pieces[0]) < DepthOf(item)
            && ItemText(item, src) == PrintOf(pieces, src)
            && pieces[0].Directive? && !YearPart(item)
  {
    hide *;
    PiecesDepth(item.d, item.padded);
    DepthOfAny(item, Plain);
    FirstPiece(item.d, item.padded);
    FirstDepth(Pieces(item.d, item.padded));
    CompositeParts(item, later, rest, src, dst, split);
  }

  lemma CompositeParts(item: Item, later: string, rest: string, src: Time, dst: Time, split: bool)
    requires item.Directive? && item.d in COMPOSITE && ItemReady(item, later, rest, src, dst, split)
    ensures Ready(Pieces(item.d, item.padded), later + rest, src, dst, false)
    ensures item.d == 'r' ==> 0 <= src.hour <= 23
    ensures ItemText(item, src) == PrintOf(Pieces(item.d, item.padded), src) && !YearPart(item)
  {
    hide Ready, PrintOf, Pieces, NumberFits, Unambiguous, Printed, NameText, NumberText;
  }

  lemma FirstPiece(d: char, padded: bool)
    ensures Pieces(d, padded) != [] && Pieces(d, padded)[0].Directive?
  {
  }

  lemma DepthOfAny(item: Item, alt: Alt)
    requires item.Directive?
    ensures DepthOf(Directive(alt, item.d, item.padded)) == DepthOf(item)
  {
  }

  lemma FirstDepth(items: seq<Item>)
    requires items != []
    ensures DepthOf(items[0]) <= Depth(items)
  {
    hide DepthOf;
  }

  lemma NameBegins(item: Item, later: string, rest: string, src: Time, dst: Time, split: bool)
    requires item.Directive? && item.d in NAMES && ItemReady(item, later, rest, src, dst, split)
    ensures ItemText(item, src) != "" && !IsSpace(ItemText(item, src)[0])
  {
    NameParts(item, later, rest, src, dst, split);
    hide ItemReady, ItemText, CopyItem, Unambiguous;
    Capitals();
  }

  lemma Capitals()
    ensures |DAY| == |ABDAY| == 7 && |MON| == |ABMON| == 12
    ensures forall i :: 0 <= i < 7 ==> DAY[i] != "" && 'A' <= DAY[i][0] <= 'Z' && ABDAY[i] != "" && 'A' <= ABDAY[i][0] <= 'Z'
    ensures forall i :: 0 <= i < 12 ==> MON[i] != "" && 'A' <= MON[i][0] <= 'Z' && ABMON[i] != "" && 'A' <= ABMON[i][0] <= 'Z'
  {
  }

  // -------------------------------------------------------------------------------------------
  // Whole formats
  // -------------------------------------------------------------------------------------------

  /** What the interpreter makes of an item that was printed. */
  lemma {:induction false} ItemRead(item: Item, buf: string, p: nat, later: string, rest: string, src: Time, dst: Time,
                                    split: bool)
    requires !item.White? && !item.Blank? && ItemReady(item, later, rest, src, dst, split)
    requires p <= |buf| && buf[p..] == ItemText(item, src) + (later + rest)
    ensures Outcome(item, buf, p, dst, split)
         == Field(Stopped(p + |ItemText(item, src)|), CopyItem(item, src, dst), split || YearPart(item))
    decreases DepthOf(item), 0, 1
  {
    match item
    case Literally(c) => TextThere(buf, p, [c], later + rest);
    case Percent => TextThere(buf, p, "%", later + rest);
    case Directive(_, d, _) =>
      if d in NUMERIC {
        NumberRead(item, buf, p, later, rest, src, dst, split);
      } else if d in NAMES {
        NameRead(item, buf, p, later, rest, src, dst, split);
      } else if d == 'p' {
        HalfDayRead(item, buf, p, later, rest, src, dst, split);
      } else {
        CompositeRead(item, buf, p, later, rest, src, dst, split);
      }
  }

  lemma {:induction false} CompositeRead(item: Item, buf: string, p: nat, later: string, rest: string, src: Time,
                                         dst: Time, split: bool)
    requires item.Directive? && item.d in COMPOSITE && ItemReady(item, later, rest, src, dst, split)
    requires p <= |buf| && buf[p..] == ItemText(item, src) + (later + rest)
    ensures Outcome(item, buf, p, dst, split)
         == Field(Stopped(p + |ItemText(item, src)|), CopyItem(item, src, dst), split || YearPart(item))
    decreases DepthOf(item), 0, 0
  {
    hide *;
    var pieces, after := Pieces(item.d, item.padded), later + rest;
    PiecesReady(item, later, rest, src, dst, split);
    PiecesOf(item.d, item.padded, src, dst);
    SameCopy(item.alt, item.d, item.padded, src, dst);
    SameCopy(Plain, item.d, item.padded, src, dst);
    TextThere(buf, p, ItemText(item, src), after);
    IsPending(buf, p, PrintOf(pieces, src), after);
    ParsePrinted(pieces, buf, p, after, src, dst, false);
    CompositeOutcome(item, buf, p, dst, split);
  }

  lemma IsPending(buf: string, p: nat, printed: string, rest: string)
    requires p <= |buf| && buf[p..] == printed + rest
    ensures Pending(buf, p, printed, rest)
  {
  }

  /** Text that does not begin with white space is all there. */
  lemma PendingText(buf: string, p: nat, text: string, later: string, rest: string)
    requires Pending(buf, p, text + later, rest) && text != "" && !IsSpace(text[0])
    ensures p <= |buf| && buf[p..] == text + (later + rest)
  {
    assert (text + later)[0] == text[0];
    Assoc(text, later, rest);
  }

  lemma BlankText(item: Item, src: Time)
    requires (item.White? || item.Blank?) && WellFormed(item)
    ensures |ItemText(item, src)| == 1 && IsSpace(ItemText(item, src)[0]) && !YearPart(item)
    ensures forall dst :: CopyItem(item, src, dst) == dst
    ensures forall buf, p, t, split :: Outcome(item, buf, p, t, split) == Field(Stopped(SkipSpace(buf, p)), t, split)
  {
    hide SkipSpace;
  }

  lemma BlankReady(item: Item, later: string, rest: string, src: Time, dst: Time, split: bool)
    requires (item.White? || item.Blank?) && ItemReady(item, later, rest, src, dst, split)
    ensures Strip(later) == "" ==> Strip(rest) == rest
  {
  }

  /** Parsing what was printed consumes exactly that, restores every mentioned field and leaves the
      others alone; separators between the conversions are needed only behind numbers without all their
      zeros. */
  lemma {:induction false} ParsePrinted(items: seq<Item>, buf: string, p: nat, rest: string, src: Time, dst: Time,
                                        split: bool)
    requires Ready(items, rest, src, dst, split)
    requires Pending(buf, p, PrintOf(items, src), rest)
    ensures |rest| <= |buf|
    ensures Parse(FormatOf(items), buf, p, dst, split)
         == Parsed(Stopped(|buf| - |rest|), CopyMentioned(items, src, dst))
    decreases Depth(items), |items|, 1
  {
    if items != [] {
      hide *;
      var item, later := items[0], items[1..];
      ReadyRest(items, rest, src, dst, split);
      var q := ItemDone(item, FormatOf(later), buf, p, PrintOf(later, src), rest, src, dst, split);
      ParsePrinted(later, buf, q, rest, src, CopyItem(item, src, dst), split || YearPart(item));
    } else {
      NothingLeft(buf, p, rest);
    }
  }

  lemma NothingLeft(buf: string, p: nat, rest: string)
    requires Pending(buf, p, "", rest)
    ensures |rest| <= |buf| && p == |buf| - |rest|
  {
    assert "" + rest == rest;
  }

  /** One printed item is read, and the others are pending behind it. */
  lemma {:induction false} ItemDone(item: Item, format: string, buf: string, p: nat, later: string, rest: string,
                                    src: Time, dst: Time, split: bool) returns (q: nat)
    requires ItemReady(item, later, rest, src, dst, split) && WellFormed(item)
    requires Pending(buf, p, ItemText(item, src) + later, rest)
    ensures Pending(buf, q, later, rest)
    ensures Parse(ItemFormat(item) + format, buf, p, dst, split)
         == Parse(format, buf, q, CopyItem(item, src, dst), split || YearPart(item))
    decreases DepthOf(item), 0, 2
  {
    hide *;
    var text := ItemText(item, src);
    ItemStep(item, format, buf, p, dst, split);
    Continues(Outcome(item, buf, p, dst, split), format, buf);
    if item.White? || item.Blank? {
      BlankText(item, src);
      BlankReady(item, later, rest, src, dst, split);
      assert text == [text[0]];
      SpacePending(text[0], buf, p, later, rest);
      q := SkipSpace(buf, p);
    } else {
      TextBegins(item, later, rest, src, dst, split);
      PendingText(buf, p, text, later, rest);
      ItemRead(item, buf, p, later, rest, src, dst, split);
      TextThere(buf, p, text, later + rest);
      q := p + |text|;
      IsPending(buf, q, later, rest);
    }
  }

  /** The whole: formatting a time and parsing the result gives its mentioned fields back. */
  lemma StrptimeUndoesFormatting(items: seq<Item>, src: Time, dst: Time)
    requires Ready(items, "", src, dst, false)
    ensures Parse(FormatOf(items), PrintOf(items, src), 0, dst, false)
         == Parsed(Stopped(|PrintOf(items, src)|), CopyMentioned(items, src, dst))
  {
    hide *;
    var buf := PrintOf(items, src);
    RightEmpty(buf);
    assert buf[0..] == buf;
    IsPending(buf, 0, buf, "");
    ParsePrinted(items, buf, 0, "", src, dst, false);
  }
}
