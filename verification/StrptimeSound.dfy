/** `my_strptime` accepts nothing that does not fit its format. */
module StrptimeSound {
  import opened Seqs
  import opened Numerals
  import opened Strptime
  import opened StrptimeItems

  /** `text` is one that `item` may read: then the fields `dst` become `res`, and `now` says whether a part of
      the year has been read. */
  ghost predicate Fits(item: Item, text: string, dst: Time, split: bool, res: Time, now: bool)
    decreases DepthOf(item), 0, 0
  {
    WellFormed(item) &&
    match item
    case Literally(c) => text == [c] && res == dst && now == split
    case Percent => text == "%" && res == dst && now == split
    case White(_) => (forall c <- text :: IsSpace(c)) && res == dst && now == split
    case Blank(_) => (forall c <- text :: IsSpace(c)) && res == dst && now == split
    case Directive(_, d, _) =>
      if d in NUMERIC || d == 'C' then
        && 1 <= |text| <= Width(d) && (forall c <- text :: IsDigit(c)) && Lower(d) <= Value(text) <= Upper(d)
        && res == Stored(d, Value(text), dst, split) && now == (split || d in {'y', 'C'})
      else if d in {'A', 'a'} then
        now == split && exists i :: 0 <= i < 7 && text in {DAY[i], ABDAY[i]} && res == dst.(wday := i)
      else if d in NAMES then
        now == split && exists i :: 0 <= i < 12 && text in {MON[i], ABMON[i]} && res == dst.(mon := i)
      else if d == 'p' then
        now == split && dst.hour <= 11
        && ((text == "AM" && res == dst) || (text == "PM" && res == dst.(hour := dst.hour + 12)))
      else
        d in COMPOSITE && now == split
        && (PiecesDepth(d, true); exists last: bool :: FitsAll(Pieces(d, true), text, dst, false, res, last))
  }

  /** `text` is made of one text for each of the items, in order. */
  ghost predicate FitsAll(items: seq<Item>, text: string, dst: Time, split: bool, res: Time, now: bool)
    decreases Depth(items), |items|, 1
  {
    if items == [] then text == "" && res == dst && now == split
    else exists k: nat, mid: Time, m: bool ::
           && k <= |text| && Fits(items[0], text[..k], dst, split, mid, m)
           && FitsAll(items[1..], text[k..], mid, m, res, now)
  }

  lemma FitsCons(items: seq<Item>, text: string, k: nat, dst: Time, split: bool, mid: Time, m: bool, res: Time, now: bool)
    requires items != [] && k <= |text| && Fits(items[0], text[..k], dst, split, mid, m)
    requires FitsAll(items[1..], text[k..], mid, m, res, now)
    ensures FitsAll(items, text, dst, split, res, now)
  {
    hide Fits;
  }

  // -------------------------------------------------------------------------------------------
  // One item
  // -------------------------------------------------------------------------------------------

  lemma NumberFound(item: Item, buf: string, p: nat, dst: Time, split: bool)
    requires item.Directive? && WellFormed(item) && (item.d in NUMERIC || item.d == 'C') && p <= |buf|
    ensures var o := Outcome(item, buf, p, dst, split);
            o.next.Stopped? ==> p <= o.next.at <= |buf| && Fits(item, buf[p..o.next.at], dst, split, o.time, o.split)
  {
    var d := item.d;
    NumberStored(d, buf, p, dst, split);
    UpperWidth(d);
    ElementaryOutcome(item, buf, p, dst, split);
    var n := ConvNum(buf, p, Lower(d), Upper(d));
    if n.Read? {
      ConvNumReads(buf, p, Lower(d), Upper(d));
      NumberShape(item, buf[p..n.next], dst, split);
    }
    hide *;
  }

  lemma NumberShape(item: Item, text: string, dst: Time, split: bool)
    requires item.Directive? && WellFormed(item) && (item.d in NUMERIC || item.d == 'C')
    requires 1 <= |text| <= Width(item.d) && (forall c <- text :: IsDigit(c))
    requires Lower(item.d) <= Value(text) <= Upper(item.d)
    ensures Fits(item, text, dst, split, Stored(item.d, Value(text), dst, split), split || item.d in {'y', 'C'})
  {
    hide Value, Stored;
  }

  lemma {:induction false} NameRange(buf: string, p: nat, full: seq<string>, short: seq<string>, k: nat)
    requires |full| == |short| && k <= |full|
    ensures match FindName(buf, p, full, short, k)
            case NoName => true
            case Name(i, len) => i < |full| && p + len <= |buf| && buf[p..p + len] in {full[i], short[i]}
    decreases |full| - k
  {
    if k < |full| {
      NameRange(buf, p, full, short, k + 1);
    }
  }

  lemma NameSeen(item: Item, buf: string, p: nat, dst: Time, split: bool)
    requires item.Directive? && WellFormed(item) && item.d in NAMES && p <= |buf|
    ensures var o := Outcome(item, buf, p, dst, split);
            o.next.Stopped? ==> p <= o.next.at <= |buf| && Fits(item, buf[p..o.next.at], dst, split, o.time, o.split)
  {
    hide Outcome, Fits;
    if item.d in {'A', 'a'} {
      DaySeen(item, buf, p, dst, split);
    } else {
      MonthSeen(item, buf, p, dst, split);
    }
  }

  lemma DaySeen(item: Item, buf: string, p: nat, dst: Time, split: bool)
    requires item.Directive? && WellFormed(item) && item.d in {'A', 'a'} && p <= |buf|
    ensures var o := Outcome(item, buf, p, dst, split);
            o.next.Stopped? ==> p <= o.next.at <= |buf| && Fits(item, buf[p..o.next.at], dst, split, o.time, o.split)
  {
    assert |DAY| == |ABDAY|;
    hide *;
    DayOutcome(item, buf, p, dst, split);
    NameRange(buf, p, DAY, ABDAY, 0);
    var name := FindName(buf, p, DAY, ABDAY, 0);
    if name.Name? {
      DayFits(item, name.index, buf[p..p + name.len], dst, split);
    }
  }

  lemma MonthSeen(item: Item, buf: string, p: nat, dst: Time, split: bool)
    requires item.Directive? && WellFormed(item) && item.d in {'B', 'b', 'h'} && p <= |buf|
    ensures var o := Outcome(item, buf, p, dst, split);
            o.next.Stopped? ==> p <= o.next.at <= |buf| && Fits(item, buf[p..o.next.at], dst, split, o.time, o.split)
  {
    assert |MON| == |ABMON|;
    hide *;
    MonthOutcome(item, buf, p, dst, split);
    NameRange(buf, p, MON, ABMON, 0);
    var name := FindName(buf, p, MON, ABMON, 0);
    if name.Name? {
      MonthFits(item, name.index, buf[p..p + name.len], dst, split);
    }
  }

  lemma DayFits(item: Item, i: nat, text: string, dst: Time, split: bool)
    requires item.Directive? && WellFormed(item) && item.d in {'A', 'a'}
    requires |DAY| == |ABDAY| && i < |DAY| && text in {DAY[i], ABDAY[i]}
    ensures Fits(item, text, dst, split, dst.(wday := i), split)
  {
    assert |DAY| == 7;
  }

  lemma MonthFits(item: Item, i: nat, text: string, dst: Time, split: bool)
    requires item.Directive? && WellFormed(item) && item.d in {'B', 'b', 'h'}
    requires |MON| == |ABMON| && i < |MON| && text in {MON[i], ABMON[i]}
    ensures Fits(item, text, dst, split, dst.(mon := i), split)
  {
    assert |MON| == 12;
  }

  lemma HalfDaySeen(item: Item, buf: string, p: nat, dst: Time, split: bool)
    requires item.Directive? && WellFormed(item) && item.d == 'p' && p <= |buf|
    ensures var o := Outcome(item, buf, p, dst, split);
            o.next.Stopped? ==> p <= o.next.at <= |buf| && Fits(item, buf[p..o.next.at], dst, split, o.time, o.split)
  {
  }

  lemma {:induction false} SpaceSeen(buf: string, p: nat)
    requires p <= |buf|
    ensures SkipSpace(buf, p) <= |buf| && forall c <- buf[p..SkipSpace(buf, p)] :: IsSpace(c)
    decreases |buf| - p
  {
    if p < |buf| && IsSpace(buf[p]) {
      SpaceSeen(buf, p + 1);
      assert buf[p..SkipSpace(buf, p)] == [buf[p]] + buf[p + 1..SkipSpace(buf, p)];
    }
  }

  lemma {:induction false} ItemSeen(item: Item, buf: string, p: nat, dst: Time, split: bool)
    requires WellFormed(item) && p <= |buf|
    ensures var o := Outcome(item, buf, p, dst, split);
            o.next.Stopped? ==> p <= o.next.at <= |buf| && Fits(item, buf[p..o.next.at], dst, split, o.time, o.split)
    decreases DepthOf(item), 0, 1
  {
    match item
    case White(_) => SpaceSeen(buf, p);
    case Blank(_) => SpaceSeen(buf, p);
    case Literally(c) =>
    case Percent =>
    case Directive(_, d, _) =>
      if d in NUMERIC || d == 'C' {
        NumberFound(item, buf, p, dst, split);
      } else if d in NAMES {
        NameSeen(item, buf, p, dst, split);
      } else if d == 'p' {
        HalfDaySeen(item, buf, p, dst, split);
      } else {
        CompositeSeen(item, buf, p, dst, split);
      }
  }

  lemma {:induction false} CompositeSeen(item: Item, buf: string, p: nat, dst: Time, split: bool)
    requires item.Directive? && WellFormed(item) && item.d in COMPOSITE && p <= |buf|
    ensures var o := Outcome(item, buf, p, dst, split);
            o.next.Stopped? ==> p <= o.next.at <= |buf| && Fits(item, buf[p..o.next.at], dst, split, o.time, o.split)
    decreases DepthOf(item), 0, 0
  {
    hide *;
    DepthOfBoth(item);
    PiecesDepth(item.d, true);
    PiecesOf(item.d, true, dst, dst);
    PiecesWell(item.d);
    CompositeOutcome(item, buf, p, dst, split);
    var sub := Parse(SubFormat(item.d), buf, p, dst, false);
    if sub.next.Stopped? {
      var last := ParseSound(Pieces(item.d, true), buf, p, dst, false);
      CompositeFits(item, buf[p..sub.next.at], dst, split, sub.time, last);
    }
  }

  lemma DepthOfBoth(item: Item)
    requires item.Directive?
    ensures DepthOf(Directive(Plain, item.d, true)) == DepthOf(item)
  {
  }

  lemma CompositeFits(item: Item, text: string, dst: Time, split: bool, res: Time, last: bool)
    requires item.Directive? && WellFormed(item) && item.d in COMPOSITE
    requires FitsAll(Pieces(item.d, true), text, dst, false, res, last)
    ensures Fits(item, text, dst, split, res, split)
  {
    hide FitsAll, Pieces;
  }

  lemma PiecesWell(d: char)
    requires d in COMPOSITE
    ensures forall i :: 0 <= i < |Pieces(d, true)| ==> WellFormed(Pieces(d, true)[i])
  {
  }

  // -------------------------------------------------------------------------------------------
  // Whole formats
  // -------------------------------------------------------------------------------------------

  /** Whenever parsing succeeds, what was consumed is made of one text for each item of the format: the
      literals themselves, white space, names, and numbers of the right length within their limits; and the
      fields are exactly what these say. */
  lemma {:induction false} ParseSound(items: seq<Item>, buf: string, p: nat, dst: Time, split: bool) returns (now: bool)
    requires (forall i :: 0 <= i < |items| ==> WellFormed(items[i])) && p <= |buf|
    requires Parse(FormatOf(items), buf, p, dst, split).next.Stopped?
    ensures var r := Parse(FormatOf(items), buf, p, dst, split);
            p <= r.next.at <= |buf| && FitsAll(items, buf[p..r.next.at], dst, split, r.time, now)
    decreases Depth(items), |items|, 2
  {
    hide *;
    if items == [] {
      now := split;
      NothingFits(buf, p, dst, split);
    } else {
      var item, later := items[0], items[1..];
      Unfold(items, dst, dst);
      ItemStep(item, FormatOf(later), buf, p, dst, split);
      ItemSeen(item, buf, p, dst, split);
      var o := Outcome(item, buf, p, dst, split);
      Continues(o, FormatOf(later), buf);
      var q, r := o.next.at, Parse(FormatOf(items), buf, p, dst, split);
      now := ParseSound(later, buf, q, o.time, o.split);
      CutSlice(buf, p, q, r.next.at);
      FitsCons(items, buf[p..r.next.at], q - p, dst, split, o.time, o.split, r.time, now);
    }
  }

  lemma NothingFits(buf: string, p: nat, dst: Time, split: bool)
    requires p <= |buf|
    ensures Parse(FormatOf([]), buf, p, dst, split) == Parsed(Stopped(p), dst)
    ensures FitsAll([], buf[p..p], dst, split, dst, split)
  {
  }

  /** A conversion that does not exist, or does not allow its modifier, is never read. */
  lemma IllegalFails(alt: Alt, d: char, format: string, buf: string, p: nat, t: Time, split: bool)
    requires d !in {'%', 'E', 'O', 'n', 't'} && !WellFormed(Directive(alt, d, true))
    ensures Parse("%" + Modifier(alt) + [d] + format, buf, p, t, split) == Parsed(Failed, t)
  {
    AllowedIsLegal(d, alt);
    hide Allowed, LegalAlt;
    var f := [d] + format;
    assert f[1..] == format;
    var g := Modifier(alt) + f;
    assert "%" + Modifier(alt) + [d] + format == ['%'] + g && (['%'] + g)[1..] == g;
    if alt == Plain {
      assert g == f;
    } else {
      assert g[1..] == f;
      assert Convert(g, Plain, buf, p, t, split) == Convert(f, alt, buf, p, t, split);
    }
  }

  // -------------------------------------------------------------------------------------------
  // What strftime() prints and my_strptime does not read back
  // -------------------------------------------------------------------------------------------

  /** A number padded with a blank, as `%e` prints the first nine days of a month, is rejected. */
  lemma BlankPadded(d: char, buf: string, p: nat, t: Time, split: bool)
    requires d in NUMERIC && At(buf, p) == ' '
    ensures Elementary(d, buf, p, t, split).next == Failed
  {
    NumberStored(d, buf, p, t, split);
  }

  /** The century is not rebased: `%C%y` reads back every year 1900 years late. */
  lemma CenturyLate(src: Time, dst: Time)
    requires 0 <= src.year + TM_YEAR_BASE <= 9999
    ensures var ad := src.year + TM_YEAR_BASE; var buf := Padded(ad / 100, 2) + Padded(ad % 100, 2);
            Parse("%C%y", buf, 0, dst, false) == Parsed(Stopped(4), dst.(year := src.year + 1900))
  {
    var ad := src.year + TM_YEAR_BASE;
    var a, b := Padded(ad / 100, 2), Padded(ad % 100, 2);
    var c, y := Directive(Plain, 'C', true), Directive(Plain, 'y', true);
    var mid := dst.(year := 100 * (ad / 100));
    hide *;
    CenturyFormat();
    TwoAndTwo(a, b);
    CenturyStored(ad, dst);
    TwoDigits(a + b, 0, ad / 100, 'C', dst, false);
    TwoDigits(a + b, 2, ad % 100, 'y', mid, true);
    ItemStep(c, "%y", a + b, 0, dst, false);
    ItemStep(y, "", a + b, 2, mid, true);
    ElementaryOutcome(c, a + b, 0, dst, false);
    ElementaryOutcome(y, a + b, 2, mid, true);
    Continues(Elementary('C', a + b, 0, dst, false), "%y", a + b);
    Continues(Elementary('y', a + b, 2, mid, true), "", a + b);
    NothingFits(a + b, 4, dst.(year := ad), true);
  }

  lemma TwoAndTwo(a: string, b: string)
    requires |a| == |b| == 2
    ensures (a + b)[0..2] == a && (a + b)[2..4] == b && |a + b| == 4
  {
  }

  lemma CenturyStored(ad: nat, dst: Time)
    ensures var mid := dst.(year := 100 * (ad / 100));
            Stored('C', ad / 100, dst, false) == mid && Stored('y', ad % 100, mid, true) == dst.(year := ad)
  {
  }

  lemma CenturyFormat()
    ensures ItemFormat(Directive(Plain, 'C', true)) + "%y" == "%C%y"
    ensures ItemFormat(Directive(Plain, 'y', true)) + "" == "%y" && FormatOf([]) == ""
    ensures WellFormed(Directive(Plain, 'C', true)) && WellFormed(Directive(Plain, 'y', true))
    ensures SubFormat('C') == SubFormat('y') == ""
  {
  }

  lemma TwoDigits(buf: string, p: nat, n: nat, d: char, dst: Time, split: bool)
    requires d in {'C', 'y'} && n <= 99 && p + 2 <= |buf| && buf[p..p + 2] == Padded(n, 2)
    ensures Elementary(d, buf, p, dst, split) == Field(Stopped(p + 2), Stored(d, n, dst, split), true)
  {
    UpperWidth('C');
    ConvNumOfPadded(buf, p, n, 0, 99);
    NumberStored(d, buf, p, dst, split);
    hide ConvNum, Stored, Elementary;
  }
}
