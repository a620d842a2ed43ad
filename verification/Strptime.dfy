/** `my_strptime` of utils/timestamp.c: a format interpreter that reads a time into its fields. */
module Strptime {
  import opened Numerals

  const TM_YEAR_BASE := 1900

  /** `struct tm`. */
  datatype Time = Time(sec: int, min: int, hour: int, mday: int, mon: int, year: int, wday: int, yday: int)

  /** Where parsing stopped, or nothing when it failed; the fields as far as they were written. */
  datatype Next = Failed | Stopped(at: nat)

  datatype Parsed = Parsed(next: Next, time: Time)

  /** The outcome of one conversion; `split` says that a two-digit year part has been read. */
  datatype Field = Field(next: Next, time: Time, split: bool)

  datatype Alt = Plain | AltE | AltO

  const DAY: seq<string> := ["Sunday", "Monday", "Tuesday", "Wednesday", "Thursday", "Friday", "Saturday"]
  const ABDAY: seq<string> := ["Sun", "Mon", "Tue", "Wed", "Thu", "Fri", "Sat"]
  const MON: seq<string> := ["January", "February", "March", "April", "May", "June", "July",
                             "August", "September", "October", "November", "December"]
  const ABMON: seq<string> := ["Jan", "Feb", "Mar", "Apr", "May", "Jun",
                               "Jul", "Aug", "Sep", "Oct", "Nov", "Dec"]

  predicate IsSpace(c: char) {
    c == ' ' || '\t' <= c <= '\r'
  }

  function SkipSpace(buf: string, p: nat): (q: nat)
    ensures p <= q
    decreases |buf| - p
  {
    if IsSpace(At(buf, p)) then SkipSpace(buf, p + 1) else p
  }

  /** C's division, towards zero. */
  function TruncDiv(a: int, b: int): int
    requires b > 0
  {
    if a >= 0 then a / b else -((-a) / b)
  }

  function TruncMod(a: int, b: int): int
    requires b > 0
  {
    a - TruncDiv(a, b) * b
  }

  /** `strncmp(name, bp, strlen(name)) == 0`. */
  predicate StartsWith(buf: string, p: nat, name: string) {
    p + |name| <= |buf| && buf[p..p + |name|] == name
  }

  datatype Named = NoName | Name(index: nat, len: nat)

  /** The first entry of the table, from `i` on, whose full or else abbreviated name is next. */
  function FindName(buf: string, p: nat, full: seq<string>, short: seq<string>, i: nat): Named
    requires |full| == |short|
    decreases |full| - i
  {
    if i >= |full| then NoName
    else if StartsWith(buf, p, full[i]) then Name(i, |full[i]|)
    else if StartsWith(buf, p, short[i]) then Name(i, |short[i]|)
    else FindName(buf, p, full, short, i + 1)
  }

  /** The modifiers each conversion allows. */
  predicate LegalAlt(c: char, alt: Alt) {
    match alt
    case Plain => true
    case AltE => c in {'c', 'X', 'x', 'C', 'Y', 'y'}
    case AltO => c in {'d', 'e', 'H', 'I', 'M', 'm', 'S', 'U', 'W', 'w', 'y'}
  }

  /** The formats of the conversions that are implemented through recursion. */
  function SubFormat(c: char): string {
    if c == 'c' then "%x %X"
    else if c == 'D' || c == 'x' then "%m/%d/%y"
    else if c == 'R' then "%H:%M"
    else if c == 'r' then "%I:%M:%S %p"
    else if c == 'T' || c == 'X' then "%H:%M:%S"
    else ""
  }

  /** How deep a conversion recurses. */
  function Level(c: char): nat {
    if c == 'c' then 2 else if SubFormat(c) != "" then 1 else 0
  }

  function FormatLevel(fmt: string): nat {
    if 'c' in fmt then 2 else if exists c <- fmt :: Level(c) == 1 then 1 else 0
  }

  /** A number, and what storing it does to the fields. */
  function Number(buf: string, p: nat, llim: int, ulim: nat, time: Time, split: bool, store: int -> Time): Field {
    match ConvNum(buf, p, llim, ulim)
    case Fail => Field(Failed, time, split)
    case Read(n, next) => Field(Stopped(next), store(n), split)
  }

  function YearOfTwoDigits(n: int): int {
    if n <= 68 then n + 2000 - TM_YEAR_BASE else n + 1900 - TM_YEAR_BASE
  }

  /** The elementary conversions. */
  function Elementary(c: char, buf: string, p: nat, t: Time, split: bool): Field {
    if c == 'A' || c == 'a' then
      match FindName(buf, p, DAY, ABDAY, 0)
      case NoName => Field(Failed, t, split)
      case Name(i, len) => Field(Stopped(p + len), t.(wday := i), split)
    else if c == 'B' || c == 'b' || c == 'h' then
      match FindName(buf, p, MON, ABMON, 0)
      case NoName => Field(Failed, t, split)
      case Name(i, len) => Field(Stopped(p + len), t.(mon := i), split)
    else if c == 'C' then
      var f := Number(buf, p, 0, 99, t, split,
                      n => t.(year := if split then TruncMod(t.year, 100) + n * 100 else n * 100));
      if f.next == Failed then f else f.(split := true)
    else if c == 'd' || c == 'e' then Number(buf, p, 1, 31, t, split, n => t.(mday := n))
    else if c == 'k' || c == 'H' then Number(buf, p, 0, 23, t, split, n => t.(hour := n))
    else if c == 'l' || c == 'I' then Number(buf, p, 1, 12, t, split, n => t.(hour := if n == 12 then 0 else n))
    else if c == 'j' then Number(buf, p, 1, 366, t, split, n => t.(yday := n - 1))
    else if c == 'M' then Number(buf, p, 0, 59, t, split, n => t.(min := n))
    else if c == 'm' then Number(buf, p, 1, 12, t, split, n => t.(mon := n - 1))
    else if c == 'p' then
      if StartsWith(buf, p, "AM") && p + 2 == |buf| then
        if t.hour > 11 then Field(Failed, t, split) else Field(Stopped(p + 2), t, split)
      else if StartsWith(buf, p, "PM") && p + 2 == |buf| then
        if t.hour > 11 then Field(Failed, t, split) else Field(Stopped(p + 2), t.(hour := t.hour + 12), split)
      else Field(Failed, t, split)
    else if c == 'S' then Number(buf, p, 0, 61, t, split, n => t.(sec := n))
    else if c == 'U' || c == 'W' then Number(buf, p, 0, 53, t, split, n => t)
    else if c == 'w' then Number(buf, p, 0, 6, t, split, n => t.(wday := n))
    else if c == 'Y' then Number(buf, p, 0, 9999, t, split, n => t.(year := n - TM_YEAR_BASE))
    else if c == 'y' then
      var f := Number(buf, p, 0, 99, t, split,
                      n => t.(year := if split then TruncDiv(t.year, 100) * 100 + n else YearOfTwoDigits(n)));
      if f.next == Failed then f else f.(split := true)
    else if c == 'n' || c == 't' then Field(Stopped(SkipSpace(buf, p)), t, split)
    else Field(Failed, t, split)
  }

  /** `my_strptime` from the position `p` on. */
  function Parse(fmt: string, buf: string, p: nat, t: Time, split: bool): Parsed
    decreases FormatLevel(fmt), |fmt|, 1
  {
    if fmt == "" then Parsed(Stopped(p), t)
    else if IsSpace(fmt[0]) then Parse(fmt[1..], buf, SkipSpace(buf, p), t, split)
    else if fmt[0] != '%' then Literal(fmt[0], fmt[1..], buf, p, t, split)
    else Convert(fmt[1..], Plain, buf, p, t, split)
  }

  function Literal(c: char, rest: string, buf: string, p: nat, t: Time, split: bool): Parsed
    decreases FormatLevel([c] + rest), |rest| + 1, 0
  {
    if StartsWith(buf, p, [c]) then Parse(rest, buf, p + 1, t, split) else Parsed(Failed, t)
  }

  /** What follows a `%`, and the modifiers read so far. */
  function Convert(fmt: string, alt: Alt, buf: string, p: nat, t: Time, split: bool): Parsed
    decreases FormatLevel(fmt), |fmt|, 1
  {
    if fmt == "" then Parsed(Failed, t)
    else
      var c, rest := fmt[0], fmt[1..];
      if c == '%' then Literal(c, rest, buf, p, t, split)
      else if c == 'E' || c == 'O' then
        if alt != Plain then Parsed(Failed, t)
        else Convert(rest, if c == 'E' then AltE else AltO, buf, p, t, split)
      else if !LegalAlt(c, alt) then Parsed(Failed, t)
      else if SubFormat(c) != "" then
        assert FormatLevel(SubFormat(c)) < Level(c) by { SubFormatLevel(c); }
        var sub := Parse(SubFormat(c), buf, p, t, false);
        match sub.next
        case Failed => sub
        case Stopped(q) => Parse(rest, buf, q, sub.time, split)
      else
        var f := Elementary(c, buf, p, t, split);
        match f.next
        case Failed => Parsed(Failed, f.time)
        case Stopped(q) => Parse(rest, buf, q, f.time, f.split)
  }

  lemma LevelBound(fmt: string, c: char)
    requires c in fmt
    ensures Level(c) <= FormatLevel(fmt)
  {
  }

  lemma SubFormatLevel(c: char)
    requires SubFormat(c) != ""
    ensures FormatLevel(SubFormat(c)) < Level(c)
  {
  }
}
