/** utils/timestamp.c as it runs: loops over the format and the input that write the caller's fields. */
module Timestamp {
  import opened Numerals
  import opened Strptime

  class Tm {
    var sec: int
    var min: int
    var hour: int
    var mday: int
    var mon: int
    var year: int
    var wday: int
    var yday: int

    function Fields(): Time
      reads this
    {
      Time(sec, min, hour, mday, mon, year, wday, yday)
    }
  }

  method EatSpace(buf: string, p: nat) returns (q: nat)
    ensures q == SkipSpace(buf, p)
  {
    q := p;
    while IsSpace(At(buf, q))
      invariant SkipSpace(buf, q) == SkipSpace(buf, p)
      decreases |buf| - q
    {
      q := q + 1;
    }
  }

  method MatchName(buf: string, p: nat, full: seq<string>, short: seq<string>) returns (r: Named)
    requires |full| == |short|
    ensures r == FindName(buf, p, full, short, 0)
  {
    for i := 0 to |full|
      invariant FindName(buf, p, full, short, i) == FindName(buf, p, full, short, 0)
    {
      if StartsWith(buf, p, full[i]) {
        return Name(i, |full[i]|);
      }
      if StartsWith(buf, p, short[i]) {
        return Name(i, |short[i]|);
      }
    }
    return NoName;
  }

  /** The elementary conversions of the switch. */
  method ConvertField(c: char, buf: string, p: nat, tm: Tm, split: bool) returns (next: Next, nowSplit: bool)
    modifies tm
    ensures Field(next, tm.Fields(), nowSplit) == Elementary(c, buf, p, old(tm.Fields()), split)
  {
    nowSplit := split;
    hide ConvNum, SkipSpace, FindName, StartsWith, TruncMod, TruncDiv;
    var ok: bool, n: int, q: nat;
    if c == 'A' || c == 'a' {
      var name := MatchName(buf, p, DAY, ABDAY);
      if name.NoName? {
        return Failed, nowSplit;
      }
      tm.wday := name.index;
      return Stopped(p + name.len), nowSplit;
    } else if c == 'B' || c == 'b' || c == 'h' {
      var name := MatchName(buf, p, MON, ABMON);
      if name.NoName? {
        return Failed, nowSplit;
      }
      tm.mon := name.index;
      return Stopped(p + name.len), nowSplit;
    } else if c == 'C' {
      ok, n, q := ConvNumLoop(buf, p, 0, 99);
      if !ok {
        return Failed, nowSplit;
      }
      if split {
        tm.year := TruncMod(tm.year, 100) + n * 100;
      } else {
        tm.year := n * 100;
        nowSplit := true;
      }
    } else if c == 'd' || c == 'e' {
      ok, n, q := ConvNumLoop(buf, p, 1, 31);
      if !ok {
        return Failed, nowSplit;
      }
      tm.mday := n;
    } else if c == 'k' || c == 'H' {
      ok, n, q := ConvNumLoop(buf, p, 0, 23);
      if !ok {
        return Failed, nowSplit;
      }
      tm.hour := n;
    } else if c == 'l' || c == 'I' {
      ok, n, q := ConvNumLoop(buf, p, 1, 12);
      if !ok {
        return Failed, nowSplit;
      }
      tm.hour := n;
      if tm.hour == 12 {
        tm.hour := 0;
      }
    } else if c == 'j' {
      ok, n, q := ConvNumLoop(buf, p, 1, 366);
      if !ok {
        return Failed, nowSplit;
      }
      tm.yday := n - 1;
    } else if c == 'M' {
      ok, n, q := ConvNumLoop(buf, p, 0, 59);
      if !ok {
        return Failed, nowSplit;
      }
      tm.min := n;
    } else if c == 'm' {
      ok, n, q := ConvNumLoop(buf, p, 1, 12);
      if !ok {
        return Failed, nowSplit;
      }
      tm.mon := n - 1;
    } else if c == 'p' {
      if StartsWith(buf, p, "AM") && p + 2 == |buf| {
        if tm.hour > 11 {
          return Failed, nowSplit;
        }
        return Stopped(p + 2), nowSplit;
      } else if StartsWith(buf, p, "PM") && p + 2 == |buf| {
        if tm.hour > 11 {
          return Failed, nowSplit;
        }
        tm.hour := tm.hour + 12;
        return Stopped(p + 2), nowSplit;
      }
      return Failed, nowSplit;
    } else if c == 'S' {
      ok, n, q := ConvNumLoop(buf, p, 0, 61);
      if !ok {
        return Failed, nowSplit;
      }
      tm.sec := n;
    } else if c == 'U' || c == 'W' {
      ok, n, q := ConvNumLoop(buf, p, 0, 53);
      if !ok {
        return Failed, nowSplit;
      }
    } else if c == 'w' {
      ok, n, q := ConvNumLoop(buf, p, 0, 6);
      if !ok {
        return Failed, nowSplit;
      }
      tm.wday := n;
    } else if c == 'Y' {
      ok, n, q := ConvNumLoop(buf, p, 0, 9999);
      if !ok {
        return Failed, nowSplit;
      }
      tm.year := n - TM_YEAR_BASE;
    } else if c == 'y' {
      ok, n, q := ConvNumLoop(buf, p, 0, 99);
      if !ok {
        return Failed, nowSplit;
      }
      if split {
        tm.year := TruncDiv(tm.year, 100) * 100 + n;
      } else {
        nowSplit := true;
        if n <= 68 {
          tm.year := n + 2000 - TM_YEAR_BASE;
        } else {
          tm.year := n + 1900 - TM_YEAR_BASE;
        }
      }
    } else if c == 'n' || c == 't' {
      q := EatSpace(buf, p);
    } else {
      return Failed, nowSplit;
    }
    return Stopped(q), nowSplit;
  }

  /** `my_strptime`. On failure the fields written so far stay written. */
  method MyStrptime(buf: string, start: nat, fmt: string, tm: Tm) returns (next: Next)
    modifies tm
    ensures Parsed(next, tm.Fields()) == Parse(fmt, buf, start, old(tm.Fields()), false)
    decreases FormatLevel(fmt)
  {
    hide Elementary, SkipSpace, FormatLevel, StartsWith, SubFormat, LegalAlt, IsSpace;
    var bp, f, split := start, 0, false;
    assert fmt[0..] == fmt;
    while f < |fmt|
      invariant f <= |fmt|
      invariant Parse(fmt[f..], buf, bp, tm.Fields(), split) == Parse(fmt, buf, start, old(tm.Fields()), false)
      decreases |fmt| - f
    {
      var c := fmt[f];
      assert fmt[f..][1..] == fmt[f + 1..] && fmt[f..][0] == c;
      if IsSpace(c) {
        bp := EatSpace(buf, bp);
        f := f + 1;
        continue;
      }
      f := f + 1;
      var alt := Plain;
      if c == '%' {
        ghost var from := f;
        while f < |fmt| && (fmt[f] == 'E' || fmt[f] == 'O')
          invariant from <= f <= |fmt|
          invariant Convert(fmt[f..], alt, buf, bp, tm.Fields(), split)
                 == Parse(fmt, buf, start, old(tm.Fields()), false)
        {
          assert fmt[f..][1..] == fmt[f + 1..] && fmt[f..][0] == fmt[f];
          if alt != Plain {
            return Failed;
          }
          alt := if fmt[f] == 'E' then AltE else AltO;
          f := f + 1;
        }
        if f == |fmt| {
          return Failed;
        }
        c := fmt[f];
        assert fmt[f..][1..] == fmt[f + 1..] && fmt[f..][0] == c;
        f := f + 1;
        if c != '%' {
          if !LegalAlt(c, alt) {
            return Failed;
          }
          if SubFormat(c) != "" {
            SubFormatLevel(c);
            LevelBound(fmt, c);
            next := MyStrptime(buf, bp, SubFormat(c), tm);
            if next.Failed? {
              return;
            }
            bp := next.at;
          } else {
            var q, nowSplit := ConvertField(c, buf, bp, tm, split);
            if q.Failed? {
              return Failed;
            }
            bp, split := q.at, nowSplit;
          }
          continue;
        }
      }
      // a literal, or the second half of "%%"
      if !StartsWith(buf, bp, [c]) {
        return Failed;
      }
      bp := bp + 1;
    }
    return Stopped(bp);
  }
}
