/** Decimal numerals, and `conv_num` of utils/timestamp.c. */
module Numerals {

  predicate IsDigit(c: char) {
    '0' <= c <= '9'
  }

  function DigitValue(c: char): int
    requires IsDigit(c)
  {
    c as int - '0' as int
  }

  function DigitChar(d: int): (c: char)
    requires 0 <= d < 10
    ensures IsDigit(c) && DigitValue(c) == d
  {
    (d + '0' as int) as char
  }

  /** `n` without its last `k` decimal digits. */
  function Shed(n: nat, k: nat): nat {
    if k == 0 then n else Shed(n / 10, k - 1)
  }

  /** How many digits a numeral of `n` has. */
  function DigitCount(n: nat): (k: nat)
    ensures 1 <= k
  {
    if n < 10 then 1 else 1 + DigitCount(n / 10)
  }

  /** The last `k` digits of `n`, zero-padded. */
  function Padded(n: nat, k: nat): (s: string)
    ensures |s| == k
  {
    if k == 0 then "" else Padded(n / 10, k - 1) + [DigitChar(n % 10)]
  }

  /** The value a string of digits denotes. */
  function Value(s: string): nat
    requires forall c <- s :: IsDigit(c)
  {
    if s == "" then 0 else 10 * Value(s[..|s| - 1]) + DigitValue(s[|s| - 1])
  }

  lemma {:induction false} ShedStep(n: nat, k: nat)
    ensures Shed(n, k + 1) == Shed(n, k) / 10
    ensures k > 0 ==> Shed(n, k) <= n / 10
  {
    if k > 0 {
      ShedStep(n / 10, k - 1);
    }
  }

  lemma {:induction false} ShedDigits(n: nat, k: nat)
    ensures k < DigitCount(n) && 0 < n ==> 0 < Shed(n, k)
    ensures DigitCount(n) <= k ==> Shed(n, k) == 0
  {
    if k == 0 {
    } else if n < 10 {
      ShedZero(k - 1);
    } else {
      ShedDigits(n / 10, k - 1);
    }
  }

  lemma {:induction false} ShedZero(k: nat)
    ensures Shed(0, k) == 0
  {
    if k > 0 {
      ShedZero(k - 1);
    }
  }

  lemma {:induction false} PaddedDigits(n: nat, k: nat)
    ensures forall c <- Padded(n, k) :: IsDigit(c)
  {
    if k > 0 {
      PaddedDigits(n / 10, k - 1);
    }
  }

  /** A numeral with enough digits denotes its number. */
  lemma {:induction false} ValueOfPadded(n: nat, k: nat)
    requires DigitCount(n) <= k
    ensures forall c <- Padded(n, k) :: IsDigit(c)
    ensures Value(Padded(n, k)) == n
  {
    PaddedDigits(n, k);
    var s := Padded(n, k);
    assert s[..k - 1] == Padded(n / 10, k - 1);
    PaddedDigits(n / 10, k - 1);
    if 10 <= n {
      ValueOfPadded(n / 10, k - 1);
    } else {
      ValueOfZeros(k - 1);
    }
  }

  lemma {:induction false} ValueOfZeros(k: nat)
    ensures forall c <- Padded(0, k) :: IsDigit(c)
    ensures Value(Padded(0, k)) == 0
  {
    PaddedDigits(0, k);
    if k > 0 {
      ValueOfZeros(k - 1);
      assert Padded(0, k)[..k - 1] == Padded(0, k - 1);
    }
  }

  // -------------------------------------------------------------------------------------------
  // conv_num
  // -------------------------------------------------------------------------------------------

  /** `*p` in a C string: its terminator is read as NUL. */
  function At(s: string, p: nat): char {
    if p < |s| then s[p] else '\0'
  }

  datatype Conv = Fail | Read(value: int, next: nat)

  /** The digit loop from a digit at `p` on: what is read, and where it stops. */
  function ReadDigits(s: string, p: nat, result: int, rulim: nat, ulim: nat): (int, nat)
    requires IsDigit(At(s, p))
    decreases |s| - p
  {
    var r := result * 10 + DigitValue(s[p]);
    if r * 10 <= ulim && rulim / 10 != 0 && IsDigit(At(s, p + 1))
    then ReadDigits(s, p + 1, r, rulim / 10, ulim)
    else (r, p + 1)
  }

  function ConvNum(s: string, p: nat, llim: int, ulim: nat): Conv {
    if !IsDigit(At(s, p)) then Fail
    else
      var (r, next) := ReadDigits(s, p, 0, ulim, ulim);
      if r < llim || r > ulim then Fail else Read(r, next)
  }

  /** Every value the accumulator takes in that loop. */
  function Accumulators(s: string, p: nat, result: int, rulim: nat, ulim: nat): seq<int>
    requires IsDigit(At(s, p))
    decreases |s| - p
  {
    var r := result * 10 + DigitValue(s[p]);
    if r * 10 <= ulim && rulim / 10 != 0 && IsDigit(At(s, p + 1))
    then [r] + Accumulators(s, p + 1, r, rulim / 10, ulim)
    else [r]
  }

  /** The accumulator never passes its limit by more than 9, whatever the input: it cannot overflow. Its
      last value is the one read. */
  lemma {:induction false} AccumulatorBounded(s: string, p: nat, result: int, rulim: nat, ulim: nat)
    requires IsDigit(At(s, p)) && 0 <= result && result * 10 <= ulim
    ensures var rs := Accumulators(s, p, result, rulim, ulim);
            && rs != [] && rs[|rs| - 1] == ReadDigits(s, p, result, rulim, ulim).0
            && forall r <- rs :: 0 <= r <= ulim + 9
    decreases |s| - p
  {
    var r := result * 10 + DigitValue(s[p]);
    if r * 10 <= ulim && rulim / 10 != 0 && IsDigit(At(s, p + 1)) {
      AccumulatorBounded(s, p + 1, r, rulim / 10, ulim);
    }
  }

  /** `conv_num`; `next` is where it leaves the caller's pointer, and `result` what its accumulator holds,
      which on success is the number read. */
  method ConvNumLoop(s: string, p: nat, llim: int, ulim: nat) returns (ok: bool, result: int, next: nat)
    ensures ok == ConvNum(s, p, llim, ulim).Read?
    ensures ok ==> ConvNum(s, p, llim, ulim) == Read(result, next)
    ensures 0 <= result <= ulim + 9
    ensures IsDigit(At(s, p)) ==> (result, next) == ReadDigits(s, p, 0, ulim, ulim)
  {
    result, next := 0, p;
    var rulim := ulim;
    if At(s, p) < '0' || At(s, p) > '9' {
      return false, result, next;
    }
    var more := true;
    while more
      invariant more ==> IsDigit(At(s, next)) && result * 10 <= ulim
      invariant 0 <= result <= ulim + 9
      invariant ReadDigits(s, p, 0, ulim, ulim)
             == if more then ReadDigits(s, next, result, rulim, ulim) else (result, next)
      invariant more ==> next < |s|
      decreases more, |s| - next
    {
      result := result * 10;
      result := result + (s[next] as int - '0' as int);
      next := next + 1;
      rulim := rulim / 10;
      more := result * 10 <= ulim && rulim != 0 && '0' <= At(s, next) <= '9';
    }
    return llim <= result <= ulim, result, next;
  }

  /** The first `n` characters from `p` on are the digits a conversion takes: it goes on as long as one more
      digit could still be within the upper limit, at most for as many digits as that has. */
  predicate Taken(s: string, p: nat, n: nat, ulim: nat) {
    && 1 <= n <= DigitCount(ulim) && p + n <= |s| && (forall c <- s[p..p + n] :: IsDigit(c))
    && (forall c <- s[p..p + n - 1] :: IsDigit(c)) && Value(s[p..p + n - 1]) * 10 <= ulim
    && (n == DigitCount(ulim) || ulim < Value(s[p..p + n]) * 10 || !IsDigit(At(s, p + n)))
  }

  lemma {:induction false} ReadDigitsTakes(s: string, p: nat, q: nat, result: int, rulim: nat, ulim: nat, j: nat)
    requires IsDigit(At(s, q)) && q == p + j && rulim == Shed(ulim, j) && j < DigitCount(ulim)
    requires forall c <- s[p..q] :: IsDigit(c)
    requires result == Value(s[p..q]) && result * 10 <= ulim
    ensures var (r, next) := ReadDigits(s, q, result, rulim, ulim);
            q < next && Taken(s, p, next - p, ulim) && r == Value(s[p..next])
    decreases |s| - q
  {
    hide *;
    AtDigit(s, q);
    ReadStep(s, q, result, rulim, ulim);
    ValueOneMore(s, p, q);
    ShedStep(ulim, j);
    ShedDigits(ulim, j + 1);
    ZeroDigits();
    var r := result * 10 + DigitValue(s[q]);
    if r * 10 <= ulim && rulim / 10 != 0 && IsDigit(At(s, q + 1)) {
      ReadDigitsTakes(s, p, q + 1, r, rulim / 10, ulim, j + 1);
    } else {
      TakenHere(s, p, j + 1, ulim);
    }
  }

  lemma AtDigit(s: string, q: nat)
    requires IsDigit(At(s, q))
    ensures q < |s| && At(s, q) == s[q]
    ensures !IsDigit(At(s, |s|))
  {
  }

  lemma ZeroDigits()
    ensures DigitCount(0) == 1
  {
  }

  lemma ReadStep(s: string, q: nat, result: int, rulim: nat, ulim: nat)
    requires IsDigit(At(s, q))
    ensures var r := result * 10 + DigitValue(s[q]);
            ReadDigits(s, q, result, rulim, ulim)
              == if r * 10 <= ulim && rulim / 10 != 0 && IsDigit(At(s, q + 1))
                 then ReadDigits(s, q + 1, r, rulim / 10, ulim) else (r, q + 1)
  {
  }

  lemma TakenHere(s: string, p: nat, n: nat, ulim: nat)
    requires 1 <= n <= DigitCount(ulim) && p + n <= |s|
    requires (forall c <- s[p..p + n] :: IsDigit(c)) && (forall c <- s[p..p + n - 1] :: IsDigit(c))
    requires Value(s[p..p + n - 1]) * 10 <= ulim
    requires n == DigitCount(ulim) || ulim < Value(s[p..p + n]) * 10 || !IsDigit(At(s, p + n))
    ensures Taken(s, p, n, ulim)
  {
  }

  lemma ReadTakes(s: string, p: nat, ulim: nat)
    requires IsDigit(At(s, p))
    ensures var (r, next) := ReadDigits(s, p, 0, ulim, ulim);
            p < next && Taken(s, p, next - p, ulim) && r == Value(s[p..next])
  {
    assert s[p..p] == "";
    ReadDigitsTakes(s, p, p, 0, ulim, ulim, 0);
  }

  lemma ValueOneMore(s: string, p: nat, q: nat)
    requires p <= q < |s| && IsDigit(s[q]) && forall c <- s[p..q] :: IsDigit(c)
    ensures forall c <- s[p..q + 1] :: IsDigit(c)
    ensures Value(s[p..q + 1]) == 10 * Value(s[p..q]) + DigitValue(s[q])
  {
    var t := s[p..q + 1];
    assert t == s[p..q] + [s[q]];
    assert t[..|t| - 1] == s[p..q] && t[|t| - 1] == s[q];
  }

  lemma {:induction false} PrefixValue(s: string, p: nat, m: nat, n: nat)
    requires m <= n && p + n <= |s| && forall c <- s[p..p + n] :: IsDigit(c)
    ensures forall c <- s[p..p + m] :: IsDigit(c)
    ensures Value(s[p..p + m]) <= Value(s[p..p + n])
    decreases n
  {
    if m < n {
      assert s[p..p + n] == s[p..p + n - 1] + [s[p + n - 1]];
      ValueOneMore(s, p, p + n - 1);
      PrefixValue(s, p, m, n - 1);
    }
  }

  /** No two numbers of digits are both the ones taken. */
  lemma TakenOnce(s: string, p: nat, m: nat, n: nat, ulim: nat)
    requires Taken(s, p, m, ulim) && Taken(s, p, n, ulim)
    ensures m == n
  {
    if m < n {
      TakenNotShorter(s, p, m, n, ulim);
    } else if n < m {
      TakenNotShorter(s, p, n, m, ulim);
    }
  }

  lemma TakenNotShorter(s: string, p: nat, m: nat, n: nat, ulim: nat)
    requires 1 <= m < n && Taken(s, p, n, ulim)
    ensures !Taken(s, p, m, ulim)
  {
    PrefixValue(s, p, m, n - 1);
    assert s[p..p + n][m] == s[p + m];
    hide Value, DigitCount;
  }

  /** `conv_num` exactly: it succeeds with the number denoted by the digits taken, when that is within the
      limits, and stops behind them; */
  lemma ConvNumExact(s: string, p: nat, llim: int, ulim: nat, v: int, next: nat)
    ensures ConvNum(s, p, llim, ulim) == Read(v, next)
       <==> p < next && Taken(s, p, next - p, ulim) && v == Value(s[p..next]) && llim <= v <= ulim
  {
    if p < next && Taken(s, p, next - p, ulim) {
      assert s[p..next][0] == s[p];
    }
    if IsDigit(At(s, p)) {
      ReadTakes(s, p, ulim);
      var taken := ReadDigits(s, p, 0, ulim, ulim).1;
      hide ReadDigits, Value;
      if p < next && Taken(s, p, next - p, ulim) {
        TakenOnce(s, p, next - p, taken - p, ulim);
      }
    }
  }

  /** and it fails exactly when no digit is there, or the number of those taken is outside the limits. */
  lemma ConvNumFails(s: string, p: nat, llim: int, ulim: nat)
    ensures ConvNum(s, p, llim, ulim).Fail?
       <==> !IsDigit(At(s, p)) || exists n | Taken(s, p, n, ulim) :: !(llim <= Value(s[p..p + n]) <= ulim)
  {
    if IsDigit(At(s, p)) {
      ReadTakes(s, p, ulim);
      var taken := ReadDigits(s, p, 0, ulim, ulim).1;
      hide ReadDigits, Value;
      forall n | Taken(s, p, n, ulim) ensures n == taken - p {
        TakenOnce(s, p, n, taken - p, ulim);
      }
      assert s[p..p + (taken - p)] == s[p..taken];
    }
  }

  /** Every numeral within the limits is read exactly, whether or not it is zero-padded, when it has all the
      digits the upper limit has or is followed by something else than a digit. */
  lemma ConvNumOfDigits(s: string, p: nat, d: string, llim: int, ulim: nat)
    requires 1 <= |d| <= DigitCount(ulim) && (forall c <- d :: IsDigit(c)) && llim <= Value(d) <= ulim
    requires p + |d| <= |s| && s[p..p + |d|] == d
    requires |d| == DigitCount(ulim) || !IsDigit(At(s, p + |d|))
    ensures ConvNum(s, p, llim, ulim) == Read(Value(d), p + |d|)
  {
    var n := |d|;
    PrefixValue(s, p, n - 1, n);
    LastDigit(s, p, n);
    hide *;
    TakenHere(s, p, n, ulim);
    ConvNumExact(s, p, llim, ulim, Value(d), p + n);
  }

  lemma LastDigit(s: string, p: nat, n: nat)
    requires 0 < n && p + n <= |s|
    requires (forall c <- s[p..p + n] :: IsDigit(c)) && (forall c <- s[p..p + n - 1] :: IsDigit(c))
    ensures Value(s[p..p + n - 1]) * 10 <= Value(s[p..p + n])
  {
    assert s[p..p + n][n - 1] == s[p + n - 1];
    ValueOneMore(s, p, p + n - 1);
    hide Value;
  }

  /** A successful conversion reads between one and as many digits as its upper limit has, and yields
      the number they denote, within the limits. */
  lemma ConvNumReads(s: string, p: nat, llim: int, ulim: nat)
    requires ConvNum(s, p, llim, ulim).Read?
    ensures var c := ConvNum(s, p, llim, ulim);
            && p < c.next <= |s| && c.next <= p + DigitCount(ulim)
            && (forall d <- s[p..c.next] :: IsDigit(d)) && c.value == Value(s[p..c.next])
            && llim <= c.value <= ulim
  {
    var c := ConvNum(s, p, llim, ulim);
    ConvNumExact(s, p, llim, ulim, c.value, c.next);
    hide ConvNum, Value, DigitCount;
  }

  /** Any number within the limits, printed with as many digits as the upper limit has, is read back
      exactly, whatever follows it. */
  lemma ConvNumOfPadded(s: string, p: nat, n: nat, llim: int, ulim: nat)
    requires llim <= n <= ulim
    requires p + DigitCount(ulim) <= |s| && s[p..p + DigitCount(ulim)] == Padded(n, DigitCount(ulim))
    ensures ConvNum(s, p, llim, ulim) == Read(n, p + DigitCount(ulim))
  {
    DigitCountMonotone(n, ulim);
    ValueOfPadded(n, DigitCount(ulim));
    ConvNumOfDigits(s, p, Padded(n, DigitCount(ulim)), llim, ulim);
  }

  lemma {:induction false} DigitCountMonotone(m: nat, n: nat)
    requires m <= n
    ensures DigitCount(m) <= DigitCount(n)
  {
    if 10 <= m {
      DigitCountMonotone(m / 10, n / 10);
    }
  }
}
