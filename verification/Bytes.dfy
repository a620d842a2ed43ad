/** Values shared by the codecs: bytes, little- and big-endian numbers, and exclusive or. */
module Bytes {

  datatype Option<+T> = None | Some(value: T)

  type byte = b: int | 0 <= b < 256

  /** What a codec reads from the front of a frame: header size and payload size. */
  datatype Header = Header(head: nat, payload: int)

  /** The low sixteen bits of `n`, least significant byte first. */
  function Le16(n: int): seq<byte> {
    [n % 256, n / 256 % 256]
  }

  function FromLe16(s: seq<byte>): (n: int)
    requires |s| == 2
    ensures 0 <= n < 0x1_0000
  {
    s[0] as int + s[1] as int * 256
  }

  /** The low thirty-two bits of `n`, least significant byte first. */
  function Le32(n: int): seq<byte> {
    [n % 256, n / 256 % 256, n / 0x1_0000 % 256, n / 0x100_0000 % 256]
  }

  function FromLe32(s: seq<byte>): (n: int)
    requires |s| == 4
    ensures 0 <= n < 0x1_0000_0000
  {
    s[0] as int + s[1] as int * 256 + s[2] as int * 0x1_0000 + s[3] as int * 0x100_0000
  }

  /** `k` bytes of `n`, most significant first. */
  function BigEndian(n: nat, k: nat): (s: seq<byte>)
    ensures |s| == k
  {
    if k == 0 then [] else BigEndian(n / 256, k - 1) + [n % 256]
  }

  function FromBigEndian(s: seq<byte>): nat {
    if s == [] then 0 else 256 * FromBigEndian(s[..|s| - 1]) + s[|s| - 1]
  }

  function Power256(k: nat): nat {
    if k == 0 then 1 else 256 * Power256(k - 1)
  }

  lemma {:induction false} BigEndianRoundTrip(n: nat, k: nat)
    requires n < Power256(k)
    ensures FromBigEndian(BigEndian(n, k)) == n
  {
    if k > 0 {
      BigEndianRoundTrip(n / 256, k - 1);
      var s := BigEndian(n, k);
      assert s[..|s| - 1] == BigEndian(n / 256, k - 1);
    }
  }

  /** `n >> 8 * i`. */
  function ShiftBytes(n: nat, i: nat): nat {
    if i == 0 then n else ShiftBytes(n / 256, i - 1)
  }

  lemma {:induction false} BigEndianAt(n: nat, k: nat, j: nat)
    requires j < k
    ensures BigEndian(n, k)[j] == ShiftBytes(n, k - 1 - j) % 256
  {
    if j < k - 1 {
      BigEndianAt(n / 256, k - 1, j);
    }
  }

  lemma Le16RoundTrip(n: int)
    ensures FromLe16(Le16(n)) == n % 0x1_0000
  {
    assert n % 0x1_0000 == n - n / 0x1_0000 * 0x1_0000;
    assert n / 0x1_0000 == n / 256 / 256;
  }

  lemma Le32RoundTrip(n: int)
    ensures FromLe32(Le32(n)) == n % 0x1_0000_0000
  {
    assert n / 0x1_0000 == n / 256 / 256;
    assert n / 0x100_0000 == n / 256 / 256 / 256;
    assert n / 0x1_0000_0000 == n / 256 / 256 / 256 / 256;
  }

  /** The exclusive or of the low `k` bits of `a` and `b`. */
  function XorBits(a: nat, b: nat, k: nat): nat {
    if k == 0 then 0 else 2 * XorBits(a / 2, b / 2, k - 1) + (a % 2 + b % 2) % 2
  }

  function Power2(k: nat): nat {
    if k == 0 then 1 else 2 * Power2(k - 1)
  }

  lemma {:induction false} XorBounded(a: nat, b: nat, k: nat)
    ensures XorBits(a, b, k) < Power2(k)
  {
    if k > 0 {
      XorBounded(a / 2, b / 2, k - 1);
    }
  }

  lemma XorStep(high: nat, low: nat, b: nat, k: nat)
    requires low < 2 && 0 < k
    ensures XorBits(2 * high + low, b, k) == 2 * XorBits(high, b / 2, k - 1) + (low + b % 2) % 2
  {
    assert (2 * high + low) / 2 == high && (2 * high + low) % 2 == low;
  }

  lemma BitCancels(a: nat, b: nat)
    ensures ((a % 2 + b % 2) % 2 + b % 2) % 2 == a % 2
  {
    if b % 2 == 1 {
      assert a % 2 == 0 || a % 2 == 1;
    }
  }

  lemma {:induction false} XorCancels(a: nat, b: nat, k: nat)
    requires a < Power2(k)
    ensures XorBits(XorBits(a, b, k), b, k) == a
  {
    if k > 0 {
      var high, low, c := XorBits(a / 2, b / 2, k - 1), (a % 2 + b % 2) % 2, b / 2;
      assert XorBits(a, b, k) == 2 * high + low;
      BitCancels(a, b);
      hide XorBits;
      XorStep(high, low, b, k);
      XorCancels(a / 2, c, k - 1);
    }
  }

  function Xor(a: byte, b: byte): byte {
    XorBounded(a, b, 8);
    assert Power2(8) == 256;
    XorBits(a, b, 8)
  }

  lemma XorTwice(a: byte, b: byte)
    ensures Xor(Xor(a, b), b) == a
  {
    assert Power2(8) == 256;
    XorCancels(a, b, 8);
  }

  /** All the sequences, one after the other. */
  function Concat<T>(parts: seq<seq<T>>): seq<T> {
    if parts == [] then [] else parts[0] + Concat(parts[1..])
  }

  lemma {:induction false} ConcatAppend<T>(a: seq<seq<T>>, b: seq<seq<T>>)
    ensures Concat(a + b) == Concat(a) + Concat(b)
  {
    if a == [] {
      assert a + b == b;
    } else {
      assert (a + b)[1..] == a[1..] + b;
      ConcatAppend(a[1..], b);
    }
  }
}
