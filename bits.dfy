/*
 * Byte- and bit-level arithmetic shared by the GIF decoder and the PNG writer.
 *
 * Python works on unbounded non-negative integers; so does this module. The
 * bitwise operators the source uses (`&`, `|`, `<<`, `>>`) are defined here
 * from their bit-by-bit meaning, and lemmas relate them to the arithmetic
 * forms (`%`, `+`, `/`) that the rest of the model reasons with.
 */
module Bits {

  /** A value read out of a Python `bytes` object. */
  type byte = x: int | 0 <= x < 0x100

  /** An unsigned 16-bit value, as produced by `lo + 256 * hi`. */
  type u16 = x: int | 0 <= x < 0x1_0000

  /** 2 to the power n, i.e. Python's `1 << n` and `2 ** n`. */
  function Pow2(n: nat): (r: nat)
    ensures r >= 1
  {
    if n == 0 then 1 else 2 * Pow2(n - 1)
  }

  /** Python's `x << n` on a non-negative integer. */
  function Shl(x: nat, n: nat): nat
  {
    x * Pow2(n)
  }

  /** Python's `x >> n` on a non-negative integer: n halvings, rounding down. */
  function Shr(x: nat, n: nat): nat
  {
    if n == 0 then x else Shr(x / 2, n - 1)
  }

  /** The n low bits of x, i.e. `x % 2 ** n` (no source operator; used to state what masks keep). */
  function LowBits(x: nat, n: nat): (r: nat)
    ensures r < Pow2(n)
  {
    if n == 0 then 0 else 2 * LowBits(x / 2, n - 1) + x % 2
  }

  /** Python's `a & b` on non-negative integers, one bit at a time. */
  function BitAnd(a: nat, b: nat): nat
    decreases a
  {
    if a == 0 || b == 0 then 0
    else 2 * BitAnd(a / 2, b / 2) + (if a % 2 == 1 && b % 2 == 1 then 1 else 0)
  }

  /** Python's `a | b` on non-negative integers, one bit at a time. */
  function BitOr(a: nat, b: nat): nat
    decreases a + b
  {
    if a == 0 then b
    else if b == 0 then a
    else 2 * BitOr(a / 2, b / 2) + (if a % 2 == 1 || b % 2 == 1 then 1 else 0)
  }

  // ---------------------------------------------------------------------------
  // Powers of two, shifts and low bits

  /** The powers of two the descriptors' masks and table sizes use. */
  lemma Pow2Table()
    ensures Pow2(0) == 1 && Pow2(1) == 2 && Pow2(2) == 4 && Pow2(3) == 8 && Pow2(4) == 16
    ensures Pow2(5) == 32 && Pow2(6) == 64 && Pow2(7) == 128 && Pow2(8) == 256
  {
    assert Pow2(1) == 2 * Pow2(0);
    assert Pow2(2) == 2 * Pow2(1);
    assert Pow2(3) == 2 * Pow2(2);
    assert Pow2(4) == 2 * Pow2(3);
    assert Pow2(5) == 2 * Pow2(4);
    assert Pow2(6) == 2 * Pow2(5);
    assert Pow2(7) == 2 * Pow2(6);
    assert Pow2(8) == 2 * Pow2(7);
  }

  lemma {:induction false} Pow2Add(a: nat, b: nat)
    ensures Pow2(a + b) == Pow2(a) * Pow2(b)
  {
    if a > 0 {
      Pow2Add(a - 1, b);
      assert Pow2(a + b) == 2 * Pow2(a - 1 + b);
    }
  }

  /** The arithmetic step shared by the splitting lemmas, kept apart from the recursive definitions. */
  lemma ShiftedSum(whole: int, low: int, halfWhole: int, halfLow: int, bit: int, p: int, hi: int)
    requires whole == 2 * halfWhole + bit && low == 2 * halfLow + bit
    requires halfWhole == halfLow + p * hi
    ensures whole == low + (2 * p) * hi
  {
  }

  /** Shifting right by p and then by a is shifting right by p + a. */
  lemma {:induction false} ShrShr(x: nat, p: nat, a: nat)
    ensures Shr(Shr(x, p), a) == Shr(x, p + a)
  {
    if p > 0 {
      ShrShr(x / 2, p - 1, a);
    }
  }

  /** Every number is its n low bits plus 2^n times what is left after shifting them out. */
  lemma {:induction false} LowHighSplit(x: nat, n: nat)
    ensures x == LowBits(x, n) + Pow2(n) * Shr(x, n)
  {
    if n > 0 {
      LowHighSplit(x / 2, n - 1);
      var p := Pow2(n - 1);
      assert x / 2 == LowBits(x / 2, n - 1) + p * Shr(x / 2, n - 1);
      assert Pow2(n) * Shr(x, n) == 2 * (p * Shr(x / 2, n - 1));
    }
  }

  /** The low/high split is unique: if x == a + 2^n * b with a < 2^n, then a and b are those parts. */
  lemma {:induction false} LowHighUnique(x: nat, n: nat, a: nat, b: nat)
    requires a < Pow2(n) && x == a + Pow2(n) * b
    ensures LowBits(x, n) == a && Shr(x, n) == b
  {
    if n > 0 {
      var p := Pow2(n - 1);
      assert x == a % 2 + 2 * (a / 2 + p * b);
      assert x / 2 == a / 2 + p * b && x % 2 == a % 2;
      LowHighUnique(x / 2, n - 1, a / 2, b);
    }
  }

  lemma MulAssoc(a: int, b: int, c: int)
    ensures (a * b) * c == a * (b * c)
  {
  }

  lemma MulAtLeast(k: nat, d: nat)
    requires k >= 1
    ensures k * d >= d
  {
    assert k * d == (k - 1) * d + d;
  }

  /** Quotient and remainder are unique. */
  lemma DivModUnique(x: nat, d: nat, q: nat, r: nat)
    requires r < d && x == q * d + r
    ensures x / d == q && x % d == r
  {
    var q', r' := x / d, x % d;
    assert x == q' * d + r' && r' < d;
    if q' < q {
      assert (q - q') * d == r' - r;
      MulAtLeast(q - q', d);
    } else if q' > q {
      assert (q' - q) * d == r - r';
      MulAtLeast(q' - q, d);
    }
  }

  /** Shr and LowBits are Python's `x // 2 ** n` and `x % 2 ** n`. */
  lemma ShrLowBitsDivMod(x: nat, n: nat)
    ensures Shr(x, n) == x / Pow2(n) && LowBits(x, n) == x % Pow2(n)
  {
    LowHighSplit(x, n);
    DivModUnique(x, Pow2(n), Shr(x, n), LowBits(x, n));
  }

  // ---------------------------------------------------------------------------
  // Bitwise operators against their arithmetic forms

  /** One step of BitAnd against a mask with its lowest bit set. */
  lemma AndOddMask(x: nat, p: nat)
    requires x > 0 && p > 0
    ensures BitAnd(x, 2 * p - 1) == 2 * BitAnd(x / 2, p - 1) + x % 2
  {
    var m := 2 * p - 1;
    assert m % 2 == 1 && m / 2 == p - 1;
  }

  /** One step of BitAnd against a mask with its lowest bit clear. */
  lemma AndEvenMask(x: nat, q: nat)
    requires x > 0 && q > 0
    ensures BitAnd(x, 2 * q) == 2 * BitAnd(x / 2, q)
  {
    assert (2 * q) % 2 == 0 && (2 * q) / 2 == q;
  }

  /** Zero has no bits set, however it is shifted or masked. */
  lemma {:induction false} ZeroBits(lo: nat, w: nat)
    ensures Shr(0, lo) == 0 && LowBits(0, w) == 0
  {
    if lo > 0 {
      ZeroBits(lo - 1, w);
    } else if w > 0 {
      ZeroBits(0, w - 1);
    }
  }

  /** `x & ((1 << n) - 1)` keeps the n low bits of x. */
  lemma {:induction false} AndLowMask(x: nat, n: nat)
    ensures BitAnd(x, Pow2(n) - 1) == LowBits(x, n)
  {
    if n > 0 {
      var p := Pow2(n - 1);
      AndLowMask(x / 2, n - 1);
      assert LowBits(x, n) == 2 * LowBits(x / 2, n - 1) + x % 2;
      if x > 0 {
        assert Pow2(n) - 1 == 2 * p - 1;
        AndOddMask(x, p);
      }
    }
  }

  /**
   * Masking with w one-bits starting at bit lo selects that field of x, left in place:
   * `x & (((1 << w) - 1) << lo)` is the field `(x >> lo) % 2 ** w`, shifted back up by lo.
   */
  lemma {:induction false} AndField(x: nat, lo: nat, w: nat)
    ensures BitAnd(x, Shl(Pow2(w) - 1, lo)) == Shl(LowBits(Shr(x, lo), w), lo)
    decreases lo, 1
  {
    if lo == 0 {
      AndLowMask(x, w);
    } else if w == 0 {
      assert Shl(0, lo) == 0;
    } else if x == 0 {
      ZeroBits(lo, w);
    } else {
      AndFieldStep(x, lo, w);
    }
  }

  lemma {:induction false} AndFieldStep(x: nat, lo: nat, w: nat)
    requires x > 0 && lo > 0 && w > 0
    ensures BitAnd(x, Shl(Pow2(w) - 1, lo)) == Shl(LowBits(Shr(x, lo), w), lo)
    decreases lo, 0
  {
    var k := Pow2(w) - 1;
    var f := LowBits(Shr(x / 2, lo - 1), w);
    ShlStep(k, lo);
    AndEvenMask(x, Shl(k, lo - 1));
    AndField(x / 2, lo - 1, w);
    assert Shr(x, lo) == Shr(x / 2, lo - 1);
    ShlStep(f, lo);
  }

  /** Shifting left by lo is doubling the shift by lo - 1. */
  lemma ShlStep(v: nat, lo: nat)
    requires lo > 0
    ensures Shl(v, lo) == 2 * Shl(v, lo - 1)
    ensures v > 0 ==> Shl(v, lo - 1) > 0
  {
    var p := Pow2(lo - 1);
    assert Pow2(lo) == 2 * p;
    assert v * (2 * p) == 2 * (v * p);
  }

  /** The field of width w at bit lo, extracted the way the source writes it: `(x & mask) >> lo`. */
  lemma FieldExtract(x: nat, lo: nat, w: nat)
    ensures Shr(BitAnd(x, Shl(Pow2(w) - 1, lo)), lo) == LowBits(Shr(x, lo), w)
  {
    var f := LowBits(Shr(x, lo), w);
    AndField(x, lo, w);
    assert Shl(f, lo) == 0 + Pow2(lo) * f;
    LowHighUnique(Shl(f, lo), lo, 0, f);
  }

  /** `(x & (((1 << w) - 1) << lo)) >> lo` in plain arithmetic: `(x // 2 ** lo) % 2 ** w`. */
  lemma BitField(x: nat, lo: nat, w: nat)
    ensures Shr(BitAnd(x, Shl(Pow2(w) - 1, lo)), lo) == (x / Pow2(lo)) % Pow2(w)
  {
    FieldExtract(x, lo, w);
    ShrLowBitsDivMod(x, lo);
    ShrLowBitsDivMod(Shr(x, lo), w);
  }

  /** OR-ing b in above the highest set bit of a is addition. */
  lemma {:induction false} OrDisjoint(a: nat, b: nat, k: nat)
    requires a < Pow2(k)
    ensures BitOr(a, Shl(b, k)) == a + Shl(b, k)
  {
    if k > 0 && a > 0 && b > 0 {
      var hi := b * Pow2(k);
      assert hi == 2 * (b * Pow2(k - 1));
      assert hi / 2 == b * Pow2(k - 1) && hi % 2 == 0;
      OrDisjoint(a / 2, b, k - 1);
    }
  }

  // ---------------------------------------------------------------------------
  // A byte string read as one little-endian number

  /** The bytes s as one number, s[0] least significant: the bit stream GIF's LZW data is packed into. */
  function LeValue(s: seq<byte>): nat
  {
    if s == [] then 0 else s[0] + 256 * LeValue(s[1..])
  }

  lemma {:induction false} LeValueBound(s: seq<byte>)
    ensures LeValue(s) < Pow2(8 * |s|)
  {
    if s != [] {
      var p := Pow2(8 * (|s| - 1));
      LeValueBound(s[1..]);
      Pow2Add(8, 8 * (|s| - 1));
      assert Pow2(8) == 256;
      assert LeValue(s[1..]) + 1 <= p;
      assert 256 * (LeValue(s[1..]) + 1) <= 256 * p;
    }
  }

  /** Cutting the byte string at i cuts the number at bit 8*i. */
  lemma {:induction false} LeValueSplit(s: seq<byte>, i: nat)
    requires i <= |s|
    ensures LeValue(s) == LeValue(s[..i]) + Pow2(8 * i) * LeValue(s[i..])
  {
    if i > 0 {
      var p, rest, x := Pow2(8 * (i - 1)), LeValue(s[i..]), LeValue(s[..i][1..]);
      LeValueSplit(s[1..], i - 1);
      assert s[1..][..i - 1] == s[..i][1..];
      assert s[1..][i - 1..] == s[i..];
      assert LeValue(s[1..]) == x + p * rest;
      assert LeValue(s) == s[0] + 256 * LeValue(s[1..]);
      assert LeValue(s[..i]) == s[0] + 256 * x;
      assert 256 * (x + p * rest) == 256 * x + 256 * (p * rest);
      Pow2Add(8, 8 * (i - 1));
      Pow2Table();
      assert Pow2(8 * i) == 256 * p;
      MulAssoc(256, p, rest);
    }
  }

  /** Bits [p, p+n) of the byte string, read least significant bit first. */
  function Window(data: seq<byte>, p: nat, n: nat): (r: nat)
    ensures r < Pow2(n)
  {
    LowBits(Shr(LeValue(data), p), n)
  }

  /** The eight bits starting at 8*i are byte i. */
  lemma ByteWindow(data: seq<byte>, i: nat)
    requires i < |data|
    ensures Window(data, 8 * i, 8) == data[i]
  {
    var x, y := LeValue(data[..i]), LeValue(data[i..]);
    LeValueSplit(data, i);
    LeValueBound(data[..i]);
    LowHighUnique(LeValue(data), 8 * i, x, y);
    assert y == data[i] + 256 * LeValue(data[i..][1..]);
    assert Pow2(8) == 256;
    LowHighUnique(y, 8, data[i], LeValue(data[i..][1..]));
  }

  /** Splitting the n low bits of x after its a low bits. */
  lemma {:induction false} LowBitsSplit(x: nat, a: nat, b: nat)
    ensures LowBits(x, a + b) == LowBits(x, a) + Pow2(a) * LowBits(Shr(x, a), b)
  {
    if a > 0 {
      var p, hi := Pow2(a - 1), LowBits(Shr(x / 2, a - 1), b);
      LowBitsSplit(x / 2, a - 1, b);
      assert LowBits(x, a + b) == 2 * LowBits(x / 2, a - 1 + b) + x % 2;
      assert Shr(x, a) == Shr(x / 2, a - 1);
      ShiftedSum(LowBits(x, a + b), LowBits(x, a), LowBits(x / 2, a - 1 + b), LowBits(x / 2, a - 1), x % 2, p, hi);
    }
  }

  /** A window of a+b bits is its first a bits plus 2^a times the b bits that follow. */
  lemma WindowSplit(data: seq<byte>, p: nat, a: nat, b: nat)
    ensures Window(data, p, a + b) == Window(data, p, a) + Pow2(a) * Window(data, p + a, b)
  {
    LowBitsSplit(Shr(LeValue(data), p), a, b);
    ShrShr(LeValue(data), p, a);
  }

  /** Bits below 2^k are not disturbed by adding a multiple of 2^k, and shift down with the rest. */
  lemma {:induction false} ShrSum(a: nat, b: nat, k: nat, p: nat)
    requires p <= k
    ensures Shr(a + Pow2(k) * b, p) == Shr(a, p) + Pow2(k - p) * b
  {
    if p > 0 {
      var half := Pow2(k - 1);
      var q := half * b;
      assert Pow2(k) == 2 * half;
      assert Pow2(k) * b == 2 * q;
      assert (a + 2 * q) / 2 == a / 2 + q;
      assert Shr(a + 2 * q, p) == Shr(a / 2 + q, p - 1);
      ShrSum(a / 2, b, k - 1, p - 1);
      assert Shr(a, p) == Shr(a / 2, p - 1);
    }
  }

  lemma {:induction false} LowBitsSum(a: nat, b: nat, k: nat, n: nat)
    requires n <= k
    ensures LowBits(a + Pow2(k) * b, n) == LowBits(a, n)
  {
    if n > 0 {
      var q := Pow2(k - 1) * b;
      assert Pow2(k) * b == 2 * q;
      assert (a + 2 * q) / 2 == a / 2 + q && (a + 2 * q) % 2 == a % 2;
      LowBitsSum(a / 2, b, k - 1, n - 1);
    }
  }

  /** A window that ends within the first i bytes depends on those bytes only. */
  lemma WindowPrefix(data: seq<byte>, i: nat, p: nat, n: nat)
    requires i <= |data| && p + n <= 8 * i
    ensures Window(data, p, n) == Window(data[..i], p, n)
  {
    var x, y := LeValue(data[..i]), LeValue(data[i..]);
    LeValueSplit(data, i);
    ShrSum(x, y, 8 * i, p);
    LowBitsSum(Shr(x, p), y, 8 * i - p, n);
  }

  // ---------------------------------------------------------------------------
  // Fixed-width integer fields

  /** `lo + 256 * hi`: every 16-bit field of a GIF file. */
  function LittleEndian16(lo: byte, hi: byte): (r: u16)
    ensures r == LeValue([lo, hi])
    ensures r % 256 == lo && r / 256 == hi
  {
    assert LeValue([lo, hi]) == lo + 256 * LeValue([hi]);
    lo + 256 * hi
  }

  /** `struct.pack(">I", n)`: four bytes, most significant first. */
  function BigEndian32(n: nat): (r: seq<byte>)
    requires n < 0x1_0000_0000
    ensures |r| == 4
    ensures FromBigEndian(r) == n
  {
    BigEndianDigits(n);
    [n / 0x100_0000, (n / 0x1_0000) % 0x100, (n / 0x100) % 0x100, n % 0x100]
  }

  /** The four base-256 digits of a 32-bit number put back together give the number. */
  lemma BigEndianDigits(n: nat)
    requires n < 0x1_0000_0000
    ensures n / 0x100_0000 < 0x100
    ensures ((n / 0x100_0000 * 0x100 + (n / 0x1_0000) % 0x100) * 0x100 + (n / 0x100) % 0x100) * 0x100 + n % 0x100 == n
  {
    var q1 := n / 0x100;
    var q2 := q1 / 0x100;
    var q3 := q2 / 0x100;
    assert q1 == q2 * 0x100 + q1 % 0x100;
    assert n == q1 * 0x100 + n % 0x100;
    assert n == q2 * 0x1_0000 + ((q1 % 0x100) * 0x100 + n % 0x100);
    DivModUnique(n, 0x1_0000, q2, (q1 % 0x100) * 0x100 + n % 0x100);
    assert q2 == q3 * 0x100 + q2 % 0x100;
    assert n == q3 * 0x100_0000 + ((q2 % 0x100) * 0x1_0000 + (q1 % 0x100) * 0x100 + n % 0x100);
    DivModUnique(n, 0x100_0000, q3, (q2 % 0x100) * 0x1_0000 + (q1 % 0x100) * 0x100 + n % 0x100);
  }

  /** The number four big-endian bytes stand for (what a PNG reader does with a length or CRC field). */
  function FromBigEndian(s: seq<byte>): nat
    requires |s| == 4
  {
    ((s[0] as int * 0x100 + s[1]) * 0x100 + s[2]) * 0x100 + s[3]
  }
}
