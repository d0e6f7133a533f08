/** Machine integers, powers of two and byte strings.

  Words are unbounded integers in a range; truncation is written out where the
  program truncates. `LE` reads a byte string as one (arbitrarily long) little-endian
  number, which is what the bit-packing proofs reason about. */
module Bytes {
  type byte = x: int | 0 <= x < 256
  type uint16 = x: int | 0 <= x < 0x1_0000
  type uint32 = x: int | 0 <= x < 0x1_0000_0000
  const MAX_UINT32 := 0xFFFF_FFFF
  const TWO32 := 0x1_0000_0000
  const TWO63 := 0x8000_0000_0000_0000
  const TWO64 := 0x1_0000_0000_0000_0000

  /** Conversion of an arbitrary integer to int64, with two's complement wrap-around. */
  function ToInt64(x: int): (r: int)
    ensures -TWO63 <= r < TWO63
    ensures (r - x) % TWO64 == 0
  {
    (x + TWO63) % TWO64 - TWO63
  }

  // ---------------------------------------------------------------- powers of two

  function Pow2(n: nat): (p: nat)
    ensures p >= 1
  {
    if n == 0 then 1 else 2 * Pow2(n - 1)
  }

  lemma {:induction false} Pow2Add(a: nat, b: nat)
    ensures Pow2(a + b) == Pow2(a) * Pow2(b)
  {
    if a > 0 {
      Pow2Add(a - 1, b);
      assert Pow2(a + b) == 2 * (Pow2(a - 1) * Pow2(b));
    }
  }

  lemma Pow2Add3(a: nat, b: nat, c: nat)
    ensures Pow2(a + b + c) == Pow2(a) * (Pow2(b) * Pow2(c))
  {
    Pow2Add(a, b + c);
    Pow2Add(b, c);
  }

  lemma Pow2Monotone(a: nat, b: nat)
    requires a <= b
    ensures Pow2(a) <= Pow2(b)
  {
    if a < b { Pow2Monotone(a, b - 1); }
  }

  lemma Pow2Zero()
    ensures Pow2(0) == 1
  {
  }

  lemma Pow2Of8()
    ensures Pow2(8) == 256
  {
  }

  lemma Pow2Bytes()
    ensures Pow2(8) == 256
    ensures Pow2(16) == 0x1_0000
    ensures Pow2(32) == TWO32
    ensures Pow2(64) == TWO64
  {
    Pow2Of8();
    hide Pow2;
    Pow2Add(8, 8);
    Pow2Add(16, 16);
    Pow2Add(32, 32);
  }

  // ---------------------------------------------------------------- division

  lemma MulDistrib(a: int, b: int, d: int)
    ensures (a - b) * d == a * d - b * d
  {
  }

  lemma MulBounds(k: int, d: int)
    requires d > 0
    ensures k >= 1 ==> k * d >= d
    ensures k <= -1 ==> k * d <= -d
  {
  }

  lemma MulScale(c: int, p: int, x: int, q: int)
    requires q == c * p
    ensures q * x == c * (p * x)
  {
  }

  lemma MulNonneg(a: nat, b: nat)
    ensures a * b >= 0
  {
  }

  lemma DivUnique(x: int, d: int, q: int, r: int)
    requires d > 0 && 0 <= r < d && x == q * d + r
    ensures x / d == q && x % d == r
  {
    var q', r' := x / d, x % d;
    assert x == q' * d + r' && 0 <= r' < d;
    MulDistrib(q', q, d);
    MulBounds(q' - q, d);
  }

  lemma SmallMod(x: nat, d: nat)
    requires x < d
    ensures x / d == 0 && x % d == x
  {
    DivUnique(x, d, 0, x);
  }

  lemma DivNonneg(x: nat, d: nat)
    requires d > 0
    ensures x / d >= 0
  {
  }

  lemma Regroup(x: int, q: int, t: int, a: int, b: int, r1: int, r2: int)
    requires x == q * a + r1 && q == t * b + r2
    ensures x == t * (a * b) + (r2 * a + r1)
  {
    assert q * a == (t * b) * a + r2 * a;
  }

  /** A number of two digits in bases p and q is below their product. */
  lemma DigitBound(s: nat, r: nat, p: nat, q: nat)
    requires s < p && r < q
    ensures s + r * p < q * p
  {
    assert (r + 1) * p <= q * p;
  }

  lemma MulCommute(a: int, b: int)
    ensures a * b == b * a
  {
  }

  lemma MulPositive(a: nat, b: nat)
    requires a > 0 && b > 0
    ensures a * b > 0
  {
  }

  /** Dividing twice divides by the product; the remainder keeps its higher digit. */
  lemma DivDigits(x: nat, a: nat, b: nat)
    requires a > 0 && b > 0
    ensures a * b > 0
    ensures x / (a * b) == x / a / b
    ensures x % (a * b) == (x / a % b) * a + x % a
  {
    var q := x / a;
    var r1, r2 := x % a, q % b;
    MulPositive(a, b);
    DivNonneg(x, a);
    Regroup(x, q, q / b, a, b, r1, r2);
    DigitBound(r1, r2, a, b);
    MulCommute(a, b);
    MulNonneg(r2, a);
    DivUnique(x, a * b, q / b, r2 * a + r1);
  }

  lemma DivDiv(x: nat, a: nat, b: nat)
    requires a > 0 && b > 0
    ensures a * b > 0
    ensures x / (a * b) == x / a / b
  {
    DivDigits(x, a, b);
  }

  /** Cutting to a*b and then dividing by a cuts the quotient to b. */
  lemma ModDiv(x: nat, a: nat, b: nat)
    requires a > 0 && b > 0
    ensures a * b > 0
    ensures (x % (a * b)) / a == (x / a) % b
  {
    DivDigits(x, a, b);
    DivUnique(x % (a * b), a, x / a % b, x % a);
  }

  /** The low digits of a number: its last base-a digit and the digits before it. */
  lemma ModSplit(x: nat, a: nat, b: nat)
    requires a > 0 && b > 0
    ensures a * b > 0
    ensures x % (a * b) == x % a + a * ((x / a) % b)
  {
    DivDigits(x, a, b);
    MulCommute(a, x / a % b);
  }

  /** Cutting to a multiple of b first does not change the value modulo b. */
  lemma ModMod(x: nat, a: nat, b: nat)
    requires a > 0 && b > 0
    ensures a * b > 0
    ensures (x % (a * b)) % b == x % b
  {
    DivDigits(x, b, a);
    MulCommute(a, b);
    DivUnique(x % (a * b), b, x / b % a, x % b);
  }

  lemma ModMultiple(k: int, d: int, r: int)
    requires d > 0
    ensures (k * d + r) % d == r % d
  {
    var q := r / d;
    assert r == q * d + r % d;
    assert k * d + r == (k + q) * d + r % d;
    DivUnique(k * d + r, d, k + q, r % d);
  }

  // ---------------------------------------------------------------- bitwise operators

  /** Logical shift right. */
  function Shr(x: nat, n: nat): nat
  {
    DivNonneg(x, Pow2(n));
    x / Pow2(n)
  }

  /** Bitwise or of two non-negative integers. */
  function BitOr(a: nat, b: nat): nat
    decreases a + b
  {
    if a == 0 && b == 0 then 0
    else 2 * BitOr(a / 2, b / 2) + (if a % 2 == 1 || b % 2 == 1 then 1 else 0)
  }

  /** Bitwise and of two non-negative integers. */
  function BitAnd(a: nat, b: nat): nat
    decreases a + b
  {
    if a == 0 && b == 0 then 0
    else 2 * BitAnd(a / 2, b / 2) + (if a % 2 == 1 && b % 2 == 1 then 1 else 0)
  }

  lemma {:induction false} BitOrZero(b: nat)
    ensures BitOr(0, b) == b
  {
    if b > 0 { BitOrZero(b / 2); }
  }

  /** Or-ing fields that do not overlap is addition. */
  lemma {:induction false} BitOrDisjoint(a: nat, b: nat, k: nat)
    requires a < Pow2(k)
    ensures BitOr(a, b * Pow2(k)) == a + b * Pow2(k)
  {
    if k == 0 {
      BitOrZero(b);
    } else {
      var h := b * Pow2(k - 1);
      assert b * Pow2(k) == 2 * h;
      BitOrDisjoint(a / 2, b, k - 1);
    }
  }

  lemma {:induction false} BitAndZero(a: nat)
    ensures BitAnd(a, 0) == 0
  {
    if a > 0 { BitAndZero(a / 2); }
  }

  /** And-ing with a mask of w ones keeps the low w bits. */
  lemma {:induction false} BitAndMask(a: nat, w: nat)
    ensures BitAnd(a, Pow2(w) - 1) == a % Pow2(w)
  {
    if w == 0 {
      BitAndZero(a);
    } else {
      var p, m := Pow2(w - 1), Pow2(w) - 1;
      BitAndMask(a / 2, w - 1);
      assert m / 2 == p - 1 && m % 2 == 1;
      hide Pow2;
      ModSplit(a, 2, p);
    }
  }

  // ---------------------------------------------------------------- little-endian numbers

  /** The number a byte string denotes, least significant byte first. */
  function LE(s: seq<byte>): nat
  {
    if |s| == 0 then 0 else s[0] + 256 * LE(s[1..])
  }

  /** The low 8n bits of v as n bytes, least significant first. */
  function PutLE(v: nat, n: nat): (s: seq<byte>)
    ensures |s| == n
  {
    if n == 0 then [] else [v % 256] + PutLE(v / 256, n - 1)
  }

  lemma Pow2Step(n: nat)
    ensures Pow2(8 * (n + 1)) == 256 * Pow2(8 * n)
  {
    Pow2Bytes();
    Pow2Add(8, 8 * n);
  }

  lemma {:induction false} LEBound(s: seq<byte>)
    ensures LE(s) < Pow2(8 * |s|)
  {
    if |s| > 0 {
      LEBound(s[1..]);
      Pow2Step(|s| - 1);
    }
  }

  lemma {:induction false} LEConcat(a: seq<byte>, b: seq<byte>)
    ensures LE(a + b) == LE(a) + Pow2(8 * |a|) * LE(b)
  {
    hide Pow2;
    Pow2Zero();
    if |a| == 0 {
      assert a + b == b;
    } else {
      LEConcat(a[1..], b);
      Pow2Step(|a| - 1);
      MulScale(256, Pow2(8 * (|a| - 1)), LE(b), Pow2(8 * |a|));
      assert (a + b)[1..] == a[1..] + b;
    }
  }

  lemma LEEmpty()
    ensures LE([]) == 0
  {
  }

  lemma {:induction false} LEZeros(s: seq<byte>)
    requires forall i :: 0 <= i < |s| ==> s[i] == 0
    ensures LE(s) == 0
  {
    if |s| > 0 { LEZeros(s[1..]); }
  }

  lemma {:induction false} LEPut(v: nat, n: nat)
    ensures LE(PutLE(v, n)) == v % Pow2(8 * n)
  {
    if n > 0 {
      LEPut(v / 256, n - 1);
      Pow2Step(n - 1);
      ModSplit(v, 256, Pow2(8 * (n - 1)));
      assert PutLE(v, n)[1..] == PutLE(v / 256, n - 1);
    }
  }

  /** A number written in enough bytes reads back unchanged. */
  lemma LEPutFits(v: nat, bits: nat, n: nat)
    requires v < Pow2(bits) && bits <= 8 * n
    ensures LE(PutLE(v, n)) == v
  {
    Pow2Monotone(bits, 8 * n);
    LEPut(v, n);
    SmallMod(v, Pow2(8 * n));
  }

  lemma {:induction false} PutGet(s: seq<byte>)
    ensures PutLE(LE(s), |s|) == s
  {
    if |s| > 0 {
      PutGet(s[1..]);
      DivUnique(LE(s), 256, LE(s[1..]), s[0]);
      assert s == [s[0]] + s[1..];
    }
  }

  /** The part of a byte string before position i is its value modulo 256^i, the rest its quotient. */
  lemma LESplit(s: seq<byte>, i: nat)
    requires i <= |s|
    ensures LE(s[..i]) == LE(s) % Pow2(8 * i)
    ensures LE(s[i..]) == LE(s) / Pow2(8 * i)
  {
    assert s == s[..i] + s[i..];
    LEConcat(s[..i], s[i..]);
    LEBound(s[..i]);
    DivUnique(LE(s), Pow2(8 * i), LE(s[i..]), LE(s[..i]));
  }

  /** A number written in its own width reads back unchanged. */
  lemma LEPut32(v: uint32)
    ensures LE(PutLE(v, 4)) == v
  {
    hide LE, PutLE, Pow2;
    Pow2Bytes();
    LEPut(v, 4);
  }

  lemma LEGet32(s: seq<byte>)
    requires |s| == 4
    ensures LE(s) < TWO32
  {
    Pow2Bytes();
    LEBound(s);
  }

  function Get32(s: seq<byte>): (v: uint32)
    requires |s| == 4
  {
    LEGet32(s);
    LE(s)
  }

  // ---------------------------------------------------------------- big-endian numbers

  function Reversed(s: seq<byte>): (r: seq<byte>)
    ensures |r| == |s|
  {
    if |s| == 0 then [] else Reversed(s[1..]) + [s[0]]
  }

  lemma {:induction false} ReversedSnoc(s: seq<byte>, b: byte)
    ensures Reversed(s + [b]) == [b] + Reversed(s)
  {
    if |s| > 0 {
      ReversedSnoc(s[1..], b);
      assert (s + [b])[1..] == s[1..] + [b];
    }
  }

  lemma {:induction false} ReversedTwice(s: seq<byte>)
    ensures Reversed(Reversed(s)) == s
  {
    if |s| > 0 {
      ReversedTwice(s[1..]);
      ReversedSnoc(Reversed(s[1..]), s[0]);
    }
  }

  /** The number a byte string denotes, most significant byte first. */
  function BE(s: seq<byte>): nat { LE(Reversed(s)) }

  function PutBE(v: nat, n: nat): (s: seq<byte>)
    ensures |s| == n
  {
    Reversed(PutLE(v, n))
  }

  lemma BEPut(v: nat, n: nat)
    ensures BE(PutBE(v, n)) == v % Pow2(8 * n)
  {
    ReversedTwice(PutLE(v, n));
    LEPut(v, n);
  }

  lemma BEBound(s: seq<byte>)
    ensures BE(s) < Pow2(8 * |s|)
  {
    LEBound(Reversed(s));
  }

  // ---------------------------------------------------------------- digit by digit

  /** Byte i of a number, least significant first. */
  lemma {:induction false} LittleEndian(v: nat, n: nat, i: nat)
    requires i < n
    ensures PutLE(v, n)[i] == v / Pow2(8 * i) % 256
  {
    hide Pow2;
    if i == 0 {
      Pow2Zero();
    } else {
      DivNonneg(v, 256);
      LittleEndian(v / 256, n - 1, i - 1);
      Pow2Step(i - 1);
      DivDiv(v, 256, Pow2(8 * (i - 1)));
    }
  }

  lemma {:induction false} ReversedAt(s: seq<byte>, i: nat)
    requires i < |s|
    ensures Reversed(s)[i] == s[|s| - 1 - i]
  {
    if i < |s| - 1 { ReversedAt(s[1..], i); }
  }

  /** Byte i of a number, most significant first. */
  lemma BigEndian(v: nat, n: nat, i: nat)
    requires i < n
    ensures PutBE(v, n)[i] == v / Pow2(8 * (n - 1 - i)) % 256
  {
    hide Pow2, PutLE;
    ReversedAt(PutLE(v, n), i);
    LittleEndian(v, n, n - 1 - i);
  }
}
