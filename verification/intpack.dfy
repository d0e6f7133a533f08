/** Frame-of-reference bit packing of groups of uint32 values.

  On disk a group is [packed residuals][1-byte width][4-byte minimum], so it can be read
  from the tail of any buffer. A packed buffer is specified by the one number it denotes:
  value j occupies bits [j*w, (j+1)*w) of it. */
module Intpack {
  import opened Bytes
  import opened Results
  import opened Slices

  // ---------------------------------------------------------------- range and width

  function MinOf(values: seq<uint32>): (m: uint32)
    requires |values| > 0
    ensures m in values
    ensures forall v :: v in values ==> m <= v
  {
    if |values| == 1 then values[0]
    else
      var r := MinOf(values[1..]);
      assert forall v :: v in values ==> v == values[0] || v in values[1..];
      if values[0] <= r then values[0] else r
  }

  function MaxOf(values: seq<uint32>): (m: uint32)
    requires |values| > 0
    ensures m in values
    ensures forall v :: v in values ==> v <= m
  {
    if |values| == 1 then values[0]
    else
      var r := MaxOf(values[1..]);
      assert forall v :: v in values ==> v == values[0] || v in values[1..];
      if values[0] >= r then values[0] else r
  }

  /** Number of bits needed to write x: the standard library's bits.Len32. */
  function BitLen(x: nat): (n: nat)
    ensures x < Pow2(n)
    ensures n > 0 ==> Pow2(n - 1) <= x
  {
    if x == 0 then 0 else 1 + BitLen(x / 2)
  }

  /** Minimum and residual width of a group. The width fits every residual and, unless it is
    the forced minimum of one bit, no smaller width does. */
  function RangeWidth(values: seq<uint32>): (r: (uint32, byte))
    requires |values| > 0
    ensures r.0 in values && 1 <= r.1 <= 32
    ensures forall i :: 0 <= i < |values| ==> 0 <= values[i] - r.0 < Pow2(r.1)
    ensures r.1 > 1 ==> exists v :: v in values && v - r.0 >= Pow2(r.1 - 1)
  {
    var minVal := MinOf(values);
    var maxVal := MaxOf(values);
    var width := BitLen(maxVal - minVal);
    assert width <= 32 by {
      Pow2Bytes();
      if width > 32 { Pow2Monotone(32, width - 1); }
    }
    assert forall i :: 0 <= i < |values| ==> values[i] in values;
    if width == 0 then (minVal, 1) else (minVal, width)
  }

  // ---------------------------------------------------------------- the packed number

  ghost function Residuals(values: seq<uint32>, minVal: uint32): (rs: seq<nat>)
    requires forall i :: 0 <= i < |values| ==> minVal <= values[i]
    ensures |rs| == |values|
    ensures forall i :: 0 <= i < |values| ==> rs[i] == values[i] - minVal
  {
    seq<nat>(|values|, i requires 0 <= i < |values| => values[i] - minVal)
  }

  ghost predicate Below(rs: seq<nat>, w: nat)
  {
    forall i :: 0 <= i < |rs| ==> rs[i] < Pow2(w)
  }

  /** The number whose bits [j*w, (j+1)*w) are rs[j]. */
  ghost function PackSum(rs: seq<nat>, w: nat): nat
  {
    var n := |rs|;
    if n == 0 then 0
    else
      MulNonneg(n - 1, w);
      PackSum(rs[..n - 1], w) + rs[n - 1] * Pow2((n - 1) * w)
  }

  /** Bits [j*w, (j+1)*w) of a number. */
  ghost function Field(number: nat, j: nat, w: nat): nat
  {
    MulNonneg(j, w);
    Shr(number, j * w) % Pow2(w)
  }

  lemma BitsSplit(n: nat, w: nat, j: nat)
    requires j < n
    ensures (n - 1 - j) * w >= 0 && j * w >= 0 && n * w >= 0
    ensures n * w == (n - 1 - j) * w + w + j * w
  {
    MulNonneg(n - 1 - j, w);
    MulNonneg(j, w);
    MulNonneg(n, w);
  }

  lemma {:induction false} PackSumBound(rs: seq<nat>, w: nat)
    requires Below(rs, w)
    ensures |rs| * w >= 0
    ensures PackSum(rs, w) < Pow2(|rs| * w)
  {
    var n := |rs|;
    MulNonneg(n, w);
    if n > 0 {
      PackSumBound(rs[..n - 1], w);
      DigitBound(PackSum(rs[..n - 1], w), rs[n - 1], Pow2((n - 1) * w), Pow2(w));
      Pow2Add(w, (n - 1) * w);
      BitsSplit(n, w, n - 1);
    }
  }

  lemma FieldWeight(n: nat, w: nat, j: nat)
    requires j < n
    ensures (n - 1 - j) * w >= 0 && j * w >= 0 && n * w >= 0
    ensures Pow2(n * w) == Pow2((n - 1 - j) * w) * (Pow2(w) * Pow2(j * w))
  {
    BitsSplit(n, w, j);
    Pow2Add3((n - 1 - j) * w, w, j * w);
  }

  lemma LastField(s: nat, r: nat, p: nat, q: nat)
    requires s < p && r < q
    ensures (s + r * p) / p % q == r
  {
    DivUnique(s + r * p, p, r, s);
    SmallMod(r, q);
  }

  lemma MulAssoc(a: int, b: int, c: int)
    ensures a * (b * c) == (a * b) * c
  {
  }

  lemma FieldStep(s: nat, k: nat, a: nat, b: nat)
    requires a > 0 && b > 0
    ensures (s + k * (a * b)) / b % a == s / b % a
  {
    var q := s / b;
    assert s == q * b + s % b;
    assert s + k * (a * b) == (q + k * a) * b + s % b;
    DivUnique(s + k * (a * b), b, q + k * a, s % b);
    ModMultiple(k, a, q);
  }

  lemma LowerField(s: nat, r: nat, t: nat, a: nat, b: nat)
    requires a > 0 && b > 0
    ensures (s + r * (t * (a * b))) / b % a == s / b % a
  {
    MulAssoc(r, t, a * b);
    FieldStep(s, r * t, a, b);
  }

  /** Fields are disjoint: each one reads back from the packed number by itself. */
  lemma {:induction false} PackSumField(rs: seq<nat>, w: nat, j: nat)
    requires Below(rs, w) && j < |rs|
    ensures Field(PackSum(rs, w), j, w) == rs[j]
  {
    var n := |rs|;
    var s := PackSum(rs[..n - 1], w);
    PackSumBound(rs[..n - 1], w);
    MulNonneg(j, w);
    if j == n - 1 {
      LastField(s, rs[j], Pow2(j * w), Pow2(w));
    } else {
      PackSumField(rs[..n - 1], w, j);
      FieldWeight(n - 1, w, j);
      LowerField(s, rs[n - 1], Pow2((n - 2 - j) * w), Pow2(w), Pow2(j * w));
    }
  }

  // ---------------------------------------------------------------- specification of a group

  function PackSize(w: nat, n: nat): nat { (w * n + 7) / 8 }

  ghost function PackedBytes(values: seq<uint32>): (s: seq<byte>)
    requires |values| > 0
    ensures |s| == PackSize(RangeWidth(values).1, |values|)
  {
    var (m, w) := RangeWidth(values);
    PutLE(PackSum(Residuals(values, m), w), PackSize(w, |values|))
  }

  /** The encoding of one group. */
  ghost function GroupBytes(values: seq<uint32>): (s: seq<byte>)
    requires |values| > 0
    ensures |s| == PackSize(RangeWidth(values).1, |values|) + 5
  {
    var (m, w) := RangeWidth(values);
    PackedBytes(values) + [w] + PutLE(m, 4)
  }

  /** The n values a packed buffer of any length holds; uint32 addition wraps. */
  ghost function Unpacked(packed: seq<byte>, n: nat, w: nat, groupMin: uint32): (s: seq<uint32>)
    ensures |s| == n
  {
    seq(n, j requires 0 <= j < n => (groupMin + Field(LE(packed), j, w)) % TWO32)
  }

  /** What decoding the last group of an arbitrary buffer yields: the values and the number of
    bytes taken from the tail, or the error. */
  ghost function GroupAtTail(buf: seq<byte>, n: int): (r: Result<(seq<uint32>, nat)>)
    ensures r.Ok? ==> n > 0 && |r.value.0| == n && 5 <= r.value.1 <= |buf|
  {
    if n <= 0 then Err(BadCount)
    else if |buf| < 5 then Err(ShortGroup)
    else
      var w := buf[|buf| - 5];
      if w > 32 then Err(BadWidth)
      else
        var consumed := PackSize(w, n) + 5;
        if |buf| < consumed then Err(ShortPayload)
        else Ok((Unpacked(buf[|buf| - consumed..|buf| - 5], n, w, Get32(buf[|buf| - 4..])), consumed))
  }

  lemma ResidualsFit(values: seq<uint32>)
    requires |values| > 0
    ensures var (m, w) := RangeWidth(values); Below(Residuals(values, m), w)
  {
  }

  lemma PackSizeCovers(w: nat, n: nat)
    ensures n * w <= 8 * PackSize(w, n)
  {
  }

  lemma PackedNumber(values: seq<uint32>)
    requires |values| > 0
    ensures var (m, w) := RangeWidth(values);
      LE(PackedBytes(values)) == PackSum(Residuals(values, m), w)
  {
    var (m, w) := RangeWidth(values);
    ResidualsFit(values);
    PackSumBound(Residuals(values, m), w);
    PackSizeCovers(w, |values|);
    LEPutFits(PackSum(Residuals(values, m), w), |values| * w, PackSize(w, |values|));
  }

  lemma UnpackedAt(packed: seq<byte>, n: nat, w: nat, groupMin: uint32, j: nat)
    requires j < n
    ensures Unpacked(packed, n, w, groupMin)[j] == (groupMin + Field(LE(packed), j, w)) % TWO32
  {
  }

  lemma UnpackedValue(packed: seq<byte>, rs: seq<nat>, w: nat, m: uint32, n: nat, j: nat, value: uint32)
    requires Below(rs, w) && LE(packed) == PackSum(rs, w) && j < n == |rs| && m + rs[j] == value
    ensures Unpacked(packed, n, w, m)[j] == value
  {
    PackSumField(rs, w, j);
    UnpackedAt(packed, n, w, m, j);
    hide Unpacked, Field, LE, PackSum, Below;
    SmallMod(value, TWO32);
  }

  lemma UnpackPacked(values: seq<uint32>)
    requires |values| > 0
    ensures var (m, w) := RangeWidth(values);
      Unpacked(PackedBytes(values), |values|, w, m) == values
  {
    var (m, w) := RangeWidth(values);
    ResidualsFit(values);
    PackedNumber(values);
    hide RangeWidth, LE, PutLE, PackSum, PackedBytes, Unpacked, Below;
    var packed, rs := PackedBytes(values), Residuals(values, m);
    forall j | 0 <= j < |values| ensures Unpacked(packed, |values|, w, m)[j] == values[j] {
      UnpackedValue(packed, rs, w, m, |values|, j, values[j]);
    }
  }

  /** Round trip: a group behind any prefix decodes to the values it was built from and
    consumes exactly its own bytes. */
  lemma GroupRoundTrip(prefix: seq<byte>, values: seq<uint32>)
    requires |values| > 0
    ensures GroupAtTail(prefix + GroupBytes(values), |values|) == Ok((values, |GroupBytes(values)|))
  {
    hide RangeWidth, LE, PutLE, PackSum;
    var (m, w) := RangeWidth(values);
    var n := |values|;
    var buf := prefix + GroupBytes(values);
    var consumed := PackSize(w, n) + 5;
    assert buf[|buf| - 5] == w;
    assert buf[|buf| - 4..] == PutLE(m, 4);
    assert buf[|buf| - consumed..|buf| - 5] == PackedBytes(values);
    LEPut32(m);
    UnpackPacked(values);
  }

  lemma MulUpTo(a: nat, b: nat, n: nat)
    requires a <= b
    ensures a * n <= b * n
  {
    MulDistrib(b, a, n);
    MulNonneg(b - a, n);
  }

  lemma PackSizeBounds(w: nat, n: nat)
    requires 1 <= w <= 32 && n > 0
    ensures 1 <= PackSize(w, n) <= 4 * n
  {
    MulUpTo(1, w, n);
    MulUpTo(w, 32, n);
  }

  /** A group of n values takes between 6 bytes and 4n+5 bytes. */
  lemma GroupSizeBounds(values: seq<uint32>)
    requires |values| > 0
    ensures 6 <= |GroupBytes(values)| <= 4 * |values| + 5
  {
    var w := RangeWidth(values).1;
    PackSizeBounds(w, |values|);
  }

  /** A group as it is stored: the packed residuals, the width, and the minimum in four bytes. */
  lemma GroupLayout(values: seq<uint32>)
    requires |values| > 0
    ensures var b, (m, w) := GroupBytes(values), RangeWidth(values);
      && |b| == (w * |values| + 7) / 8 + 5
      && b[|b| - 5] == w && b[|b| - 4..] == PutLE(m, 4)
      && forall j :: 0 <= j < |values| ==> j * w >= 0 && LE(b[..|b| - 5]) / Pow2(j * w) % Pow2(w) == values[j] - m
  {
    var (m, w) := RangeWidth(values);
    ResidualsFit(values);
    PackedNumber(values);
    hide RangeWidth, LE, PutLE, PackSum, PackedBytes, Below;
    var b, packed, rs := GroupBytes(values), PackedBytes(values), Residuals(values, m);
    assert b[..|b| - 5] == packed && b[|b| - 4..] == PutLE(m, 4);
    forall j | 0 <= j < |values| ensures j * w >= 0 && LE(packed) / Pow2(j * w) % Pow2(w) == values[j] - m {
      MulNonneg(j, w);
      PackSumField(rs, w, j);
    }
  }

  /** The values that a group of width w and minimum m holds in its packed bytes. */
  ghost predicate Packs(packed: seq<byte>, w: nat, m: nat, vs: seq<uint32>)
  {
    forall j :: 0 <= j < |vs| ==> j * w >= 0 && vs[j] == (m + LE(packed) / Pow2(j * w) % Pow2(w)) % TWO32
  }

  lemma UnpackedPacks(packed: seq<byte>, n: nat, w: nat, m: uint32, vs: seq<uint32>)
    requires |vs| == n
    ensures vs == Unpacked(packed, n, w, m) <==> Packs(packed, w, m, vs)
  {
    hide LE, Pow2;
    var us := Unpacked(packed, n, w, m);
    forall j | 0 <= j < n ensures j * w >= 0 && us[j] == (m + LE(packed) / Pow2(j * w) % Pow2(w)) % TWO32 {
      MulNonneg(j, w);
      UnpackedAt(packed, n, w, m, j);
    }
    if Packs(packed, w, m, vs) {
      assert forall j :: 0 <= j < n ==> vs[j] == us[j];
    }
  }

  /** Which buffers hold a group of n values at their end, what it says, and what is reported otherwise. */
  lemma GroupLaw(buf: seq<byte>, n: int, vs: seq<uint32>, consumed: nat)
    ensures GroupAtTail(buf, n) == Ok((vs, consumed)) <==>
      && n > 0 && |vs| == n && |buf| >= 5 && buf[|buf| - 5] <= 32
      && consumed == (buf[|buf| - 5] * n + 7) / 8 + 5 && consumed <= |buf|
      && Packs(buf[|buf| - consumed..|buf| - 5], buf[|buf| - 5], LE(buf[|buf| - 4..]), vs)
    ensures GroupAtTail(buf, n) == Err(BadCount) <==> n <= 0
    ensures GroupAtTail(buf, n) == Err(ShortGroup) <==> n > 0 && |buf| < 5
    ensures GroupAtTail(buf, n) == Err(BadWidth) <==> n > 0 && |buf| >= 5 && buf[|buf| - 5] > 32
    ensures GroupAtTail(buf, n) == Err(ShortPayload) <==>
      n > 0 && |buf| >= 5 && buf[|buf| - 5] <= 32 && |buf| < (buf[|buf| - 5] * n + 7) / 8 + 5
  {
    hide LE, Packs, Unpacked;
    if n > 0 && |buf| >= 5 && buf[|buf| - 5] <= 32 {
      var w := buf[|buf| - 5];
      var size := PackSize(w, n) + 5;
      if size <= |buf| && |vs| == n {
        UnpackedPacks(buf[|buf| - size..|buf| - 5], n, w, Get32(buf[|buf| - 4..]), vs);
      }
    }
  }

  // ---------------------------------------------------------------- packing in place

  /** A uint64 shifted left; bits beyond 64 are lost. */
  function Shl64(x: nat, shift: nat): nat { x * Pow2(shift) % TWO64 }

  lemma SameHigh(b: seq<byte>, c: seq<byte>, word: seq<byte>)
    requires |b| == |word|
    ensures LE(word + c) - LE(b + c) == LE(word) - LE(b)
  {
    LEConcat(b, c);
    LEConcat(word, c);
  }

  lemma MulShift(p: int, x: int, y: int, d: int)
    requires x == y + d
    ensures p * x == p * y + p * d
  {
  }

  lemma SameLow(a: seq<byte>, u: seq<byte>, v: seq<byte>, d: int)
    requires LE(u) - LE(v) == d
    ensures LE(a + u) == LE(a + v) + Pow2(8 * |a|) * d
  {
    LEConcat(a, u);
    LEConcat(a, v);
    MulShift(Pow2(8 * |a|), LE(u), LE(v), d);
  }

  /** Replacing 8 bytes of a buffer changes its number by d units of the word's weight. */
  lemma WriteWord(s: seq<byte>, at: nat, word: seq<byte>, d: int)
    requires at + 8 <= |s| && |word| == 8
    requires LE(word) == LE(s[at..at + 8]) + d
    ensures LE(s[..at] + word + s[at + 8..]) == LE(s) + Pow2(8 * at) * d
  {
    hide LE, Pow2;
    var a, b, c := s[..at], s[at..at + 8], s[at + 8..];
    assert s == a + (b + c);
    assert a + word + c == a + (word + c);
    SameHigh(b, c, word);
    SameLow(a, word + c, b + c, d);
  }

  lemma DivBelow(x: nat, a: nat, b: nat)
    requires a > 0 && x < a * b
    ensures x / a < b
  {
    var q := x / a;
    assert x == q * a + x % a;
    MulDistrib(q, b, a);
    MulNonneg(if q >= b then q - b else 0, a);
  }

  lemma ModAtMost(x: nat, d: nat)
    requires d > 0
    ensures x % d <= x
  {
    MulNonneg(x / d, d);
    assert x == (x / d) * d + x % d;
  }

  /** A buffer whose number is below 2^(8*at+shift) has nothing at or above bit `shift` of its
    word at `at`. */
  lemma WordBelow(s: seq<byte>, at: nat, shift: nat)
    requires at + 8 <= |s| && LE(s) < Pow2(8 * at + shift)
    ensures LE(s[at..at + 8]) < Pow2(shift)
  {
    hide LE, Pow2;
    Pow2Bytes();
    var hi := s[at..];
    LESplit(s, at);
    LESplit(hi, 8);
    assert hi[..8] == s[at..at + 8];
    Pow2Add(8 * at, shift);
    DivBelow(LE(s), Pow2(8 * at), Pow2(shift));
    ModAtMost(LE(hi), Pow2(64));
  }

  /** One read-modify-write: or-ing a shifted residual into a word below it is addition. */
  lemma OrResidual(word: nat, residual: nat, shift: nat)
    requires shift < 8 && word < Pow2(shift) && residual < TWO32
    ensures BitOr(word, Shl64(residual, shift)) == word + residual * Pow2(shift) < TWO64
  {
    Pow2Bytes();
    Pow2Monotone(shift, 8);
    var p := Pow2(shift);
    DigitBound(word, residual, p, TWO32);
    MulNonneg(residual, p);
    SmallMod(residual * p, TWO64);
    BitOrDisjoint(word, residual, shift);
  }

  lemma PackSumNext(rs: seq<nat>, w: nat, j: nat)
    requires j < |rs|
    ensures j * w >= 0
    ensures PackSum(rs[..j + 1], w) == PackSum(rs[..j], w) + rs[j] * Pow2(j * w)
  {
    MulNonneg(j, w);
    assert rs[..j + 1][..j] == rs[..j];
  }

  lemma MulSwap(a: int, b: int, c: int)
    ensures a * (b * c) == b * (a * c)
  {
  }

  lemma BitWeight(at: nat, shift: nat, r: nat, bits: nat)
    requires bits == 8 * at + shift
    ensures Pow2(8 * at) * (r * Pow2(shift)) == r * Pow2(bits)
  {
    Pow2Add(8 * at, shift);
    MulSwap(Pow2(8 * at), r, Pow2(shift));
  }

  /** Nothing is stored yet at or above bit j*w. */
  lemma NothingAbove(s: seq<byte>, rs: seq<nat>, w: nat, j: nat, at: nat, shift: nat)
    requires Below(rs, w) && j < |rs|
    requires LE(s) == PackSum(rs[..j], w)
    requires j * w == 8 * at + shift && at + 8 <= |s|
    ensures LE(s[at..at + 8]) < Pow2(shift)
  {
    PackSumBound(rs[..j], w);
    WordBelow(s, at, shift);
  }

  /** One step of the packing loop: `word` is the or of the old word and the shifted residual. */
  lemma PackStep(s: seq<byte>, rs: seq<nat>, w: nat, j: nat, at: nat, shift: nat, word: seq<byte>)
    requires Below(rs, w) && j < |rs| && rs[j] < TWO32
    requires LE(s) == PackSum(rs[..j], w)
    requires j * w == 8 * at + shift && shift < 8 && at + 8 <= |s|
    requires |word| == 8
    requires LE(word) == BitOr(LE(s[at..at + 8]), Shl64(rs[j], shift)) % TWO64
    ensures LE(s[..at] + word + s[at + 8..]) == PackSum(rs[..j + 1], w)
  {
    hide LE, Pow2, BitOr, Shl64, PackSum;
    var r := rs[j];
    NothingAbove(s, rs, w, j, at, shift);
    OrResidual(LE(s[at..at + 8]), r, shift);
    WriteWord(s, at, word, r * Pow2(shift));
    PackSumNext(rs, w, j);
    BitWeight(at, shift, r, j * w);
  }

  /** binary.LittleEndian.PutUint64 */
  method PutUint64(buf: array<byte>, at: nat, x: nat) returns (ghost word: seq<byte>)
    requires at + 8 <= buf.Length
    modifies buf
    ensures |word| == 8 && LE(word) == x % TWO64
    ensures buf[..] == old(buf[..at]) + word + old(buf[at + 8..])
  {
    hide LE, PutLE, Pow2;
    var bytes := PutLE(x, 8);
    Pow2Bytes();
    LEPut(x, 8);
    forall k | 0 <= k < 8 {
      buf[at + k] := bytes[k];
    }
    word := bytes;
  }

  lemma WordInSlack(j: nat, w: nat, n: nat)
    requires j < n && 1 <= w <= 32
    ensures j * w >= 0
    ensures j * w / 8 + 8 <= PackSize(w, n) + 7
  {
    BitsSplit(n, w, j);
    assert j * w + w <= n * w;
  }

  /** packResiduals: `buf` starts zeroed and is at least 7 bytes longer than the payload.
    No write passes that slack. */
  method PackResiduals(buf: array<byte>, values: seq<uint32>, minVal: uint32, width: byte)
    requires 1 <= width <= 32
    requires forall i :: 0 <= i < |values| ==> 0 <= values[i] - minVal < Pow2(width)
    requires PackSize(width, |values|) + 7 <= buf.Length
    requires forall i :: 0 <= i < buf.Length ==> buf[i] == 0
    modifies buf
    ensures LE(buf[..]) == PackSum(Residuals(values, minVal), width)
  {
    LEZeros(buf[..]);
    ghost var rs := Residuals(values, minVal);
    for j := 0 to |values|
      invariant LE(buf[..]) == PackSum(rs[..j], width)
    {
      var residual := values[j] - minVal;
      MulNonneg(j, width);
      var bitPos: nat := j * width;
      var bytePos, shift := bitPos / 8, bitPos % 8;
      ghost var before := buf[..];
      WordInSlack(j, width, |values|);
      var existing := LE(buf[bytePos..bytePos + 8]);
      assert before[bytePos..bytePos + 8] == buf[bytePos..bytePos + 8];
      assert before[..bytePos] == buf[..bytePos] && before[bytePos + 8..] == buf[bytePos + 8..];
      ghost var word := PutUint64(buf, bytePos, BitOr(existing, Shl64(residual, shift)));
      PackStep(before, rs, width, j, bytePos, shift, word);
    }
    assert rs[..|values|] == rs;
  }

  /** Bytes above a number's highest set byte are zero, so cutting them keeps the number. */
  lemma CutZeros(s: seq<byte>, size: nat, bits: nat)
    requires size <= |s| && LE(s) < Pow2(bits) && bits <= 8 * size
    ensures s[..size] == PutLE(LE(s), size)
  {
    LESplit(s, size);
    Pow2Monotone(bits, 8 * size);
    SmallMod(LE(s), Pow2(8 * size));
    PutGet(s[..size]);
  }

  /** EncodeGroup: FOR-encodes a non-empty group. */
  method EncodeGroup(values: seq<uint32>) returns (out: seq<byte>)
    requires |values| > 0
    ensures out == GroupBytes(values)
  {
    hide RangeWidth, LE, PackSum, Pow2;
    var (minVal, width) := RangeWidth(values);
    var packSize := PackSize(width, |values|);
    var buf := new byte[packSize + 5 + 7](i => 0);
    PackResiduals(buf, values, minVal, width);
    ResidualsFit(values);
    PackSumBound(Residuals(values, minVal), width);
    PackSizeCovers(width, |values|);
    CutZeros(buf[..], packSize, |values| * width);
    assert buf[..packSize] == buf[..][..packSize];
    buf[packSize] := width;
    var footer := PutLE(minVal, 4);
    forall k | 0 <= k < 4 {
      buf[packSize + 1 + k] := footer[k];
    }
    out := buf[..packSize + 5];
  }

  // ---------------------------------------------------------------- unpacking

  function Min(a: int, b: int): int { if a <= b then a else b }

  /** The bytes of `packed` an 8-byte read at `at` can see; none past its end. */
  function Window(packed: seq<byte>, at: nat): seq<byte>
  {
    if at >= |packed| then [] else packed[at..Min(|packed|, at + 8)]
  }

  /** A window, full or cut short, is the packed number shifted down and cut to 64 bits. */
  lemma WindowNumber(packed: seq<byte>, at: nat)
    ensures LE(Window(packed, at)) == Shr(LE(packed), 8 * at) % TWO64
  {
    hide LE, Pow2;
    Pow2Bytes();
    LEEmpty();
    if at >= |packed| {
      LEBound(packed);
      Pow2Monotone(8 * |packed|, 8 * at);
      SmallMod(LE(packed), Pow2(8 * at));
    } else {
      var rest := packed[at..];
      LESplit(packed, at);
      if |rest| >= 8 {
        LESplit(rest, 8);
        assert rest[..8] == Window(packed, at);
      } else {
        assert rest == Window(packed, at);
        LEBound(rest);
        Pow2Monotone(8 * |rest|, 64);
        SmallMod(LE(rest), TWO64);
      }
    }
  }

  lemma CutThenShift(y: nat, a: nat, b: nat, c: nat)
    requires a > 0 && b > 0 && c > 0
    ensures b * c > 0 && a * (b * c) > 0
    ensures (y % (a * (b * c))) / a % c == y / a % c
  {
    MulBounds(b, c);
    ModDiv(y, a, b * c);
    ModMod(y / a, b, c);
  }

  /** Cutting to 64 bits before shifting and masking loses nothing of a field. */
  lemma CutField(y: nat, shift: nat, w: nat)
    requires shift < 8 && w <= 32
    ensures Shr(y % TWO64, shift) % Pow2(w) == Shr(y, shift) % Pow2(w)
  {
    Pow2Bytes();
    Pow2Add3(shift, 64 - shift - w, w);
    CutThenShift(y, Pow2(shift), Pow2(64 - shift - w), Pow2(w));
  }

  lemma FieldByByte(number: nat, j: nat, w: nat, at: nat, shift: nat)
    requires j * w == 8 * at + shift
    ensures Field(number, j, w) == Shr(Shr(number, 8 * at), shift) % Pow2(w)
  {
    Pow2Add(8 * at, shift);
    DivDiv(number, Pow2(8 * at), Pow2(shift));
  }

  /** Shift and mask of the window at a field's byte is the field. */
  lemma WindowField(packed: seq<byte>, j: nat, w: nat, at: nat, shift: nat)
    requires w <= 32 && shift < 8 && j * w == 8 * at + shift
    ensures BitAnd(Shr(LE(Window(packed, at)), shift), Pow2(w) - 1) == Field(LE(packed), j, w)
  {
    WindowNumber(packed, at);
    BitAndMask(Shr(LE(Window(packed, at)), shift), w);
    CutField(Shr(LE(packed), 8 * at), shift, w);
    FieldByByte(LE(packed), j, w, at, shift);
  }

  lemma LESingle(b: byte)
    ensures LE([b]) == b
  {
    assert LE([b]) == b + 256 * LE([]);
  }

  /** One step of the byte-by-byte fallback. */
  lemma FallbackStep(s: seq<byte>, k: nat)
    requires k < |s| <= 8
    ensures BitOr(LE(s[..k]), Shl64(s[k], 8 * k)) == LE(s[..k + 1])
  {
    LEBound(s[..k]);
    BitOrDisjoint(LE(s[..k]), s[k], 8 * k);
    assert s[..k + 1] == s[..k] + [s[k]];
    LEConcat(s[..k], [s[k]]);
    LESingle(s[k]);
    LEBound(s[..k + 1]);
    Pow2Bytes();
    Pow2Monotone(8 * (k + 1), 64);
    MulNonneg(s[k], Pow2(8 * k));
    MulCommute(s[k], Pow2(8 * k));
    SmallMod(s[k] * Pow2(8 * k), TWO64);
  }

  /** The byte-by-byte fallback of unpackResiduals. */
  method ReadBytewise(packed: seq<byte>, at: nat) returns (raw: nat)
    ensures raw == LE(Window(packed, at))
  {
    raw := 0;
    ghost var s := Window(packed, at);
    var k := 0;
    while k < 8 && at + k < |packed|
      invariant 0 <= k <= |s|
      invariant raw == LE(s[..k])
      decreases 8 - k
    {
      FallbackStep(s, k);
      raw := BitOr(raw, Shl64(packed[at + k], 8 * k));
      k := k + 1;
    }
    assert s[..k] == s;
  }

  /** One residual: an 8-byte read where it stays inside the buffer, else byte by byte. */
  method ReadField(packed: seq<byte>, j: nat, w: nat, mask: nat) returns (field: nat)
    requires w <= 32 && mask == Pow2(w) - 1
    ensures field == Field(LE(packed), j, w)
  {
    var safeLimit := |packed| - 7;
    MulNonneg(j, w);
    var bitPos: nat := j * w;
    var bytePos, shift := bitPos / 8, bitPos % 8;
    var raw;
    if bytePos < safeLimit {
      raw := LE(packed[bytePos..bytePos + 8]);
      assert packed[bytePos..bytePos + 8] == Window(packed, bytePos);
    } else {
      raw := ReadBytewise(packed, bytePos);
    }
    WindowField(packed, j, w, bytePos, shift);
    field := BitAnd(Shr(raw, shift), mask);
  }

  lemma ZeroWidth(x: nat, j: nat)
    ensures Field(x, j, 0) == 0
  {
  }

  /** unpackResiduals: fills a slice of length n from packed bytes of any length. */
  method UnpackResiduals(packed: seq<byte>, n: nat, w: nat, groupMin: uint32, values: Slice<uint32>)
    requires w <= 32 && values.Valid() && values.len == n
    modifies values.arr
    ensures values.Elems() == Unpacked(packed, n, w, groupMin)
    ensures forall i :: 0 <= i < values.arr.Length && !(values.off <= i < values.off + n) ==>
      values.arr[i] == old(values.arr[i])
  {
    hide LE, Pow2, Field, Unpacked;
    ghost var spec := Unpacked(packed, n, w, groupMin);
    var arr, off := values.arr, values.off;
    if w == 0 {
      for i := 0 to values.len
        invariant forall k :: off <= k < off + i ==> arr[k] == groupMin
        invariant forall k :: 0 <= k < arr.Length && !(off <= k < off + n) ==> arr[k] == old(arr[k])
      {
        arr[off + i] := groupMin;
      }
      forall k | 0 <= k < n ensures arr[off + k] == spec[k] {
        UnpackedAt(packed, n, w, groupMin, k);
        ZeroWidth(LE(packed), k);
      }
      return;
    }
    var mask := Pow2(w) - 1;
    for j := 0 to n
      invariant arr[off..off + j] == spec[..j]
      invariant forall k :: 0 <= k < arr.Length && !(off <= k < off + n) ==> arr[k] == old(arr[k])
    {
      var field := ReadField(packed, j, w, mask);
      UnpackedAt(packed, n, w, groupMin, j);
      arr[off + j] := (groupMin + field) % TWO32;
      assert arr[off..off + j + 1] == arr[off..off + j] + [arr[off + j]];
    }
  }

  /** ensureCapU32 */
  method EnsureCap(s: Slice<uint32>, n: nat) returns (t: Slice<uint32>)
    requires s.Valid()
    ensures t.Valid() && t.len == n
    ensures s.cap < n ==> fresh(t.arr)
    ensures s.cap >= n ==> t == s.(len := n)
  {
    if s.cap < n {
      var a := new uint32[n](i => 0);
      t := Slice(a, 0, n, n);
    } else {
      t := s.(len := n);
    }
  }

  /** DecodeGroup: decodes the group at the tail of any buffer into dst, whose earlier contents
    do not matter. Returns the slice written and the number of bytes consumed. */
  method DecodeGroup(buf: seq<byte>, n: int, dst: Slice<uint32>)
    returns (values: Slice<uint32>, consumed: Result<nat>)
    requires dst.Valid()
    modifies dst.arr
    ensures values.Valid()
    ensures GroupAtTail(buf, n).Err? ==>
      consumed == Err(GroupAtTail(buf, n).error) && values == dst && dst.arr[..] == old(dst.arr[..])
    ensures GroupAtTail(buf, n).Ok? ==>
      values.Elems() == GroupAtTail(buf, n).value.0 && consumed == Ok(GroupAtTail(buf, n).value.1)
    ensures consumed.Ok? && dst.cap >= n ==> values == dst.(len := n)
    ensures consumed.Ok? && dst.cap < n ==> fresh(values.arr)
    ensures forall i :: 0 <= i < dst.arr.Length && !(dst.off <= i < dst.off + n) ==>
      dst.arr[i] == old(dst.arr[i])
  {
    if n <= 0 {
      return dst, Err(BadCount);
    }
    if |buf| < 5 {
      return dst, Err(ShortGroup);
    }
    var width := buf[|buf| - 5];
    if width > 32 {
      return dst, Err(BadWidth);
    }
    var groupMin := Get32(buf[|buf| - 4..]);
    var packSize := PackSize(width, n);
    var used := packSize + 5;
    if |buf| < used {
      return dst, Err(ShortPayload);
    }
    values := EnsureCap(dst, n);
    UnpackResiduals(buf[|buf| - 5 - packSize..|buf| - 5], n, width, groupMin, values);
    consumed := Ok(used);
  }
}
