/** Decimal and hexadecimal numerals as the kernel prints and reads them, with
    the positional value that each numeral stands for. */
module Numerals {
  import opened Text

  function Pow2(e: nat): (p: nat)
    ensures p >= 1
  {
    if e == 0 then 1 else 2 * Pow2(e - 1)
  }

  function Pow10(e: nat): (p: nat)
    ensures p >= 1
  {
    if e == 0 then 1 else 10 * Pow10(e - 1)
  }

  const LOW32_MODULUS: nat := 0x1_0000_0000

  // ---------------------------------------------------------------- hexadecimal

  predicate IsHexChar(c: int) {
    '0' as int <= c <= '9' as int || 'a' as int <= c <= 'f' as int
  }

  /** The lower-case character `print_hex` emits for a nibble. */
  function HexChar(d: int): (c: int)
    requires 0 <= d < 16
    ensures IsHexChar(c) && HexCharValue(c) == d
  {
    if d < 10 then '0' as int + d else 'a' as int + d - 10
  }

  function HexCharValue(c: int): int
    requires IsHexChar(c)
  {
    if c <= '9' as int then c - '0' as int else c - 'a' as int + 10
  }

  /** The value a hexadecimal numeral stands for, most significant digit first. */
  function HexValue(ds: seq<int>): int
    requires forall k :: 0 <= k < |ds| ==> IsHexChar(ds[k])
  {
    if ds == [] then 0 else HexValue(ds[..|ds| - 1]) * 16 + HexCharValue(ds[|ds| - 1])
  }

  /** The shortest lower-case hexadecimal numeral of `n`: at least one digit,
      and no leading zero unless `n` is 0. */
  function HexDigits(n: nat): (ds: seq<int>)
    ensures |ds| >= 1
    ensures forall k :: 0 <= k < |ds| ==> IsHexChar(ds[k])
    ensures n == 0 <==> ds == ['0' as int]
    ensures n > 0 ==> ds[0] != '0' as int
  {
    if n < 16 then [HexChar(n)] else HexDigits(n / 16) + [HexChar(n % 16)]
  }

  /** Appending a nibble to a number appends its digit to the numeral. */
  lemma HexDigitsSnoc(hi: nat, d: nat)
    requires d < 16
    ensures HexDigits(hi * 16 + d) == if hi > 0 then HexDigits(hi) + [HexChar(d)] else [HexChar(d)]
  {
    DivAddMultiple(16, hi, d);
    assert (hi * 16 + d) % 16 == d;
  }

  /** A hexadecimal numeral reads back as the number it was printed from. */
  lemma {:induction false} HexRoundTrip(n: nat)
    ensures HexValue(HexDigits(n)) == n
  {
    if n >= 16 {
      var ds := HexDigits(n);
      assert ds[..|ds| - 1] == HexDigits(n / 16);
      HexRoundTrip(n / 16);
    }
  }

  // ---------------------------------------------------------------- decimal

  predicate IsDigit(c: int) { '0' as int <= c <= '9' as int }

  function DecChar(d: int): (c: int)
    requires 0 <= d < 10
    ensures IsDigit(c)
  {
    '0' as int + d
  }

  /** The value of the decimal numeral `ds` read after `acc`, left to right, as
      `acc * 10 + digit` per digit. */
  function DecValueFrom(acc: int, ds: seq<int>): int
    decreases |ds|
  {
    if ds == [] then acc else DecValueFrom(acc * 10 + (ds[0] - '0' as int), ds[1..])
  }

  function DecValue(ds: seq<int>): int {
    DecValueFrom(0, ds)
  }

  lemma {:induction false} DecValueFromSnoc(acc: int, ds: seq<int>, c: int)
    decreases |ds|
    ensures DecValueFrom(acc, ds + [c]) == DecValueFrom(acc, ds) * 10 + (c - '0' as int)
  {
    if ds != [] {
      assert (ds + [c])[1..] == ds[1..] + [c];
      DecValueFromSnoc(acc * 10 + (ds[0] - '0' as int), ds[1..], c);
    }
  }

  /** Reading more digits never lowers a non-negative accumulator. */
  lemma {:induction false} DecValueFromAtLeast(acc: int, ds: seq<int>)
    requires forall k :: 0 <= k < |ds| ==> IsDigit(ds[k])
    requires acc >= 0
    decreases |ds|
    ensures DecValueFrom(acc, ds) >= acc
  {
    if ds != [] {
      DecValueFromAtLeast(acc * 10 + (ds[0] - '0' as int), ds[1..]);
    }
  }

  /** The shortest decimal numeral of `n`, most significant digit first: no
      leading zero unless `n` is 0. */
  function DecDigits(n: nat): (ds: seq<int>)
    ensures |ds| >= 1
    ensures forall k :: 0 <= k < |ds| ==> IsDigit(ds[k])
    ensures n == 0 <==> ds == ['0' as int]
    ensures n > 0 ==> ds[0] != '0' as int
  {
    if n < 10 then [DecChar(n)] else DecDigits(n / 10) + [DecChar(n % 10)]
  }

  /** A decimal numeral reads back as the number it was printed from. */
  lemma {:induction false} DecRoundTrip(n: nat)
    ensures DecValue(DecDigits(n)) == n
  {
    if n < 10 {
      var ds := DecDigits(n);
      assert ds == [DecChar(n)] && ds[1..] == [];
      assert DecValueFrom(0, ds) == DecValueFrom(n, ds[1..]);
    } else {
      var front := DecDigits(n / 10);
      assert DecDigits(n) == front + [DecChar(n % 10)];
      DecRoundTrip(n / 10);
      DecValueFromSnoc(0, front, DecChar(n % 10));
      assert DecValue(DecDigits(n)) == DecValue(front) * 10 + n % 10;
    }
  }

  /** The digits of `n` least significant first, as `print_dec` stores them in its buffer. */
  function LowDigits(n: nat): seq<int> {
    [DecChar(n % 10)] + (if n / 10 > 0 then LowDigits(n / 10) else [])
  }

  /** Draining the buffer backwards gives the numeral. */
  lemma {:induction false} LowDigitsReversed(n: nat)
    ensures Reverse(LowDigits(n)) == DecDigits(n)
  {
    var low := LowDigits(n);
    assert low[1..] == if n / 10 > 0 then LowDigits(n / 10) else [];
    if n / 10 > 0 {
      LowDigitsReversed(n / 10);
    }
  }

  /** A number below 10^k has at most k digits: it fits a k-byte buffer. */
  lemma {:induction false} LowDigitsBound(n: nat, k: nat)
    requires 1 <= k && n < Pow10(k)
    ensures |LowDigits(n)| <= k
  {
    if n / 10 > 0 {
      LowDigitsBound(n / 10, k - 1);
    }
  }

  /** The sign and numeral `print_dec` prints for `v`. */
  function DecText(v: int): seq<int> {
    (if v < 0 then ['-' as int] else []) + DecDigits(if v < 0 then -v else v)
  }

  /** The printed form determines the number: its sign and its digits' value. */
  lemma DecTextReadsBack(v: int)
    ensures var t := DecText(v);
      |t| >= 1 &&
      (t[0] == '-' as int <==> v < 0) &&
      var ds := if v < 0 then t[1..] else t;
      (forall k :: 0 <= k < |ds| ==> IsDigit(ds[k])) &&
      (if v < 0 then -DecValue(ds) else DecValue(ds)) == v
  {
    var m := if v < 0 then -v else v;
    DecRoundTrip(m);
    var t := DecText(v);
    if v < 0 {
      assert t[1..] == DecDigits(m);
    } else {
      assert t == DecDigits(m);
    }
  }

  // ---------------------------------------------------------------- shifts

  /** `x >> n` on an unsigned value: `n` halvings. */
  function ShiftRight(x: nat, n: nat): nat {
    if n == 0 then x else ShiftRight(x / 2, n - 1)
  }

  lemma {:induction false} ShiftRightIsDiv(x: nat, n: nat)
    ensures ShiftRight(x, n) == x / Pow2(n)
  {
    if n > 0 {
      ShiftRightIsDiv(x / 2, n - 1);
      DivDiv(x, 2, Pow2(n - 1));
    }
  }

  lemma {:induction false} Pow2Add(a: nat, b: nat)
    ensures Pow2(a + b) == Pow2(a) * Pow2(b)
  {
    if a > 0 {
      Pow2Add(a - 1, b);
    }
  }

  lemma DivUnique(x: int, d: int, q: int, r: int)
    requires d > 0 && 0 <= r < d && x == d * q + r
    ensures x / d == q
  {
    var k := x / d - q;
    assert d * k == r - x % d;
  }

  lemma DivDiv(x: nat, a: nat, b: nat)
    requires a > 0 && b > 0
    ensures x / (a * b) == (x / a) / b
  {
    var q := x / a;
    var r := x % a;
    assert x == a * q + r;
    assert q == b * (q / b) + q % b;
    assert x == (a * b) * (q / b) + (a * (q % b) + r);
    assert a * (q % b) <= a * (b - 1);
    DivUnique(x, a * b, q / b, a * (q % b) + r);
  }

  /** `x >> i` is `x >> (i + 4)` followed by the nibble `(x >> i) & 0xF`. */
  lemma NibbleStep(x: nat, i: nat)
    ensures x / Pow2(i) == (x / Pow2(i + 4)) * 16 + (x / Pow2(i)) % 16
  {
    Pow2Add(i, 4);
    assert Pow2(4) == 16;
    DivDiv(x, Pow2(i), 16);
  }

  lemma DivAddMultiple(p: int, c: int, x: int)
    requires p > 0
    ensures (p * c + x) / p == c + x / p
  {
    DivUnique(p * c + x, p, c + x / p, x % p);
  }

  /** Nibbles below bit 32 depend only on the low 32 bits. */
  lemma NibbleOfLow32(v: nat, i: nat)
    requires i <= 28
    ensures (v / Pow2(i)) % 16 == ((v % LOW32_MODULUS) / Pow2(i)) % 16
  {
    var p, m := Pow2(i), Pow2(28 - i);
    Pow2Add(i, 32 - i);
    Pow2Add(4, 28 - i);
    Pow2At32();
    assert Pow2(4) == 16;
    NibbleBelowModulus(v, LOW32_MODULUS, p, m);
  }

  /** A nibble below a modulus that is a multiple of 16 times its weight `p`
      is the same in `v` and in `v` reduced by the modulus. */
  lemma NibbleBelowModulus(v: nat, modulus: nat, p: nat, m: nat)
    requires p > 0 && modulus == p * (16 * m) && modulus > 0
    ensures (v / p) % 16 == ((v % modulus) / p) % 16
  {
    var x := v % modulus;
    var q := v / modulus;
    var t := m * q;
    assert modulus * q == p * (16 * t) by {
      MulAssoc(p, 16 * m, q);
      MulAssoc(16, m, q);
    }
    assert v == p * (16 * t) + x;
    DivAddMultiple(p, 16 * t, x);
    ModAddMultiple(16, t, x / p);
  }

  lemma ModAddMultiple(d: int, c: int, y: int)
    requires d > 0
    ensures (d * c + y) % d == y % d
  {
    DivUnique(d * c + y, d, c + y / d, y % d);
  }

  lemma Pow2At32()
    ensures Pow2(32) == LOW32_MODULUS
  {
    assert Pow2(8) == 256;
    assert Pow2(16) == 65536 by { Pow2Add(8, 8); }
    Pow2Add(16, 16);
  }

  lemma MulAssoc(a: int, b: int, c: int)
    ensures (a * b) * c == a * (b * c)
  {
  }
}
