/**
 * Numerals: the value-level vocabulary shared by the string/number converters.
 * Digit glyphs, positional notations (decimal, fixed-width hexadecimal,
 * base-256), machine-word constants and C's truncating division.
 */
module Numerals {

  /** One byte of a std::string used as a byte buffer. */
  type Byte = x: int | 0 <= x < 256

  /** 2^32: unsigned int arithmetic is taken modulo this. */
  const TWO32: nat := 0x1_0000_0000

  function Pow(b: nat, e: nat): (r: nat)
    ensures b >= 1 ==> r >= 1
  {
    if e == 0 then 1 else b * Pow(b, e - 1)
  }

  lemma {:induction false} PowMonotone(b: nat, e: nat, f: nat)
    requires b >= 1 && e <= f
    ensures Pow(b, e) <= Pow(b, f)
    decreases f
  {
    if e < f {
      PowMonotone(b, e, f - 1);
      AtLeastOnce(b, Pow(b, f - 1));
    }
  }

  lemma AtLeastOnce(b: nat, x: nat)
    requires b >= 1
    ensures x <= b * x
  {
  }

  lemma {:induction false} PowAdd(b: nat, e: nat, f: nat)
    ensures Pow(b, e + f) == Pow(b, e) * Pow(b, f)
  {
    if f > 0 {
      PowAdd(b, e, f - 1);
      assert Pow(b, e + f) == b * Pow(b, e + f - 1);
      MulSwap(b, Pow(b, e), Pow(b, f - 1));
    }
  }

  lemma MulSwap(x: int, y: int, z: int)
    ensures x * (y * z) == y * (x * z)
  {
  }

  /** 16^8 is 2^32: eight hexadecimal digits span an unsigned int. */
  lemma Pow16Eight()
    ensures Pow(16, 8) == TWO32
  {
  }

  // ---------------------------------------------------------------------------
  // C integer division (truncates toward zero; Dafny's / and % are Euclidean)
  // ---------------------------------------------------------------------------

  function Abs(a: int): nat {
    if a < 0 then -a else a
  }

  /** The quotient has the dividend's sign and its magnitude is |a| / b, rounded down. */
  function CDiv(a: int, b: nat): (q: int)
    requires b > 0
    ensures Abs(q) * b <= Abs(a) < (Abs(q) + 1) * b
    ensures a >= 0 ==> q >= 0
    ensures a < 0 ==> q <= 0
  {
    var m := Abs(a) / b;
    FloorDivBounds(Abs(a), b, m);
    if a >= 0 then a / b else -((-a) / b)
  }

  /** Euclidean division of a natural number rounds down. */
  lemma FloorDivBounds(n: nat, b: nat, m: int)
    requires b > 0 && m == n / b
    ensures 0 <= m && m * b <= n < (m + 1) * b
  {
    assert n == m * b + n % b;
  }

  function CRem(a: int, b: nat): (r: int)
    requires b > 0
    ensures a == b * CDiv(a, b) + r
    ensures a >= 0 ==> 0 <= r < b
    ensures a < 0 ==> -(b as int) < r <= 0
  {
    if a >= 0 then a % b else -((-a) % b)
  }

  // ---------------------------------------------------------------------------
  // Characters
  // ---------------------------------------------------------------------------

  predicate IsDigit(c: char) {
    '0' <= c <= '9'
  }

  predicate IsHexDigit(c: char) {
    IsDigit(c) || 'a' <= c <= 'f' || 'A' <= c <= 'F'
  }

  predicate IsLowerHexDigit(c: char) {
    IsDigit(c) || 'a' <= c <= 'f'
  }

  predicate AllDigits(s: string) {
    forall i :: 0 <= i < |s| ==> IsDigit(s[i])
  }

  function DecGlyph(d: nat): (c: char)
    requires d < 10
    ensures IsDigit(c) && c as int - '0' as int == d
  {
    (48 + d) as char
  }

  /** Lower-case hexadecimal glyph, as printed by Uint32ipToHex. */
  function HexGlyph(d: nat): (c: char)
    requires d < 16
    ensures IsLowerHexDigit(c)
    ensures d < 10 ==> c as int == '0' as int + d
    ensures d >= 10 ==> c as int == 'a' as int + d - 10
  {
    if d < 10 then (48 + d) as char else (87 + d) as char
  }

  // ---------------------------------------------------------------------------
  // Positional notations
  // ---------------------------------------------------------------------------

  /** The decimal digits of n, most significant first, with no leading zero; empty for 0. */
  function Digits(n: nat): string
  {
    if n == 0 then [] else Digits(n / 10) + [DecGlyph(n % 10)]
  }

  /** The canonical decimal notation of n: Digits(n), or "0" for zero. */
  function Decimal(n: nat): string
  {
    if n == 0 then "0" else Digits(n)
  }

  /** The value of a string of decimal digits, most significant first. */
  function DecValue(s: string): nat
    requires AllDigits(s)
  {
    if s == [] then 0 else DecValue(s[..|s| - 1]) * 10 + (s[|s| - 1] as int - '0' as int)
  }

  /** The last k hexadecimal digits of v (that is, v mod 16^k), zero-padded, most significant first. */
  function HexDigits(v: nat, k: nat): (s: string)
    ensures |s| == k
  {
    if k == 0 then [] else HexDigits(v / 16, k - 1) + [HexGlyph(v % 16)]
  }

  function Repeat<T>(x: T, k: nat): (s: seq<T>)
    ensures |s| == k && forall i :: 0 <= i < k ==> s[i] == x
  {
    seq(k, _ => x)
  }

  function Reverse<T>(s: seq<T>): (r: seq<T>)
    ensures |r| == |s| && forall i :: 0 <= i < |s| ==> r[i] == s[|s| - 1 - i]
  {
    seq(|s|, i requires 0 <= i < |s| => s[|s| - 1 - i])
  }

  lemma ReverseAppend<T>(s: seq<T>, x: T)
    ensures Reverse(s + [x]) == [x] + Reverse(s)
  {
  }

  lemma ReverseConcat<T>(s: seq<T>, t: seq<T>)
    ensures Reverse(s + t) == Reverse(t) + Reverse(s)
  {
  }

  lemma ReverseReverse<T>(s: seq<T>)
    ensures Reverse(Reverse(s)) == s
  {
  }

  /** Base-256 digits of n, least significant first; empty for 0. */
  function LittleEndian(n: nat): (bs: seq<Byte>)
  {
    if n == 0 then [] else [n % 256] + LittleEndian(n / 256)
  }

  /** The value of a big-endian byte string. */
  function BEValue(bs: seq<Byte>): nat
  {
    if bs == [] then 0 else BEValue(bs[..|bs| - 1]) * 256 + bs[|bs| - 1]
  }

  /** The last w base-256 digits of n (n mod 256^w), big-endian, zero-padded. */
  function FixedBE(n: nat, w: nat): (bs: seq<Byte>)
    ensures |bs| == w
  {
    if w == 0 then [] else FixedBE(n / 256, w - 1) + [n % 256]
  }

  /** The value of a little-endian byte string. */
  function LEValue(bs: seq<Byte>): nat
  {
    if bs == [] then 0 else bs[0] + 256 * LEValue(bs[1..])
  }

  // ---------------------------------------------------------------------------
  // Lemmas about the notations
  // ---------------------------------------------------------------------------

  /** Digits(n) is a string of decimal digits with no leading zero, whose value is n. */
  lemma {:induction false} DigitsSound(n: nat)
    ensures AllDigits(Digits(n))
    ensures n > 0 ==> |Digits(n)| > 0 && Digits(n)[0] != '0'
    ensures n == 0 <==> Digits(n) == []
    ensures DecValue(Digits(n)) == n
  {
    if n > 0 {
      DigitsSound(n / 10);
      var s := Digits(n);
      assert s == Digits(n / 10) + [DecGlyph(n % 10)];
      assert s[..|s| - 1] == Digits(n / 10);
      if n / 10 == 0 {
        assert n % 10 != 0;
      }
    }
  }

  /** Decimal(n) is the canonical decimal notation: digits only, no leading zero, value n. */
  lemma DecimalSound(n: nat)
    ensures AllDigits(Decimal(n)) && |Decimal(n)| >= 1
    ensures Decimal(n)[0] == '0' ==> n == 0 && Decimal(n) == "0"
    ensures DecValue(Decimal(n)) == n
  {
    DigitsSound(n);
    if n == 0 {
      assert Decimal(n) == "0";
      assert Decimal(n)[..0] == [];
    }
  }

  /** A number below 10^k has at most k decimal digits. */
  lemma {:induction false} DigitsLength(n: nat, k: nat)
    requires n < Pow(10, k)
    ensures |Digits(n)| <= k
  {
    if n > 0 {
      assert k > 0;
      DigitsLength(n / 10, k - 1);
    }
  }

  /** All-zero value: HexDigits(0, k) is k zero glyphs. */
  lemma {:induction false} HexDigitsOfZero(k: nat)
    ensures HexDigits(0, k) == Repeat('0', k)
  {
    if k > 0 {
      HexDigitsOfZero(k - 1);
    }
  }

  lemma {:induction false} HexDigitsShape(v: nat, k: nat)
    ensures |HexDigits(v, k)| == k
    ensures forall i :: 0 <= i < k ==> IsLowerHexDigit(HexDigits(v, k)[i])
  {
    if k > 0 {
      HexDigitsShape(v / 16, k - 1);
    }
  }

  /** Splitting a remainder: v mod (d*m) is (v/d mod m)*d + v mod d. */
  lemma ModSplit(v: nat, d: nat, m: nat)
    requires d > 0 && m > 0
    ensures d * m > 0
    ensures v % (d * m) == (v / d % m) * d + v % d
  {
    var q, r := v / d, v % d;
    TwoLevel(v, d, m, q, r, q / m, q % m);
  }

  /** Dividing twice is dividing by the product. */
  lemma DivDiv(a: nat, b: nat, c: nat)
    requires b > 0 && c > 0
    ensures b * c > 0
    ensures a / b / c == a / (b * c)
  {
    var q, r := a / b, a % b;
    TwoLevel(a, b, c, q, r, q / c, q % c);
  }

  /** Two nested divisions combine into one: by b, then by c, is by b*c. */
  lemma TwoLevel(v: nat, b: nat, c: nat, q: nat, r: nat, q2: nat, r2: nat)
    requires b > 0 && c > 0
    requires v == b * q + r && r < b
    requires q == c * q2 + r2 && r2 < c
    ensures b * c > 0
    ensures v / (b * c) == q2 && v % (b * c) == b * r2 + r
  {
    MulPositive(b, c);
    Regroup(b, c, q2, r2);
    BelowProduct(b, c, r2, r);
    DivModUnique(v, b * c, q2, b * r2 + r);
  }

  lemma MulPositive(b: nat, c: nat)
    requires b > 0 && c > 0
    ensures b * c > 0
  {
  }

  lemma Regroup(b: int, c: int, q2: int, r2: int)
    ensures b * (c * q2 + r2) == (b * c) * q2 + b * r2
  {
  }

  lemma BelowProduct(b: nat, c: nat, r2: nat, r: nat)
    requires r2 < c && r < b
    ensures b * r2 + r < b * c
  {
    assert b * r2 <= b * (c - 1);
  }

  /** v rounded down to a multiple of d. */
  lemma FloorMultiple(v: nat, d: nat)
    requires d > 0
    ensures v / d * d <= v && v - v / d * d < d && (v / d * d) % d == 0
  {
    assert v == d * (v / d) + v % d;
    DivModUnique(v / d * d, d, v / d, 0);
  }

  /** v rounded down to a multiple of d. */
  function RoundDown(v: nat, d: nat): (r: nat)
    requires d > 0
    ensures r <= v && v - r < d && r % d == 0
  {
    FloorMultiple(v, d);
    v / d * d
  }

  /** Division is determined by a quotient/remainder pair. */
  lemma DivModUnique(v: int, d: int, q: int, r: int)
    requires d > 0 && 0 <= r < d && v == d * q + r
    ensures v / d == q && v % d == r
  {
    var x := q - v / d;
    assert d * x == v % d - r;
    assert x >= 1 ==> d * x >= d;
    assert x <= -1 ==> d * x <= -d;
  }

  // ---------------------------------------------------------------------------
  // Base-256 lemmas
  // ---------------------------------------------------------------------------

  /** LittleEndian(n) has at most w digits exactly when n is below 256^w. */
  lemma {:induction false} LittleEndianLength(n: nat, w: nat)
    ensures |LittleEndian(n)| <= w <==> n < Pow(256, w)
  {
    if n > 0 && w > 0 {
      LittleEndianLength(n / 256, w - 1);
      assert n / 256 < Pow(256, w - 1) <==> n < 256 * Pow(256, w - 1);
    }
  }

  /** LittleEndian is a right inverse of LEValue. */
  lemma {:induction false} LittleEndianValue(n: nat)
    ensures LEValue(LittleEndian(n)) == n
  {
    if n > 0 {
      LittleEndianValue(n / 256);
      assert LittleEndian(n)[1..] == LittleEndian(n / 256);
    }
  }

  /** Zero bytes appended at the most significant end do not change a little-endian value. */
  lemma {:induction false} LEValueZeros(s: seq<Byte>, k: nat)
    ensures LEValue(s + Repeat<Byte>(0, k)) == LEValue(s)
  {
    if s == [] {
      ZerosValue(k);
      assert s + Repeat<Byte>(0, k) == Repeat<Byte>(0, k);
      assert LEValue(s) == 0;
    } else {
      LEValueZeros(s[1..], k);
      assert (s + Repeat<Byte>(0, k))[1..] == s[1..] + Repeat<Byte>(0, k);
    }
  }

  lemma {:induction false} ZerosValue(k: nat)
    ensures LEValue(Repeat<Byte>(0, k)) == 0
  {
    if k > 0 {
      ZerosValue(k - 1);
      var z := Repeat<Byte>(0, k);
      assert z[1..] == Repeat<Byte>(0, k - 1);
      assert z[0] == 0;
      assert LEValue(z) == z[0] + 256 * LEValue(z[1..]);
    }
  }

  /** Reading a byte string backwards swaps the two byte orders. */
  lemma {:induction false} BEValueReverse(s: seq<Byte>)
    ensures BEValue(Reverse(s)) == LEValue(s)
  {
    if s != [] {
      BEValueReverse(s[1..]);
      assert s == [s[0]] + s[1..];
      ReverseConcat([s[0]], s[1..]);
      var r := Reverse(s);
      assert r == Reverse(s[1..]) + [s[0]];
      assert r[..|r| - 1] == Reverse(s[1..]);
    }
  }

  /** FixedBE(n, w) denotes n mod 256^w. */
  lemma {:induction false} FixedBEValue(n: nat, w: nat)
    ensures BEValue(FixedBE(n, w)) == n % Pow(256, w)
  {
    if w > 0 {
      var bs := FixedBE(n, w);
      FixedBEValue(n / 256, w - 1);
      assert bs[..|bs| - 1] == FixedBE(n / 256, w - 1);
      ModSplit(n, 256, Pow(256, w - 1));
    }
  }

  /** Below 256^w, reversing LittleEndian padded with zeros to w bytes gives FixedBE. */
  lemma {:induction false} FixedBEOfLittleEndian(n: nat, w: nat)
    requires n < Pow(256, w)
    ensures |LittleEndian(n)| <= w
    ensures Reverse(LittleEndian(n) + Repeat<Byte>(0, w - |LittleEndian(n)|)) == FixedBE(n, w)
  {
    LittleEndianLength(n, w);
    var le := LittleEndian(n);
    if w > 0 {
      var b: Byte := n % 256;
      var rest: seq<Byte>;
      if n == 0 {
        FixedBEOfLittleEndian(0, w - 1);
        rest := le + Repeat<Byte>(0, w - 1);
      } else {
        assert n / 256 < Pow(256, w - 1);
        FixedBEOfLittleEndian(n / 256, w - 1);
        rest := LittleEndian(n / 256) + Repeat<Byte>(0, w - 1 - |LittleEndian(n / 256)|);
      }
      assert Reverse(rest) == FixedBE(n / 256, w - 1);
      assert le + Repeat<Byte>(0, w - |le|) == [b] + rest;
      ReverseConcat([b], rest);
      assert Reverse([b]) == [b];
    }
  }
}
