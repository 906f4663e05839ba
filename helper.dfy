/**
 * The string/number converters of model/helper.cc. Every converter in the
 * source is a loop over an accumulator or a result buffer; each is modelled
 * here as a method with that loop, proved equal to a specification function
 * of its input, and the specification functions carry the lemmas: round trips
 * between printers and parsers, digit-level meaning, and the quirks the code
 * really has ("0x" searched anywhere, modulo-2^32 wrap, partial last byte).
 */
module Helper {
  import opened Numerals

  // ===========================================================================
  // HexcharToInt
  // ===========================================================================

  /** One hexadecimal digit's value; every other character converts to 0. */
  function HexcharToInt(c: char): (v: nat)
    ensures v < 16
    ensures !IsHexDigit(c) ==> v == 0
  {
    if '0' <= c <= '9' then c as int - '0' as int
    else if 'a' <= c <= 'f' then c as int - 'a' as int + 10
    else if 'A' <= c <= 'F' then c as int - 'A' as int + 10
    else 0
  }

  /** HexcharToInt inverts both the lower-case and the upper-case hexadecimal glyphs. */
  lemma HexGlyphInverse(d: nat)
    requires d < 16
    ensures IsHexDigit(HexGlyph(d)) && HexcharToInt(HexGlyph(d)) == d
    ensures d >= 10 ==> HexcharToInt((d + 55) as char) == d
    ensures d < 10 ==> HexcharToInt(DecGlyph(d)) == d
  {
  }

  // ===========================================================================
  // StrToInt
  // ===========================================================================

  /** The two-character pattern a b occurs somewhere in s (std::string::find(..) < size()). */
  predicate Occurs(s: string, a: char, b: char) {
    exists i :: 0 <= i < |s| - 1 && s[i] == a && s[i + 1] == b
  }

  /** A character the StrToInt loop for this base accepts as a digit. */
  predicate ValidIn(c: char, base: nat) {
    if base == 16 then IsHexDigit(c)
    else if base == 2 then '0' <= c <= '1'
    else IsDigit(c)
  }

  /**
   * The unsigned accumulator after the StrToInt loop has scanned s: each
   * character valid in the base folds res * base + digit modulo 2^32; any
   * other character is reported and leaves res unchanged.
   */
  function Accumulate(s: string, base: nat): (res: nat)
    ensures res < TWO32
  {
    if s == [] then 0
    else
      var res := Accumulate(s[..|s| - 1], base);
      var c := s[|s| - 1];
      if ValidIn(c, base) then (res * base + HexcharToInt(c)) % TWO32 else res
  }

  /**
   * What StrToInt returns: hexadecimal when "0x" occurs anywhere, binary when
   * "0b" occurs anywhere, decimal otherwise; both prefixed forms start
   * scanning at index 2 whatever the position of the prefix.
   */
  function StrToIntValue(s: string): (n: nat)
    ensures n < TWO32
  {
    if Occurs(s, '0', 'x') then Accumulate(s[2..], 16)
    else if Occurs(s, '0', 'b') then Accumulate(s[2..], 2)
    else Accumulate(s, 10)
  }

  method StrToInt(str: string) returns (res: nat)
    ensures res == StrToIntValue(str)
    ensures res < TWO32
  {
    if Occurs(str, '0', 'x') {
      res := ScanHex(str);
    } else if Occurs(str, '0', 'b') {
      res := ScanBinary(str);
    } else {
      res := ScanDecimal(str);
    }
  }

  /** The base-16 loop of StrToInt, from index 2 (reached only when "0x" occurs, so str has two characters). */
  method ScanHex(str: string) returns (res: nat)
    requires |str| >= 2
    ensures res == Accumulate(str[2..], 16)
  {
    res := 0;
    var i := 2;
    while i < |str|
      invariant 2 <= i <= |str|
      invariant res == Accumulate(str[2..i], 16)
    {
      ghost var prev := res;
      if '0' <= str[i] <= '9' {
        res := (res * 16 + (str[i] as int - '0' as int)) % TWO32;
      } else if 'a' <= str[i] <= 'f' {
        res := (res * 16 + (str[i] as int - 'a' as int + 10)) % TWO32;
      } else if 'A' <= str[i] <= 'F' {
        res := (res * 16 + (str[i] as int - 'A' as int + 10)) % TWO32;
      }
      HexScanStep(str[2..i], str[i], prev, res);
      assert str[2..i + 1] == str[2..i] + [str[i]];
      i := i + 1;
    }
    assert str[2..i] == str[2..];
  }

  /** The base-2 loop of StrToInt, from index 2 (reached only when "0b" occurs, so str has two characters). */
  method ScanBinary(str: string) returns (res: nat)
    requires |str| >= 2
    ensures res == Accumulate(str[2..], 2)
  {
    res := 0;
    var i := 2;
    while i < |str|
      invariant 2 <= i <= |str|
      invariant res == Accumulate(str[2..i], 2)
    {
      ghost var prev := res;
      if '0' <= str[i] <= '1' {
        res := (res * 2 + (str[i] as int - '0' as int)) % TWO32;
      }
      DigitScanStep(str[2..i], str[i], 2, prev, res);
      assert str[2..i + 1] == str[2..i] + [str[i]];
      i := i + 1;
    }
    assert str[2..i] == str[2..];
  }

  /** The base-10 loop of StrToInt, over the whole string. */
  method ScanDecimal(str: string) returns (res: nat)
    ensures res == Accumulate(str, 10)
  {
    res := 0;
    var i := 0;
    while i < |str|
      invariant 0 <= i <= |str|
      invariant res == Accumulate(str[..i], 10)
    {
      ghost var prev := res;
      if '0' <= str[i] <= '9' {
        res := (res * 10 + (str[i] as int - '0' as int)) % TWO32;
      }
      DigitScanStep(str[..i], str[i], 10, prev, res);
      assert str[..i + 1] == str[..i] + [str[i]];
      i := i + 1;
    }
    assert str[..i] == str;
  }

  /** One step of the hexadecimal StrToInt loop: the three glyph ranges fold into Accumulate, anything else is skipped. */
  lemma HexScanStep(p: string, c: char, acc: nat, next: int)
    requires acc == Accumulate(p, 16)
    requires next ==
      if '0' <= c <= '9' then (acc * 16 + (c as int - '0' as int)) % TWO32
      else if 'a' <= c <= 'f' then (acc * 16 + (c as int - 'a' as int + 10)) % TWO32
      else if 'A' <= c <= 'F' then (acc * 16 + (c as int - 'A' as int + 10)) % TWO32
      else acc
    ensures next == Accumulate(p + [c], 16)
  {
    AccumulateSnoc(p, c, 16);
  }

  /** One step of the binary or decimal StrToInt loop: a digit of the base folds into Accumulate, anything else is skipped. */
  lemma DigitScanStep(p: string, c: char, base: nat, acc: nat, next: int)
    requires base == 2 || base == 10
    requires acc == Accumulate(p, base)
    requires next ==
      if '0' <= c <= (if base == 2 then '1' else '9') then (acc * base + (c as int - '0' as int)) % TWO32 else acc
    ensures next == Accumulate(p + [c], base)
  {
    AccumulateSnoc(p, c, base);
  }

  /** Accumulate over s + [c]: one more fold step when c is valid in the base, none otherwise. */
  lemma AccumulateSnoc(s: string, c: char, base: nat)
    ensures Accumulate(s + [c], base) ==
      if ValidIn(c, base) then (Accumulate(s, base) * base + HexcharToInt(c)) % TWO32 else Accumulate(s, base)
  {
    assert (s + [c])[..|s|] == s;
  }

  /** A character the base does not accept may be inserted anywhere without changing the result. */
  lemma {:induction false} AccumulateIgnoresInvalid(s: string, c: char, t: string, base: nat)
    requires !ValidIn(c, base)
    ensures Accumulate(s + [c] + t, base) == Accumulate(s + t, base)
  {
    if t == [] {
      assert (s + [c] + t)[..|s|] == s;
      assert s + t == s;
    } else {
      var t' := t[..|t| - 1];
      AccumulateIgnoresInvalid(s, c, t', base);
      assert (s + [c] + t)[..|s + [c] + t| - 1] == s + [c] + t';
      assert (s + t)[..|s + t| - 1] == s + t';
    }
  }

  /** x and x mod m agree modulo m after scaling and adding. */
  lemma ModScale(x: nat, k: nat, r: nat, m: nat)
    requires m > 0
    ensures ((x % m) * k + r) % m == (x * k + r) % m
  {
    var q := x / m;
    assert x == m * q + x % m;
    assert x * k + r == ((x % m) * k + r) + m * (q * k) by {
      assert x * k == (m * q + x % m) * k == m * (q * k) + (x % m) * k;
    }
    var y := (x % m) * k + r;
    DivModUnique(x * k + r, m, y / m + q * k, y % m);
  }

  /** The decimal digits of n parse back to n modulo 2^32. */
  lemma {:induction false} AccumulateDigits(n: nat)
    ensures Accumulate(Digits(n), 10) == n % TWO32
  {
    if n > 0 {
      var s := Digits(n);
      AccumulateDigits(n / 10);
      assert s[..|s| - 1] == Digits(n / 10);
      assert s[|s| - 1] == DecGlyph(n % 10);
      HexGlyphInverse(n % 10);
      ModScale(n / 10, 10, n % 10, TWO32);
    }
  }

  /** A string of decimal digits contains neither an "x" nor a "b". */
  lemma DigitsHaveNoPrefix(s: string)
    requires AllDigits(s)
    ensures !Occurs(s, '0', 'x') && !Occurs(s, '0', 'b')
  {
  }

  /**
   * Round trip UintToString then StrToInt: the decimal notation of n parses
   * back to n modulo 2^32 (so exactly n for every unsigned int).
   */
  lemma StrToIntOfDecimal(n: nat)
    ensures StrToIntValue(Decimal(n)) == n % TWO32
  {
    DecimalSound(n);
    DigitsHaveNoPrefix(Decimal(n));
    if n == 0 {
      assert "0"[..0] == [];
      assert Accumulate("0", 10) == 0;
    } else {
      AccumulateDigits(n);
    }
  }

  /** k hexadecimal digits of v parse back to v mod 16^k while 16^k spans at most an unsigned int. */
  lemma {:induction false} AccumulateHexDigits(v: nat, k: nat)
    requires k <= 8
    ensures Accumulate(HexDigits(v, k), 16) == v % Pow(16, k)
  {
    if k > 0 {
      var s := HexDigits(v, k);
      var init := HexDigits(v / 16, k - 1);
      var d := v % 16;
      assert s[..|s| - 1] == init && s[|s| - 1] == HexGlyph(d);
      HexGlyphInverse(d);
      AccumulateHexDigits(v / 16, k - 1);
      assert Accumulate(s, 16) == (Accumulate(init, 16) * 16 + d) % TWO32;
      PowMonotone(16, k, 8);
      Pow16Eight();
      HexStep(v, Pow(16, k - 1));
    }
  }

  /** One more hexadecimal digit, while 16^k spans at most an unsigned int. */
  lemma HexStep(v: nat, p: nat)
    requires p > 0 && 16 * p <= TWO32
    ensures (v / 16 % p * 16 + v % 16) % TWO32 == v % (16 * p)
  {
    ModSplit(v, 16, p);
    assert v / 16 % p * 16 + v % 16 < 16 * p by {
      assert v / 16 % p <= p - 1;
    }
  }

  /** "0x" followed by any text h: StrToInt scans exactly h in base 16. */
  lemma HexPrefixed(h: string)
    ensures Occurs("0x" + h, '0', 'x')
    ensures ("0x" + h)[2..] == h
  {
    assert ("0x" + h)[0] == '0' && ("0x" + h)[1] == 'x';
  }

  /** StrToInt on an input where "0x" occurs only late still starts at index 2: "10x1" parses to 1. */
  lemma StrToIntHexAnywhere()
    ensures StrToIntValue("10x1") == 1
  {
    var s := "10x1";
    assert s[1] == '0' && s[2] == 'x';
    assert Occurs(s, '0', 'x');
    assert s[2..] == "x1";
    assert "x1"[..1] == "x";
    assert "x"[..0] == [];
  }

  /** The decimal loop wraps modulo 2^32: "4294967297" (2^32 + 1) parses to 1. */
  lemma StrToIntWraps()
    ensures StrToIntValue(Decimal(TWO32 + 1)) == 1
  {
    StrToIntOfDecimal(TWO32 + 1);
  }

  // ===========================================================================
  // UintToString and IntToStr
  // ===========================================================================

  method UintToString(num: nat) returns (res: string)
    requires num < TWO32
    ensures res == Decimal(num)
  {
    res := [];
    if num == 0 {
      res := "0";
    }
    var n := num;
    while n != 0
      invariant num == 0 ==> n == 0 && res == "0"
      invariant num != 0 ==> Digits(n) + res == Digits(num)
    {
      DigitsStep(n, res);
      res := [DecGlyph(n % 10)] + res;
      n := n / 10;
    }
  }

  /** One step of the UintToString loop: the last digit of n moves to the front of res. */
  lemma DigitsStep(n: nat, res: string)
    requires n != 0
    ensures Digits(n / 10) + ([DecGlyph(n % 10)] + res) == Digits(n) + res
  {
  }

  /** The glyph IntToStr writes for one digit: num % 10 + '0', where C's % keeps the sign of num. */
  function SignedGlyph(d: nat, negative: bool): (c: char)
    requires d < 10
    ensures c != '\0'
  {
    if negative then (48 - d) as char else (48 + d) as char
  }

  /** The glyphs IntToStr writes for the magnitude m, most significant first. */
  function SignedDigits(m: nat, negative: bool): (s: string)
    ensures '\0' !in s
  {
    if m == 0 then [] else SignedDigits(m / 10, negative) + [SignedGlyph(m % 10, negative)]
  }

  /** For a non-negative value the glyphs are the decimal digits. */
  lemma {:induction false} SignedDigitsOfPositive(m: nat)
    ensures SignedDigits(m, false) == Digits(m)
  {
    if m > 0 {
      SignedDigitsOfPositive(m / 10);
    }
  }

  /** The prefix of a character buffer up to its first NUL: what a C string denotes. */
  function CString(buf: seq<char>): (s: string)
    ensures |s| <= |buf| && s == buf[..|s|] && '\0' !in s
    ensures |s| < |buf| ==> buf[|s|] == '\0'
  {
    if buf == [] || buf[0] == '\0' then [] else [buf[0]] + CString(buf[1..])
  }

  lemma {:induction false} CStringAt(buf: seq<char>, pos: nat)
    requires pos < |buf| && buf[pos] == '\0' && '\0' !in buf[..pos]
    ensures CString(buf) == buf[..pos]
  {
    if pos > 0 {
      assert buf[0] in buf[..pos];
      assert buf[1..][..pos - 1] == buf[1..pos];
      CStringAt(buf[1..], pos - 1);
    }
  }

  /**
   * IntToStr as written: the digits go into a 10-character buffer, are
   * reversed in place, and a terminator is written at pos. For zero the
   * '0' written at index 0 is overwritten by that terminator, since pos is
   * still 0, so the C string returned is empty.
   */
  method IntToStr(num: int) returns (s: string)
    requires -1000000000 < num < 1000000000
    ensures s == if num == 0 then "" else SignedDigits(if num < 0 then -num else num, num < 0)
  {
    var ss := new char[10];
    var pos := 0;
    if num == 0 {
      ss[0] := '0';
    }
    var n := num;
    ghost var negative := num < 0;
    ghost var mag: nat := if num < 0 then -num else num;
    ghost var m: nat := mag;
    AtMostNineGlyphs(mag, negative);
    while n != 0
      invariant 0 <= pos <= 9
      invariant n == if negative then -(m as int) else m
      invariant SignedDigits(m, negative) + Reverse(ss[..pos]) == SignedDigits(mag, negative)
      invariant |SignedDigits(m, negative)| + pos <= 9
      decreases m
    {
      ghost var before := ss[..pos];
      CDigit(n, m, negative);
      ss[pos] := (CRem(n, 10) + 48) as char;
      assert ss[..pos] == before;
      assert ss[..pos + 1] == ss[..pos] + [ss[pos]];
      SignedDigitsStep(m, negative, before, mag);
      pos := pos + 1;
      n := CDiv(n, 10);
      m := m / 10;
    }
    ghost var digits := ss[..pos];
    ghost var want := SignedDigits(mag, negative);
    assert Reverse(digits) == want;
    ReverseInPlace(ss, pos);
    ss[pos] := '\0';
    TerminatedAt(ss[..], pos, want);
    s := CString(ss[..]);
  }

  /** A magnitude below 10^9 has at most nine glyphs, so they fit IntToStr's buffer with its terminator. */
  lemma AtMostNineGlyphs(mag: nat, negative: bool)
    requires mag < 1000000000
    ensures |SignedDigits(mag, negative)| <= 9
  {
    assert Pow(10, 9) == 1000000000;
    DigitsLength(mag, 9);
    SignedDigitsLength(mag, negative);
  }

  /** A buffer holding the text want before a NUL at pos denotes want. */
  lemma TerminatedAt(buf: seq<char>, pos: nat, want: string)
    requires pos < |buf| && buf[pos] == '\0' && buf[..pos] == want && '\0' !in want
    ensures CString(buf) == want
  {
    CStringAt(buf, pos);
  }

  /** One step of the IntToStr loop on n = ±m: C's % gives the glyph of the last digit, C's / drops it. */
  lemma CDigit(n: int, m: nat, negative: bool)
    requires n == if negative then -(m as int) else m
    requires m != 0
    ensures 0 <= CRem(n, 10) + 48 < 128
    ensures (CRem(n, 10) + 48) as char == SignedGlyph(m % 10, negative)
    ensures CDiv(n, 10) == if negative then -((m / 10) as int) else m / 10
  {
  }

  /** Writing the glyph of the last digit of m extends the reversed buffer by it. */
  lemma SignedDigitsStep(m: nat, negative: bool, before: string, mag: nat)
    requires m != 0
    requires SignedDigits(m, negative) + Reverse(before) == SignedDigits(mag, negative)
    ensures SignedDigits(m / 10, negative) + Reverse(before + [SignedGlyph(m % 10, negative)]) == SignedDigits(mag, negative)
  {
    ReverseAppend(before, SignedGlyph(m % 10, negative));
  }

  /** The glyph count of a magnitude equals its decimal digit count. */
  lemma {:induction false} SignedDigitsLength(m: nat, negative: bool)
    ensures |SignedDigits(m, negative)| == |Digits(m)|
  {
    if m > 0 {
      SignedDigitsLength(m / 10, negative);
    }
  }

  /** The swap loop of IntToStr: reverses a[..n] in place and leaves the rest alone. */
  method ReverseInPlace(a: array<char>, n: nat)
    requires n <= a.Length
    modifies a
    ensures a[..n] == Reverse(old(a[..n]))
    ensures a[n..] == old(a[n..])
  {
    var i := 0;
    while i < n / 2
      invariant 0 <= i <= n / 2
      invariant forall k :: 0 <= k < i ==> a[k] == old(a[n - 1 - k]) && a[n - 1 - k] == old(a[k])
      invariant forall k :: i <= k < n - i ==> a[k] == old(a[k])
      invariant a[n..] == old(a[n..])
    {
      var temp := a[i];
      a[i] := a[n - 1 - i];
      a[n - 1 - i] := temp;
      i := i + 1;
    }
  }

  /**
   * IntToStr with the zero case corrected: the '0' is counted in pos, so the
   * terminator lands after it. For every value it agrees with UintToString
   * on non-negative numbers.
   */
  method IntToStrFixed(num: int) returns (s: string)
    requires -1000000000 < num < 1000000000
    ensures num >= 0 ==> s == Decimal(num)
    ensures num < 0 ==> s == SignedDigits(-num, true)
  {
    if num == 0 {
      s := "0";
    } else {
      s := IntToStr(num);
      if num > 0 {
        SignedDigitsOfPositive(num);
      }
    }
  }

  // ===========================================================================
  // Uint32ipToHex
  // ===========================================================================

  method Uint32ipToHex(ip: nat) returns (res: string)
    requires ip < TWO32
    ensures res == "0x" + HexDigits(ip, 8)
  {
    if ip != 0 {
      res := "0x00000000";
      var k: nat := 9;
      var v: nat := ip;
      Pow16Eight();
      while v != 0
        invariant 1 <= k <= 9 && v < Pow(16, k - 1) && |res| == 10
        invariant HexFill(res, k, v) == HexFill("0x00000000", 9, ip)
        decreases v
      {
        HexPrintStep(v, k);
        var tmp := v % 16;
        HexGlyphCases(tmp);
        if tmp < 10 {
          res := res[k := (tmp + '0' as int) as char];
        } else {
          res := res[k := (tmp - 10 + 'a' as int) as char];
        }
        k := k - 1;
        v := v / 16;
      }
      assert HexFill(res, k, v) == res;
      ZeroTemplate();
      HexFillDigits("0x00000000", 9, ip, []);
      assert HexDigits(ip, 8) + [] == HexDigits(ip, 8);
    } else {
      res := "0x00000000";
      HexDigitsOfZero(8);
    }
  }

  /** The buffer Uint32ipToHex starts from: the prefix and eight zero glyphs. */
  lemma ZeroTemplate()
    ensures "0x00000000" == "0x" + Repeat('0', 8) + []
  {
  }

  /**
   * The string the Uint32ipToHex loop leaves when it starts from res at
   * index k with v still to print: one glyph per step, right to left.
   */
  function HexFill(res: string, k: nat, v: nat): (r: string)
    requires |res| == 10 && 1 <= k <= 9 && v < Pow(16, k - 1)
    ensures |r| == 10
    decreases v
  {
    if v == 0 then res
    else
      HexPrintStep(v, k);
      HexFill(res[k := HexGlyph(v % 16)], k - 1, v / 16)
  }

  /** From "0x", k - 1 zeros and a tail, the loop fills the zeros with the hexadecimal digits of v. */
  lemma {:induction false} HexFillDigits(res: string, k: nat, v: nat, tail: string)
    requires 1 <= k <= 9 && v < Pow(16, k - 1) && |tail| == 9 - k
    requires res == "0x" + Repeat('0', k - 1) + tail
    ensures HexFill(res, k, v) == "0x" + (HexDigits(v, k - 1) + tail)
    decreases v
  {
    if v == 0 {
      HexDigitsOfZero(k - 1);
    } else {
      HexPrintStep(v, k);
      var g := HexGlyph(v % 16);
      WriteBeforeTail(k, tail, g);
      HexFillDigits(res[k := g], k - 1, v / 16, [g] + tail);
      HexTailStep(v, k - 1, tail);
    }
  }

  /** One step of the Uint32ipToHex loop: a digit position is left, and the rest of v fits the positions before it. */
  lemma HexPrintStep(v: nat, k: nat)
    requires 1 <= k <= 9 && v < Pow(16, k - 1) && v != 0
    ensures k >= 2 && v / 16 < Pow(16, k - 2) && v / 16 < v
  {
  }

  /** The two ways Uint32ipToHex writes a digit both give its lower-case glyph. */
  lemma HexGlyphCases(d: nat)
    requires d < 16
    ensures d < 10 ==> (d + '0' as int) as char == HexGlyph(d)
    ensures d >= 10 ==> (d - 10 + 'a' as int) as char == HexGlyph(d)
  {
  }

  /** The last digit of HexDigits(v, k) moves to the front of the tail. */
  lemma HexTailStep(v: nat, k: nat, tail: string)
    requires k >= 1
    ensures HexDigits(v / 16, k - 1) + ([HexGlyph(v % 16)] + tail) == HexDigits(v, k) + tail
  {
  }

  /** Writing glyph g at index k of "0x", k - 1 zeros and a tail moves g from the zeros to the tail. */
  lemma WriteBeforeTail(k: nat, tail: string, g: char)
    requires k >= 2
    ensures ("0x" + Repeat('0', k - 1) + tail)[k := g] == "0x" + Repeat('0', k - 2) + ([g] + tail)
  {
  }

  /** Uint32ipToHex prints "0x" and exactly eight lower-case hexadecimal digits. */
  lemma Uint32ipToHexShape(ip: nat)
    ensures |"0x" + HexDigits(ip, 8)| == 10
    ensures forall i :: 2 <= i < 10 ==> IsLowerHexDigit(("0x" + HexDigits(ip, 8))[i])
  {
    HexDigitsShape(ip, 8);
  }

  /** Round trip Uint32ipToHex then StrToInt: the address comes back unchanged. */
  lemma StrToIntOfHexIp(ip: nat)
    requires ip < TWO32
    ensures StrToIntValue("0x" + HexDigits(ip, 8)) == ip
  {
    StrToIntOfHex(ip, 8);
    Pow16Eight();
    SmallMod(ip, TWO32);
  }

  lemma SmallMod(v: nat, m: nat)
    requires v < m
    ensures v % m == v
  {
  }

  /** StrToInt of "0x" and k hexadecimal digits of v gives v mod 16^k. */
  lemma StrToIntOfHex(v: nat, k: nat)
    requires k <= 8
    ensures StrToIntValue("0x" + HexDigits(v, k)) == v % Pow(16, k)
  {
    var h := HexDigits(v, k);
    HexPrefixed(h);
    AccumulateHexDigits(v, k);
  }

  // ===========================================================================
  // HexstrToBytes
  // ===========================================================================

  /** The digits HexstrToBytes converts: everything after index 2 when "0x" occurs anywhere. */
  function HexBody(s: string): string
  {
    if Occurs(s, '0', 'x') then s[2..] else s
  }

  /** Byte j of a digit string: digit 2j is the high nibble, digit 2j+1 the low one. */
  function PairByte(h: string, j: nat): (b: Byte)
    requires 2 * j + 1 < |h|
  {
    HexcharToInt(h[2 * j]) * 16 + HexcharToInt(h[2 * j + 1])
  }

  /** The bytes an even-length digit string denotes, two digits per byte. */
  function HexBytes(h: string): (bs: seq<Byte>)
    requires |h| % 2 == 0
    ensures |bs| == |h| / 2
  {
    seq(|h| / 2, j requires 0 <= j < |h| / 2 => PairByte(h, j))
  }

  /**
   * HexstrToBytes. An odd number of digits would make the last iteration
   * write one past the end of the result buffer, so the digit count must be
   * even.
   */
  method HexstrToBytes(str: string) returns (res: seq<Byte>)
    requires |HexBody(str)| % 2 == 0
    ensures res == HexBytes(HexBody(str))
  {
    var hexStr: string;
    if Occurs(str, '0', 'x') {
      hexStr := str[2..];
    } else {
      hexStr := str;
    }
    res := Repeat(0, |hexStr| / 2);
    var i, j := 0, 0;
    while i < |hexStr|
      invariant i == 2 * j && i <= |hexStr| && |res| == |hexStr| / 2
      invariant forall k :: 0 <= k < j ==> res[k] == PairByte(hexStr, k)
    {
      res := res[j := HexcharToInt(hexStr[i]) * 16 + HexcharToInt(hexStr[i + 1])];
      i, j := i + 2, j + 1;
    }
  }

  /** The two-digit lower-case hexadecimal notation of every byte, concatenated. */
  function HexOf(bs: seq<Byte>): (h: string)
    ensures |h| == 2 * |bs|
  {
    if bs == [] then [] else HexDigits(bs[0], 2) + HexOf(bs[1..])
  }

  lemma HexBytesConcat(a: string, b: string)
    requires |a| % 2 == 0 && |b| % 2 == 0
    ensures HexBytes(a + b) == HexBytes(a) + HexBytes(b)
  {
    var l, r := HexBytes(a + b), HexBytes(a) + HexBytes(b);
    forall k | 0 <= k < |l|
      ensures l[k] == r[k]
    {
      if k < |a| / 2 {
        assert (a + b)[2 * k] == a[2 * k] && (a + b)[2 * k + 1] == a[2 * k + 1];
      } else {
        var k' := k - |a| / 2;
        assert (a + b)[2 * k] == b[2 * k'] && (a + b)[2 * k + 1] == b[2 * k' + 1];
      }
    }
  }

  /** Two hexadecimal digits of a byte convert back to that byte. */
  lemma PairByteOfHexDigits(b: Byte)
    ensures HexBytes(HexDigits(b, 2)) == [b]
  {
    var h := HexDigits(b, 2);
    assert HexDigits(b / 16, 1) == HexDigits(b / 16 / 16, 0) + [HexGlyph(b / 16 % 16)];
    assert h == HexDigits(b / 16, 1) + [HexGlyph(b % 16)];
    assert h == [HexGlyph(b / 16 % 16), HexGlyph(b % 16)];
    HexGlyphInverse(b / 16 % 16);
    HexGlyphInverse(b % 16);
    assert PairByte(h, 0) == b;
  }

  /** Round trip: HexstrToBytes parses the hexadecimal notation of any byte string back to it. */
  lemma {:induction false} HexBytesOfHexOf(bs: seq<Byte>)
    ensures HexBytes(HexOf(bs)) == bs
  {
    if bs != [] {
      HexBytesOfHexOf(bs[1..]);
      PairByteOfHexDigits(bs[0]);
      HexBytesConcat(HexDigits(bs[0], 2), HexOf(bs[1..]));
      assert bs == [bs[0]] + bs[1..];
    }
  }

  /** 2w hexadecimal digits of v are the hexadecimal notation of its w low bytes. */
  lemma {:induction false} HexDigitsAsBytes(v: nat, w: nat)
    ensures HexDigits(v, 2 * w) == HexOf(FixedBE(v, w))
  {
    if w > 0 {
      HexDigitsAsBytes(v / 256, w - 1);
      HexDigitsLowByte(v, 2 * (w - 1));
      HexOfSnoc(FixedBE(v / 256, w - 1), v % 256);
    }
  }

  /** The last two of k + 2 hexadecimal digits of v are the two digits of its low byte. */
  lemma HexDigitsLowByte(v: nat, k: nat)
    ensures HexDigits(v, k + 2) == HexDigits(v / 256, k) + HexDigits(v % 256, 2)
  {
    DivDiv(v, 16, 16);
    ModSplit(v, 16, 16);
    var lo := v % 256;
    DivModUnique(lo, 16, v / 16 % 16, v % 16);
    var g1, g0 := HexGlyph(v / 16 % 16), HexGlyph(v % 16);
    assert HexDigits(v, k + 2) == HexDigits(v / 16 / 16, k) + [g1] + [g0];
    assert HexDigits(lo, 2) == HexDigits(lo / 16 / 16, 0) + [g1] + [g0];
  }

  lemma {:induction false} HexOfSnoc(bs: seq<Byte>, b: Byte)
    ensures HexOf(bs + [b]) == HexOf(bs) + HexDigits(b, 2)
  {
    if bs != [] {
      HexOfSnoc(bs[1..], b);
      assert (bs + [b])[1..] == bs[1..] + [b];
    } else {
      assert HexOf([b][1..]) == [];
    }
  }

  /**
   * Round trip Uint32ipToHex then HexstrToBytes: the printed address
   * converts to its four bytes, most significant first.
   */
  lemma HexstrToBytesOfHexIp(ip: nat)
    requires ip < TWO32
    ensures HexBody("0x" + HexDigits(ip, 8)) == HexDigits(ip, 8)
    ensures HexBytes(HexBody("0x" + HexDigits(ip, 8))) == FixedBE(ip, 4)
    ensures BEValue(FixedBE(ip, 4)) == ip
  {
    var h, bs := HexDigits(ip, 8), FixedBE(ip, 4);
    HexPrefixed(h);
    HexDigitsAsBytes(ip, 4);
    assert h == HexOf(bs);
    HexBytesOfHexOf(bs);
    FixedBEValue(ip, 4);
    assert Pow(256, 4) == TWO32;
    SmallMod(ip, TWO32);
  }

  // ===========================================================================
  // HexstrToBytes with a bit width
  // ===========================================================================

  /** std::string::operator[] at index size() reads the terminating NUL. */
  function CharAt(s: string, i: nat): char
    requires i <= |s|
  {
    if i < |s| then s[i] else '\0'
  }

  /** The value of the top n of a nibble's 4 bits, left in place (the low 4-n bits cleared). */
  function TopBits(v: nat, n: nat): (r: nat)
    requires v < 16 && n <= 4
    ensures r <= v && v - r < Pow(2, 4 - n) && r % Pow(2, 4 - n) == 0
  {
    RoundDown(v, Pow(2, 4 - n))
  }

  /**
   * Byte j of HexstrToBytes(str, bitWidth) when digit 2j exists: whole while
   * 8j + 8 < bitWidth; otherwise only the bits up to bitWidth survive, from
   * the high nibble alone or from the high nibble and the top of the low one.
   */
  function WidthByte(h: string, bitWidth: nat, j: nat): (b: Byte)
    requires 2 * j < |h| && 8 * j < bitWidth
  {
    var hi := HexcharToInt(h[2 * j]);
    var lo := HexcharToInt(CharAt(h, 2 * j + 1));
    var w := 8 * j;
    if w + 8 < bitWidth then hi * 16 + lo
    else if w + 4 >= bitWidth then TopBits(hi, bitWidth - w) * 16
    else hi * 16 + TopBits(lo, bitWidth - w - 4)
  }

  /** The result of HexstrToBytes(str, bitWidth) for digit body h: ceil(bitWidth/8) bytes. */
  function WidthBytes(h: string, bitWidth: nat): (bs: seq<Byte>)
    ensures |bs| == (bitWidth + 7) / 8
  {
    seq((bitWidth + 7) / 8, j requires 0 <= j < (bitWidth + 7) / 8 =>
      if 2 * j < |h| then WidthByte(h, bitWidth, j) else 0)
  }

  /** Bit p of a nibble counted from the most significant (p = 0), as a '0'/'1' glyph. */
  function BitGlyph(v: nat, p: nat): char
    requires p < 4
  {
    if v / Pow(2, 3 - p) % 2 == 0 then '0' else '1'
  }

  /** The four-character binary string of a nibble, most significant bit first. */
  function NibbleBits(v: nat): (s: string)
    ensures |s| == 4 && forall p :: 0 <= p < 4 ==> s[p] == BitGlyph(v, p)
  {
    [BitGlyph(v, 0), BitGlyph(v, 1), BitGlyph(v, 2), BitGlyph(v, 3)]
  }

  lemma DivBySmaller(v: nat, a: nat, b: nat)
    requires 0 < a <= b && v / a == 0
    ensures v / b == 0
  {
  }

  /** The first loop HexstrToBytes(str, bitWidth) runs on a nibble: its binary string, filled from the right. */
  method BinaryString(value: nat) returns (binaryStr: string)
    requires value < 16
    ensures binaryStr == NibbleBits(value)
  {
    binaryStr := "0000";
    var k: int := 3;
    var v := value;
    ghost var pw: nat := 1;
    while v != 0
      invariant -1 <= k <= 3 && |binaryStr| == 4
      invariant pw == Pow(2, 3 - k) && v == value / pw
      invariant v < Pow(2, k + 1)
      invariant forall p :: k < p < 4 ==> binaryStr[p] == BitGlyph(value, p)
      invariant forall p :: 0 <= p <= k ==> binaryStr[p] == '0'
      decreases v
    {
      BitStep(value, v, pw, k);
      binaryStr := binaryStr[k := (v % 2 + '0' as int) as char];
      k := k - 1;
      pw := pw * 2;
      v := v / 2;
    }
    HighBitsZero(value, k);
  }

  /** When value / 2^(3-k) is zero, bits 0 to k of the nibble are all '0'. */
  lemma HighBitsZero(value: nat, k: int)
    requires -1 <= k <= 3 && value / Pow(2, 3 - k) == 0
    ensures forall p :: 0 <= p <= k ==> BitGlyph(value, p) == '0'
  {
    forall p | 0 <= p <= k
      ensures BitGlyph(value, p) == '0'
    {
      PowMonotone(2, 3 - k, 3 - p);
      DivBySmaller(value, Pow(2, 3 - k), Pow(2, 3 - p));
    }
  }

  /** One step of the BinaryString loop: the low bit of v is bit k of value, and v / 2 drops it. */
  lemma BitStep(value: nat, v: nat, pw: nat, k: int)
    requires -1 <= k <= 3 && pw == Pow(2, 3 - k) && v == value / pw && v < Pow(2, k + 1) && v != 0
    ensures 0 <= k && (v % 2 + '0' as int) as char == BitGlyph(value, k)
    ensures pw * 2 == Pow(2, 3 - (k - 1)) && v / 2 == value / (pw * 2) && v / 2 < Pow(2, k) && v / 2 < v
  {
    DivDiv(value, pw, 2);
  }

  /**
   * The loops HexstrToBytes(str, bitWidth) runs on one nibble: write its
   * binary string, read the first leftLen bits back, shift left by the rest.
   */
  method TopNibbleBits(value: nat, leftLen: nat) returns (r: nat)
    requires value < 16 && leftLen <= 4
    ensures r == TopBits(value, leftLen)
  {
    var binaryStr := BinaryString(value);
    r := 0;
    var t := 0;
    while t < leftLen
      invariant t <= leftLen && r == value / Pow(2, 4 - t)
    {
      assert binaryStr[t] as int - '0' as int == value / Pow(2, 3 - t) % 2;
      HalveStep(value, Pow(2, 3 - t));
      r := r * 2 + (binaryStr[t] as int - '0' as int);
      t := t + 1;
    }
    while t < 4
      invariant leftLen <= t <= 4 && r == value / Pow(2, 4 - leftLen) * Pow(2, t - leftLen)
    {
      Rescale(value / Pow(2, 4 - leftLen), Pow(2, t - leftLen), 2);
      r := r * 2;
      t := t + 1;
    }
  }

  /** Reading one more bit: v/a is twice v/(2a) plus bit v/a mod 2. */
  lemma HalveStep(v: nat, a: nat)
    requires a > 0
    ensures 2 * a > 0 && v / (2 * a) * 2 + v / a % 2 == v / a
  {
    DivDiv(v, a, 2);
  }

  /**
   * HexstrToBytes(str, bitWidth): ceil(bitWidth/8) bytes from the digit
   * pairs, the loop stopping after the byte that reaches bitWidth; a missing
   * low digit reads the string terminator, worth 0. With bitWidth 0 and
   * some digits the first byte would be written past the end.
   */
  method HexstrToBytesWidth(str: string, bitWidth: nat) returns (res: seq<Byte>)
    requires bitWidth < TWO32
    requires bitWidth > 0 || HexBody(str) == []
    ensures res == WidthBytes(HexBody(str), bitWidth)
  {
    var hexStr: string;
    if Occurs(str, '0', 'x') {
      hexStr := str[2..];
    } else {
      hexStr := str;
    }
    var n := (bitWidth + 7) / 8;
    res := Repeat(0, n);
    var i, j, w := 0, 0, 0;
    while i < |hexStr|
      invariant i == 2 * j && w == 8 * j && |res| == n
      invariant i <= |hexStr| + 1
      invariant j == 0 || w < bitWidth
      invariant forall k :: 0 <= k < j ==> res[k] == WidthBytes(hexStr, bitWidth)[k]
      invariant forall k :: j <= k < n ==> res[k] == 0
    {
      if w + 8 < bitWidth {
        res := res[j := HexcharToInt(hexStr[i]) * 16 + HexcharToInt(CharAt(hexStr, i + 1))];
        assert res[j] == WidthBytes(hexStr, bitWidth)[j];
      } else {
        var last := PartialByte(hexStr, bitWidth, j);
        res := res[j := last];
        assert n == j + 1;
        assert res == WidthBytes(hexStr, bitWidth);
        break;
      }
      i, j, w := i + 2, j + 1, w + 8;
    }
    assert res == WidthBytes(hexStr, bitWidth);
  }

  /** The byte where bitWidth ends: the loop body's else branch, after which the loop stops. */
  method PartialByte(hexStr: string, bitWidth: nat, j: nat) returns (b: Byte)
    requires 2 * j < |hexStr| && 8 * j < bitWidth <= 8 * j + 8
    ensures b == WidthByte(hexStr, bitWidth, j)
  {
    var i, w := 2 * j, 8 * j;
    if w + 4 >= bitWidth {
      var hiBits := TopNibbleBits(HexcharToInt(hexStr[i]), bitWidth - w);
      b := hiBits * 16;
    } else {
      var loBits := TopNibbleBits(HexcharToInt(CharAt(hexStr, i + 1)), bitWidth - w - 4);
      b := HexcharToInt(hexStr[i]) * 16 + loBits;
    }
  }

  /**
   * With a bit width of exactly four bits per digit, the width-aware
   * conversion agrees with the plain one.
   */
  lemma HexstrToBytesFullWidth(h: string)
    requires |h| % 2 == 0
    ensures WidthBytes(h, 4 * |h|) == HexBytes(h)
  {
    var l, r := WidthBytes(h, 4 * |h|), HexBytes(h);
    forall k | 0 <= k < |l|
      ensures l[k] == r[k]
    {
      assert TopBits(HexcharToInt(h[2 * k + 1]), 4) == HexcharToInt(h[2 * k + 1]);
    }
  }

  /** The byte b with only its top n bits kept. */
  function KeepTopBits(b: Byte, n: nat): (r: Byte)
    requires 1 <= n <= 8
    ensures r <= b && b - r < Pow(2, 8 - n) && r % Pow(2, 8 - n) == 0
  {
    RoundDown(b, Pow(2, 8 - n))
  }

  /**
   * The byte where bitWidth ends holds exactly the bits of its digit pair
   * that lie inside bitWidth, the rest cleared.
   */
  lemma LastWidthByte(h: string, bitWidth: nat, j: nat)
    requires 2 * j < |h| && 8 * j < bitWidth <= 8 * j + 8
    ensures WidthByte(h, bitWidth, j)
         == KeepTopBits(HexcharToInt(h[2 * j]) * 16 + HexcharToInt(CharAt(h, 2 * j + 1)), bitWidth - 8 * j)
  {
    var hi := HexcharToInt(h[2 * j]);
    var lo := HexcharToInt(CharAt(h, 2 * j + 1));
    var n := bitWidth - 8 * j;
    NibbleSplit(hi, lo, n);
  }

  /** Keeping the top n bits of hi*16+lo, seen nibble by nibble. */
  lemma NibbleSplit(hi: nat, lo: nat, n: nat)
    requires hi < 16 && lo < 16 && 1 <= n <= 8
    ensures n <= 4 ==> KeepTopBits(hi * 16 + lo, n) == TopBits(hi, n) * 16
    ensures n > 4 ==> KeepTopBits(hi * 16 + lo, n) == hi * 16 + TopBits(lo, n - 4)
  {
    if n <= 4 {
      KeepHighNibble(hi, lo, n);
    } else {
      KeepLowNibble(hi, lo, n);
    }
  }

  lemma KeepHighNibble(hi: nat, lo: nat, n: nat)
    requires hi < 16 && lo < 16 && 1 <= n <= 4
    ensures KeepTopBits(hi * 16 + lo, n) == TopBits(hi, n) * 16
  {
    var p := Pow(2, 4 - n);
    PowAdd(2, 4, 4 - n);
    assert Pow(2, 4) == 16;
    assert Pow(2, 8 - n) == 16 * p;
    HighNibbleDiv(hi, lo, p);
    Rescale(hi / p, p, 16);
  }

  /** Dividing hi*16+lo by 16*p drops the low nibble first. */
  lemma HighNibbleDiv(hi: nat, lo: nat, p: nat)
    requires lo < 16 && p > 0
    ensures (hi * 16 + lo) / (16 * p) == hi / p
  {
    DivModUnique(hi * 16 + lo, 16, hi, lo);
    DivDiv(hi * 16 + lo, 16, p);
  }

  lemma Rescale(q: nat, p: nat, k: nat)
    ensures q * (k * p) == (q * p) * k
  {
  }

  lemma KeepLowNibble(hi: nat, lo: nat, n: nat)
    requires hi < 16 && lo < 16 && 4 < n <= 8
    ensures KeepTopBits(hi * 16 + lo, n) == hi * 16 + TopBits(lo, n - 4)
  {
    var m := 8 - n;
    var p := Pow(2, m);
    var q := Pow(2, 4 - m);
    PowAdd(2, m, 4 - m);
    assert Pow(2, 4) == 16;
    LowNibbleDiv(hi, lo, p, q);
  }

  /** When p divides 16, rounding hi*16+lo down to a multiple of p only touches lo. */
  lemma LowNibbleDiv(hi: nat, lo: nat, p: nat, q: nat)
    requires p > 0 && p * q == 16
    ensures (hi * 16 + lo) / p * p == hi * 16 + lo / p * p
  {
    var lq, lr := lo / p, lo % p;
    assert hi * 16 == p * (hi * q) by {
      Rescale(hi, q, p);
    }
    assert hi * 16 + lo == p * (hi * q + lq) + lr;
    DivModUnique(hi * 16 + lo, p, hi * q + lq, lr);
    assert (hi * q + lq) * p == hi * 16 + lq * p;
  }

  // ===========================================================================
  // IpStrToBytes
  // ===========================================================================

  const INT_MIN: int := -0x8000_0000
  const INT_MAX: int := 0x7FFF_FFFF

  /** The number of '.' characters in s. */
  function Dots(s: string): nat
  {
    if s == [] then 0 else Dots(s[..|s| - 1]) + if s[|s| - 1] == '.' then 1 else 0
  }

  /**
   * The int accumulator of IpStrToBytes after s: reset by '.', otherwise
   * temp * 10 + (c - '0') for any character c.
   */
  function Temp(s: string): int
  {
    if s == [] then 0
    else if s[|s| - 1] == '.' then 0
    else Temp(s[..|s| - 1]) * 10 + (s[|s| - 1] as int - '0' as int)
  }

  /** The four-byte buffer after s: each '.' stores temp, truncated to a char, at the next slot. */
  function ScanRes(s: string): (res: seq<Byte>)
    ensures |res| == 4
  {
    if s == [] then [0, 0, 0, 0]
    else
      var p := s[..|s| - 1];
      if s[|s| - 1] == '.' && Dots(p) < 4 then ScanRes(p)[Dots(p) := Temp(p) % 256]
      else ScanRes(p)
  }

  /** What IpStrToBytes returns: the last field always lands in byte 3. */
  function IpBytes(s: string): (res: seq<Byte>)
    ensures |res| == 4
  {
    ScanRes(s)[3 := Temp(s) % 256]
  }

  lemma {:induction false} DotsPrefix(s: string, k: nat)
    requires k <= |s|
    ensures Dots(s[..k]) <= Dots(s)
  {
    if k < |s| {
      assert s[..|s| - 1][..k] == s[..k];
      DotsPrefix(s[..|s| - 1], k);
    } else {
      assert s[..k] == s;
    }
  }

  /**
   * IpStrToBytes. A fourth dot stores its field in byte 3, which the last
   * field then overwrites; a fifth would write past the four-byte buffer.
   * The field accumulator is a signed int that must not overflow.
   */
  method IpStrToBytes(str: string) returns (res: seq<Byte>)
    requires Dots(str) <= 4
    requires forall k :: 0 <= k <= |str| ==> INT_MIN <= Temp(str[..k]) <= INT_MAX
    ensures res == IpBytes(str)
  {
    res := [0, 0, 0, 0];
    var j := 0;
    var temp := 0;
    for i := 0 to |str|
      invariant res == ScanRes(str[..i]) && j == Dots(str[..i]) && temp == Temp(str[..i])
    {
      assert str[..i + 1][..i] == str[..i];
      if str[i] == '.' {
        DotsPrefix(str, i + 1);
        res := res[j := temp % 256];
        temp := 0;
        j := j + 1;
      } else {
        temp := temp * 10 + (str[i] as int - '0' as int);
      }
    }
    assert str[..|str|] == str;
    res := res[3 := temp % 256];
  }

  /** A field of digits after a dot (or at the start): temp becomes its value and no byte is stored. */
  lemma {:induction false} ScanField(p: string, d: string)
    requires p == [] || p[|p| - 1] == '.'
    requires AllDigits(d)
    ensures Temp(p + d) == DecValue(d)
    ensures ScanRes(p + d) == ScanRes(p) && Dots(p + d) == Dots(p)
  {
    if d != [] {
      var d' := d[..|d| - 1];
      ScanField(p, d');
      assert (p + d)[..|p + d| - 1] == p + d';
    } else {
      assert p + d == p;
      if p != [] {
        assert Temp(p) == 0;
      }
    }
  }

  /** A dot stores the current field in the next slot and resets temp. */
  lemma ScanDot(p: string)
    requires Dots(p) < 4
    ensures ScanRes(p + ".") == ScanRes(p)[Dots(p) := Temp(p) % 256]
    ensures Dots(p + ".") == Dots(p) + 1 && Temp(p + ".") == 0
  {
    assert (p + ".")[..|p|] == p;
  }

  /** The dotted-decimal notation of four bytes. */
  function IpString(b: seq<Byte>): string
    requires |b| == 4
  {
    Decimal(b[0]) + "." + Decimal(b[1]) + "." + Decimal(b[2]) + "." + Decimal(b[3])
  }

  /** A field of digits followed by a dot: its value, truncated, goes into the next slot. */
  lemma FieldDot(p: string, d: string)
    requires p == [] || p[|p| - 1] == '.'
    requires AllDigits(d) && Dots(p) < 4
    ensures ScanRes(p + d + ".") == ScanRes(p)[Dots(p) := DecValue(d) % 256]
    ensures Dots(p + d + ".") == Dots(p) + 1
    ensures (p + d + ".")[|p + d + "."| - 1] == '.'
  {
    ScanField(p, d);
    ScanDot(p + d);
  }

  /** Round trip: IpStrToBytes parses the dotted-decimal notation of four bytes back to them. */
  lemma IpBytesOfIpString(b: seq<Byte>)
    requires |b| == 4
    ensures IpBytes(IpString(b)) == b
  {
    var s3 := ThreeFields(b);
    var d3 := Decimal(b[3]);
    DecimalSound(b[3]);
    ScanField(s3, d3);
    LastSlot(ScanRes(s3 + d3), Temp(s3 + d3), b);
  }

  /** Storing the last field in slot 3 completes the four bytes. */
  lemma LastSlot(r: seq<Byte>, t: int, b: seq<Byte>)
    requires |b| == 4 && r == [b[0], b[1], b[2], 0] && t == b[3] as int
    ensures r[3 := t % 256] == b
  {
  }

  /** Storing the fourth byte in slot 3 of the first three. */
  lemma FourthSlot(r: seq<Byte>, b: seq<Byte>)
    requires |b| == 4 && r == [b[0], b[1], b[2], 0]
    ensures r[3 := b[3]] == b && b[3 := 0] == r
  {
  }

  /** The first three fields and their dots of IpString(b) fill bytes 0 to 2. */
  lemma ThreeFields(b: seq<Byte>) returns (s3: string)
    requires |b| == 4
    ensures s3 == Decimal(b[0]) + "." + Decimal(b[1]) + "." + Decimal(b[2]) + "."
    ensures s3 != [] && s3[|s3| - 1] == '.' && Dots(s3) == 3
    ensures ScanRes(s3) == [b[0], b[1], b[2], 0]
  {
    var s1 := DecimalDot([], b[0]);
    assert s1 == Decimal(b[0]) + ".";
    var s2 := DecimalDot(s1, b[1]);
    s3 := DecimalDot(s2, b[2]);
    FirstSlots(ScanRes([]), ScanRes(s1), ScanRes(s2), ScanRes(s3), b);
  }

  /** Storing three fields in slots 0 to 2 of the zeroed buffer. */
  lemma FirstSlots(r0: seq<Byte>, r1: seq<Byte>, r2: seq<Byte>, r3: seq<Byte>, b: seq<Byte>)
    requires |b| == 4 && r0 == [0, 0, 0, 0]
    requires r1 == r0[0 := b[0]] && r2 == r1[1 := b[1]] && r3 == r2[2 := b[2]]
    ensures r3 == [b[0], b[1], b[2], 0]
  {
  }

  /** A byte's decimal notation followed by a dot stores that byte in the next slot. */
  lemma DecimalDot(p: string, x: Byte) returns (q: string)
    requires p == [] || p[|p| - 1] == '.'
    requires Dots(p) < 4
    ensures q == p + Decimal(x) + "."
    ensures q[|q| - 1] == '.' && Dots(q) == Dots(p) + 1
    ensures ScanRes(q) == ScanRes(p)[Dots(p) := x]
  {
    var d := Decimal(x);
    DecimalSound(x);
    SmallMod(x, 256);
    FieldDot(p, d);
    q := p + d + ".";
  }

  /** With a single dot the second field lands in byte 3, bytes 1 and 2 stay zero. */
  lemma IpBytesTwoFields(a: Byte, c: Byte)
    ensures IpBytes(Decimal(a) + "." + Decimal(c)) == [a, 0, 0, c]
  {
    var s1 := DecimalDot([], a);
    assert s1 == Decimal(a) + ".";
    var r0: seq<Byte> := [0, 0, 0, 0];
    assert ScanRes([]) == r0;
    assert r0[0 := a] == [a, 0, 0, 0];
    var d := Decimal(c);
    DecimalSound(c);
    ScanField(s1, d);
    LastSlot(ScanRes(s1 + d), Temp(s1 + d), [a, 0, 0, c]);
  }

  /**
   * A fifth field: the fourth dot stores field 4 in byte 3 and the last field
   * then overwrites it, so "1.2.3.4.5" gives [1, 2, 3, 5].
   */
  lemma IpBytesFiveFields(b: seq<Byte>, e: Byte)
    requires |b| == 4
    ensures IpBytes(IpString(b) + "." + Decimal(e)) == b[3 := e]
  {
    var s3 := ThreeFields(b);
    var s4 := DecimalDot(s3, b[3]);
    assert IpString(b) + "." + Decimal(e) == s4 + Decimal(e);
    FourthSlot(ScanRes(s3), b);
    var d := Decimal(e);
    DecimalSound(e);
    ScanField(s4, d);
    LastSlot(b[3 := 0], e as int, b[3 := e]);
  }

  /** The field value is truncated to its low byte: "256" gives byte 0, "300" gives 44. */
  lemma IpBytesTruncate(n: nat)
    ensures IpBytes(Decimal(n)) == [0, 0, 0, n % 256]
  {
    DecimalSound(n);
    assert Decimal(n) == [] + Decimal(n);
    ScanField([], Decimal(n));
  }

  /**
   * IpStrToBytes(str, bitWidth): the first ceil(bitWidth/8) bytes of the
   * four-byte result; a fifth byte reads the terminator (0), and a sixth
   * would read past it.
   */
  method IpStrToBytesWidth(str: string, bitWidth: nat) returns (res: seq<Byte>)
    requires bitWidth < TWO32 && (bitWidth + 7) / 8 <= 5
    requires Dots(str) <= 4
    requires forall k :: 0 <= k <= |str| ==> INT_MIN <= Temp(str[..k]) <= INT_MAX
    ensures res == (IpBytes(str) + [0])[..(bitWidth + 7) / 8]
  {
    var n := (bitWidth + 7) / 8;
    res := Repeat(0, n);
    var full := IpStrToBytes(str);
    for i := 0 to n
      invariant |res| == n
      invariant forall k :: 0 <= k < i ==> res[k] == (full + [0])[k]
    {
      res := res[i := if i < |full| then full[i] else 0];
    }
  }

  /** Widths up to 32 bits take a prefix of the address bytes. */
  lemma IpStrToBytesWidthPrefix(str: string, bitWidth: nat)
    requires bitWidth <= 32
    ensures (IpBytes(str) + [0])[..(bitWidth + 7) / 8] == IpBytes(str)[..(bitWidth + 7) / 8]
  {
  }

  // ===========================================================================
  // IntToBytes and ParseParam
  // ===========================================================================

  /** A decimal numeral std::stoi accepts here: an optional sign, then digits. */
  predicate IsNumeral(s: string) {
    (|s| > 0 && AllDigits(s)) || (|s| > 1 && (s[0] == '-' || s[0] == '+') && AllDigits(s[1..]))
  }

  function StoiValue(s: string): int
    requires IsNumeral(s)
  {
    if AllDigits(s) then DecValue(s)
    else if s[0] == '-' then -(DecValue(s[1..]) as int)
    else DecValue(s[1..])
  }

  function Max(a: int, b: int): int {
    if a >= b then a else b
  }

  /**
   * What IntToBytes returns for the unsigned value n and byte count w: the
   * base-256 digits of n, padded with zeros up to w bytes, most significant
   * first; never truncated.
   */
  function IntToBytesSpec(n: nat, w: int): (bs: seq<Byte>)
    ensures |bs| == Max(|LittleEndian(n)|, w)
  {
    var le := LittleEndian(n);
    Reverse(le + Repeat<Byte>(0, if w > |le| then w - |le| else 0))
  }

  method IntToBytes(inputStr: string, bitwidth: int) returns (res: seq<Byte>)
    requires IsNumeral(inputStr) && INT_MIN <= StoiValue(inputStr) <= INT_MAX
    ensures res == IntToBytesSpec(StoiValue(inputStr) % TWO32, bitwidth)
  {
    var byteArray: seq<Byte> := [];
    var inputNum: nat := StoiValue(inputStr) % TWO32;
    ghost var n := inputNum;
    var bw := bitwidth;
    while inputNum > 0
      invariant byteArray + LittleEndian(inputNum) == LittleEndian(n)
      invariant bw == bitwidth - |byteArray|
    {
      PeelByte(byteArray, inputNum);
      byteArray := byteArray + [inputNum % 256];
      inputNum := inputNum / 256;
      bw := bw - 1;
    }
    assert byteArray == LittleEndian(n);
    ghost var le := byteArray;
    // bw < 0 here is the "too large parameter" diagnostic, which is only printed
    while bw > 0
      invariant |byteArray| >= |le|
      invariant byteArray == le + Repeat<Byte>(0, |byteArray| - |le|)
      invariant bw == bitwidth - |byteArray|
      invariant bw < 0 ==> |byteArray| == |le|
    {
      PadZero(le, |byteArray| - |le|);
      byteArray := byteArray + [0];
      bw := bw - 1;
    }
    res := Reverse(byteArray);
  }

  /** Pushing the low byte of x: what is left of x supplies the rest of its little-endian digits. */
  lemma PeelByte(acc: seq<Byte>, x: nat)
    requires x > 0
    ensures acc + [x % 256] + LittleEndian(x / 256) == acc + LittleEndian(x)
  {
    assert LittleEndian(x) == [x % 256] + LittleEndian(x / 256);
  }

  /** Pushing one more zero byte extends the padding by one. */
  lemma PadZero(le: seq<Byte>, k: nat)
    ensures le + Repeat<Byte>(0, k) + [0] == le + Repeat<Byte>(0, k + 1)
  {
    assert Repeat<Byte>(0, k) + [0] == Repeat<Byte>(0, k + 1);
  }

  /** IntToBytes denotes its input: the bytes read big-endian give back n. */
  lemma IntToBytesValue(n: nat, w: int)
    ensures BEValue(IntToBytesSpec(n, w)) == n
  {
    var le := LittleEndian(n);
    var k := if w > |le| then w - |le| else 0;
    BEValueReverse(le + Repeat<Byte>(0, k));
    LEValueZeros(le, k);
    LittleEndianValue(n);
  }

  /** The "too large parameter" diagnostic fires exactly when n does not fit in w bytes. */
  lemma IntToBytesTooLarge(n: nat, w: nat)
    ensures w - |LittleEndian(n)| < 0 <==> n >= Pow(256, w)
  {
    LittleEndianLength(n, w);
  }

  /** When n fits in w bytes, IntToBytes is the fixed-width big-endian encoding. */
  lemma IntToBytesFits(n: nat, w: nat)
    requires n < Pow(256, w)
    ensures IntToBytesSpec(n, w) == FixedBE(n, w)
  {
    FixedBEOfLittleEndian(n, w);
  }

  /**
   * What ParseParam returns: width 32 is read as hexadecimal, every other
   * width (48 and 128 included) as a decimal integer in ceil(width/8) bytes,
   * the byte count computed in unsigned arithmetic.
   */
  function ParseParamSpec(inputStr: string, bitwidth: nat): seq<Byte>
    requires bitwidth == 32 ==> |HexBody(inputStr)| % 2 == 0
    requires bitwidth != 32 ==> IsNumeral(inputStr)
  {
    if bitwidth == 32 then HexBytes(HexBody(inputStr))
    else IntToBytesSpec(StoiValue(inputStr) % TWO32, (bitwidth + 7) % TWO32 / 8)
  }

  method ParseParam(inputStr: string, bitwidth: nat) returns (res: seq<Byte>)
    requires bitwidth < TWO32
    requires bitwidth == 32 ==> |HexBody(inputStr)| % 2 == 0
    requires bitwidth != 32 ==> IsNumeral(inputStr) && INT_MIN <= StoiValue(inputStr) <= INT_MAX
    ensures res == ParseParamSpec(inputStr, bitwidth)
  {
    if bitwidth == 32 {
      res := HexstrToBytes(inputStr);
    } else {
      var bw := (bitwidth + 7) % TWO32 / 8;
      res := IntToBytes(inputStr, bw);
    }
  }

  /** A 32-bit parameter printed by Uint32ipToHex is parsed to its four bytes. */
  lemma ParseParamOfHexIp(ip: nat)
    requires ip < TWO32
    ensures HexBody("0x" + HexDigits(ip, 8)) == HexDigits(ip, 8)
    ensures ParseParamSpec("0x" + HexDigits(ip, 8), 32) == FixedBE(ip, 4)
  {
    HexstrToBytesOfHexIp(ip);
  }

  /**
   * A non-negative decimal parameter that fits its width is parsed to
   * exactly ceil(bitwidth/8) big-endian bytes.
   */
  lemma ParseParamOfDecimal(n: nat, bitwidth: nat)
    requires bitwidth != 32 && bitwidth + 7 < TWO32
    requires n <= INT_MAX && n < Pow(256, (bitwidth + 7) / 8)
    ensures IsNumeral(Decimal(n))
    ensures ParseParamSpec(Decimal(n), bitwidth) == FixedBE(n, (bitwidth + 7) / 8)
  {
    DecimalSound(n);
    assert StoiValue(Decimal(n)) == n;
    SmallMod(n, TWO32);
    SmallMod(bitwidth + 7, TWO32);
    IntToBytesFits(n, (bitwidth + 7) / 8);
  }
}
