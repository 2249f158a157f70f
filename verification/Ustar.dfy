/** The ustar layout that the read-only file system walks: headers, octal sizes, block padding. */
module Ustar {
  import opened Basics
  import opened Bytes
  import opened Numbers

  const BLOCK := 512
  const SIZE_FIELD := 124
  const TYPE_FIELD := 156
  const SIZE_DIGITS := 11
  const TYPE_FILE := 0
  const TYPE_DIRECTORY := 5

  /** A member of the archive. */
  datatype Member = Member(name: seq<byte>, data: seq<byte>, directory: bool)

  /** `tarfs_entry`, with its name as a string. */
  datatype TarEntry = TarEntry(name: seq<byte>, size: int, addr: nat, kind: int)

  // ---------------------------------------------------------------- octal size fields

  /** `n` as `width` octal digits, with leading zeros. */
  function OctalField(n: nat, width: nat): (s: seq<byte>)
    ensures |s| == width && DigitsBelow(s, 8)
    decreases width
  {
    if width == 0 then [] else OctalField(n / 8, width - 1) + [ZERO + n % 8]
  }

  lemma {:induction false} OctalFieldReads(n: nat, width: nat)
    requires n < Pow(8, width)
    ensures ValueIn(OctalField(n, width), 8) == n
    decreases width
  {
    if width > 0 {
      OctalFieldReads(n / 8, width - 1);
      var s := OctalField(n, width);
      assert s[..|s| - 1] == OctalField(n / 8, width - 1);
    }
  }

  // ---------------------------------------------------------------- octal digits read as decimal

  /** A number whose decimal digits are all octal digits. */
  predicate OctalDigits(d: nat) {
    d == 0 || (d % 10 < 8 && OctalDigits(d / 10))
  }

  /** Numbers of octal digits keep their order when the digits are read as octal. */
  lemma {:induction false} OctalOrder(a: nat, b: nat)
    requires OctalDigits(a) && OctalDigits(b)
    ensures a < b <==> OctToDec(a) < OctToDec(b)
    ensures a == b <==> OctToDec(a) == OctToDec(b)
    decreases a + b
  {
    if a == 0 || b == 0 {
      OctPositive(a);
      OctPositive(b);
    } else {
      OctalOrder(a / 10, b / 10);
    }
  }

  lemma {:induction false} OctPositive(n: nat)
    ensures n > 0 ==> OctToDec(n) > 0
  {
    if n > 0 && n % 10 == 0 {
      OctPositive(n / 10);
    }
  }

  lemma {:induction false} FieldDigits(s: seq<byte>)
    requires DigitsBelow(s, 8)
    ensures ValueIn(s, 10) >= 0 && OctalDigits(ValueIn(s, 10)) && OctToDec(ValueIn(s, 10)) == ValueIn(s, 8)
    decreases |s|
  {
    if s == [] {
      assert ValueIn(s, 10) == 0;
    } else {
      var t := s[..|s| - 1];
      FieldDigits(t);
      assert ValueIn(s, 10) == ValueIn(t, 10) * 10 + (s[|s| - 1] - ZERO)
             && ValueIn(s, 8) == ValueIn(t, 8) * 8 + (s[|s| - 1] - ZERO);
      hide ValueIn, OctToDec, OctalDigits;
      OctDigit(ValueIn(t, 10), s[|s| - 1] - ZERO);
    }
  }

  /** Octal numerals are ordered alike by their octal and by their decimal reading. */
  lemma ReadingsAgreeOnOrder(a: seq<byte>, b: seq<byte>)
    requires DigitsBelow(a, 8) && DigitsBelow(b, 8)
    ensures ValueIn(a, 8) < ValueIn(b, 8) <==> ValueIn(a, 10) < ValueIn(b, 10)
    ensures ValueIn(a, 8) == ValueIn(b, 8) <==> ValueIn(a, 10) == ValueIn(b, 10)
  {
    FieldDigits(a);
    FieldDigits(b);
    OctalOrder(ValueIn(a, 10), ValueIn(b, 10));
  }

  /** The largest size whose octal digits, read as decimal, fit a C `int`. */
  const LARGEST_SIZE := 295600127

  /** Horner's rule on one more digit. */
  lemma OctDigit(hi: nat, d: nat)
    requires d < 10
    ensures OctToDec(10 * hi + d) == d + 8 * OctToDec(hi)
    ensures OctalDigits(10 * hi + d) <==> d < 8 && OctalDigits(hi)
  {
    assert (10 * hi + d) / 10 == hi && (10 * hi + d) % 10 == d;
  }

  lemma ZeroReading()
    ensures OctToDec(0) == 0 && OctalDigits(0)
  {
  }

  lemma LargestReading()
    ensures OctToDec(2147477777) == LARGEST_SIZE && OctalDigits(2147477777)
  {
    hide OctToDec, OctalDigits;
    ZeroReading();
    OctDigit(0, 2);
    OctDigit(2, 1);
    OctDigit(21, 4);
    OctDigit(214, 7);
    OctDigit(2147, 4);
    OctDigit(21474, 7);
    OctDigit(214747, 7);
    OctDigit(2147477, 7);
    OctDigit(21474777, 7);
    OctDigit(214747777, 7);
  }

  lemma NextReading()
    ensures OctToDec(2147500000) == LARGEST_SIZE + 1 && OctalDigits(2147500000)
  {
    hide OctToDec, OctalDigits;
    ZeroReading();
    OctDigit(0, 2);
    OctDigit(2, 1);
    OctDigit(21, 4);
    OctDigit(214, 7);
    OctDigit(2147, 5);
    OctDigit(21475, 0);
    OctDigit(214750, 0);
    OctDigit(2147500, 0);
    OctDigit(21475000, 0);
    OctDigit(214750000, 0);
  }

  /** The largest size whose reading stays below 2^32. */
  lemma WordReading()
    ensures OctToDec(4277777777) == 587202559 && OctalDigits(4277777777)
  {
    hide OctToDec, OctalDigits;
    ZeroReading();
    OctDigit(0, 4);
    OctDigit(4, 2);
    OctDigit(42, 7);
    OctDigit(427, 7);
    OctDigit(4277, 7);
    OctDigit(42777, 7);
    OctDigit(427777, 7);
    OctDigit(4277777, 7);
    OctDigit(42777777, 7);
    OctDigit(427777777, 7);
  }

  lemma FieldReading(n: nat) returns (d: nat)
    requires n < Pow(8, SIZE_DIGITS)
    ensures d == ValueIn(OctalField(n, SIZE_DIGITS), 10) && OctalDigits(d) && OctToDec(d) == n
  {
    OctalFieldReads(n, SIZE_DIGITS);
    FieldDigits(OctalField(n, SIZE_DIGITS));
    d := ValueIn(OctalField(n, SIZE_DIGITS), 10);
  }

  /** A size of up to eleven octal digits fits the `int` of the decimal detour exactly up to `LARGEST_SIZE`. */
  lemma SizeFits(n: nat)
    requires n < Pow(8, SIZE_DIGITS)
    ensures ValueIn(OctalField(n, SIZE_DIGITS), 10) < 0x8000_0000 <==> n <= LARGEST_SIZE
  {
    hide ValueIn, OctalField, Pow, OctToDec, OctalDigits;
    var d := FieldReading(n);
    LargestReading();
    NextReading();
    OctalOrder(d, 2147477777);
    OctalOrder(d, 2147500000);
  }

  lemma ElevenDigits()
    ensures Pow(8, SIZE_DIGITS) > LARGEST_SIZE + 1
  {
    assert Pow(8, 2) == 64;
    assert Pow(8, 4) == 4096;
    assert Pow(8, 6) == 262144;
    assert Pow(8, 8) == 16777216;
    assert Pow(8, 10) == 1073741824;
  }

  // ---------------------------------------------------------------- the size that is stored

  /** `int entry_size = octTodec(atoi(size))`: the `int` of `atoi` is widened to 64 bits, and the sum narrowed again. */
  function DecodedSize(field: seq<byte>): (r: int) {
    Wrap32(OctToDec(AtoiValue(field) % WORD_LIMIT))
  }

  /** Every size in range is decoded as it is. */
  lemma SizeDecodes(n: nat)
    requires n <= LARGEST_SIZE
    ensures DecodedSize(OctalField(n, SIZE_DIGITS)) == n
  {
    hide ValueIn, Pow, OctToDec, AtoiValue, OctalField, Wrap32;
    ElevenDigits();
    SizeFits(n);
    OctalFieldReads(n, SIZE_DIGITS);
    OctalFieldValue(OctalField(n, SIZE_DIGITS));
    var a := AtoiValue(OctalField(n, SIZE_DIGITS));
    assert a % WORD_LIMIT == a;
  }

  /** `atoi` reads a digit string modulo 2^32. */
  lemma {:induction false} AccumulateWraps(s: seq<byte>)
    requires DigitsBelow(s, 10)
    ensures Accumulate(s) == Wrap32(ValueIn(s, 10))
    decreases |s|
  {
    if s == [] {
      assert Wrap32(0) == 0;
    } else {
      AccumulateWraps(s[..|s| - 1]);
      WrapStep(ValueIn(s[..|s| - 1], 10), s[|s| - 1] - ZERO);
    }
  }

  lemma WrapStep(x: int, d: int)
    ensures Wrap32(Wrap32(x) * 10 + d) == Wrap32(x * 10 + d)
  {
    var q := (x - Wrap32(x)) / 0x1_0000_0000;
    assert x == Wrap32(x) + q * 0x1_0000_0000;
    WrapMultiple(Wrap32(x) * 10 + d, 10 * q);
  }

  lemma WrapMultiple(x: int, q: int)
    ensures Wrap32(x + q * 0x1_0000_0000) == Wrap32(x)
  {
    Quotient32(x + q * 0x1_0000_0000, x / 0x1_0000_0000 + q, x % 0x1_0000_0000);
  }

  lemma Quotient32(x: int, q: int, r: int)
    requires x == q * 0x1_0000_0000 + r && 0 <= r < 0x1_0000_0000
    ensures x % 0x1_0000_0000 == r
  {
  }

  /** `n` times the `k`-th power of `base`. */
  function Shifted(n: nat, base: nat, k: nat): nat
    requires base == 8 || base == 10
  {
    if k == 0 then n else base * Shifted(n, base, k - 1)
  }

  /** Digits split at a power of ten: the octal readings split at the same power of eight. */
  lemma {:induction false} OctSplit(hi: nat, lo: nat, k: nat)
    requires lo < Shifted(1, 10, k)
    ensures OctToDec(Shifted(hi, 10, k) + lo) == Shifted(OctToDec(hi), 8, k) + OctToDec(lo)
    decreases k
  {
    hide OctToDec;
    if k == 0 {
      ZeroReading();
    } else {
      var l, d := lo / 10, lo % 10;
      OctSplit(hi, l, k - 1);
      OctDigit(Shifted(hi, 10, k - 1) + l, d);
      OctDigit(l, d);
    }
  }

  /** `k` decimal digits read as octal stay below 9/7 of `8^k`. */
  lemma {:induction false} OctBound(n: nat, k: nat)
    requires n < Shifted(1, 10, k)
    ensures 7 * OctToDec(n) <= 9 * (Shifted(1, 8, k) - 1)
    decreases k
  {
    if k == 0 {
      ZeroReading();
    } else {
      OctBound(n / 10, k - 1);
      hide OctToDec;
      OctDigit(n / 10, n % 10);
    }
  }

  lemma ThreeDigits(n: nat, base: nat, k: nat)
    requires (base == 8 || base == 10) && k >= 3
    ensures Shifted(n, base, k) == (if base == 8 then 512 else 1000) * Shifted(n, base, k - 3)
  {
    assert Shifted(n, base, k) == base * Shifted(n, base, k - 1);
    assert Shifted(n, base, k - 1) == base * Shifted(n, base, k - 2);
    assert Shifted(n, base, k - 2) == base * Shifted(n, base, k - 3);
  }

  lemma NineDigits(n: nat, base: nat)
    requires base == 8 || base == 10
    ensures Shifted(n, base, 9) == (if base == 8 then 134217728 else 1000000000) * n
    ensures Shifted(n, base, 10) == (if base == 8 then 1073741824 else 10000000000) * n
  {
    hide Shifted;
    ThreeDigits(n, base, 9);
    ThreeDigits(n, base, 6);
    ThreeDigits(n, base, 3);
    OneShift(n, base);
  }

  lemma OneShift(n: nat, base: nat)
    requires base == 8 || base == 10
    ensures Shifted(n, base, 0) == n && Shifted(n, base, 10) == base * Shifted(n, base, 9)
  {
  }

  /** Ten digits of which the first is at most 3. */
  lemma TenDigits(n: nat)
    requires n < 4000000000
    ensures OctToDec(n) < 1073741824
    ensures n < 3000000000 ==> OctToDec(n) <= 441001105
  {
    hide Shifted, OctToDec;
    var hi, lo := n / 1000000000, n % 1000000000;
    NineDigits(1, 10);
    NineDigits(1, 8);
    NineDigits(hi, 10);
    NineDigits(OctToDec(hi), 8);
    OctSplit(hi, lo, 9);
    OctBound(lo, 9);
    OneDigit(hi);
  }

  lemma OneDigit(d: nat)
    requires d < 10
    ensures OctToDec(d) == d
  {
    OctDigit(0, d);
    ZeroReading();
  }

  lemma HighDigits()
    ensures OctToDec(1844674407) % 4 == 3
  {
    hide OctToDec, OctalDigits;
    OctDigit(184467440, 7);
  }

  /** A negative `int`, widened to 64 bits, is decoded as a negative number. */
  lemma NegativeDecodes(w: int)
    requires -0x8000_0000 <= w < 0
    ensures Wrap32(OctToDec(w % WORD_LIMIT)) < 0
  {
    hide Shifted, OctToDec, Wrap32;
    var u := w + WORD_LIMIT;
    var lo := u - 18446744070000000000;
    assert u == w % WORD_LIMIT && 0 <= lo < 4000000000;
    NineDigits(1, 10);
    NineDigits(1844674407, 10);
    NineDigits(OctToDec(1844674407), 8);
    OctSplit(1844674407, lo, 10);
    TenDigits(lo);
    HighDigits();
    WrapsNegative(OctToDec(1844674407), OctToDec(lo));
  }

  lemma WrapsNegative(hi: nat, lo: nat)
    requires hi % 4 == 3 && lo < 1073741824
    ensures Wrap32(hi * 1073741824 + lo) < 0
  {
    var q := hi / 4;
    assert hi * 1073741824 + lo == (3 * 1073741824 + lo) + q * 0x1_0000_0000;
    WrapMultiple(3 * 1073741824 + lo, q);
  }

  /** A size whose decimal reading has wrapped around to a non-negative `int` is decoded as a smaller one. */
  lemma WrappedDecodes(n: nat, d: nat)
    requires OctalDigits(d) && OctToDec(d) == n && d >= 0x8000_0000 && Wrap32(d) >= 0
    ensures OctToDec(Wrap32(d)) < n && Wrap32(OctToDec(Wrap32(d))) < n
  {
    hide OctToDec, OctalDigits;
    assert d >= 0x1_0000_0000;
    WordReading();
    OctalOrder(d, 4277777777);
    TenDigits(Wrap32(d));
  }

  lemma OctalFieldIsNoMinus(n: nat, width: nat)
    ensures AtoiValue(OctalField(n, width)) == Accumulate(OctalField(n, width))
  {
  }

  /** A size is stored as it is exactly when it is at most 295600127. */
  lemma SizeStoredIff(n: nat)
    requires n < Pow(8, SIZE_DIGITS)
    ensures DecodedSize(OctalField(n, SIZE_DIGITS)) == n <==> n <= LARGEST_SIZE
  {
    hide ValueIn, Pow, OctToDec, OctalDigits, OctalField, AtoiValue, Accumulate, Wrap32;
    if n <= LARGEST_SIZE {
      SizeDecodes(n);
    } else {
      SizeFits(n);
      var d := FieldReading(n);
      OctalFieldIsNoMinus(n, SIZE_DIGITS);
      AccumulateWraps(OctalField(n, SIZE_DIGITS));
      if Wrap32(d) < 0 {
        NegativeDecodes(Wrap32(d));
      } else {
        WrappedDecodes(n, d);
      }
    }
  }
}
