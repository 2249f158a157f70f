/** Number conversions: `atoi` and `octTodec` on the way in, `itoa` and `itoap` on the way out. */
module Numbers {
  import opened Basics
  import opened Bytes
  import opened CStrings

  const ZERO: byte := 48
  const MINUS: byte := 45
  const LOWER_A: byte := 97

  // ---------------------------------------------------------------- reading numbers

  /** A C `char` is signed. */
  function SignedChar(b: byte): (r: int)
    ensures -128 <= r < 128 && (r - b) % 256 == 0
  {
    if b < 128 then b else b - 256
  }

  /** The value a C `int` keeps of a larger result. */
  function Wrap32(x: int): (r: int)
    ensures -0x8000_0000 <= r < 0x8000_0000
    ensures -0x8000_0000 <= x < 0x8000_0000 ==> r == x
    ensures (r - x) % 0x1_0000_0000 == 0
  {
    var m := x % 0x1_0000_0000;
    if m < 0x8000_0000 then m else m - 0x1_0000_0000
  }

  /** The value that the loop of `atoi` accumulates. */
  function Accumulate(s: seq<byte>): (r: int)
    ensures -0x8000_0000 <= r < 0x8000_0000
  {
    if s == [] then 0
    else Wrap32(Accumulate(s[..|s| - 1]) * 10 + SignedChar(s[|s| - 1]) - ZERO)
  }

  function AtoiValue(s: seq<byte>): (r: int)
    ensures -0x8000_0000 <= r < 0x8000_0000
  {
    if s != [] && s[0] == MINUS then Wrap32(-Accumulate(s[1..])) else Accumulate(s)
  }

  /** `atoi`. */
  method Atoi(s: seq<byte>, start: nat) returns (r: int)
    requires Terminated(s, start)
    ensures r == AtoiValue(Str(s, start))
  {
    hide Str, Accumulate, Wrap32, SignedChar, ReadTo, AtoiValue;
    ghost var t := Str(s, start);
    AtStart(s, start);
    var res, sign, i := 0, 1, 0;
    if s[start] == MINUS {
      AtNext(s, start, t, i);
      sign := -1;
      i := 1;
    }
    ghost var skip := i;
    NothingRead(t, skip);
    while s[start + i] != 0
      invariant ReadTo(t, skip, i, res) && At(s, start, t, i)
      decreases |t| - i
    {
      OneMoreDigit(s, start, t, skip, i, res);
      AtNext(s, start, t, i);
      res := Wrap32(res * 10 + SignedChar(s[start + i]) - ZERO);
      i := i + 1;
    }
    AllRead(s, start, t, skip, i, res);
    r := Wrap32(sign * res);
  }

  /** Index `i` of the string `t` that starts at `start`: its character, or the end. */
  ghost predicate At(s: seq<byte>, start: nat, t: seq<byte>, i: nat) {
    && i <= |t| && start + i < |s|
    && (s[start + i] == 0 <==> i == |t|) && (i < |t| ==> s[start + i] == t[i])
    && Terminated(s, start) && Str(s, start) == t
  }

  lemma AtStart(s: seq<byte>, start: nat)
    requires Terminated(s, start)
    ensures At(s, start, Str(s, start), 0) && start < |s|
  {
    EndsAt(s, start, 0);
  }

  lemma AtNext(s: seq<byte>, start: nat, t: seq<byte>, i: nat)
    requires At(s, start, t, i) && s[start + i] != 0
    ensures At(s, start, t, i + 1) && start + i + 1 < |s| && i + 1 <= |t| && t[i] == s[start + i]
  {
    EndsAt(s, start, i + 1);
  }

  /** The loop has read characters `skip` to `i`. */
  ghost predicate ReadTo(t: seq<byte>, skip: nat, i: nat, res: int) {
    skip <= i <= |t| && res == Accumulate(t[skip..i])
  }

  lemma NothingRead(t: seq<byte>, skip: nat)
    requires skip <= |t|
    ensures ReadTo(t, skip, skip, 0)
  {
    assert t[skip..skip] == [];
  }

  lemma OneMoreDigit(s: seq<byte>, start: nat, t: seq<byte>, skip: nat, i: nat, res: int)
    requires ReadTo(t, skip, i, res) && At(s, start, t, i) && s[start + i] != 0
    ensures ReadTo(t, skip, i + 1, Wrap32(res * 10 + SignedChar(s[start + i]) - ZERO)) && i < |t|
  {
    assert t[skip..i + 1][..i - skip] == t[skip..i];
  }

  lemma AllRead(s: seq<byte>, start: nat, t: seq<byte>, skip: nat, i: nat, res: int)
    requires ReadTo(t, skip, i, res) && At(s, start, t, i) && s[start + i] == 0
    requires skip == if s[start] == MINUS then 1 else 0
    ensures Wrap32((if skip == 1 then -1 else 1) * res) == AtoiValue(t)
  {
    hide Str, Accumulate;
    assert t[skip..i] == t[skip..] && t[0..] == t;
    EndsAt(s, start, 0);
  }

  ghost predicate DigitsBelow(s: seq<byte>, base: nat) {
    forall k :: 0 <= k < |s| ==> ZERO <= s[k] < ZERO + base
  }

  /** The value of a digit string in a base. */
  function ValueIn(s: seq<byte>, base: nat): int {
    if s == [] then 0 else ValueIn(s[..|s| - 1], base) * base + (s[|s| - 1] - ZERO)
  }

  lemma {:induction false} ValueNonNegative(s: seq<byte>, base: nat)
    requires base <= 10 && DigitsBelow(s, base)
    ensures ValueIn(s, base) >= 0
    decreases |s|
  {
    if s != [] {
      ValueNonNegative(s[..|s| - 1], base);
    }
  }

  lemma {:induction false} AccumulateIsDecimal(s: seq<byte>)
    requires DigitsBelow(s, 10) && ValueIn(s, 10) < 0x8000_0000
    ensures Accumulate(s) == ValueIn(s, 10)
    decreases |s|
  {
    if s != [] {
      ValueNonNegative(s[..|s| - 1], 10);
      AccumulateIsDecimal(s[..|s| - 1]);
    }
  }

  /** Read the decimal digits of a number as octal digits. */
  function OctToDec(n: nat): (r: nat)
    ensures r <= n
  {
    if n == 0 then 0 else n % 10 + 8 * OctToDec(n / 10)
  }

  /** `pow`. */
  function Pow(x: nat, e: nat): nat {
    if e == 0 then 1 else x * Pow(x, e - 1)
  }

  lemma PowStep(i: nat, d: nat, rest: nat)
    ensures Pow(8, i) * (d + 8 * rest) == d * Pow(8, i) + Pow(8, i + 1) * rest
  {
    var p := Pow(8, i);
    assert p * (d + 8 * rest) == p * d + p * (8 * rest);
    assert p * (8 * rest) == (8 * p) * rest;
  }

  lemma PowTimes(i: nat, n: nat)
    ensures 0 <= Pow(8, i) * n && (n > 0 ==> Pow(8, i) <= Pow(8, i) * n)
  {
    PowPositive(i);
    if n > 0 {
      assert Pow(8, i) * n == Pow(8, i) + Pow(8, i) * (n - 1);
    }
  }

  lemma {:induction false} PowPositive(i: nat)
    ensures Pow(8, i) > 0
  {
    if i > 0 {
      PowPositive(i - 1);
    }
  }

  lemma OctStep(i: nat, rest: nat)
    requires rest != 0
    ensures Pow(8, i) * OctToDec(rest) == (rest % 10) * Pow(8, i) + Pow(8, i + 1) * OctToDec(rest / 10)
    ensures 0 <= Pow(8, i + 1) * OctToDec(rest / 10) && 0 <= (rest % 10) * Pow(8, i)
  {
    PowStep(i, rest % 10, OctToDec(rest / 10));
    PowTimes(i + 1, OctToDec(rest / 10));
    PowTimes(i, rest % 10);
  }

  lemma OctEnd(i: nat)
    ensures OctToDec(0) == 0 && Pow(8, i) * OctToDec(0) == 0 && Pow(8, 0) == 1
  {
  }

  /** `octTodec`: no 64-bit argument makes the sum wrap around. */
  method OctTodec(octal: u64) returns (decimal: u64)
    ensures decimal == OctToDec(octal)
  {
    hide OctToDec, Pow;
    decimal := 0;
    OctEnd(0);
    var i, rest := 0, octal;
    while rest != 0
      invariant 0 <= rest && decimal + Pow(8, i) * OctToDec(rest) == OctToDec(octal)
      decreases rest
    {
      OctStep(i, rest);
      decimal := decimal + (rest % 10) * Pow(8, i);
      i := i + 1;
      rest := rest / 10;
    }
    OctEnd(i);
  }

  /** The decimal detour is right: it yields the base-8 value of any octal numeral that `int` can hold in decimal. */
  lemma {:induction false} DetourIsOctal(s: seq<byte>)
    requires DigitsBelow(s, 8)
    ensures ValueIn(s, 10) >= 0 && OctToDec(ValueIn(s, 10)) == ValueIn(s, 8)
    decreases |s|
  {
    if s == [] {
      assert ValueIn(s, 10) == 0 && OctToDec(0) == 0;
    } else {
      var t, d := s[..|s| - 1], s[|s| - 1] - ZERO;
      DetourIsOctal(t);
      assert ValueIn(s, 10) == ValueIn(t, 10) * 10 + d && ValueIn(s, 8) == ValueIn(t, 8) * 8 + d;
      hide ValueIn;
      assert ValueIn(s, 10) / 10 == ValueIn(t, 10) && ValueIn(s, 10) % 10 == d;
    }
  }

  /** `octTodec(atoi(s))` on octal digits whose decimal reading is below 2^31. */
  lemma OctalFieldValue(s: seq<byte>)
    requires DigitsBelow(s, 8) && ValueIn(s, 10) < 0x8000_0000
    ensures AtoiValue(s) >= 0 && OctToDec(AtoiValue(s)) == ValueIn(s, 8)
  {
    DetourIsOctal(s);
    AccumulateIsDecimal(s);
  }

  // ---------------------------------------------------------------- writing numbers

  /** The character of a digit below 16. */
  function DigitChar(d: nat): (c: byte)
    requires d < 16
    ensures c != 0
  {
    if d < 10 then ZERO + d else LOWER_A + (d - 10)
  }

  function DigitValue(c: byte): int {
    if c >= LOWER_A then c - LOWER_A + 10 else c - ZERO
  }

  /** The digits of `n`, most significant first, without leading zeros. */
  function DigitString(n: nat, base: nat): (s: seq<byte>)
    requires 2 <= base <= 16
    ensures 0 !in s && (n > 0 ==> s != [])
    decreases n
  {
    if n == 0 then [] else
    assert n / base < n;
    DigitString(n / base, base) + [DigitChar(n % base)]
  }

  /** The numeral that is printed: zero has one digit. */
  function Numeral(n: nat, base: nat): (s: seq<byte>)
    requires 2 <= base <= 16
    ensures s != [] && 0 !in s
  {
    if n == 0 then [ZERO] else DigitString(n, base)
  }

  function NumeralValue(s: seq<byte>, base: nat): int {
    if s == [] then 0 else NumeralValue(s[..|s| - 1], base) * base + DigitValue(s[|s| - 1])
  }

  lemma DivideBy(n: nat, base: nat)
    requires base >= 2
    ensures n == n / base * base + n % base && 0 <= n % base < base
    ensures n > 0 ==> n / base < n
  {
  }

  /** The digits of `n` are those of `n / base` and one more. */
  lemma DigitStep(n: nat, base: nat)
    requires (base == 10 || base == 16) && n > 0
    ensures 0 <= n / base < n && n % base < 16
    ensures DigitString(n, base) == DigitString(n / base, base) + [DigitChar(n % base)]
  {
    DivideBy(n, base);
  }

  lemma NoDigits(base: nat)
    requires base == 10 || base == 16
    ensures DigitString(0, base) == []
  {
  }

  lemma LastDigit(s: seq<byte>, d: nat, base: nat)
    requires d < 16
    ensures NumeralValue(s + [DigitChar(d)], base) == NumeralValue(s, base) * base + d
  {
    assert (s + [DigitChar(d)])[..|s|] == s;
  }

  /** A numeral denotes the number it was made from. */
  lemma {:induction false} DigitsRoundTrip(n: nat, base: nat)
    requires 2 <= base <= 16
    ensures NumeralValue(DigitString(n, base), base) == n
    decreases n
  {
    if n == 0 {
      assert DigitString(n, base) == [];
    } else {
      DivideBy(n, base);
      DigitsRoundTrip(n / base, base);
      assert DigitString(n, base) == DigitString(n / base, base) + [DigitChar(n % base)];
      hide DigitString, NumeralValue, DigitChar;
      LastDigit(DigitString(n / base, base), n % base, base);
    }
  }

  lemma NumeralRoundTrip(n: nat, base: nat)
    requires 2 <= base <= 16
    ensures NumeralValue(Numeral(n, base), base) == n
  {
    DigitsRoundTrip(n, base);
    LastDigit([], 0, base);
    assert [] + [DigitChar(0)] == [ZERO];
  }

  /** The numeral has no leading zero unless it is zero itself. */
  lemma {:induction false} NumeralIsCanonical(n: nat, base: nat)
    requires 2 <= base <= 16 && n > 0
    ensures DigitString(n, base)[0] != ZERO
    decreases n
  {
    DivideBy(n, base);
    var q := n / base;
    assert DigitString(n, base) == DigitString(q, base) + [DigitChar(n % base)];
    if q > 0 {
      NumeralIsCanonical(q, base);
    } else {
      assert DigitString(q, base) == [];
    }
  }

  lemma {:induction false} DigitCount(n: nat, base: nat, k: nat)
    requires 2 <= base <= 16 && n < Pow(2, k)
    ensures |DigitString(n, base)| <= k
    decreases k
  {
    if n > 0 {
      HalfAtMost(n, base);
      DigitCount(n / base, base, k - 1);
    }
  }

  lemma HalfAtMost(n: nat, base: nat)
    requires base >= 2
    ensures n / base <= n / 2
  {
    DivideBy(n, base);
    AtLeastTwice(n / base, base);
  }

  lemma AtLeastTwice(q: nat, base: nat)
    requires base >= 2
    ensures q * base >= 2 * q
  {
    assert q * base == q * 2 + q * (base - 2);
  }

  lemma {:induction false} PowersAdd(a: nat, b: nat)
    ensures Pow(2, a + b) == Pow(2, a) * Pow(2, b)
    decreases b
  {
    if b > 0 {
      PowersAdd(a, b - 1);
      assert Pow(2, a) * (2 * Pow(2, b - 1)) == 2 * (Pow(2, a) * Pow(2, b - 1));
    }
  }

  lemma WordPower()
    ensures Pow(2, 64) == WORD_LIMIT
  {
    assert Pow(2, 2) == 4;
    hide Pow;
    PowersAdd(2, 2);
    assert Pow(2, 4) == 16;
    PowersAdd(4, 4);
    assert Pow(2, 8) == 0x100;
    PowersAdd(8, 8);
    assert Pow(2, 16) == 0x1_0000;
    PowersAdd(16, 16);
    assert Pow(2, 32) == 0x1_0000_0000;
    PowersAdd(32, 32);
  }

  lemma WordDigits(n: u64, base: nat)
    requires 2 <= base <= 16
    ensures |Numeral(n, base)| <= 64
  {
    hide Pow, DigitString;
    WordPower();
    DigitCount(n, base, 64);
  }

  /** With `k` digits written, the next one is the last of those left. */
  lemma DigitTaken(v: nat, base: nat, whole: seq<byte>, k: nat)
    requires (base == 10 || base == 16) && v > 0 && k <= |whole| && DigitString(v, base) == whole[..|whole| - k]
    ensures 0 <= v / base < v && v % base < 16 && k < |whole|
    ensures DigitString(v / base, base) == whole[..|whole| - (k + 1)] && DigitChar(v % base) == whole[|whole| - (k + 1)]
  {
    DigitStep(v, base);
    hide DigitString, DigitChar;
    var s, t := DigitString(v, base), DigitString(v / base, base);
    assert s[..|t|] == t && |s| == |t| + 1 && s[|t|] == DigitChar(v % base);
    assert whole[..|whole| - k][..|t|] == whole[..|t|];
  }

  lemma DigitText(d: nat)
    requires d < 16
    ensures "0123456789abcdef"[d] as int == DigitChar(d) == if d > 9 then d - 10 + LOWER_A else d + ZERO
  {
  }

  /** One turn of the loop of `itoa`: the last digit goes to the buffer, and the others are left. */
  method PutDigit(v: nat, buf: array<byte>, at: nat, base: nat, ghost whole: seq<byte>,
                  ghost k: nat) returns (rest: nat)
    requires (base == 10 || base == 16) && v > 0 && at < buf.Length && k <= |whole|
    requires DigitString(v, base) == whole[..|whole| - k]
    modifies buf
    ensures k < |whole| && rest < v && DigitString(rest, base) == whole[..|whole| - (k + 1)]
    ensures buf[at] == whole[|whole| - (k + 1)] && forall j :: 0 <= j < buf.Length && j != at ==> buf[j] == old(buf[j])
  {
    hide DigitString, DigitChar;
    DigitTaken(v, base, whole, k);
    DigitText(v % base);
    buf[at] := "0123456789abcdef"[v % base] as int;
    rest := v / base;
  }

  /** The digit loop of `itoa`: least significant first, backwards from `end`. */
  method WriteBackwards(val: u64, buf: array<byte>, end: nat, base: nat) returns (start: nat)
    requires (base == 10 || base == 16) && end <= buf.Length && |DigitString(val, base)| <= end
    modifies buf
    ensures start + |DigitString(val, base)| == end && buf[start..end] == DigitString(val, base)
    ensures forall k :: end <= k < buf.Length ==> buf[k] == old(buf[k])
  {
    hide DigitString;
    start := end;
    var v: nat := val;
    ghost var whole := DigitString(val, base);
    NoDigits(base);
    while v != 0
      invariant start <= end && end - start <= |whole|
      invariant DigitString(v, base) == whole[..|whole| - (end - start)]
      invariant forall k :: start <= k < end ==> buf[k] == whole[|whole| - (end - k)]
      invariant forall k :: end <= k < buf.Length ==> buf[k] == old(buf[k])
      decreases v
    {
      NonEmptyDigits(v, base);
      v := PutDigit(v, buf, start - 1, base, whole, end - start);
      start := start - 1;
    }
  }

  lemma NonEmptyDigits(v: nat, base: nat)
    requires (base == 10 || base == 16) && v > 0
    ensures |DigitString(v, base)| > 0
  {
    DigitStep(v, base);
  }

  /** `itoa`: the result is where in the buffer the digits start. */
  method Itoa(val: u64, buf: array<byte>, end: nat, base: nat) returns (start: nat)
    requires 1 <= end < buf.Length && (base == 10 || base == 16 ==> |Numeral(val, base)| <= end)
    modifies buf
    ensures start <= end && Terminated(buf[..], start)
    ensures Str(buf[..], start) ==
            if base == 10 || base == 16 then Numeral(val, base) else if val == 0 then [ZERO] else []
  {
    hide DigitString, Str;
    buf[end] := 0;
    if val == 0 {
      start := end - 1;
      buf[start] := ZERO;
      StrIs(buf[..], start, [ZERO]);
    } else if base != 10 && base != 16 {
      start := end;
      StrIs(buf[..], start, []);
    } else {
      start := WriteBackwards(val, buf, end, base);
      StrIs(buf[..], start, DigitString(val, base));
    }
  }

  /** The digit loop of `itoap`: least significant first. */
  method WriteDigits(num: u64, dest: array<byte>, base: nat) returns (i: nat)
    requires (base == 10 || base == 16) && num > 0 && |DigitString(num, base)| < dest.Length
    modifies dest
    ensures i == |DigitString(num, base)| && dest[..i] == Reversed(DigitString(num, base))
  {
    i := 0;
    var n := num;
    ghost var whole := DigitString(num, base);
    hide DigitString, DigitChar;
    while n != 0
      invariant 0 <= n && i + |DigitString(n, base)| == |whole|
      invariant DigitString(n, base) == whole[..|whole| - i]
      invariant forall k :: 0 <= k < i ==> dest[k] == whole[|whole| - 1 - k]
      decreases n
    {
      DigitTaken(n, base, whole, i);
      var rem := n % base;
      DigitText(rem);
      if rem > 9 {
        dest[i] := rem - 10 + LOWER_A;
      } else {
        dest[i] := rem + ZERO;
      }
      i := i + 1;
      n := n / base;
    }
    NoDigits(base);
  }

  /** `itoap`: the digits are reversed through a copy; for zero the result counts the NUL as well. */
  method Itoap(num: u64, dest: array<byte>, base: nat) returns (r: nat)
    requires (base == 10 || base == 16) && |Numeral(num, base)| < dest.Length && dest.Length >= 2
    modifies dest
    ensures Terminated(dest[..], 0) && Str(dest[..], 0) == Numeral(num, base)
    ensures r == if num == 0 then 2 else |Numeral(num, base)|
  {
    if num == 0 {
      dest[0], dest[1] := ZERO, 0;
      StrIs(dest[..], 0, [ZERO]);
      return 2;
    }
    hide DigitString, Str, Terminated, Reversed;
    WordDigits(num, base);
    var i := WriteDigits(num, dest, base);
    dest[i] := 0;
    assert dest[..i] == Reversed(DigitString(num, base));
    DigitsHaveNoNul(num, base);
    StrIs(dest[..], 0, Reversed(DigitString(num, base)));
    TurnAround(dest, DigitString(num, base));
    r := StrLen(dest[..], 0);
  }

  /** A copy of the string, written back in reverse. */
  method TurnAround(dest: array<byte>, ghost whole: seq<byte>)
    requires Terminated(dest[..], 0) && Str(dest[..], 0) == Reversed(whole) && |whole| < dest.Length && |whole| < 100
    modifies dest
    ensures Terminated(dest[..], 0) && Str(dest[..], 0) == whole
  {
    hide Str, Terminated;
    assert Reversed(Reversed(whole)) == whole;
    hide Reversed;
    var tr := new byte[100];
    StrCpy(tr, dest[..], 0);
    StrReverse(tr[..], dest);
  }

  lemma {:induction false} DigitsHaveNoNul(n: nat, base: nat)
    requires base == 10 || base == 16
    ensures 0 !in Reversed(DigitString(n, base)) && |Reversed(DigitString(n, base))| == |DigitString(n, base)|
    decreases n
  {
    NoNulDigits(n, base);
  }

  lemma {:induction false} NoNulDigits(n: nat, base: nat)
    requires base == 10 || base == 16
    ensures 0 !in DigitString(n, base)
    decreases n
  {
    if n == 0 {
      NoDigits(base);
    } else {
      DigitStep(n, base);
      NoNulDigits(n / base, base);
    }
  }
}
