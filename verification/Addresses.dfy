/** Virtual addresses: the page number the tables can see, and its four table indices. */
module Addresses {
  import opened Basics

  const ENTRIES := 512

  /** The four table indices of a virtual address, root first. */
  function Path(va: u64): (p: seq<nat>)
    ensures |p| == 4 && forall i :: 0 <= i < 4 ==> p[i] < ENTRIES
  {
    [va / 0x80_0000_0000 % 512, va / 0x4000_0000 % 512, va / 0x20_0000 % 512, va / 0x1000 % 512]
  }

  /** The page number that the tables can see: 36 bits of it. */
  function PageOf(va: u64): (v: nat)
    ensures v < 0x10_0000_0000
  {
    va / 4096 % 0x10_0000_0000
  }

  function Digits(v: nat): (p: seq<nat>)
    ensures |p| == 4 && forall i :: 0 <= i < 4 ==> p[i] < ENTRIES
  {
    [v / 0x800_0000 % 512, v / 0x4_0000 % 512, v / 512 % 512, v % 512]
  }

  /** Division is determined by any quotient and remainder that fit. */
  lemma Quotient(x: int, m: nat, q: int, r: nat)
    requires x == q * m + r && r < m
    ensures x / m == q && x % m == r
  {
    var d := x / m - q;
    assert x == m * (x / m) + x % m;
    assert m * d == r - x % m;
    if d >= 1 {
      MulAtLeast(m, d);
    } else if d <= -1 {
      MulAtLeast(m, -d);
    }
  }

  lemma MulAtLeast(m: nat, d: int)
    requires d >= 1
    ensures m * d >= m && m * (-d) <= -(m as int)
  {
    assert m * d == m + m * (d - 1) && m * (-d) == -(m * d);
  }

  /** A number written with four digits in base 512 and a high part. */
  function Compose(h: nat, a: nat, b: nat, c: nat, d: nat): nat {
    (((h * 512 + a) * 512 + b) * 512 + c) * 512 + d
  }

  lemma ComposeDigits(h: nat, a: nat, b: nat, c: nat, d: nat)
    requires a < 512 && b < 512 && c < 512 && d < 512
    ensures Digits(Compose(h, a, b, c, d)) == [a, b, c, d]
  {
    var w := Compose(h, a, b, c, d);
    Quotient(w, 512, ((h * 512 + a) * 512 + b) * 512 + c, d);
    Quotient(w / 512, 512, (h * 512 + a) * 512 + b, c);
    Quotient(w, 0x4_0000, (h * 512 + a) * 512 + b, c * 512 + d);
    Quotient((h * 512 + a) * 512 + b, 512, h * 512 + a, b);
    Quotient(w, 0x800_0000, h * 512 + a, (b * 512 + c) * 512 + d);
    Quotient(h * 512 + a, 512, h, a);
  }

  lemma DigitsCompose(w: nat) returns (h: nat, a: nat, b: nat, c: nat, d: nat)
    ensures a < 512 && b < 512 && c < 512 && d < 512 && w == Compose(h, a, b, c, d)
    ensures w < 0x10_0000_0000 ==> w == Compose(0, Digits(w)[0], Digits(w)[1], Digits(w)[2], Digits(w)[3])
  {
    var w1 := w / 512;
    var w2 := w1 / 512;
    var w3 := w2 / 512;
    h, a, b, c, d := w3 / 512, w3 % 512, w2 % 512, w1 % 512, w % 512;
    ComposeDigits(h, a, b, c, d);
    assert w < 0x10_0000_0000 ==> h == 0;
  }

  lemma PathIsDigits(va: u64)
    ensures Path(va) == Digits(PageOf(va))
  {
    var w, off := va / 4096, va % 4096;
    var h, a, b, c, d := DigitsCompose(w);
    Quotient(w, 0x10_0000_0000, h, Compose(0, a, b, c, d));
    ComposeDigits(0, a, b, c, d);
    PathOfCompose(va, h, a, b, c, d, off);
  }

  lemma PathOfCompose(va: u64, h: nat, a: nat, b: nat, c: nat, d: nat, off: nat)
    requires a < 512 && b < 512 && c < 512 && d < 512 && off < 4096
    requires va == Compose(h, a, b, c, d) * 4096 + off
    ensures Path(va) == [a, b, c, d]
  {
    var w := Compose(h, a, b, c, d);
    ComposeDigits(h, a, b, c, d);
    Quotient(va, 0x1000, w, off);
    Quotient(va, 0x20_0000, w / 512, w % 512 * 4096 + off);
    Quotient(va, 0x4000_0000, w / 0x4_0000, w % 0x4_0000 * 4096 + off);
    Quotient(va, 0x80_0000_0000, w / 0x800_0000, w % 0x800_0000 * 4096 + off);
  }

  /** Two page numbers take the same path exactly when they are the same page. */
  lemma DigitsInjective(v: nat, w: nat)
    requires v < 0x10_0000_0000 && w < 0x10_0000_0000
    ensures Digits(v) == Digits(w) <==> v == w
  {
    var _, _, _, _, _ := DigitsCompose(v);
    var _, _, _, _, _ := DigitsCompose(w);
  }

  /** Pages that follow in the same leaf table differ only in the last index. */
  lemma DigitsStep(v: nat, i: nat)
    requires v % 512 + i < 512
    ensures Digits(v + i) == Digits(v)[..3] + [Digits(v)[3] + i]
  {
    var h, a, b, c, d := DigitsCompose(v);
    ComposeDigits(h, a, b, c, d);
    ComposeDigits(h, a, b, c, d + i);
  }

  /** Page numbers that agree in 36 bits take the same path, and only those. */
  lemma DigitsOfPages(v: nat, w: nat)
    ensures Digits(v) == Digits(w) <==> v % 0x10_0000_0000 == w % 0x10_0000_0000
  {
    DigitsPeriodic(v);
    DigitsPeriodic(w);
    DigitsInjective(v % 0x10_0000_0000, w % 0x10_0000_0000);
  }

  lemma DigitsPeriodic(w: nat)
    ensures Digits(w) == Digits(w % 0x10_0000_0000)
  {
    var h, a, b, c, d := DigitsCompose(w);
    Quotient(w, 0x10_0000_0000, h, Compose(0, a, b, c, d));
    ComposeDigits(h, a, b, c, d);
    ComposeDigits(0, a, b, c, d);
  }
}
