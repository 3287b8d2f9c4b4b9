/** src/monitor.c: the two number printers, which go from the most significant digit down. */
module Monitor {
  import opened Machine
  import opened Numbers

  const PLAIN: Flags := Flags(false, false, false, false)

  // ----- decimal -----

  function Pow10(k: nat): (p: nat)
    ensures p >= 1
  {
    if k == 0 then 1 else 10 * Pow10(k - 1)
  }

  function Over(v: nat, d: nat): nat
    requires d >= 1
  {
    v / d
  }

  /** What has been printed when the digits above position `k` are done: their numeral, or nothing if it is 0. */
  function Upper(value: nat, i: nat): string
    requires i >= 1
  {
    if Over(value, 10 * i) == 0 then "" else Digits(Over(value, 10 * i), 10)
  }

  lemma DivDiv(v: nat, i: nat, r: nat)
    requires i >= 1 && r >= 1
    ensures Over(v / i, r) == Over(v, r * i)
  {
    var a, b := v / i, v % i;
    var q, t := a / r, a % r;
    assert v == i * a + b && a == r * q + t;
    Distribute(i, r, q, t);
    Bound(i, r, t);
    Quotient(v, r * i, q, i * t + b);
  }

  lemma Distribute(i: nat, r: nat, q: nat, t: nat)
    ensures i * (r * q + t) == (r * i) * q + i * t
  {
    assert i * (r * q + t) == i * (r * q) + i * t;
    assert i * (r * q) == (i * r) * q;
  }

  lemma Bound(i: nat, r: nat, t: nat)
    requires t < r
    ensures i * t + i <= r * i
  {
    assert i * t + i == i * (t + 1);
    assert i * (t + 1) <= i * r;
  }

  lemma Quotient(v: nat, d: nat, q: nat, rem: nat)
    requires d >= 1 && rem < d && v == d * q + rem
    ensures v / d == q
  {
    var p := v / d;
    assert v == d * p + v % d;
    Apart(d, p, q);
    Apart(d, q, p);
  }

  lemma Apart(d: nat, p: nat, q: nat)
    ensures p < q ==> d * p + d <= d * q
  {
    if p < q {
      assert d * (p + 1) <= d * q;
    }
  }

  /** One digit further: the numeral of the upper digits grows by one, unless it is still 0. */
  lemma UpperStep(value: nat, i: nat)
    requires i >= 1
    ensures var q := value / i;
      && q / 10 == Over(value, 10 * i)
      && Digits(q, 10) == Upper(value, i) + [DigitChar(q % 10)]
  {
    DivDiv(value, i, 10);
  }

  /** monitor_write_dec: the characters put on the screen are the decimal numeral */
  method WriteDec(value: nat) returns (out: string)
    requires value < WORD_LIMIT
    ensures out == Digits(value, 10) && Number(value, 10, PLAIN, 0) == Done(out)
  {
    hide Digits, DigitChar, Number;
    DecAgrees(value);
    out := "";
    var hadDigit := false;
    var i := 1_000_000_000;
    ghost var k := 9;
    assert Pow10(9) == i by { assert Pow10(5) == 100_000; }
    while i >= 1
      invariant 0 <= i && (i >= 1 ==> k >= 0 && i == Pow10(k) && out == Upper(value, i))
      invariant i >= 1 ==> (hadDigit <==> Over(value, 10 * i) != 0)
      invariant i == 0 ==> out == Digits(value, 10)
      decreases i
    {
      var digit := value / i % 10;
      UpperStep(value, i);
      TenSteps(k);
      if digit == 0 && !hadDigit && i != 1 {
      } else {
        out := out + [DigitChar(digit)];
        hadDigit := true;
      }
      i := i / 10;
      k := k - 1;
    }
  }

  lemma TenSteps(k: int)
    requires k >= 0
    ensures Pow10(k) / 10 == if k == 0 then 0 else Pow10(k - 1)
    ensures k > 0 ==> Pow10(k) == 10 * Pow10(k - 1)
  {
  }

  /** The printer that starts from the top agrees with the one that starts from the bottom. */
  lemma DecAgrees(value: nat)
    requires value < WORD_LIMIT
    ensures Number(value, 10, PLAIN, 0) == Done(Digits(value, 10))
  {
    hide Digits;
    MagnitudeDigits(value, 10, PLAIN);
    assert Zeros(0 - |Digits(value, 10)|) == "";
    assert ("" + "" + ("" + Digits(value, 10))) + "" == Digits(value, 10);
  }

  // ----- hexadecimal -----

  function Pow16(k: nat): (p: nat)
    ensures p >= 1
  {
    if k == 0 then 1 else 16 * Pow16(k - 1)
  }

  /** Exactly `n` hexadecimal digits. */
  function Fixed(v: nat, n: nat): string {
    if n == 0 then "" else Fixed(Quot(v, 16), n - 1) + [DigitChar(Rem(v, 16))]
  }

  lemma {:induction false} FixedIsPadded(v: nat, n: nat)
    requires n >= 1 && v < Pow16(n)
    ensures Fixed(v, n) == Padded(v, 16, n)
  {
    hide DigitChar, Padded;
    PaddedStep(v, 16, n);
    if n > 1 {
      assert Quot(v, 16) < Pow16(n - 1);
      FixedIsPadded(Quot(v, 16), n - 1);
    } else {
      assert Fixed(Quot(v, 16), 0) == "";
      assert Quot(v, 16) == 0;
    }
  }

  lemma TopNibbles(value: nat)
    requires value < WORD_LIMIT
    ensures Pow16(8) == WORD_LIMIT && Fixed(Over(value, Pow16(8)), 0) == ""
    ensures Over(value, Pow16(0)) == value
  {
    assert Pow16(4) == 0x1_0000;
  }

  /** One nibble further down. */
  lemma FixedStep(value: nat, i: nat, n: nat)
    ensures Fixed(Over(value, Pow16(i)), n + 1)
         == Fixed(Over(value, Pow16(i + 1)), n) + [DigitChar(Over(value, Pow16(i)) % 16)]
  {
    hide DigitChar;
    DivDiv(value, Pow16(i), 16);
  }

  /** monitor_write_hex: eight digits, from the top nibble down; `i` counts nibbles */
  method WriteHex(value: nat) returns (out: string)
    requires value < WORD_LIMIT
    ensures out == Padded(value, 16, 8) && Number(value, 16, PLAIN, 8) == Done(out)
  {
    hide DigitChar, Padded, Number, Over, Fixed, Pow16;
    HexAgrees(value);
    out := "";
    var i := 7;
    TopNibbles(value);
    while i >= 0
      invariant -1 <= i <= 7
      invariant out == Fixed(Over(value, Pow16(i + 1)), 7 - i)
    {
      // (value & (0x0F << 4 * i)) >> 4 * i
      var nibble := Over(value, Pow16(i)) % 16;
      FixedStep(value, i, 7 - i);
      out := out + [DigitChar(nibble)];
      i := i - 1;
    }
    FixedIsPadded(value, 8);
  }

  lemma HexAgrees(value: nat)
    requires value < WORD_LIMIT
    ensures Number(value, 16, PLAIN, 8) == Done(Padded(value, 16, 8))
  {
    hide Digits;
    SafeWidths(value, 16, PLAIN, 8);
    assert ("" + "" + Padded(value, 16, 8)) + "" == Padded(value, 16, 8);
  }
}
