/** Digits of src/string.c: append_number and skip_atoi, and what the digits they handle are worth. */
module Numbers {
  import opened Machine

  const BUFSIZE: nat := 64
  const SIGN_BIT: nat := 0x8000_0000

  datatype Flags = Flags(signed: bool, zeroPadded: bool, leftAlign: bool, showPrefix: bool)

  // ----- division by a radix -----

  function Quot(v: nat, radix: nat): (q: nat)
    requires 2 <= radix
    ensures 2 * q <= v && (q == 0 <==> v < radix)
  {
    QuotHalves(v, radix);
    v / radix
  }

  lemma {:induction false} MultipleAtLeast(radix: nat, q: nat)
    requires 2 <= radix
    ensures radix * q >= 2 * q && (q >= 1 ==> radix * q >= radix)
  {
    if q > 0 {
      MultipleAtLeast(radix, q - 1);
      assert radix * q == radix * (q - 1) + radix;
    }
  }

  lemma QuotHalves(v: nat, radix: nat)
    requires 2 <= radix
    ensures 2 * (v / radix) <= v && (v / radix == 0 <==> v < radix)
  {
    var q := v / radix;
    assert v == radix * q + v % radix;
    MultipleAtLeast(radix, q);
  }

  function Rem(v: nat, radix: nat): (d: nat)
    requires 2 <= radix
    ensures d < radix && (v < radix ==> d == v)
  {
    v % radix
  }

  /** A numeral worth `x` with the digit `d` put behind it. */
  function Push(x: nat, radix: nat, d: nat): nat {
    x * radix + d
  }

  lemma QuotRem(v: nat, radix: nat)
    requires 2 <= radix
    ensures Push(Quot(v, radix), radix, Rem(v, radix)) == v
  {
  }

  // ----- digits -----

  /** The d-th character of "0123456789abcdef". */
  function DigitChar(d: nat): char
    requires d < 16
  {
    if d < 10 then '0' + d as char else 'a' + (d - 10) as char
  }

  function DigitValue(c: char): nat {
    if '0' <= c <= '9' then (c - '0') as nat
    else if 'a' <= c <= 'f' then (c - 'a') as nat + 10
    else 0
  }

  /** The shortest numeral of `v`, most significant digit first. */
  function Digits(v: nat, radix: nat): (s: string)
    requires 2 <= radix <= 16
    ensures |s| >= 1
  {
    if v < radix then [DigitChar(v)] else Digits(Quot(v, radix), radix) + [DigitChar(Rem(v, radix))]
  }

  function Zeros(n: int): (s: string)
    ensures |s| == if n > 0 then n else 0
  {
    if n <= 0 then "" else Zeros(n - 1) + "0"
  }

  /** The numeral with zeros in front, at least `width` digits. */
  function Padded(v: nat, radix: nat, width: int): string
    requires 2 <= radix <= 16
  {
    Zeros(width - |Digits(v, radix)|) + Digits(v, radix)
  }

  /** What a numeral is worth. */
  function Eval(s: string, radix: nat): nat {
    if s == "" then 0 else Push(Eval(s[..|s| - 1], radix), radix, DigitValue(s[|s| - 1]))
  }

  lemma EvalAppend(s: string, c: char, radix: nat)
    ensures Eval(s + [c], radix) == Push(Eval(s, radix), radix, DigitValue(c))
  {
    hide Push, DigitValue;
    assert (s + [c])[..|s|] == s;
  }

  lemma DigitRoundTrip(d: nat)
    requires d < 16
    ensures DigitValue(DigitChar(d)) == d
  {
  }

  lemma PushZero(radix: nat, d: nat)
    ensures Push(0, radix, d) == d
  {
  }

  lemma {:induction false} EvalDigits(v: nat, radix: nat)
    requires 2 <= radix <= 16
    ensures Eval(Digits(v, radix), radix) == v
  {
    hide DigitChar, DigitValue, Push, Quot, Rem;
    if v < radix {
      DigitRoundTrip(v);
      EvalAppend("", DigitChar(v), radix);
      PushZero(radix, v);
      assert "" + [DigitChar(v)] == [DigitChar(v)];
    } else {
      EvalDigits(Quot(v, radix), radix);
      EvalAppend(Digits(Quot(v, radix), radix), DigitChar(Rem(v, radix)), radix);
      DigitRoundTrip(Rem(v, radix));
      QuotRem(v, radix);
    }
  }

  lemma {:induction false} EvalZeros(n: int, s: string, radix: nat)
    ensures Eval(Zeros(n) + s, radix) == Eval(s, radix)
    decreases |s|, n
  {
    hide DigitValue, Push;
    if s != "" {
      var t, c := s[..|s| - 1], s[|s| - 1];
      assert s == t + [c] && Zeros(n) + s == (Zeros(n) + t) + [c];
      EvalZeros(n, t, radix);
      EvalAppend(Zeros(n) + t, c, radix);
      EvalAppend(t, c, radix);
    } else if n > 0 {
      EvalZeros(n - 1, "", radix);
      assert Zeros(n - 1) + "" == Zeros(n - 1) && Zeros(n) + "" == Zeros(n - 1) + ['0'];
      EvalAppend(Zeros(n - 1), '0', radix);
      PushZero(radix, 0);
      ZeroDigit();
    }
  }

  lemma ZeroDigit()
    ensures DigitValue('0') == 0 && DigitChar(0) == '0'
  {
  }

  /** Padding does not change what a numeral is worth. */
  lemma EvalPadded(v: nat, radix: nat, width: int)
    requires 2 <= radix <= 16
    ensures Eval(Padded(v, radix, width), radix) == v
  {
    EvalZeros(width - |Digits(v, radix)|, Digits(v, radix), radix);
    EvalDigits(v, radix);
  }

  // ----- how append_number produces them -----

  /** The digits the do-while loop emits, least significant first. */
  function Emitted(v: nat, radix: nat, width: int): (s: string)
    requires 2 <= radix <= 16
    decreases v, if width > 0 then width else 0
  {
    [DigitChar(Rem(v, radix))]
    + if Quot(v, radix) != 0 || width - 1 > 0 then Emitted(Quot(v, radix), radix, width - 1) else ""
  }

  function Reversed(s: string): (r: string)
    ensures |r| == |s|
  {
    if s == "" then "" else Reversed(s[1..]) + [s[0]]
  }

  /** Emitting by remainders and reversing gives the padded numeral. */
  lemma {:induction false} EmittedIsPadded(v: nat, radix: nat, width: int)
    requires 2 <= radix <= 16
    ensures Reversed(Emitted(v, radix, width)) == Padded(v, radix, width)
    decreases v, if width > 0 then width else 0
  {
    hide DigitChar, Padded, Quot, Rem;
    var e := Emitted(v, radix, width);
    if Quot(v, radix) != 0 || width - 1 > 0 {
      EmittedIsPadded(Quot(v, radix), radix, width - 1);
      assert e[1..] == Emitted(Quot(v, radix), radix, width - 1);
    } else {
      assert e[1..] == "";
    }
    PaddedStep(v, radix, width);
  }

  /** One digit peeled off the right of a padded numeral. */
  lemma PaddedStep(v: nat, radix: nat, width: int)
    requires 2 <= radix <= 16
    ensures Padded(v, radix, width) ==
      (if Quot(v, radix) != 0 || width > 1 then Padded(Quot(v, radix), radix, width - 1) else "")
      + [DigitChar(Rem(v, radix))]
  {
    hide DigitChar, Quot, Rem;
    if v >= radix {
      assert |Digits(v, radix)| == |Digits(Quot(v, radix), radix)| + 1;
    } else if width > 1 {
      ZeroDigit();
      assert Digits(0, radix) == "0";
      assert Zeros(width - 1) == Zeros(width - 2) + "0";
    } else {
      assert Zeros(width - 1) == "";
    }
  }

  function Pow2(k: nat): nat {
    if k == 0 then 1 else 2 * Pow2(k - 1)
  }

  /** A number below 2^k has at most k digits, in any radix. */
  lemma {:induction false} DigitsBound(v: nat, radix: nat, k: nat)
    requires 2 <= radix <= 16 && k >= 1 && v < Pow2(k)
    ensures |Digits(v, radix)| <= k
  {
    hide DigitChar, Quot, Rem;
    if v >= radix {
      assert k > 1;
      DigitsBound(Quot(v, radix), radix, k - 1);
    }
  }

  // ----- append_number -----

  /** The value printed: under SIGNED, a set sign bit means the two's complement. */
  function Negative(value: nat, flags: Flags): bool {
    flags.signed && value >= SIGN_BIT
  }

  function Magnitude(value: nat, flags: Flags): nat
    requires value < WORD_LIMIT
  {
    if Negative(value, flags) then WORD_LIMIT - value else value
  }

  function Prefix(radix: nat, flags: Flags): string {
    if !flags.showPrefix then ""
    else if radix == 2 then "0b"
    else if radix == 8 then "0"
    else if radix == 16 then "0x"
    else ""
  }

  function Sign(value: nat, flags: Flags): string {
    if Negative(value, flags) then "-" else ""
  }

  function Clamped(width: int): int {
    if width > BUFSIZE then BUFSIZE else width
  }

  /** `n` times the character `c`. */
  function Filled(c: char, n: int): (s: string)
    ensures |s| == if n > 0 then n else 0
  {
    if n <= 0 then "" else [c] + Filled(c, n - 1)
  }

  /** Right-aligned numbers are padded with zeros whatever the flags say. */
  function Body(value: nat, radix: nat, flags: Flags, width: int): string
    requires value < WORD_LIMIT && 2 <= radix <= 16
  {
    Padded(Magnitude(value, flags), radix, if flags.leftAlign then 0 else Clamped(width))
  }

  /** Sign, prefix and digits: what goes through the scratch buffer. */
  function Scratch(value: nat, radix: nat, flags: Flags, width: int): string
    requires value < WORD_LIMIT && 2 <= radix <= 16
  {
    Sign(value, flags) + Prefix(radix, flags) + Body(value, radix, flags, width)
  }

  function Trailer(value: nat, radix: nat, flags: Flags, width: int): string
    requires value < WORD_LIMIT && 2 <= radix <= 16
  {
    if !flags.leftAlign then ""
    else Filled(PadChar(flags), Clamped(width) - |Body(value, radix, flags, width)|)
  }

  /** The padding character that the flags choose. */
  function PadChar(flags: Flags): char {
    if flags.zeroPadded then '0' else ' '
  }

  /** The number as it is written: undefined when it overruns the 65-byte scratch buffer. */
  function Number(value: nat, radix: int, flags: Flags, width: int): Outcome<string>
    requires value < WORD_LIMIT
  {
    if !(2 <= radix <= 16) then Done("")
    else if |Scratch(value, radix, flags, width)| > BUFSIZE + 1 then Panic(Undefined)
    else Done(Scratch(value, radix, flags, width) + Trailer(value, radix, flags, width))
  }

  /** `*buf++ = c` for each character of `s`, unless the buffer is full. */
  method PutAll(buf: array<char>, n: nat, s: string) returns (ok: bool, n': nat)
    requires n <= buf.Length
    modifies buf
    ensures ok <==> n + |s| <= buf.Length
    ensures ok ==> n' == n + |s| && buf[..n'] == old(buf[..n]) + s
  {
    n' := n;
    for k := 0 to |s|
      invariant n' == n + k <= buf.Length && buf[..n'] == old(buf[..n]) + s[..k]
    {
      if n' >= buf.Length { return false, n'; }
      buf[n'] := s[k];
      n' := n' + 1;
      assert s[..k + 1] == s[..k] + [s[k]];
    }
    assert s[..|s|] == s;
    return true, n';
  }

  /** `for (; width > 0; width--) *buf++ = c`, unless the buffer is full */
  method PutPadding(buf: array<char>, n: nat, c: char, width: int) returns (ok: bool, n': nat)
    requires n <= buf.Length
    modifies buf
    ensures ok <==> n + |Filled(c, width)| <= buf.Length
    ensures ok ==> n' == n + |Filled(c, width)| && buf[..n'] == old(buf[..n]) + Filled(c, width)
  {
    n' := n;
    var w := width;
    Regroup(buf[..n], Filled(c, width), "");
    while w > 0
      invariant n <= n' <= buf.Length && n' + |Filled(c, w)| == n + |Filled(c, width)|
      invariant buf[..n'] + Filled(c, w) == old(buf[..n]) + Filled(c, width)
    {
      if n' >= buf.Length { return false, n'; }
      ghost var was := buf[..n'];
      Regroup(was, [c], Filled(c, w - 1));
      buf[n'] := c;
      n' := n' + 1;
      assert buf[..n'] == was + [c];
      w := w - 1;
    }
    Regroup(buf[..n'], "", "");
    return true, n';
  }

  /** The do-while loop: digits by remainders, least significant first. */
  method EmitDigits(buf: array<char>, value: nat, radix: nat, left: bool, width: int) returns (ok: bool, n: nat, w: int)
    requires 2 <= radix <= 16
    modifies buf
    ensures var e := Emitted(value, radix, if left then 0 else width);
      && (ok <==> |e| <= buf.Length)
      && (ok ==> n == |e| && buf[..n] == e && w == width - n && (left || w <= 0))
  {
    hide DigitChar, Quot, Rem, Emitted;
    ghost var e := Emitted(value, radix, if left then 0 else width);
    var i, more := value, true;
    n, w := 0, width;
    while more
      invariant n <= buf.Length && w == width - n && (more || left || w <= 0)
      invariant e == buf[..n] + (if more then Emitted(i, radix, if left then 0 else w) else "")
      decreases more, i, if w > 0 then w else 0
    {
      EmitStep(i, radix, left, w);
      ghost var was, d := buf[..n], DigitChar(Rem(i, radix));
      ghost var rest := if Quot(i, radix) != 0 || (!left && w - 1 > 0)
                        then Emitted(Quot(i, radix), radix, if left then 0 else w - 1) else "";
      Regroup(was, [d], rest);
      if n >= buf.Length { return false, n, w; }
      buf[n] := DigitChar(Rem(i, radix));
      n := n + 1;
      i := Quot(i, radix);
      w := w - 1;
      more := i != 0 || (!left && w > 0);
      assert buf[..n] == was + [d];
    }
    return true, n, w;
  }

  lemma Regroup(a: string, b: string, c: string)
    ensures a + (b + c) == (a + b) + c && |a + (b + c)| == |a| + |b| + |c|
    ensures a + "" == a
  {
  }

  /** One turn of the loop. */
  lemma EmitStep(i: nat, radix: nat, left: bool, w: int)
    requires 2 <= radix <= 16
    ensures Emitted(i, radix, if left then 0 else w) == [DigitChar(Rem(i, radix))] +
      (if Quot(i, radix) != 0 || (!left && w - 1 > 0)
       then Emitted(Quot(i, radix), radix, if left then 0 else w - 1) else "")
  {
    hide DigitChar, Quot, Rem;
    EmittedNegative(Quot(i, radix), radix, -1);
  }

  /** A negative width is as good as none. */
  lemma {:induction false} EmittedNegative(v: nat, radix: nat, width: int)
    requires 2 <= radix <= 16 && width <= 0
    ensures Emitted(v, radix, width) == Emitted(v, radix, 0)
    decreases v
  {
    hide DigitChar, Quot, Rem;
    if Quot(v, radix) != 0 {
      EmittedNegative(Quot(v, radix), radix, width - 1);
      EmittedNegative(Quot(v, radix), radix, -1);
    }
  }

  /** The buffer read backwards onto `str`. */
  method TakeBack(str: string, buf: array<char>, n: nat) returns (r: string)
    requires n <= buf.Length
    ensures r == str + Reversed(buf[..n])
  {
    r := str;
    var k := n;
    while k > 0
      invariant 0 <= k <= n
      invariant r + Reversed(buf[..k]) == str + Reversed(buf[..n])
    {
      ReversedLast(buf[..k]);
      assert buf[..k][..k - 1] == buf[..k - 1];
      Regroup(r, [buf[k - 1]], Reversed(buf[..k - 1]));
      k := k - 1;
      r := r + [buf[k]];
    }
    assert Reversed(buf[..0]) == "";
    Regroup(r, "", "");
  }

  lemma {:induction false} ReversedLast(s: string)
    requires s != ""
    ensures Reversed(s) == [s[|s| - 1]] + Reversed(s[..|s| - 1])
  {
    if |s| > 1 {
      var t := s[1..];
      ReversedLast(t);
      assert t[..|t| - 1] == s[..|s| - 1][1..];
      assert s[..|s| - 1][0] == s[0];
      assert [s[|s| - 1]] + Reversed(t[..|t| - 1]) + [s[0]] == [s[|s| - 1]] + (Reversed(t[..|t| - 1]) + [s[0]]);
    }
  }

  lemma {:induction false} ReversedConcat(a: string, b: string)
    ensures Reversed(a + b) == Reversed(b) + Reversed(a)
  {
    if a == "" {
      assert a + b == b;
      Regroup(Reversed(b), "", "");
    } else {
      ReversedConcat(a[1..], b);
      assert (a + b)[1..] == a[1..] + b;
      Regroup(Reversed(b), Reversed(a[1..]), [a[0]]);
    }
  }

  /** The prefix and the sign in the order the buffer receives them. */
  lemma ReversedTags(value: nat, radix: nat, flags: Flags)
    ensures Reversed(Reversed(Prefix(radix, flags))) == Prefix(radix, flags)
    ensures Reversed(Sign(value, flags)) == Sign(value, flags)
  {
    assert Reversed("0b") == "b0" && Reversed("0x") == "x0" && Reversed("b0") == "0b" && Reversed("x0") == "0x";
    assert Reversed("0") == "0" && Reversed("-") == "-" && Reversed("") == "";
  }

  /** src/string.c:72-102: digits, prefix and sign go into the buffer backwards */
  method FillScratch(buf: array<char>, value: nat, radix: nat, flags: Flags, width: int)
    returns (ok: bool, n: nat, w: int)
    requires value < WORD_LIMIT && 2 <= radix <= 16 && buf.Length == BUFSIZE + 1
    modifies buf
    ensures ok <==> |Scratch(value, radix, flags, width)| <= BUFSIZE + 1
    ensures ok ==> n <= buf.Length && Reversed(buf[..n]) == Scratch(value, radix, flags, width)
    ensures ok ==> w == Clamped(width) - |Body(value, radix, flags, width)|
  {
    hide Prefix, Sign, Reversed, Scratch;
    ghost var e := EmittedBody(value, radix, flags, width);
    ReversedScratch(e, value, radix, flags, width);
    ok, n, w := EmitDigits(buf, Magnitude(value, flags), radix, flags.leftAlign, Clamped(width));
    hide Body, Emitted;
    if !ok { return; }
    ok, n := PutAll(buf, n, Reversed(Prefix(radix, flags)));
    if !ok { return; }
    ok, n := PutAll(buf, n, Sign(value, flags));
    if !ok { return; }
    if !flags.leftAlign {
      // src/string.c:98-102: the digits have used up the width, so this loop does nothing
      ok, n := PutPadding(buf, n, PadChar(flags), w);
    }
    assert buf[..n] == e + Reversed(Prefix(radix, flags)) + Sign(value, flags);
  }

  /** The digits as the loop emits them, which read backwards are the body. */
  ghost function EmittedBody(value: nat, radix: nat, flags: Flags, width: int): (e: string)
    requires value < WORD_LIMIT && 2 <= radix <= 16
    ensures e == Emitted(Magnitude(value, flags), radix, if flags.leftAlign then 0 else Clamped(width))
    ensures Reversed(e) == Body(value, radix, flags, width) && |e| == |Body(value, radix, flags, width)|
  {
    EmittedIsPadded(Magnitude(value, flags), radix, if flags.leftAlign then 0 else Clamped(width));
    Emitted(Magnitude(value, flags), radix, if flags.leftAlign then 0 else Clamped(width))
  }

  /** append_number */
  method AppendNumber(str: string, value: nat, radix: int, flags: Flags, width: int) returns (r: Outcome<string>)
    requires value < WORD_LIMIT
    ensures match Number(value, radix, flags, width)
      case Done(s) => r == Done(str + s)
      case Panic(f) => r == Panic(f)
    ensures radix < 2 || radix > 16 ==> r == Done(str)
  {
    hide Scratch, Body, Reversed;
    if radix < 2 || radix > 16 {
      Regroup(str, "", "");
      return Done(str);
    }
    var buf := new char[BUFSIZE + 1];
    var ok, n, w := FillScratch(buf, value, radix, flags, width);
    if !ok { return Panic(Undefined); }
    var out := TakeBack(str, buf, n);
    out := PadRight(out, flags, w);
    Regroup(str, Scratch(value, radix, flags, width), Trailer(value, radix, flags, width));
    return Done(out);
  }

  lemma ReversedScratch(e: string, value: nat, radix: nat, flags: Flags, width: int)
    requires value < WORD_LIMIT && 2 <= radix <= 16 && Reversed(e) == Body(value, radix, flags, width)
    ensures Reversed(e + Reversed(Prefix(radix, flags)) + Sign(value, flags)) == Scratch(value, radix, flags, width)
    ensures |Scratch(value, radix, flags, width)| == |e| + |Reversed(Prefix(radix, flags))| + |Sign(value, flags)|
  {
    hide Body, Prefix, Sign;
    ReversedConcat(e + Reversed(Prefix(radix, flags)), Sign(value, flags));
    ReversedConcat(e, Reversed(Prefix(radix, flags)));
    ReversedTags(value, radix, flags);
    Regroup(Sign(value, flags), Prefix(radix, flags), Body(value, radix, flags, width));
  }

  /** The trailing padding of a left-aligned number. */
  method PadRight(str: string, flags: Flags, width: int) returns (r: string)
    ensures r == str + if flags.leftAlign then Filled(PadChar(flags), width) else ""
  {
    r := str;
    if flags.leftAlign {
      r := Fill(str, PadChar(flags), width);
    } else {
      Regroup(str, "", "");
    }
  }

  /** `for (; width > 0; width--) *str++ = c` */
  method Fill(str: string, c: char, width: int) returns (r: string)
    ensures r == str + Filled(c, width)
  {
    r := str;
    var w := width;
    while w > 0
      invariant r + Filled(c, w) == str + Filled(c, width)
    {
      Regroup(r, [c], Filled(c, w - 1));
      r := r + [c];
      w := w - 1;
    }
    Regroup(r, "", "");
  }

  // ----- what the output of append_number is worth -----

  /** The 32-bit value denoted by a sign and a magnitude. */
  function Denoted(negative: bool, m: nat): nat {
    if negative then (0x1_0000_0000 - m) % 0x1_0000_0000 else m
  }

  /** The digits evaluate back to the magnitude. */
  lemma BodyReadsBack(value: nat, radix: nat, flags: Flags, width: int)
    requires value < WORD_LIMIT && 2 <= radix <= 16
    ensures Denoted(Negative(value, flags), Eval(Body(value, radix, flags, width), radix)) == value
  {
    hide Denoted, Eval, Padded, Magnitude;
    EvalPadded(Magnitude(value, flags), radix, if flags.leftAlign then 0 else Clamped(width));
    DenotedBack(value, flags);
  }

  lemma DenotedBack(value: nat, flags: Flags)
    requires value < WORD_LIMIT
    ensures Denoted(Negative(value, flags), Magnitude(value, flags)) == value
  {
  }

  /** A text up to its first space. */
  function UpToSpace(s: string): string {
    if s == "" || s[0] == ' ' then "" else [s[0]] + UpToSpace(s[1..])
  }

  /** What stands behind `mark`, if the text starts with it. */
  function Behind(mark: string, s: string): Option<string> {
    if |mark| <= |s| && s[..|mark|] == mark then Some(s[|mark|..]) else None
  }

  /** What stands behind the prefix that numbers of this radix have. */
  function BehindPrefix(s: string, radix: nat): Option<string> {
    match radix
    case 2 => Behind("0b", s)
    case 8 => Behind("0", s)
    case 16 => Behind("0x", s)
    case _ => Some(s)
  }

  /** Reading a number from its text alone: a minus sign, the prefix, then digits up to a space or the end. */
  function Read(s: string, radix: nat, prefixed: bool): Option<nat> {
    var negative := s != "" && s[0] == '-';
    var unsigned := if negative then s[1..] else s;
    match if prefixed then BehindPrefix(unsigned, radix) else Some(unsigned)
    case None => None
    case Some(digits) => Some(Denoted(negative, Eval(UpToSpace(digits), radix)))
  }

  /** Neither a space nor a minus sign. */
  ghost predicate Solid(s: string) {
    forall i :: 0 <= i < |s| ==> s[i] != ' ' && s[i] != '-'
  }

  lemma {:induction false} DigitsSolid(v: nat, radix: nat)
    requires 2 <= radix <= 16
    ensures Solid(Digits(v, radix))
  {
    if v >= radix { DigitsSolid(Quot(v, radix), radix); }
  }

  lemma BodySolid(value: nat, radix: nat, flags: Flags, width: int)
    requires value < WORD_LIMIT && 2 <= radix <= 16
    ensures Solid(Body(value, radix, flags, width)) && Body(value, radix, flags, width) != ""
  {
    hide Digits, Zeros;
    var m, w := Magnitude(value, flags), if flags.leftAlign then 0 else Clamped(width);
    DigitsSolid(m, radix);
    ZerosAreDigits(w - |Digits(m, radix)|);
  }

  lemma {:induction false} UpToSpaceStops(d: string, n: int)
    requires Solid(d)
    ensures UpToSpace(d + Filled(' ', n)) == d
  {
    if d != "" {
      UpToSpaceStops(d[1..], n);
      assert (d + Filled(' ', n))[1..] == d[1..] + Filled(' ', n);
    } else {
      assert d + Filled(' ', n) == Filled(' ', n);
    }
  }

  /** A left-aligned number padded with zeros on the right cannot be told from a larger one. */
  predicate Ambiguous(flags: Flags, width: int) {
    flags.leftAlign && flags.zeroPadded && width >= 2
  }

  /** What stands behind sign and prefix reads back as the digits. */
  lemma TailReads(value: nat, radix: nat, flags: Flags, width: int)
    requires value < WORD_LIMIT && 2 <= radix <= 16 && !Ambiguous(flags, width)
    ensures var body := Body(value, radix, flags, width);
      UpToSpace(body + Trailer(value, radix, flags, width)) == body
  {
    hide Body, UpToSpace;
    var d := Body(value, radix, flags, width);
    BodySolid(value, radix, flags, width);
    UpToSpaceStops(d, if Trailer(value, radix, flags, width) == "" then 0 else Clamped(width) - |d|);
  }

  /** The text alone determines the value, unless it is ambiguous: every value, radix, width and set of flags. */
  lemma NumberReadsBack(value: nat, radix: nat, flags: Flags, width: int)
    requires value < WORD_LIMIT && 2 <= radix <= 16 && !Ambiguous(flags, width)
    requires Number(value, radix, flags, width).Done?
    ensures Read(Number(value, radix, flags, width).value, radix, flags.showPrefix) == Some(value)
  {
    hide Body, UpToSpace, Trailer, Denoted, Eval, Prefix, BehindPrefix;
    var sign, prefix := Sign(value, flags), Prefix(radix, flags);
    var tail := Body(value, radix, flags, width) + Trailer(value, radix, flags, width);
    var s := Number(value, radix, flags, width).value;
    Regroup(sign + prefix, Body(value, radix, flags, width), Trailer(value, radix, flags, width));
    assert s == sign + prefix + tail;
    BodySolid(value, radix, flags, width);
    TailReads(value, radix, flags, width);
    BodyReadsBack(value, radix, flags, width);
    PrefixSkipped(radix, flags, tail);
    assert s[|sign|..] == prefix + tail;
    assert s[0] == (if sign != "" then '-' else (prefix + tail)[0]);
  }

  lemma PrefixSkipped(radix: nat, flags: Flags, tail: string)
    requires tail != "" && tail[0] != '-'
    ensures (if flags.showPrefix then BehindPrefix(Prefix(radix, flags) + tail, radix)
             else Some(Prefix(radix, flags) + tail)) == Some(tail)
    ensures (Prefix(radix, flags) + tail)[0] != '-'
  {
    var t := Prefix(radix, flags) + tail;
    if Prefix(radix, flags) == "" { assert t == tail; }
    assert t[..|Prefix(radix, flags)|] == Prefix(radix, flags) && t[|Prefix(radix, flags)|..] == tail;
  }

  /** And when it is ambiguous, two values have the same text. */
  lemma AmbiguousTexts(radix: nat, flags: Flags, width: int)
    requires 2 <= radix <= 16 && Ambiguous(flags, width)
    ensures Number(1, radix, flags, width).Done? && Number(1, radix, flags, width) == Number(radix, radix, flags, width)
  {
    hide Body, Scratch;
    var w, head := Clamped(width), Prefix(radix, flags);
    PlainScratch(1, radix, flags, width, "1");
    PlainScratch(radix, radix, flags, width, "10");
    assert Filled('0', w - 1) == "0" + Filled('0', w - 2);
    Regroup(head, "1", "0" + Filled('0', w - 2));
    Regroup(head, "10", Filled('0', w - 2));
    assert "1" + ("0" + Filled('0', w - 2)) == "10" + Filled('0', w - 2);
  }

  lemma PlainScratch(value: nat, radix: nat, flags: Flags, width: int, text: string)
    requires 2 <= radix <= 16 && flags.leftAlign && ((value == 1 && text == "1") || (value == radix && text == "10"))
    ensures Body(value, radix, flags, width) == text
    ensures Scratch(value, radix, flags, width) == Prefix(radix, flags) + text
  {
    hide Digits, Prefix;
    OneAndRadix(radix);
    assert "" + Prefix(radix, flags) == Prefix(radix, flags);
  }

  lemma OneAndRadix(radix: nat)
    requires 2 <= radix <= 16
    ensures Digits(1, radix) == "1" && Digits(radix, radix) == "10"
  {
    assert radix / radix == 1 && radix % radix == 0;
    assert Quot(radix, radix) == 1 && Rem(radix, radix) == 0;
  }

  // ----- the text of a number, without reference to how it is produced -----

  /** The character is one of the digits of this radix. */
  ghost predicate DigitOf(c: char, radix: nat)
    requires radix <= 16
  {
    c in "0123456789abcdef"[..radix]
  }

  /** `t` denotes `v` in digits of the radix, at least `width` of them, and no more zeros in front than that takes. */
  ghost predicate Numeral(t: string, radix: nat, v: nat, width: int)
    requires radix <= 16
  {
    && t != "" && (forall i :: 0 <= i < |t| ==> DigitOf(t[i], radix))
    && Eval(t, radix) == v && |t| >= width && (t[0] == '0' ==> |t| == 1 || |t| == width)
  }

  /**
   * `s` is a number as append_number promises to write it: sign and prefix, digits up to position `n`, and padding.
   * A right-aligned number is filled up with zeros in front, a left-aligned one with the padding character behind.
   */
  ghost predicate Written(s: string, n: nat, value: nat, radix: nat, flags: Flags, width: int)
    requires radix <= 16 && value < 0x1_0000_0000
  {
    var negative := flags.signed && value >= 0x8000_0000;
    var mark := match radix case 2 => "0b" case 8 => "0" case 16 => "0x" case _ => "";
    var head := (if negative then "-" else "") + if flags.showPrefix then mark else "";
    var field := if width > 64 then 64 else width;
    && |head| <= n <= |s| && s[..|head|] == head
    && Numeral(s[|head|..n], radix, if negative then 0x1_0000_0000 - value else value,
               if flags.leftAlign then 0 else field)
    && |s| == (if flags.leftAlign && n < |head| + field then |head| + field else n)
    && (forall i :: n <= i < |s| ==> s[i] == if flags.zeroPadded then '0' else ' ')
  }

  lemma DigitCharOf(d: nat, radix: nat)
    requires d < radix <= 16
    ensures DigitOf(DigitChar(d), radix) && (DigitChar(d) == '0' <==> d == 0)
  {
    DigitAt(d);
    assert "0123456789abcdef"[..radix][d] == "0123456789abcdef"[d];
  }

  lemma {:induction false} DigitsOf(v: nat, radix: nat)
    requires 2 <= radix <= 16
    ensures forall i :: 0 <= i < |Digits(v, radix)| ==> DigitOf(Digits(v, radix)[i], radix)
    ensures Digits(v, radix)[0] == '0' ==> v == 0
  {
    hide DigitOf, DigitChar, Quot, Rem;
    if v < radix {
      DigitCharOf(v, radix);
    } else {
      DigitsOf(Quot(v, radix), radix);
      DigitCharOf(Rem(v, radix), radix);
    }
  }

  lemma PaddedNumeral(v: nat, radix: nat, width: int)
    requires 2 <= radix <= 16
    ensures Numeral(Padded(v, radix, width), radix, v, width)
  {
    hide DigitOf, Eval;
    EvalPadded(v, radix, width);
    DigitsOf(v, radix);
    ZerosAreDigits(width - |Digits(v, radix)|);
    DigitCharOf(0, radix);
    ZeroDigit();
  }

  /** There is only one such numeral. */
  lemma {:induction false} NumeralIsPadded(t: string, radix: nat, v: nat, width: int)
    requires 2 <= radix <= 16 && Numeral(t, radix, v, width)
    ensures t == Padded(v, radix, width)
    decreases |t|
  {
    hide Numeral, Padded, DigitChar, Quot, Rem, Eval;
    var d := NumeralLast(t, radix, v, width);
    PaddedStep(v, radix, width);
    var u := t[..|t| - 1];
    if u != "" { NumeralIsPadded(u, radix, Quot(v, radix), width - 1); }
  }

  /** A numeral without its last digit. */
  lemma NumeralLast(t: string, radix: nat, v: nat, width: int) returns (d: nat)
    requires 2 <= radix <= 16 && Numeral(t, radix, v, width)
    ensures t != "" && d == Rem(v, radix) && t == t[..|t| - 1] + [DigitChar(d)]
    ensures |t| == 1 ==> Quot(v, radix) == 0 && width <= 1
    ensures |t| > 1 ==> Numeral(t[..|t| - 1], radix, Quot(v, radix), width - 1) && (Quot(v, radix) != 0 || width > 1)
  {
    hide DigitOf, DigitChar, Quot, Rem, Eval, Push;
    var u, c := t[..|t| - 1], t[|t| - 1];
    assert t == u + [c];
    d := DigitOfValue(c, radix);
    EvalAppend(u, c, radix);
    PushedBack(Eval(u, radix), radix, d);
    if u == "" {
      EvalNothing(radix);
    } else {
      assert t[0] == u[0];
      if u[0] != '0' { EvalPositive(u, radix); }
    }
  }

  lemma EvalNothing(radix: nat)
    ensures Eval("", radix) == 0
  {
  }

  lemma DigitOfValue(c: char, radix: nat) returns (d: nat)
    requires radix <= 16 && DigitOf(c, radix)
    ensures d < radix && c == DigitChar(d) && DigitValue(c) == d && (c != '0' ==> d > 0)
  {
    hide DigitChar, DigitValue;
    var digits := "0123456789abcdef"[..radix];
    d :| d < |digits| && digits[d] == c;
    assert digits[d] == "0123456789abcdef"[d];
    DigitAt(d);
    DigitRoundTrip(d);
  }

  lemma DigitAt(d: nat)
    requires d < 16
    ensures DigitChar(d) == "0123456789abcdef"[d] && (DigitChar(d) == '0' <==> d == 0)
  {
  }

  /** Quotient and remainder take a digit off again. */
  lemma PushedBack(x: nat, radix: nat, d: nat)
    requires 2 <= radix && d < radix
    ensures Quot(Push(x, radix, d), radix) == x && Rem(Push(x, radix, d), radix) == d
  {
    hide Quot, Rem;
    var v := Push(x, radix, d);
    var q := Quot(v, radix);
    QuotRem(v, radix);
    MultiplesApart(radix, x, q);
    MultiplesApart(radix, q, x);
  }

  lemma MultiplesApart(radix: nat, x: nat, q: nat)
    requires 2 <= radix
    ensures x > q ==> x * radix >= q * radix + radix
  {
    if x > q {
      MultipleAtLeast(radix, x - q);
      assert x * radix == q * radix + radix * (x - q);
    }
  }

  lemma {:induction false} EvalPositive(u: string, radix: nat)
    requires 2 <= radix <= 16 && u != "" && u[0] != '0' && forall i :: 0 <= i < |u| ==> DigitOf(u[i], radix)
    ensures Eval(u, radix) > 0
  {
    hide DigitOf;
    var w, c := u[..|u| - 1], u[|u| - 1];
    var d := DigitOfValue(c, radix);
    if w != "" {
      EvalPositive(w, radix);
      MultipleAtLeast(radix, Eval(w, radix));
    }
  }

  /** Sign and prefix, as the conventions have them. */
  lemma HeadIs(value: nat, radix: nat, flags: Flags)
    ensures Sign(value, flags) == if flags.signed && value >= 0x8000_0000 then "-" else ""
    ensures Prefix(radix, flags) ==
      if !flags.showPrefix then "" else match radix case 2 => "0b" case 8 => "0" case 16 => "0x" case _ => ""
  {
  }

  lemma {:induction false} FilledWith(c: char, n: int)
    ensures forall i :: 0 <= i < |Filled(c, n)| ==> Filled(c, n)[i] == c
  {
    if n > 0 { FilledWith(c, n - 1); }
  }

  lemma {:induction false} AllFilled(c: char, s: string)
    requires forall i :: 0 <= i < |s| ==> s[i] == c
    ensures s == Filled(c, |s|)
  {
    if s != "" { AllFilled(c, s[1..]); }
  }

  /** append_number writes what it promises, for every value, radix, width and set of flags. */
  lemma NumberWritten(value: nat, radix: nat, flags: Flags, width: int) returns (n: nat)
    requires value < WORD_LIMIT && 2 <= radix <= 16 && Number(value, radix, flags, width).Done?
    ensures Written(Number(value, radix, flags, width).value, n, value, radix, flags, width)
  {
    hide Numeral, Padded, Sign, Prefix;
    var sign, prefix, body := Sign(value, flags), Prefix(radix, flags), Body(value, radix, flags, width);
    var s, trailer := Number(value, radix, flags, width).value, Trailer(value, radix, flags, width);
    n := |sign + prefix + body|;
    HeadIs(value, radix, flags);
    PaddedNumeral(Magnitude(value, flags), radix, if flags.leftAlign then 0 else Clamped(width));
    assert s[..|sign + prefix|] == sign + prefix && s[|sign + prefix|..n] == body && s[n..] == trailer;
    FilledWith(PadChar(flags), Clamped(width) - |body|);
  }

  /** And nothing else can be written under that promise. */
  lemma WrittenOnce(s: string, n: nat, value: nat, radix: nat, flags: Flags, width: int)
    requires value < WORD_LIMIT && 2 <= radix <= 16 && Number(value, radix, flags, width).Done?
    requires Written(s, n, value, radix, flags, width)
    ensures s == Number(value, radix, flags, width).value
  {
    hide Numeral, Padded, Sign, Prefix, Filled;
    var head, body := Sign(value, flags) + Prefix(radix, flags), Body(value, radix, flags, width);
    HeadIs(value, radix, flags);
    NumeralIsPadded(s[|head|..n], radix, Magnitude(value, flags), if flags.leftAlign then 0 else Clamped(width));
    assert s[|head|..n] == body && n == |head| + |body|;
    assert s[n..] == Trailer(value, radix, flags, width) by {
      AllFilled(PadChar(flags), s[n..]);
      FilledAlike(PadChar(flags), Clamped(width) - |body|, |s| - n);
    }
    SplitTwice(s, |head|, n);
  }

  lemma FilledAlike(c: char, n: int, k: nat)
    ensures (if n > 0 then n else 0) == k ==> Filled(c, n) == Filled(c, k)
  {
  }

  // ----- right-aligned padding -----

  /** A right-aligned number is written alike with and without the flag that asks for zeros. */
  lemma ZeroFlagIgnored(value: nat, radix: int, flags: Flags, width: int)
    requires value < WORD_LIMIT && !flags.leftAlign
    ensures Number(value, radix, flags, width) == Number(value, radix, flags.(zeroPadded := !flags.zeroPadded), width)
  {
  }

  /** So its digits are padded with the character the flags choose exactly when that is a zero or none is needed. */
  lemma PaddedAsChosenIff(value: nat, radix: nat, flags: Flags, width: int)
    requires value < WORD_LIMIT && 2 <= radix <= 16 && !flags.leftAlign
    ensures var d := Digits(Magnitude(value, flags), radix);
      (Body(value, radix, flags, width) == Filled(PadChar(flags), Clamped(width) - |d|) + d) <==>
      (flags.zeroPadded || Clamped(width) <= |d|)
  {
    hide Digits;
    var d := Digits(Magnitude(value, flags), radix);
    var k := Clamped(width) - |d|;
    ZerosFilled(k);
    if k > 0 {
      ZerosAreDigits(k);
      assert Body(value, radix, flags, width)[0] == '0';
      assert (Filled(PadChar(flags), k) + d)[0] == PadChar(flags);
    }
  }

  lemma {:induction false} ZerosFilled(n: int)
    ensures Zeros(n) == Filled('0', n)
  {
    if n > 0 {
      ZerosFilled(n - 1);
      FilledBehind('0', n - 1);
    }
  }

  lemma {:induction false} FilledBehind(c: char, n: int)
    ensures n >= 0 ==> Filled(c, n) + [c] == Filled(c, n + 1)
  {
    if n > 0 {
      FilledBehind(c, n - 1);
      Regroup([c], Filled(c, n - 1), [c]);
    }
  }

  /** An input: 5 in a field of three, without any flag, is written 005. */
  lemma FiveInThree()
    ensures Number(5, 10, Flags(false, false, false, false), 3) == Done("005")
  {
    var flags := Flags(false, false, false, false);
    assert Digits(5, 10) == "5" && Zeros(0) == "" && Zeros(1) == "0" && Zeros(2) == "00";
    assert Body(5, 10, flags, 3) == "005" && Trailer(5, 10, flags, 3) == "";
    assert Scratch(5, 10, flags, 3) == "005" && "005" + "" == "005";
  }

  lemma MagnitudeDigits(value: nat, radix: nat, flags: Flags)
    requires value < WORD_LIMIT && 2 <= radix <= 16
    ensures |Digits(Magnitude(value, flags), radix)| <= 32
  {
    assert Pow2(32) == WORD_LIMIT by {
      assert Pow2(8) == 0x100;
      assert Pow2(16) == 0x1_0000;
      assert Pow2(24) == 0x100_0000;
    }
    DigitsBound(Magnitude(value, flags), radix, 32);
  }

  /** The scratch buffer is overrun exactly when a right-aligned width, sign and prefix together exceed 65. */
  lemma OverrunIff(value: nat, radix: nat, flags: Flags, width: int)
    requires value < WORD_LIMIT && 2 <= radix <= 16
    ensures Number(value, radix, flags, width).Panic? <==>
      && !flags.leftAlign
      && (if flags.signed && value >= 0x8000_0000 then 1 else 0)
         + (if !flags.showPrefix then 0 else if radix == 2 || radix == 16 then 2 else if radix == 8 then 1 else 0)
         + (if width > 64 then 64 else width) > 65
  {
    hide Digits;
    MagnitudeDigits(value, radix, flags);
  }

  /** An input: zero in hexadecimal with its prefix, in a field of 64. */
  lemma PrefixedOverruns()
    ensures Number(0, 16, Flags(false, false, false, true), 64) == Panic(Undefined)
  {
    OverrunIff(0, 16, Flags(false, false, false, true), 64);
  }

  /** So every width up to 62 is safe, and every signed decimal is. */
  lemma SafeWidths(value: nat, radix: nat, flags: Flags, width: int)
    requires value < WORD_LIMIT && 2 <= radix <= 16
    ensures width <= 62 ==> Number(value, radix, flags, width).Done?
    ensures !flags.showPrefix || radix == 10 ==> Number(value, radix, flags, width).Done?
  {
    hide Number;
    OverrunIff(value, radix, flags, width);
  }

  // ----- skip_atoi -----

  predicate IsDigit(c: char) { '0' <= c <= '9' }

  /** The first position from `i` on that does not hold a decimal digit. */
  function DigitsEnd(s: string, i: nat): (e: nat)
    requires i <= |s|
    ensures i <= e <= |s| && (e < |s| ==> !IsDigit(s[e])) && forall j :: i <= j < e ==> IsDigit(s[j])
    decreases |s| - i
  {
    if i < |s| && IsDigit(s[i]) then DigitsEnd(s, i + 1) else i
  }

  /** What a 32-bit signed variable holds. */
  function ToSigned(x: int): (r: int)
    ensures -0x8000_0000 <= r < 0x8000_0000 && (x - r) % 0x1_0000_0000 == 0
  {
    var u := x % WORD_LIMIT;
    if u < SIGN_BIT then u else u - WORD_LIMIT
  }

  lemma SignedStep(x: int, d: int)
    ensures ToSigned(ToSigned(ToSigned(x) * 10) + d) == ToSigned(x * 10 + d)
  {
    SignedCongruent(x);
    SignedCongruent(ToSigned(x) * 10);
    var k := (x - ToSigned(x)) / WORD_LIMIT;
    var j := (ToSigned(x) * 10 - ToSigned(ToSigned(x) * 10)) / WORD_LIMIT;
    assert x * 10 + d == ToSigned(ToSigned(x) * 10) + d + (10 * k + j) * WORD_LIMIT;
    SignedShift(ToSigned(ToSigned(x) * 10) + d, 10 * k + j);
  }

  lemma SignedCongruent(x: int)
    ensures x == ToSigned(x) + ((x - ToSigned(x)) / WORD_LIMIT) * WORD_LIMIT
  {
  }

  lemma SignedShift(x: int, k: int)
    ensures ToSigned(x + k * WORD_LIMIT) == ToSigned(x)
  {
  }

  /** skip_atoi: the wrapped value of the digits, and where they end */
  method SkipAtoi(str: string, start: nat) returns (target: int, end: nat)
    requires start <= |str|
    ensures end == DigitsEnd(str, start) && target == ToSigned(Eval(str[start..end], 10))
  {
    hide ToSigned, Push, DigitValue, Eval, DigitsEnd;
    target, end := 0, start;
    SignedZero();
    EvalEmpty(str, start);
    while end < |str| && IsDigit(str[end])
      invariant start <= end <= |str| && DigitsEnd(str, end) == DigitsEnd(str, start)
      invariant target == ToSigned(Eval(str[start..end], 10))
    {
      ghost var x := Eval(str[start..end], 10);
      DigitsEndStep(str, end);
      DigitMeaning(str[end]);
      EvalAppend(str[start..end], str[end], 10);
      assert str[start..end + 1] == str[start..end] + [str[end]];
      PushTen(x, DigitValue(str[end]));
      SignedStep(x, DigitValue(str[end]));
      target := ToSigned(target * 10);
      target := ToSigned(target + (str[end] as int - '0' as int));
      end := end + 1;
    }
    DigitsEndAt(str, end, end);
  }

  lemma EvalEmpty(s: string, i: nat)
    requires i <= |s|
    ensures Eval(s[i..i], 10) == 0
  {
  }

  lemma DigitsEndStep(s: string, i: nat)
    requires i < |s| && IsDigit(s[i])
    ensures DigitsEnd(s, i) == DigitsEnd(s, i + 1)
  {
  }

  lemma SignedZero()
    ensures ToSigned(0) == 0
  {
  }

  lemma DigitMeaning(c: char)
    requires IsDigit(c)
    ensures DigitValue(c) == c as int - '0' as int
  {
  }

  lemma PushTen(x: nat, d: nat)
    ensures Push(x, 10, d) == x * 10 + d
  {
  }

  lemma {:induction false} DigitsAreDigits(v: nat)
    ensures forall i :: 0 <= i < |Digits(v, 10)| ==> IsDigit(Digits(v, 10)[i])
  {
    if v >= 10 {
      DigitsAreDigits(Quot(v, 10));
    }
  }

  /** Only zero is written with a leading zero. */
  lemma {:induction false} NoLeadingZero(v: nat)
    requires v > 0
    ensures Digits(v, 10)[0] != '0'
  {
    if v >= 10 { NoLeadingZero(Quot(v, 10)); }
  }

  lemma {:induction false} ZerosAreDigits(n: int)
    ensures forall i :: 0 <= i < |Zeros(n)| ==> Zeros(n)[i] == '0'
  {
    if n > 0 { ZerosAreDigits(n - 1); }
  }

  lemma {:induction false} DigitsEndAt(s: string, i: nat, e: nat)
    requires i <= e <= |s| && (e < |s| ==> !IsDigit(s[e])) && forall j :: i <= j < e ==> IsDigit(s[j])
    ensures DigitsEnd(s, i) == e
    decreases e - i
  {
    if i < e { DigitsEndAt(s, i + 1, e); }
  }

  /** skip_atoi undoes the right-aligned decimal form of every number below 2^31. */
  lemma AtoiUndoesDecimal(v: nat, width: int, rest: string)
    requires v < SIGN_BIT && (rest == "" || !IsDigit(rest[0]))
    ensures var s := Padded(v, 10, width) + rest;
      var e := DigitsEnd(s, 0);
      e == |Padded(v, 10, width)| && ToSigned(Eval(s[0..e], 10)) == v
  {
    hide Padded, Eval, IsDigit;
    var p := Padded(v, 10, width);
    var s := p + rest;
    PaddedAreDigits(v, width);
    DigitsEndAt(s, 0, |p|);
    assert s[0..|p|] == p;
    EvalPadded(v, 10, width);
  }

  lemma PaddedAreDigits(v: nat, width: int)
    ensures forall i :: 0 <= i < |Padded(v, 10, width)| ==> IsDigit(Padded(v, 10, width)[i])
  {
    hide Digits, Zeros;
    DigitsAreDigits(v);
    ZerosAreDigits(width - |Digits(v, 10)|);
  }
}
