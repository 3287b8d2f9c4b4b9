/** vsprintf of src/string.c: a format is parsed into pieces, and each piece is rendered. */
module Format {
  import opened Machine
  import opened Numbers

  const NO_FLAGS: Flags := Flags(false, false, false, false)

  /** What va_arg fetches: a 32-bit number or a string. */
  datatype Arg = Num(value: Word32) | Str(text: string)

  /** A literal character, or a directive with the flags and width written before its letter. */
  datatype Piece = Literal(c: char) | Directive(flags: Flags, width: int, conv: char)

  // ----- parsing -----

  function AddFlag(f: Flags, c: char): Flags {
    if c == '-' then f.(leftAlign := true)
    else if c == '0' then f.(zeroPadded := true)
    else if c == '#' then f.(showPrefix := true)
    else f
  }

  predicate IsFlag(c: char) { c == '-' || c == '0' || c == '#' }

  function FlagsEnd(fmt: string, i: nat): (e: nat)
    requires i <= |fmt|
    ensures i <= e <= |fmt| && (e < |fmt| ==> !IsFlag(fmt[e])) && forall j :: i <= j < e ==> IsFlag(fmt[j])
    decreases |fmt| - i
  {
    if i < |fmt| && IsFlag(fmt[i]) then FlagsEnd(fmt, i + 1) else i
  }

  function FlagsOf(s: string): Flags {
    if s == "" then NO_FLAGS else AddFlag(FlagsOf(s[..|s| - 1]), s[|s| - 1])
  }

  /** The pieces of `fmt` from position `i` on, or nothing if the last directive has no letter. */
  function Parse(fmt: string, i: nat): Option<seq<Piece>>
    requires i <= |fmt|
    decreases |fmt| - i
  {
    if i == |fmt| then Some([])
    else if fmt[i] != '%' then Cons(Literal(fmt[i]), Parse(fmt, i + 1))
    else
      var f := FlagsEnd(fmt, i + 1);
      var w := DigitsEnd(fmt, f);
      if w == |fmt| then None
      else Cons(Directive(FlagsOf(fmt[i + 1..f]), ToSigned(Eval(fmt[f..w], 10)), fmt[w]), Parse(fmt, w + 1))
  }

  function Cons(p: Piece, rest: Option<seq<Piece>>): Option<seq<Piece>> {
    match rest
    case None => None
    case Some(ps) => Some([p] + ps)
  }

  // ----- rendering -----

  predicate TakesNumber(conv: char) { conv in "dupxobc" }

  predicate TakesArg(conv: char) { TakesNumber(conv) || conv == 's' }

  function Radix(conv: char): nat {
    if conv == 'd' || conv == 'u' then 10 else if conv == 'o' then 8 else if conv == 'b' then 2 else 16
  }

  /** A string argument in its field: spaces in front, or behind when left-aligned. */
  function Field(text: string, flags: Flags, width: int): string {
    if flags.leftAlign then text + Filled(' ', width - |text|) else Filled(' ', width - |text|) + text
  }

  /** The text of a directive that takes an argument. */
  function RenderArg(p: Piece, arg: Arg): Outcome<string>
    requires p.Directive? && TakesArg(p.conv)
  {
    if p.conv == 's' then
      if arg.Str? then Done(Field(arg.text, p.flags, p.width)) else Panic(Undefined)
    else if !arg.Num? then Panic(Undefined)
    else if p.conv == 'c' then Done([(arg.value % 256) as char])
    else if p.conv == 'd' then Number(arg.value, 10, p.flags.(signed := true), p.width)
    else if p.conv == 'p' then
      Number(arg.value, 16, p.flags.(zeroPadded := true, showPrefix := true), if p.width == 0 then 8 else p.width)
    else Number(arg.value, Radix(p.conv), p.flags, p.width)
  }

  /** How many arguments a piece takes. */
  function PieceArgs(p: Piece): nat {
    if p.Directive? && TakesArg(p.conv) then 1 else 0
  }

  /** The text of a piece, given the arguments not yet taken. */
  function PieceText(p: Piece, args: seq<Arg>): Outcome<string> {
    if p.Literal? then Done([p.c])
    else if !TakesArg(p.conv) then Done([p.conv])
    else if args == [] then Panic(Undefined)
    else RenderArg(p, args[0])
  }

  function ArgCount(ps: seq<Piece>): nat {
    if ps == [] then 0 else PieceArgs(ps[0]) + ArgCount(ps[1..])
  }

  /** The texts of the pieces in order, each directive taking the next argument. */
  function Render(ps: seq<Piece>, args: seq<Arg>): Outcome<string>
    decreases |ps|
  {
    if ps == [] then Done("")
    else if PieceText(ps[0], args).Panic? then Panic(PieceText(ps[0], args).fault)
    else Prepend(PieceText(ps[0], args).value, Render(ps[1..], args[PieceArgs(ps[0])..]))
  }

  function Prepend(s: string, r: Outcome<string>): Outcome<string> {
    if r.Panic? then Panic(r.fault) else Done(s + r.value)
  }

  /** The whole of vsprintf: undefined when a directive is cut off by the end of the format. */
  function Formatted(fmt: string, i: nat, args: seq<Arg>): Outcome<string>
    requires i <= |fmt|
  {
    match Parse(fmt, i)
    case None => Panic(Undefined)
    case Some(ps) => Render(ps, args)
  }

  // ----- the loop -----

  /** The do-while over flags, starting at the percent sign. */
  method ScanFlags(fmt: string, i: nat) returns (flags: Flags, e: nat)
    requires i < |fmt|
    ensures e == FlagsEnd(fmt, i + 1) && flags == FlagsOf(fmt[i + 1..e])
  {
    flags := NO_FLAGS;
    e := i + 1;
    while e < |fmt| && IsFlag(fmt[e])
      invariant i + 1 <= e <= |fmt| && FlagsEnd(fmt, e) == FlagsEnd(fmt, i + 1)
      invariant flags == FlagsOf(fmt[i + 1..e])
    {
      assert fmt[i + 1..e + 1][..e - i - 1] == fmt[i + 1..e];
      flags := AddFlag(flags, fmt[e]);
      e := e + 1;
    }
  }

  /** The %s case: the two padding loops around the copy. */
  method AppendField(str: string, text: string, flags: Flags, width: int) returns (r: string)
    ensures r == str + Field(text, flags, width)
  {
    r := str;
    var w := width;
    if !flags.leftAlign {
      r := Fill(r, ' ', w - |text|);
      w := if |text| < w then |text| else w;
      Regroup(str, Filled(' ', width - |text|), text);
    }
    ghost var before := r;
    r := r + text;
    r := Fill(r, ' ', w - |text|);
    Regroup(before, text, Filled(' ', w - |text|));
    Regroup(before + text, "", "");
  }

  /** The switch, for a directive that takes the argument `arg`. */
  method AppendArg(str: string, p: Piece, arg: Arg) returns (r: Outcome<string>)
    requires p.Directive? && TakesArg(p.conv)
    ensures r == Prepend(str, RenderArg(p, arg))
  {
    hide Number, Field;
    if p.conv == 's' {
      if !arg.Str? { return Panic(Undefined); }
      var s := AppendField(str, arg.text, p.flags, p.width);
      return Done(s);
    }
    if !arg.Num? { return Panic(Undefined); }
    var flags, width := p.flags, p.width;
    if p.conv == 'c' {
      return Done(str + [(arg.value % 256) as char]);
    } else if p.conv == 'd' {
      flags := flags.(signed := true);
    } else if p.conv == 'p' {
      flags := flags.(zeroPadded := true, showPrefix := true);
      if width == 0 { width := 8; }
    }
    r := AppendNumber(str, arg.value, Radix(p.conv), flags, width);
  }

  /** The next piece of a format, or nothing when a directive is cut off; a piece is what Parse says. */
  method NextPiece(fmt: string, i: nat) returns (p: Option<Piece>, next: nat)
    requires i < |fmt|
    ensures p.None? ==> Parse(fmt, i).None?
    ensures p.Some? ==> i < next <= |fmt| && Parse(fmt, i) == Cons(p.value, Parse(fmt, next))
  {
    hide FlagsOf, Eval, ToSigned;
    if fmt[i] != '%' {
      return Some(Literal(fmt[i])), i + 1;
    }
    var flags, f := ScanFlags(fmt, i);
    var width, w := SkipAtoi(fmt, f);
    if w == |fmt| {
      return None, w;
    }
    return Some(Directive(flags, width, fmt[w])), w + 1;
  }

  /** One piece written: a character, or a directive with its argument. */
  method AppendPiece(str: string, p: Piece, args: seq<Arg>, a: nat) returns (r: Outcome<string>, a': nat)
    requires a <= |args|
    ensures r == Prepend(str, PieceText(p, args[a..]))
    ensures r.Done? ==> a' == a + PieceArgs(p) <= |args|
  {
    hide RenderArg;
    if p.Literal? {
      return Done(str + [p.c]), a;
    } else if !TakesArg(p.conv) {
      return Done(str + [p.conv]), a;
    } else if a == |args| {
      return Panic(Undefined), a;
    }
    r := AppendArg(str, p, args[a]);
    return r, a + 1;
  }

  /** vsprintf: the text, the value returned (its length and the terminator), and the arguments consumed */
  method Vsprintf(fmt: string, args: seq<Arg>) returns (r: Outcome<string>, length: nat, used: nat)
    ensures r == Formatted(fmt, 0, args)
    ensures r.Done? ==> length == |r.value| + 1 && Parse(fmt, 0).Some? && used == ArgCount(Parse(fmt, 0).value)
  {
    hide Parse, Formatted, PieceText, PieceArgs, Prepend;
    var str := "";
    var i, a := 0, 0;
    Unprepended(Formatted(fmt, 0, args));
    assert args[0..] == args;
    while i < |fmt|
      invariant i <= |fmt| && a <= |args|
      invariant Formatted(fmt, 0, args) == Prepend(str, Formatted(fmt, i, args[a..]))
      invariant Parse(fmt, 0).Some? <==> Parse(fmt, i).Some?
      invariant Parse(fmt, 0).Some? ==> ArgCount(Parse(fmt, 0).value) == a + ArgCount(Parse(fmt, i).value)
    {
      var p, next := NextPiece(fmt, i);
      if p.None? {
        CutOff(fmt, args);
        return Panic(Undefined), 0, a;
      }
      StepPiece(fmt, i, p.value, next, str, args[a..]);
      var s, a' := AppendPiece(str, p.value, args, a);
      if s.Panic? { return Panic(Undefined), 0, a; }
      assert args[a..][PieceArgs(p.value)..] == args[a'..];
      str, i, a := s.value, next, a';
    }
    AtEnd(fmt, str, args[a..]);
    return Done(str), |str| + 1, a;
  }

  lemma CutOff(fmt: string, args: seq<Arg>)
    requires Parse(fmt, 0).None?
    ensures Formatted(fmt, 0, args) == Panic(Undefined)
  {
  }

  lemma AtEnd(fmt: string, str: string, args: seq<Arg>)
    ensures Prepend(str, Formatted(fmt, |fmt|, args)) == Done(str)
    ensures Parse(fmt, |fmt|) == Some([])
  {
    assert str + "" == str;
  }

  lemma Unprepended(r: Outcome<string>)
    ensures Prepend("", r) == r
  {
    if r.Done? { assert "" + r.value == r.value; }
  }

  /** The only way a piece can stop. */
  lemma TextUndefined(p: Piece, args: seq<Arg>)
    ensures PieceText(p, args).Panic? ==> PieceText(p, args).fault == Undefined
  {
    hide Scratch, Trailer;
  }

  /** What one piece contributes to the text and to the arguments taken. */
  lemma StepPiece(fmt: string, i: nat, p: Piece, next: nat, str: string, args: seq<Arg>)
    requires i < next <= |fmt| && Parse(fmt, i) == Cons(p, Parse(fmt, next))
    ensures Prepend(str, PieceText(p, args)).Panic? ==> Prepend(str, Formatted(fmt, i, args)) == Panic(Undefined)
    ensures Prepend(str, PieceText(p, args)).Done? ==> PieceArgs(p) <= |args|
    ensures Prepend(str, PieceText(p, args)).Done? ==>
      Prepend(str, Formatted(fmt, i, args))
      == Prepend(Prepend(str, PieceText(p, args)).value, Formatted(fmt, next, args[PieceArgs(p)..]))
    ensures Parse(fmt, i).Some? <==> Parse(fmt, next).Some?
    ensures Parse(fmt, i).Some? ==> ArgCount(Parse(fmt, i).value) == PieceArgs(p) + ArgCount(Parse(fmt, next).value)
  {
    hide RenderArg, Parse;
    TextUndefined(p, args);
    if Parse(fmt, next).Some? {
      var ps := Parse(fmt, next).value;
      assert ([p] + ps)[1..] == ps;
      if PieceText(p, args).Done? && Render(ps, args[PieceArgs(p)..]).Done? {
        Regroup(str, PieceText(p, args).value, Render(ps, args[PieceArgs(p)..]).value);
      }
    }
  }

  // ----- what each letter stands for -----

  /** Which flags a run of flag characters sets, in any order. */
  lemma {:induction false} FlagsMean(s: string)
    ensures FlagsOf(s) == Flags(false, '0' in s, '-' in s, '#' in s)
  {
    if s != "" {
      FlagsMean(s[..|s| - 1]);
      assert s == s[..|s| - 1] + [s[|s| - 1]];
    }
  }

  /** The letters that print a number, each with its radix; x and p differ in flags and width, d is signed. */
  lemma NumberLetters(flags: Flags, width: int, conv: char, value: Word32, rest: seq<Arg>) returns (n: nat)
    requires conv in "xpudob" && PieceText(Directive(flags, width, conv), [Num(value)] + rest).Done?
    ensures var s := PieceText(Directive(flags, width, conv), [Num(value)] + rest).value;
      match conv
      case 'd' => Written(s, n, value, 10, flags.(signed := true), width)
      case 'u' => Written(s, n, value, 10, flags, width)
      case 'x' => Written(s, n, value, 16, flags, width)
      case 'p' =>
        Written(s, n, value, 16, flags.(zeroPadded := true, showPrefix := true), if width == 0 then 8 else width)
      case 'o' => Written(s, n, value, 8, flags, width)
      case _ => Written(s, n, value, 2, flags, width)
  {
    hide Number, Written;
    var p := Directive(flags, width, conv);
    assert ([Num(value)] + rest)[0] == Num(value);
    match conv
    case 'd' => n := NumberWritten(value, 10, flags.(signed := true), width);
    case 'u' => n := NumberWritten(value, 10, flags, width);
    case 'x' => n := NumberWritten(value, 16, flags, width);
    case 'p' =>
      n := NumberWritten(value, 16, flags.(zeroPadded := true, showPrefix := true), if width == 0 then 8 else width);
    case 'o' => n := NumberWritten(value, 8, flags, width);
    case _ => n := NumberWritten(value, 2, flags, width);
  }

  /** And what they print reads back in that radix, as two's complement behind a minus sign. */
  lemma LettersReadBack(flags: Flags, width: int, conv: char, value: Word32, rest: seq<Arg>)
    requires conv in "xpudob" && PieceText(Directive(flags, width, conv), [Num(value)] + rest).Done?
    requires flags.leftAlign && (flags.zeroPadded || conv == 'p') ==> width <= 1 && (conv == 'p' ==> width != 0)
    ensures var s := PieceText(Directive(flags, width, conv), [Num(value)] + rest).value;
      match conv
      case 'd' => Read(s, 10, flags.showPrefix) == Some(value)
      case 'u' => Read(s, 10, flags.showPrefix) == Some(value)
      case 'x' => Read(s, 16, flags.showPrefix) == Some(value)
      case 'p' => Read(s, 16, true) == Some(value)
      case 'o' => Read(s, 8, flags.showPrefix) == Some(value)
      case _ => Read(s, 2, flags.showPrefix) == Some(value)
  {
    hide Number, Read;
    assert ([Num(value)] + rest)[0] == Num(value);
    match conv
    case 'd' => NumberReadsBack(value, 10, flags.(signed := true), width);
    case 'u' => NumberReadsBack(value, 10, flags, width);
    case 'x' => NumberReadsBack(value, 16, flags, width);
    case 'p' =>
      NumberReadsBack(value, 16, flags.(zeroPadded := true, showPrefix := true), if width == 0 then 8 else width);
    case 'o' => NumberReadsBack(value, 8, flags, width);
    case _ => NumberReadsBack(value, 2, flags, width);
  }

  /** A character is the low byte of its argument. */
  lemma CharLetter(flags: Flags, width: int, value: Word32, rest: seq<Arg>)
    ensures var r := PieceText(Directive(flags, width, 'c'), [Num(value)] + rest);
      r.Done? && |r.value| == 1 && r.value[0] as int == value % 256
  {
    assert ([Num(value)] + rest)[0] == Num(value);
  }

  /** A string fills its field: it stands at the end, or at the start if left-aligned, among spaces. */
  lemma StringLetter(flags: Flags, width: int, text: string, rest: seq<Arg>)
    ensures var r := PieceText(Directive(flags, width, 's'), [Str(text)] + rest);
      && r.Done? && |r.value| == (if width > |text| then width else |text|)
      && var at := if flags.leftAlign then 0 else |r.value| - |text|;
         && r.value[at..at + |text|] == text
         && forall i :: 0 <= i < |r.value| && !(at <= i < at + |text|) ==> r.value[i] == ' '
  {
    hide Filled;
    assert ([Str(text)] + rest)[0] == Str(text);
    FilledWith(' ', width - |text|);
    var s := PieceText(Directive(flags, width, 's'), [Str(text)] + rest).value;
    var at := if flags.leftAlign then 0 else |s| - |text|;
    assert s[at..at + |text|] == text;
  }

  /** Eight letters take an argument, and stop without one of their kind; any other letter stands for itself. */
  lemma OtherLetters(flags: Flags, width: int, conv: char, args: seq<Arg>)
    ensures conv !in "dupxobcs" ==> PieceText(Directive(flags, width, conv), args) == Done([conv])
    ensures PieceArgs(Directive(flags, width, conv)) == if conv in "dupxobcs" then 1 else 0
    ensures conv in "dupxobcs" && (args == [] || args[0].Str? != (conv == 's')) ==>
      PieceText(Directive(flags, width, conv), args) == Panic(Undefined)
  {
  }

  /** A literal character stands for itself, and a single piece is all that is rendered of it. */
  lemma RenderedAlone(p: Piece, args: seq<Arg>)
    ensures p.Literal? ==> PieceText(p, args) == Done([p.c]) && PieceArgs(p) == 0
    ensures Render([p], args) == PieceText(p, args)
  {
    hide RenderArg;
    assert [p][1..] == [];
    var t := PieceText(p, args);
    if t.Done? { assert t.value + "" == t.value; }
  }

  // ----- writing a format down -----

  /** A piece that can be written so that it is read back as it is. */
  predicate Writable(p: Piece) {
    if p.Literal? then p.c != '%'
    else
      && !p.flags.signed && 0 <= p.width < SIGN_BIT
      && !IsDigit(p.conv) && (p.width == 0 ==> !IsFlag(p.conv))
  }

  function Marked(s: string, on: bool, c: char): string {
    if on then s + [c] else s
  }

  function FlagText(f: Flags): string {
    Marked(Marked(Marked("", f.leftAlign, '-'), f.zeroPadded, '0'), f.showPrefix, '#')
  }

  function WidthText(width: nat): string {
    if width == 0 then "" else Digits(width, 10)
  }

  function PieceSource(p: Piece): string
    requires Writable(p)
  {
    if p.Literal? then [p.c] else "%" + FlagText(p.flags) + WidthText(p.width) + [p.conv]
  }

  function Source(ps: seq<Piece>): string
    requires forall i :: 0 <= i < |ps| ==> Writable(ps[i])
  {
    if ps == [] then "" else PieceSource(ps[0]) + Source(ps[1..])
  }

  ghost predicate AllFlags(s: string) { forall i :: 0 <= i < |s| ==> IsFlag(s[i]) }

  lemma MarkedMeans(s: string, on: bool, c: char)
    requires AllFlags(s) && IsFlag(c)
    ensures AllFlags(Marked(s, on, c))
    ensures FlagsOf(Marked(s, on, c)) == if on then AddFlag(FlagsOf(s), c) else FlagsOf(s)
  {
    hide IsFlag, AddFlag;
    assert (s + [c])[..|s|] == s;
  }

  lemma NoneMarked()
    ensures AllFlags("")
  {
  }

  lemma FlagTextMeans(f: Flags)
    requires !f.signed
    ensures FlagsOf(FlagText(f)) == f && AllFlags(FlagText(f))
  {
    hide AllFlags, Marked;
    NoneMarked();
    var a := Marked("", f.leftAlign, '-');
    var b := Marked(a, f.zeroPadded, '0');
    MarkedMeans("", f.leftAlign, '-');
    MarkedMeans(a, f.zeroPadded, '0');
    MarkedMeans(b, f.showPrefix, '#');
  }

  lemma {:induction false} FlagsEndAt(s: string, i: nat, e: nat)
    requires i <= e <= |s| && (e < |s| ==> !IsFlag(s[e])) && forall j :: i <= j < e ==> IsFlag(s[j])
    ensures FlagsEnd(s, i) == e
    decreases e - i
  {
    if i < e { FlagsEndAt(s, i + 1, e); }
  }

  lemma WidthTextMeans(width: nat)
    requires width < SIGN_BIT
    ensures var w := WidthText(width);
      && ToSigned(Eval(w, 10)) == width
      && (forall i :: 0 <= i < |w| ==> IsDigit(w[i]))
      && (w != "" ==> width > 0 && !IsFlag(w[0]))
  {
    if width > 0 {
      EvalDigits(width, 10);
      DigitsAreDigits(width);
      NoLeadingZero(width);
    }
  }

  /** Where the parts of a written directive stand. */
  lemma DirectiveShape(pre: string, a: string, b: string, c: char, rest: string)
    ensures var fmt := pre + (("%" + a + b + [c]) + rest);
      var f := |pre| + 1 + |a|;
      && |fmt| > f + |b| && fmt[|pre|] == '%' && fmt[f + |b|] == c
      && (forall j :: |pre| + 1 <= j < f ==> fmt[j] == a[j - |pre| - 1])
      && (forall j :: f <= j < f + |b| ==> fmt[j] == b[j - f])
      && fmt[|pre| + 1..f] == a && fmt[f..f + |b|] == b
  {
  }

  /** What the parser makes of a directive whose flags end at `f` and whose width ends at `w`. */
  lemma ParseDirective(fmt: string, i: nat, f: nat, w: nat)
    requires i < f <= w < |fmt| && fmt[i] == '%'
    requires (forall j :: i < j < f ==> IsFlag(fmt[j])) && !IsFlag(fmt[f])
    requires (forall j :: f <= j < w ==> IsDigit(fmt[j])) && !IsDigit(fmt[w])
    ensures Parse(fmt, i)
         == Cons(Directive(FlagsOf(fmt[i + 1..f]), ToSigned(Eval(fmt[f..w], 10)), fmt[w]), Parse(fmt, w + 1))
  {
    hide FlagsOf, Eval, ToSigned, IsFlag, IsDigit, Cons;
    FlagsEndAt(fmt, i + 1, f);
    DigitsEndAt(fmt, f, w);
  }

  /** Reading a written directive gives it back and stops right behind it. */
  lemma DirectiveReadsBack(pre: string, p: Piece, rest: string)
    requires p.Directive? && Writable(p)
    ensures var fmt := pre + (PieceSource(p) + rest);
      Parse(fmt, |pre|) == Cons(p, Parse(fmt, |pre| + |PieceSource(p)|))
  {
    hide FlagsOf, FlagText, WidthText, Eval, ToSigned, IsFlag, IsDigit, Cons, Parse;
    var a, b := FlagText(p.flags), WidthText(p.width);
    FlagTextMeans(p.flags);
    WidthTextMeans(p.width);
    StopsAtWidth(p);
    DirectiveShape(pre, a, b, p.conv, rest);
    var f := |pre| + 1 + |a|;
    ParseDirective(pre + (PieceSource(p) + rest), |pre|, f, f + |b|);
  }

  lemma StopsAtWidth(p: Piece)
    requires p.Directive? && Writable(p)
    ensures WidthText(p.width) == "" ==> !IsFlag(p.conv)
  {
    hide IsFlag;
  }

  /** Every writable sequence of pieces has a format that parses to exactly it, whatever stands before. */
  lemma {:induction false} SourceReadsBack(pre: string, ps: seq<Piece>)
    requires forall i :: 0 <= i < |ps| ==> Writable(ps[i])
    ensures Parse(pre + Source(ps), |pre|) == Some(ps)
    decreases |ps|
  {
    hide Writable, PieceSource, Parse;
    if ps == [] {
      NothingLeft(pre);
      assert pre + "" == pre;
    } else {
      var one, rest := PieceSource(ps[0]), Source(ps[1..]);
      Regroup(pre, one, rest);
      SourceReadsBack(pre + one, ps[1..]);
      if ps[0].Directive? {
        DirectiveReadsBack(pre, ps[0], rest);
      } else {
        LiteralReadsBack(pre, ps[0], rest);
      }
      assert [ps[0]] + ps[1..] == ps;
    }
  }

  lemma LiteralReadsBack(pre: string, p: Piece, rest: string)
    requires p.Literal? && Writable(p)
    ensures var fmt := pre + (PieceSource(p) + rest);
      Parse(fmt, |pre|) == Cons(p, Parse(fmt, |pre| + |PieceSource(p)|))
  {
    var fmt := pre + (PieceSource(p) + rest);
    assert fmt[|pre|] == p.c;
  }

  /** The whole of vsprintf on one directive, flags and width written in front of its letter. */
  lemma DirectiveText(p: Piece, args: seq<Arg>)
    requires Writable(p)
    ensures Formatted(PieceSource(p), 0, args) == PieceText(p, args)
  {
    hide Parse, Render, PieceText, PieceSource, Writable;
    assert [p][0] == p && [p][1..] == [];
    SourceReadsBack("", [p]);
    SourceOfOne(p);
    RenderedAlone(p, args);
  }

  lemma SourceOfOne(p: Piece)
    requires Writable(p)
    ensures "" + Source([p]) == PieceSource(p)
  {
    assert [p][1..] == [];
    assert PieceSource(p) + "" == PieceSource(p);
  }

  /** An input, as in src/mm/mem.c:73. */
  lemma PrefixedHex()
    ensures Formatted("%#08x", 0, [Num(255)]) == Done("0x000000ff")
  {
    hide Parse, Render, PieceText;
    var p := Directive(Flags(false, true, false, true), 8, 'x');
    ParseHex(p);
    RenderedAlone(p, [Num(255)]);
    HexOf255(p.flags);
    HexLetter(p, 255);
  }

  lemma HexLetter(p: Piece, value: Word32)
    requires p.Directive? && p.conv == 'x'
    ensures PieceText(p, [Num(value)]) == Number(value, 16, p.flags, p.width)
  {
    hide Number;
  }

  lemma ParseHex(p: Piece)
    requires p == Directive(Flags(false, true, false, true), 8, 'x')
    ensures Parse("%#08x", 0) == Some([p])
  {
    hide Parse, FlagsOf, ToSigned, Eval;
    var fmt := "%#08x";
    assert fmt[0 + 1..3] == "#0" && fmt[3..4] == "8" && |fmt| == 4 + 1;
    FlagsMean("#0");
    EightIsEight();
    ParseDirective(fmt, 0, 3, 4);
    NothingLeft(fmt);
    assert [p] + [] == [p];
  }

  lemma EightIsEight()
    ensures ToSigned(Eval("8", 10)) == 8
  {
    assert "8"[..0] == "";
    assert Eval("8", 10) == 8;
  }

  lemma HexOf255(flags: Flags)
    requires flags == Flags(false, true, false, true)
    ensures Number(255, 16, flags, 8) == Done("0x000000ff")
  {
    hide Digits, Zeros;
    TwoDigits();
    SixZeros();
    assert Body(255, 16, flags, 8) == "000000ff";
    assert Scratch(255, 16, flags, 8) == "0x000000ff" && Trailer(255, 16, flags, 8) == "";
    assert "0x000000ff" + "" == "0x000000ff";
  }

  lemma TwoDigits()
    ensures Digits(255, 16) == "ff"
  {
    assert Quot(255, 16) == 15 && Rem(255, 16) == 15;
    assert Digits(15, 16) == "f";
  }

  lemma SixZeros()
    ensures Zeros(6) == "000000"
  {
    assert Zeros(3) == "000" by { assert Zeros(1) == "0"; }
    assert Zeros(5) == "00000";
  }

  // ----- joining formats -----

  /** `t` holds the characters `s[i..j]` from position `i + d` on. */
  ghost predicate SameAt(s: string, t: string, i: nat, j: nat, d: nat) {
    && i <= j <= |s| && j + d <= |t|
    && forall k :: i <= k < j ==> t[k + d] == s[k]
  }

  lemma SameSlice(s: string, t: string, i: nat, a: nat, b: nat, d: nat)
    requires SameAt(s, t, i, |s|, d) && i <= a <= b <= |s|
    ensures t[a + d..b + d] == s[a..b]
  {
    assert |t[a + d..b + d]| == |s[a..b]|;
    forall k | 0 <= k < b - a ensures t[a + d..b + d][k] == s[a..b][k] { assert t[a + k + d] == s[a + k]; }
  }

  /** A directive is read alike wherever it stands, as long as it is complete. */
  lemma DirectiveMoves(s: string, t: string, i: nat, d: nat)
    requires i < |s| && s[i] == '%' && SameAt(s, t, i, |s|, d)
    requires DigitsEnd(s, FlagsEnd(s, i + 1)) < |s|
    ensures var w := DigitsEnd(s, FlagsEnd(s, i + 1));
      var p := Directive(FlagsOf(s[i + 1..FlagsEnd(s, i + 1)]), ToSigned(Eval(s[FlagsEnd(s, i + 1)..w], 10)), s[w]);
      Parse(s, i) == Cons(p, Parse(s, w + 1)) && Parse(t, i + d) == Cons(p, Parse(t, w + 1 + d))
  {
    hide FlagsOf, Eval, ToSigned, IsFlag, IsDigit, Cons, FlagsEnd, DigitsEnd, Parse;
    var f := FlagsEnd(s, i + 1);
    var w := DigitsEnd(s, f);
    StopsBelow(s, f, w);
    SameSlice(s, t, i, i + 1, f, d);
    SameSlice(s, t, i, f, w, d);
    assert t[f + d] == s[f] && t[w + d] == s[w] && t[i + d] == s[i];
    forall j | i + d < j < f + d ensures IsFlag(t[j]) { assert t[j - d + d] == s[j - d]; }
    forall j | f + d <= j < w + d ensures IsDigit(t[j]) { assert t[j - d + d] == s[j - d]; }
    ParseDirective(s, i, f, w);
    ParseDirective(t, i + d, f + d, w + d);
  }

  /** A directive cut off by the end is cut off wherever the format starts. */
  lemma CutOffMoves(s: string, t: string, i: nat, d: nat)
    requires i < |s| && s[i] == '%' && SameAt(s, t, i, |s|, d) && |t| == |s| + d
    requires DigitsEnd(s, FlagsEnd(s, i + 1)) == |s|
    ensures Parse(s, i).None? && Parse(t, i + d).None?
  {
    hide IsFlag, IsDigit, FlagsEnd, DigitsEnd;
    var f := FlagsEnd(s, i + 1);
    assert t[i + d] == s[i];
    forall j | i + d < j < f + d ensures IsFlag(t[j]) { assert t[j - d + d] == s[j - d]; }
    forall j | f + d <= j < |t| ensures IsDigit(t[j]) { assert t[j - d + d] == s[j - d]; }
    assert f < |s| ==> t[f + d] == s[f];
    FlagsEndAt(t, i + d + 1, f + d);
    DigitsEndAt(t, f + d, |t|);
  }

  lemma ParseLiteral(s: string, i: nat)
    requires i < |s| && s[i] != '%'
    ensures Parse(s, i) == Cons(Literal(s[i]), Parse(s, i + 1))
  {
  }

  /** What is in front of a format does not matter to the rest. */
  lemma {:induction false} ParseMoves(s: string, t: string, i: nat, d: nat)
    requires i <= |s| && SameAt(s, t, i, |s|, d) && |t| == |s| + d
    ensures Parse(t, i + d) == Parse(s, i)
    decreases |s| - i
  {
    hide FlagsOf, Eval, ToSigned, FlagsEnd, DigitsEnd, Parse, Cons;
    if i == |s| {
      NothingLeft(s);
      NothingLeft(t);
    } else if s[i] != '%' {
      assert t[i + d] == s[i];
      ParseLiteral(s, i);
      ParseLiteral(t, i + d);
      ParseMoves(s, t, i + 1, d);
    } else {
      var w := DigitsEnd(s, FlagsEnd(s, i + 1));
      if w == |s| {
        CutOffMoves(s, t, i, d);
      } else {
        DirectiveMoves(s, t, i, d);
        ParseMoves(s, t, w + 1, d);
      }
    }
  }

  lemma NothingLeft(s: string)
    ensures Parse(s, |s|) == Some([])
  {
  }

  /** The pieces of a complete format, then those of another. */
  function Then(ps: seq<Piece>, rest: Option<seq<Piece>>): Option<seq<Piece>> {
    match rest
    case None => None
    case Some(qs) => Some(ps + qs)
  }

  lemma ThenCons(p: Piece, ps: seq<Piece>, rest: Option<seq<Piece>>)
    ensures Cons(p, Then(ps, rest)) == Then([p] + ps, rest)
    ensures Then([], rest) == rest
    ensures Cons(p, Some(ps)) == Some([p] + ps)
  {
    if rest.Some? {
      assert [p] + (ps + rest.value) == ([p] + ps) + rest.value;
      assert [] + rest.value == rest.value;
    }
  }

  /** Parsing two formats in a row is parsing each, if the first does not end inside a directive. */
  lemma {:induction false} ParseJoined(a: string, b: string, i: nat)
    requires i <= |a| && Parse(a, i).Some?
    ensures Parse(a + b, i) == Then(Parse(a, i).value, Parse(b, 0))
    decreases |a| - i
  {
    hide FlagsOf, Eval, ToSigned, FlagsEnd, DigitsEnd, Parse, Then, IsDigit, IsFlag;
    var rest := Parse(b, 0);
    if i == |a| {
      NothingLeft(a);
      ParseMoves(b, a + b, 0, |a|);
      ThenCons(Literal(' '), [], rest);
    } else if a[i] != '%' {
      ParseLiteral(a, i);
      ParseLiteral(a + b, i);
      ParseJoined(a, b, i + 1);
      ThenCons(Literal(a[i]), Parse(a, i + 1).value, rest);
    } else {
      var w := DigitsEnd(a, FlagsEnd(a, i + 1));
      if w == |a| {
        CutOffMoves(a, a, i, 0);
      } else {
        DirectiveMoves(a, a + b, i, 0);
        ParseJoined(a, b, w + 1);
        var p := Directive(FlagsOf(a[i + 1..FlagsEnd(a, i + 1)]), ToSigned(Eval(a[FlagsEnd(a, i + 1)..w], 10)), a[w]);
        ThenCons(p, Parse(a, w + 1).value, rest);
      }
    }
  }

  /** Rendering in a row: the second part takes the arguments the first left. */
  lemma {:induction false} RenderJoined(ps: seq<Piece>, qs: seq<Piece>, args: seq<Arg>)
    requires Render(ps, args).Done?
    ensures ArgCount(ps) <= |args|
    ensures Render(ps + qs, args) == Prepend(Render(ps, args).value, Render(qs, args[ArgCount(ps)..]))
    decreases |ps|
  {
    hide PieceText;
    if ps == [] {
      assert ps + qs == qs && args[0..] == args;
      Unprepended(Render(qs, args));
    } else {
      var p := ps[0];
      TakesWhatIsThere(p, args);
      var rest := args[PieceArgs(p)..];
      RenderJoined(ps[1..], qs, rest);
      assert (ps + qs)[1..] == ps[1..] + qs;
      assert rest[ArgCount(ps[1..])..] == args[ArgCount(ps)..];
      PrependTwice(PieceText(p, args).value, Render(ps[1..], rest).value, Render(qs, args[ArgCount(ps)..]));
    }
  }

  lemma TakesWhatIsThere(p: Piece, args: seq<Arg>)
    requires PieceText(p, args).Done?
    ensures PieceArgs(p) <= |args|
  {
  }

  lemma PrependTwice(s: string, t: string, r: Outcome<string>)
    ensures Prepend(s, Prepend(t, r)) == Prepend(s + t, r)
  {
    if r.Done? { Regroup(s, t, r.value); }
  }

  /** vsprintf of two formats in a row is both outputs in a row, for every complete first format. */
  lemma FormatsJoin(a: string, b: string, args: seq<Arg>)
    requires Formatted(a, 0, args).Done?
    ensures ArgCount(Parse(a, 0).value) <= |args|
    ensures Formatted(a + b, 0, args)
         == Prepend(Formatted(a, 0, args).value, Formatted(b, 0, args[ArgCount(Parse(a, 0).value)..]))
  {
    hide Parse, Render;
    ParseJoined(a, b, 0);
    var ps := Parse(a, 0).value;
    if Parse(b, 0).Some? {
      RenderJoined(ps, Parse(b, 0).value, args);
    } else {
      RenderJoined(ps, [], args);
    }
  }

  lemma StopsBelow(s: string, f: nat, w: nat)
    requires f <= w < |s|
    ensures f < |s|
  {
  }
}
