/** The kernel's vsnprintf: what a format means, what is written when the buffer is
    short, and the formatter as it runs. */
module Formatter {
  import opened MachineTypes
  import opened Arithmetic
  import opened Digits
  import opened NumberFormat
  import opened FormatScan
  import opened TextPieces

  /** The variable arguments: 64-bit slots in order, and the C strings at the
      addresses they may hold. */
  datatype Args = Args(slot: nat -> Word64, text: Word64 -> CString)

  const POINTER_WIDTH: nat := 16

  // ---------- fetching arguments ----------

  function Unsigned(w: Word64, qualifier: char): Word64 {
    if qualifier == 'l' || qualifier == '2' then w
    else if qualifier == 'h' then w % 0x1_0000 else w % 0x1_0000_0000
  }

  lemma SignedCongruent(w: nat, top: nat)
    requires top > 0
    ensures (w - w % (2 * top)) % (2 * top) == 0
    ensures (w - (w % (2 * top) - 2 * top)) % (2 * top) == 0
  {
    var m := 2 * top;
    assert w == w / m * m + w % m;
    Remainder(w - w % m, w / m, m, 0);
    Remainder(w - (w % m - m), w / m + 1, m, 0);
  }

  /** The two's complement reading of the low bits. */
  function SignedBits(w: nat, top: nat): (v: int)
    requires top > 0
    ensures 0 <= v + top && v < top && (w - v) % (2 * top) == 0
  {
    SignedCongruent(w, top);
    var v := w % (2 * top); if v < top then v else v - 2 * top
  }

  function Signed(w: Word64, qualifier: char): (v: int)
    ensures -0x8000_0000_0000_0000 <= v < 0x8000_0000_0000_0000
  {
    if qualifier == 'l' || qualifier == '2' then SignedBits(w, 0x8000_0000_0000_0000)
    else if qualifier == 'h' then SignedBits(w, 0x8000) else SignedBits(w, 0x8000_0000)
  }

  function Int32(w: Word64): (v: int)
    ensures -0x8000_0000 <= v < 0x8000_0000 && (w - v) % 0x1_0000_0000 == 0
  {
    SignedBits(w, 0x8000_0000)
  }

  /** The value an unsigned conversion fetches: the slot's low 16, 32 or all 64 bits. */
  lemma UnsignedMeans(w: Word64, qualifier: char)
    ensures var v := Unsigned(w, qualifier);
      if qualifier == 'l' || qualifier == '2' then v == w
      else if qualifier == 'h' then v < 0x1_0000 && (w - v) % 0x1_0000 == 0
      else v < 0x1_0000_0000 && (w - v) % 0x1_0000_0000 == 0
  {
  }

  /** v is the signed number in the slot's low 16, 32 or all 64 bits. */
  predicate SignedIn(v: int, w: Word64, qualifier: char) {
    if qualifier == 'l' || qualifier == '2' then
      -0x8000_0000_0000_0000 <= v < 0x8000_0000_0000_0000 && (w - v) % 0x1_0000_0000_0000_0000 == 0
    else if qualifier == 'h' then -0x8000 <= v < 0x8000 && (w - v) % 0x1_0000 == 0
    else -0x8000_0000 <= v < 0x8000_0000 && (w - v) % 0x1_0000_0000 == 0
  }

  lemma SignedMeans(w: Word64, qualifier: char)
    ensures SignedIn(Signed(w, qualifier), w, qualifier)
  {
  }

  /** A negative width argument means left justification. */
  function WidthOf(n: Num, w: Word64): int {
    match n case Absent => -1 case Given(v) => v case Star => if Int32(w) < 0 then -Int32(w) else Int32(w)
  }

  function WidthFlags(flags: Flags, n: Num, w: Word64): Flags {
    if n == Star && Int32(w) < 0 then flags.(left := true) else flags
  }

  function PrecisionOf(n: Num, w: Word64): int {
    match n case Absent => -1 case Given(v) => v case Star => if Int32(w) < 0 then 0 else Int32(w)
  }

  /** An asterisk takes an argument. */
  function NextArg(n: Num, a: nat): nat { if n == Star then a + 1 else a }

  /** Width, precision and flags once asterisks are replaced, and the next argument. */
  datatype Field = Field(width: int, precision: int, flags: Flags, arg: nat)

  function FieldOf(flags: Flags, width: Num, precision: Num, args: Args, a: nat): Field {
    var b := NextArg(width, a);
    Field(WidthOf(width, args.slot(a)), PrecisionOf(precision, args.slot(b)), WidthFlags(flags, width, args.slot(a)),
          NextArg(precision, b))
  }

  /** Width, precision and flags of a directive: as written, or the 32-bit number in the
      next argument, a negative width being its amount and the minus flag, a negative
      precision zero; minus one where nothing is written. */
  lemma FieldMeans(flags: Flags, width: Num, precision: Num, args: Args, a: nat)
    ensures var f := FieldOf(flags, width, precision, args, a);
      var b := if width == Star then a + 1 else a;
      var w, p := Int32(args.slot(a)), Int32(args.slot(b));
      && (width == Absent ==> f.width == -1) && (width.Given? ==> f.width == width.n)
      && (width == Star ==> f.width == if w < 0 then -w else w)
      && f.flags.left == (flags.left || (width == Star && w < 0)) && f.flags == flags.(left := f.flags.left)
      && (precision == Absent ==> f.precision == -1) && (precision.Given? ==> f.precision == precision.n)
      && (precision == Star ==> f.precision == if p < 0 then 0 else p)
      && f.arg == if precision == Star then b + 1 else b
  {
  }

  /** An asterisk stands for the number its argument holds, a negative width for that
      width with the minus flag. */
  lemma StarWidth(flags: Flags, precision: Num, args: Args, a: nat)
    ensures var v := Int32(args.slot(a));
      FieldOf(flags, Star, precision, args, a)
        == FieldOf(if v < 0 then flags.(left := true) else flags, Given(if v < 0 then -v else v), precision, args, a + 1)
  {
  }

  // ---------- the meaning of a format ----------

  /** What a directive writes, where scanning goes on, and the next argument. */
  datatype Piece =
    | Chars(s: string, next: nat, arg: nat)
    | Number(num: Word64, base: nat, width: int, precision: int, flags: Flags, negative: bool, next: nat, arg: nat)

  function PieceText(p: Piece): string {
    match p
    case Chars(s, _, _) => s
    case Number(num, base, width, precision, flags, negative, _, _) =>
      NumberText(num, base, width, precision, flags, negative)
  }

  /** What room characters take of it. */
  function PieceEmit(p: Piece, room: nat): (s: string)
    ensures |s| <= room
  {
    match p
    case Chars(s, _, _) => Take(s, room)
    case Number(num, base, width, precision, flags, negative, _, _) =>
      NumberEmit(room, num, base, width, precision, flags, negative)
  }

  predicate HasPrefix(p: Piece) { p.Number? && PrefixText(p.flags, p.base) != "" }

  /** A text among blanks on the left or on the right. */
  function Justified(s: string, width: int, left: bool): string {
    (if left then "" else Repeat(' ', width - |s|)) + s + (if left then Repeat(' ', width - |s|) else "")
  }

  /** As long as the width, or as the text if that is longer; the text stands at the
      left or at the right, blanks fill the rest. */
  lemma JustifiedText(s: string, width: int, left: bool)
    ensures var t := Justified(s, width, left);
      && |t| == Max(width, |s|)
      && (if left then t[..|s|] else t[|t| - |s|..]) == s
      && forall i :: (if left then |s| <= i < |t| else 0 <= i < |t| - |s|) ==> t[i] == ' '
  {
    var blanks := Repeat(' ', width - |s|);
    RepeatAll(' ', width - |s|);
    assert Justified(s, width, left) == if left then s + blanks else blanks + s by {
      assert "" + s == s && blanks + s + "" == blanks + s;
    }
    hide Justified;
    hide Repeat;
    if left { assert (s + blanks)[..|s|] == s; } else { assert (blanks + s)[|blanks|..] == s; }
  }

  /** The string argument, at most precision characters of it. */
  function StringText(w: Word64, args: Args, precision: int): string {
    var s := if w == 0 then "(null)" else args.text(w);
    if precision < 0 then s else Take(s, precision)
  }

  /** A negative precision argument stands for zero; ISO C takes it as absent, which
      gives the same string exactly when the string is empty. */
  lemma NegativePrecision(w: Word64, args: Args, p: Word64)
    requires Int32(p) < 0
    ensures StringText(w, args, PrecisionOf(Star, p)) == StringText(w, args, PrecisionOf(Absent, p))
      <==> w != 0 && args.text(w) == ""
  {
  }

  function SignedPiece(w: Word64, qualifier: char, f: Field, next: nat): Piece {
    var v := Signed(w, qualifier);
    Number(if v < 0 then -v else v, 10, f.width, f.precision, f.flags.(sign := true), v < 0, next, f.arg + 1)
  }

  function PointerPiece(w: Word64, f: Field, next: nat): Piece {
    Number(w, 16, POINTER_WIDTH, f.precision, f.flags.(special := true, small := true, zeroPad := true), false,
           next, f.arg + 1)
  }

  /** All unsigned conversions print in base 16. */
  function UnsignedPiece(w: Word64, qualifier: char, f: Field, small: bool, next: nat): Piece {
    Number(Unsigned(w, qualifier), 16, f.width, f.precision, f.flags.(small := small), false, next, f.arg + 1)
  }

  predicate Hexadecimal(c: char) { c == 'u' || c == 'o' || c == 'x' || c == 'X' }

  predicate Known(c: char) {
    Hexadecimal(c) || c == 'c' || c == 's' || c == 'p' || c == 'd' || c == 'i' || c == 'n' || c == '%'
  }

  /** A conversion with its field; an unknown one (or the end of the format) writes
      the percent sign and goes on behind it, but keeps the arguments it took. */
  function Convert(c: char, qualifier: char, f: Field, args: Args, start: nat, next: nat): (p: Piece)
    ensures p.next == if Known(c) then next else start + 1
  {
    var w := args.slot(f.arg);
    match c
    case 'c' => Chars(Justified([(w % 0x100) as char], f.width, f.flags.left), next, f.arg + 1)
    case 's' => Chars(Justified(StringText(w, args, f.precision), f.width, f.flags.left), next, f.arg + 1)
    case 'p' => PointerPiece(w, f, next)
    case 'd' => SignedPiece(w, qualifier, f, next)
    case 'i' => SignedPiece(w, qualifier, f, next)
    case 'u' => UnsignedPiece(w, qualifier, f, true, next)
    case 'o' => UnsignedPiece(w, qualifier, f, true, next)
    case 'x' => UnsignedPiece(w, qualifier, f, true, next)
    case 'X' => UnsignedPiece(w, qualifier, f, false, next)
    case 'n' => Chars("", next, f.arg + 1)
    case '%' => Chars("%", next, f.arg)
    case _ => Chars("%", start + 1, f.arg)
  }

  function DirectiveAt(fmt: CString, i: nat, args: Args, a: nat): (p: Piece)
    requires i < |fmt|
    ensures i < p.next <= |fmt|
  {
    var d := ShapeAt(fmt, i);
    Convert(At(fmt, d.at), d.qualifier, FieldOf(d.flags, d.width, d.precision, args, a), args, i, d.at + 1)
  }

  /** The step at position i of a format. */
  function PieceAt(fmt: CString, i: nat, args: Args, a: nat): (p: Piece)
    ensures i < |fmt| ==> i < p.next <= |fmt|
  {
    if i >= |fmt| then Chars("", i, a)
    else if fmt[i] != '%' then Chars([fmt[i]], i + 1, a)
    else DirectiveAt(fmt, i, args, a)
  }

  function StepOf(p: Piece): Step {
    Step(PieceText(p), (room: nat) => PieceEmit(p, room), p.next, p.arg)
  }

  function FormatSteps(fmt: CString, args: Args): (steps: Steps)
    ensures Proper(steps, |fmt|)
  {
    (i: nat, a: nat) => StepOf(PieceAt(fmt, i, args, a))
  }

  /** The whole text of a format. */
  ghost function FormatText(fmt: CString, args: Args): string { Text(FormatSteps(fmt, args), |fmt|, 0, 0) }

  /** What so much room takes of it, from position i and argument a on. */
  ghost function OutputFrom(fmt: CString, args: Args, i: nat, a: nat, room: nat): (s: string)
    ensures |s| <= room
  {
    Output(FormatSteps(fmt, args), |fmt|, i, a, room)
  }

  lemma OutputStep(fmt: CString, args: Args, i: nat, a: nat, room: nat)
    requires i < |fmt| && room > 0
    ensures var p := PieceAt(fmt, i, args, a);
      OutputFrom(fmt, args, i, a, room)
        == PieceEmit(p, room) + OutputFrom(fmt, args, p.next, p.arg, room - |PieceEmit(p, room)|)
  {
    hide PieceAt;
    hide PieceEmit;
    hide PieceText;
    var step := FormatSteps(fmt, args)(i, a);
    assert step == StepOf(PieceAt(fmt, i, args, a));
  }

  /** No directive that prints a 0x prefix. */
  predicate Plain(fmt: CString, i: nat)
    decreases |fmt| - i
  {
    i >= |fmt| ||
    if fmt[i] != '%' then Plain(fmt, i + 1)
    else
      var d := ShapeAt(fmt, i);
      var c := At(fmt, d.at);
      c != 'p' && !(d.flags.special && Hexadecimal(c)) && Plain(fmt, if Known(c) then d.at + 1 else i + 1)
  }

  lemma ConvertPlain(c: char, qualifier: char, f: Field, args: Args, start: nat, next: nat)
    requires c != 'p' && !(f.flags.special && Hexadecimal(c))
    ensures !HasPrefix(Convert(c, qualifier, f, args, start, next))
  {
  }

  lemma PiecePlain(fmt: CString, i: nat, args: Args, a: nat)
    requires i < |fmt| && Plain(fmt, i)
    ensures !HasPrefix(PieceAt(fmt, i, args, a)) && Plain(fmt, PieceAt(fmt, i, args, a).next)
  {
    if fmt[i] == '%' {
      var d := ShapeAt(fmt, i);
      var f := FieldOf(d.flags, d.width, d.precision, args, a);
      assert f.flags.special == d.flags.special;
      hide ShapeAt;
      hide FieldOf;
      hide Convert;
      hide HasPrefix;
      ConvertPlain(At(fmt, d.at), d.qualifier, f, args, i, d.at + 1);
    }
  }

  lemma PieceCutsOff(p: Piece)
    requires !HasPrefix(p)
    ensures CutsOff(StepOf(p))
  {
    forall room: nat
      ensures PieceEmit(p, room) == Take(PieceText(p), room)
    {
      if p.Number? { EmitIsPrefix(room, p.num, p.base, p.width, p.precision, p.flags, p.negative); }
    }
  }

  lemma {:induction false} PlainCutsOff(fmt: CString, i: nat, args: Args, a: nat)
    requires Plain(fmt, i)
    ensures AllCutOff(FormatSteps(fmt, args), |fmt|, i, a)
    decreases |fmt| - i
  {
    if i < |fmt| {
      var p := PieceAt(fmt, i, args, a);
      PiecePlain(fmt, i, args, a);
      PieceCutsOff(p);
      PlainCutsOff(fmt, p.next, args, p.arg);
      assert FormatSteps(fmt, args)(i, a) == StepOf(p);
    }
  }

  /** With less room the text of a plain format is cut off, nothing else. */
  lemma PlainFormatCut(fmt: CString, args: Args, room: nat)
    requires Plain(fmt, 0)
    ensures OutputFrom(fmt, args, 0, 0, room) == Take(FormatText(fmt, args), room)
  {
    PlainCutsOff(fmt, 0, args, 0);
    OutputIsPrefix(FormatSteps(fmt, args), |fmt|, 0, 0, room);
  }

  /** The terminator of a plain format falls outside a buffer of size characters
      exactly when the text has at least that many. */
  lemma TerminatorOutside(fmt: CString, args: Args, size: nat)
    requires Plain(fmt, 0)
    ensures |OutputFrom(fmt, args, 0, 0, size)| == size <==> |FormatText(fmt, args)| >= size
  {
    hide OutputFrom;
    hide FormatText;
    PlainFormatCut(fmt, args, size);
  }

  // ---------- written directives ----------

  /** A written directive is converted with exactly the field it was written with. */
  lemma WrittenPiece(fmt: CString, i: nat, d: Shape, c: char, args: Args, a: nat)
    requires Writable(d) && Conversion(c) && HasAt(fmt, i, Written(d) + [c])
    ensures PieceAt(fmt, i, args, a)
         == Convert(c, d.qualifier, FieldOf(d.flags, d.width, d.precision, args, a), args, i, i + |Written(d)| + 1)
  {
    ShapeReadsBack(fmt, i, d, c);
    assert Written(d)[0] == '%' && fmt[i + 0] == (Written(d) + [c])[0];
  }

  /** The digits of a value above the digit range differ from base to base. */
  lemma {:induction false} BaseMatters(s: string, small: nat, large: nat)
    requires small <= large
    ensures Value(s, small) <= Value(s, large)
    ensures small < large && |s| >= 2 && DigitValue(s[0]) > 0 && small > 0 ==> Value(s, small) < Value(s, large)
    decreases |s|
  {
    if s != "" {
      var t := s[..|s| - 1];
      BaseMatters(t, small, large);
      var v, w := Value(t, small), Value(t, large);
      ProductOrder(v, w, small);
      ProductOrder(small, large, w);
      assert small * w == w * small && large * w == w * large;
      if |s| >= 2 && DigitValue(s[0]) > 0 && small < large && small > 0 {
        LeadingDigit(t, large);
        ProductStrict(small, large, w);
      }
    }
  }

  lemma {:induction false} LeadingDigit(s: string, base: nat)
    requires s != "" && DigitValue(s[0]) > 0 && base > 0
    ensures Value(s, base) > 0
    decreases |s|
  {
    if |s| > 1 {
      LeadingDigit(s[..|s| - 1], base);
      ProductStrict(0, Value(s[..|s| - 1], base), base);
    }
  }

  lemma SameDigitsIff(n: nat, small: nat, large: nat)
    requires 2 <= small < large <= 36
    ensures DigitsOf(n, large, true) == DigitsOf(n, small, true) <==> n < small
  {
    var s := DigitsOf(n, small, true);
    if n >= small && DigitsOf(n, large, true) == s {
      ReadsBack(n, small, true);
      ReadsBack(n, large, true);
      Smaller(n, small);
      NoLeadingZero(n, small, true);
      if DigitValue(s[0]) == 0 { ZeroDigit(n, small); }
      BaseMatters(s, small, large);
      assert false;
    }
  }

  lemma {:induction false} ZeroDigit(n: nat, base: nat)
    requires 2 <= base <= 36 && n > 0
    ensures DigitValue(DigitsOf(n, base, true)[0]) > 0
    decreases n
  {
    if n < base {
      DigitReadsBack(n, true);
    } else {
      Smaller(n, base);
      ZeroDigit(n / base, base);
    }
  }

  // ---------- one text in two bases ----------

  /** A digit string that means the same in two bases is one digit and zeros. */
  lemma EqualValues(s: string, small: nat, large: nat)
    requires 0 < small < large && Value(s, small) == Value(s, large)
    requires forall i :: 0 <= i < |s| ==> DigitValue(s[i]) < small
    ensures Value(s, small) < small
  {
    if s != "" {
      var t := s[..|s| - 1];
      var v, w := Value(t, small), Value(t, large);
      BaseMatters(t, small, large);
      ProductOrder(v, w, large);
      if v > 0 { ProductStrict(small, large, v); }
    }
  }

  /** The digits behind the blanks. */
  function DigitsRead(s: string): string { SkipBlanks(s)[..DigitRun(SkipBlanks(s), 36)] }

  lemma DigitsReadOf(before: string, block: string, after: string)
    requires block != "" && forall i :: 0 <= i < |block| ==> IsDigitIn(block[i], 36)
    requires forall i :: 0 <= i < |before| ==> before[i] == ' '
    requires forall i :: 0 <= i < |after| ==> after[i] == ' '
    ensures DigitsRead(before + (block + after)) == block
  {
    SkipAll(before, block + after);
    RunOfBlock(block, after, 36);
    assert (block + after)[0] == block[0];
    assert (block + after)[..|block|] == block;
  }

  /** Of an unsigned number without prefix that is the digit block. */
  lemma BlockRead(num: Word64, base: nat, width: int, precision: int, flags: Flags)
    requires 2 <= base <= 36 && !flags.special && !flags.sign
    ensures DigitsRead(NumberText(num, base, width, precision, flags, false))
         == DigitBlock(num, base, width, precision, flags, false)
  {
    var pad := Padding(num, base, width, precision, flags, false);
    var before := if flags.left || flags.zeroPad then "" else Repeat(' ', pad);
    var after := if flags.left then Repeat(' ', pad) else "";
    var block := DigitBlock(num, base, width, precision, flags, false);
    TextLayout(num, base, width, precision, flags, false);
    BlockIn(num, base, width, precision, flags, false);
    RepeatAll(' ', pad);
    assert before + "" == before;
    Assoc(before, block, after);
    hide DigitsRead;
    hide NumberText;
    hide DigitBlock;
    hide Padding;
    hide Repeat;
    DigitsReadOf(before, block, after);
  }

  /** A number below both bases has the same text in them. */
  lemma SmallSame(num: Word64, base: nat, width: int, precision: int, flags: Flags)
    requires 2 <= base < 16 && num < base && !flags.special
    ensures NumberText(num, 16, width, precision, flags, false) == NumberText(num, base, width, precision, flags, false)
  {
    SmallDigits(num, base, false);
    SmallDigits(num, base, flags.small);
    hide DigitsOf;
    hide Repeat;
    hide SignText;
    assert Padding(num, 16, width, precision, flags, false) == Padding(num, base, width, precision, flags, false);
    assert PrefixText(flags, 16) == PrefixText(flags, base);
    hide Padding;
    hide PrefixText;
    assert LeadText(num, 16, width, precision, flags, false) == LeadText(num, base, width, precision, flags, false);
    assert BodyText(num, 16, width, precision, flags, false) == BodyText(num, base, width, precision, flags, false);
    hide LeadText;
    hide BodyText;
  }

  lemma SmallDigits(num: nat, base: nat, small: bool)
    requires 2 <= base < 16 && num < base
    ensures DigitsOf(num, 16, small) == DigitsOf(num, base, small)
  {
  }

  /** The text in a base below 16 has no x in it, with a 0x prefix there is one. */
  lemma PrefixShows(num: Word64, base: nat, width: int, precision: int, flags: Flags)
    requires 2 <= base < 16 && flags.special && !flags.sign
    ensures NumberText(num, 16, width, precision, flags, false) != NumberText(num, base, width, precision, flags, false)
  {
    var lead, prefix := LeadText(num, 16, width, precision, flags, false), PrefixText(flags, 16);
    var text := NumberText(num, 16, width, precision, flags, false);
    assert text[|lead| + 1] == prefix[1];
    hide LeadText;
    hide BodyText;
    hide NumberText;
    NoLetterX(num, base, width, precision, flags);
  }

  lemma NoLetterX(num: Word64, base: nat, width: int, precision: int, flags: Flags)
    requires 2 <= base < 16 && !flags.sign
    ensures var text := NumberText(num, base, width, precision, flags, false);
      forall i :: 0 <= i < |text| ==> text[i] != 'x' && text[i] != 'X'
  {
    var pad := Padding(num, base, width, precision, flags, false);
    TextLayout(num, base, width, precision, flags, false);
    BlockIn(num, base, width, precision, flags, false);
    RepeatAll(' ', pad);
    hide NumberText;
    hide DigitBlock;
    hide Padding;
    hide Repeat;
  }

  /** Whatever the field, printing in base 16 gives the text of a smaller base exactly
      for values below that base and without the # flag. */
  lemma SameTextIff(num: Word64, base: nat, width: int, precision: int, flags: Flags)
    requires 2 <= base < 16 && !flags.sign
    ensures NumberText(num, 16, width, precision, flags, false) == NumberText(num, base, width, precision, flags, false)
      <==> !flags.special && num < base
  {
    if flags.special {
      PrefixShows(num, base, width, precision, flags);
    } else if num < base {
      SmallSame(num, base, width, precision, flags);
    } else {
      BlockRead(num, 16, width, precision, flags);
      BlockRead(num, base, width, precision, flags);
      BlockReadsBack(num, 16, width, precision, flags, false);
      BlockReadsBack(num, base, width, precision, flags, false);
      BlockIn(num, base, width, precision, flags, false);
      var block := DigitBlock(num, base, width, precision, flags, false);
      hide NumberText;
      hide DigitBlock;
      hide DigitsRead;
      hide Value;
      if DigitBlock(num, 16, width, precision, flags, false) == block { EqualValues(block, base, 16); }
    }
  }

  // ---------- numeric directives ----------

  /** The field of a written directive at argument a. */
  function WrittenField(d: Shape, args: Args, a: nat): Field { FieldOf(d.flags, d.width, d.precision, args, a) }

  /** %u prints the decimal text, and %o the octal text, of its argument in its field
      exactly for values below ten, and eight, and without the # flag. */
  lemma UnsignedIffSmall(fmt: CString, i: nat, d: Shape, c: char, args: Args, a: nat)
    requires Writable(d) && HasAt(fmt, i, Written(d) + [c])
    requires c == 'u' || c == 'o'
    ensures var f := WrittenField(d, args, a);
      var v := Unsigned(args.slot(f.arg), d.qualifier);
      var base := if c == 'u' then 10 else 8;
      PieceText(PieceAt(fmt, i, args, a)) == NumberText(v, base, f.width, f.precision, f.flags.(small := true), false)
      <==> !d.flags.special && v < base
  {
    hide PieceAt;
    hide Written;
    hide NumberText;
    WrittenPiece(fmt, i, d, c, args, a);
    var f := WrittenField(d, args, a);
    SameTextIff(Unsigned(args.slot(f.arg), d.qualifier), if c == 'u' then 10 else 8, f.width, f.precision,
                f.flags.(small := true));
  }

  /** Every unsigned directive prints in hexadecimal, whatever its field: the text reads
      back as the low 16 bits of its argument, all 64, or the low 32. */
  lemma UnsignedReadsBack(fmt: CString, i: nat, d: Shape, c: char, args: Args, a: nat)
    requires Writable(d) && HasAt(fmt, i, Written(d) + [c]) && Hexadecimal(c)
    ensures var w := args.slot(WrittenField(d, args, a).arg);
      var r := ReadNumber(PieceText(PieceAt(fmt, i, args, a)), 16);
      && !r.negative && (forall k :: 0 <= k < |r.rest| ==> r.rest[k] == ' ')
      && if d.qualifier == 'l' || d.qualifier == '2' then r.value == w
         else if d.qualifier == 'h' then r.value < 0x1_0000 && (w - r.value) % 0x1_0000 == 0
         else r.value < 0x1_0000_0000 && (w - r.value) % 0x1_0000_0000 == 0
  {
    UnsignedMeans(args.slot(WrittenField(d, args, a).arg), d.qualifier);
    hide PieceAt;
    hide Written;
    hide NumberText;
    hide ReadNumber;
    WrittenPiece(fmt, i, d, c, args, a);
    var f := WrittenField(d, args, a);
    TextReadsBack(Unsigned(args.slot(f.arg), d.qualifier), 16, f.width, f.precision, f.flags.(small := c != 'X'), false);
  }

  /** A hexadecimal text in its field: with a prefix exactly with the # flag, as long as the
      width (less two with a prefix), or as prefix and digits need, ending in a digit unless
      left-justified, and starting with no blank if that or filled with zeros. */
  predicate HexPlaced(text: string, f: Field, small: bool) {
    var n := ReadNumber(text, 16).value;
    && text != ""
    && |text| == Max(if f.flags.special then f.width - 2 else f.width,
                     (if f.flags.special then 2 else 0) + Max(f.precision, |DigitsOf(n, 16, false)|))
    && (f.flags.special ==> (if small then "0x" else "0X") <= SkipBlanks(text))
    && (f.flags.left || f.flags.zeroPad ==> text[0] != ' ')
    && (!f.flags.left ==> IsDigitIn(text[|text| - 1], 16))
  }

  /** Every unsigned directive is placed so in its field, %X with a capital prefix. */
  lemma UnsignedPlaced(fmt: CString, i: nat, d: Shape, c: char, args: Args, a: nat)
    requires Writable(d) && HasAt(fmt, i, Written(d) + [c]) && Hexadecimal(c)
    ensures HexPlaced(PieceText(PieceAt(fmt, i, args, a)), WrittenField(d, args, a), c != 'X')
  {
    hide PieceAt;
    hide Written;
    hide HexPlaced;
    hide NumberText;
    WrittenPiece(fmt, i, d, c, args, a);
    var f := WrittenField(d, args, a);
    assert !f.flags.sign;
    HexPiecePlaced(Unsigned(args.slot(f.arg), d.qualifier), f, c != 'X');
  }

  lemma HexPiecePlaced(v: Word64, f: Field, small: bool)
    requires !f.flags.sign
    ensures HexPlaced(NumberText(v, 16, f.width, f.precision, f.flags.(small := small), false), f, small)
  {
    var flags := f.flags.(small := small);
    hide NumberText;
    hide ReadNumber;
    hide DigitsOf;
    hide SkipBlanks;
    hide IsDigitIn;
    DigitCountCase(v, 16);
    TextReadsBack(v, 16, f.width, f.precision, flags, false);
    TextEnds(v, 16, f.width, f.precision, flags, false);
    SignShown(v, 16, f.width, f.precision, flags, false);
    if flags.special {
      PrefixedLength(v, 16, f.width, f.precision, flags, false);
    } else {
      TextLength(v, 16, f.width, f.precision, flags, false);
    }
  }

  /** %x, %u and %o print no capital letter, %X no small one, prefix included. */
  lemma UnsignedCase(fmt: CString, i: nat, d: Shape, c: char, args: Args, a: nat, k: nat)
    requires Writable(d) && HasAt(fmt, i, Written(d) + [c]) && Hexadecimal(c)
    requires k < |PieceText(PieceAt(fmt, i, args, a))|
    ensures var l := PieceText(PieceAt(fmt, i, args, a))[k];
      if c == 'X' then !('a' <= l <= 'z') else !('A' <= l <= 'Z')
  {
    hide PieceAt;
    hide Written;
    hide NumberText;
    WrittenPiece(fmt, i, d, c, args, a);
    var f := WrittenField(d, args, a);
    TextCase(Unsigned(args.slot(f.arg), d.qualifier), 16, f.width, f.precision, f.flags.(small := c != 'X'), false);
  }

  /** A text starts with a minus sign, a plus sign if that is asked for, or a digit. */
  predicate SignFirst(s: string, negative: bool, plus: bool) {
    s != "" && if negative then s[0] == '-' else if plus then s[0] == '+' else '0' <= s[0] <= '9'
  }

  /** The number a reading stands for. */
  function SignedReading(r: Reading): int {
    var n: int := r.value;
    if r.negative then -n else n
  }

  /** %d prints the decimal text of its argument: it reads back as the signed number in the
      low 16 bits of the argument, all 64, or the low 32, only blanks around it, and is as
      long as the width (less two with the # flag), or as sign and digits need. */
  lemma SignedDecimal(fmt: CString, i: nat, d: Shape, c: char, args: Args, a: nat)
    requires Writable(d) && HasAt(fmt, i, Written(d) + [c])
    requires c == 'd' || c == 'i'
    ensures var f := WrittenField(d, args, a);
      var text := PieceText(PieceAt(fmt, i, args, a));
      var r := ReadNumber(text, 10);
      && SignedIn(SignedReading(r), args.slot(f.arg), d.qualifier)
      && (r.negative ==> r.value > 0) && (forall k :: 0 <= k < |r.rest| ==> r.rest[k] == ' ')
      && SignFirst(SkipBlanks(text), r.negative, f.flags.plus)
      && |text| == Max(if d.flags.special then f.width - 2 else f.width,
                       (if r.negative || f.flags.plus || f.flags.space then 1 else 0)
                       + Max(f.precision, |DigitsOf(r.value, 10, false)|))
  {
    hide PieceAt;
    hide Written;
    hide NumberText;
    hide ReadNumber;
    hide DigitsOf;
    hide SignedIn;
    hide Signed;
    WrittenPiece(fmt, i, d, c, args, a);
    assert WrittenField(d, args, a).flags.special == d.flags.special;
    hide FieldOf;
    SignedPieceReads(args.slot(WrittenField(d, args, a).arg), d.qualifier, WrittenField(d, args, a));
  }

  /** The text of a signed number in its field. */
  lemma SignedPieceReads(w: Word64, qualifier: char, f: Field)
    ensures var v := Signed(w, qualifier);
      var n := if v < 0 then -v else v;
      var text := NumberText(n, 10, f.width, f.precision, f.flags.(sign := true), v < 0);
      var r := ReadNumber(text, 10);
      && SignedIn(SignedReading(r), w, qualifier)
      && (r.negative ==> r.value > 0) && (forall k :: 0 <= k < |r.rest| ==> r.rest[k] == ' ')
      && SignFirst(SkipBlanks(text), r.negative, f.flags.plus)
      && |text| == Max(if f.flags.special then f.width - 2 else f.width,
                       (if r.negative || f.flags.plus || f.flags.space then 1 else 0)
                       + Max(f.precision, |DigitsOf(r.value, 10, false)|))
  {
    hide NumberText;
    hide ReadNumber;
    hide DigitsOf;
    hide SignedIn;
    hide Signed;
    SignedMeans(w, qualifier);
    var v, flags := Signed(w, qualifier), f.flags.(sign := true);
    var n := if v < 0 then -v else v;
    SignLength(flags, v < 0);
    hide SignText;
    hide PrefixText;
    TextReadsBack(n, 10, f.width, f.precision, flags, v < 0);
    SignShown(n, 10, f.width, f.precision, flags, v < 0);
    hide SkipBlanks;
    DigitCountCase(n, 10);
    NoPrefixInTen(flags);
    if flags.special {
      PrefixedLength(n, 10, f.width, f.precision, flags, v < 0);
    } else {
      TextLength(n, 10, f.width, f.precision, flags, v < 0);
    }
  }

  lemma SignLength(flags: Flags, negative: bool)
    requires flags.sign
    ensures |SignText(flags, negative)| == if negative || flags.plus || flags.space then 1 else 0
  {
  }

  lemma NoPrefixInTen(flags: Flags)
    ensures PrefixText(flags, 10) == ""
  {
  }

  /** %p prints 0x and small digits that read back as the argument, filled up with zeros to
      14 characters (blanks behind, with the minus flag) and to the precision. */
  lemma PointerDirective(fmt: CString, i: nat, d: Shape, args: Args, a: nat)
    requires Writable(d) && HasAt(fmt, i, Written(d) + ['p'])
    ensures var f := WrittenField(d, args, a);
      var w, text := args.slot(f.arg), PieceText(PieceAt(fmt, i, args, a));
      var r := ReadNumber(text, 16);
      && r.value == w && !r.negative && (forall k :: 0 <= k < |r.rest| ==> r.rest[k] == ' ')
      && "0x" <= text && InCase(text, true)
      && |text| == Max(14, 2 + Max(f.precision, |DigitsOf(w, 16, true)|))
  {
    var f := WrittenField(d, args, a);
    var w, flags := args.slot(f.arg), f.flags.(special := true, small := true, zeroPad := true);
    hide PieceAt;
    hide Written;
    hide ReadNumber;
    hide DigitsOf;
    hide BodyText;
    WrittenPiece(fmt, i, d, 'p', args, a);
    TextReadsBack(w, 16, 16, f.precision, flags, false);
    PrefixedLength(w, 16, 16, f.precision, flags, false);
    TextCase(w, 16, 16, f.precision, flags, false);
  }

  /** %s prints the string at the argument, "(null)" for a null pointer, cut off at a
      precision, and blanks up to the width on the side the minus flag says. */
  lemma StringDirective(fmt: CString, i: nat, d: Shape, args: Args, a: nat)
    requires Writable(d) && HasAt(fmt, i, Written(d) + ['s'])
    ensures var f := WrittenField(d, args, a);
      var w, text := args.slot(f.arg), PieceText(PieceAt(fmt, i, args, a));
      var s := if w == 0 then "(null)" else args.text(w);
      var n := if 0 <= f.precision < |s| then f.precision else |s|;
      && |text| == Max(f.width, n)
      && (if f.flags.left then text[..n] else text[|text| - n..]) == s[..n]
      && forall k :: (if f.flags.left then n <= k < |text| else 0 <= k < |text| - n) ==> text[k] == ' '
  {
    var f := WrittenField(d, args, a);
    hide PieceAt;
    hide Written;
    hide Justified;
    WrittenPiece(fmt, i, d, 's', args, a);
    StringCut(args.slot(f.arg), args, f.precision);
    JustifiedText(StringText(args.slot(f.arg), args, f.precision), f.width, f.flags.left);
  }

  /** The part of a string that is printed. */
  lemma StringCut(w: Word64, args: Args, precision: int)
    ensures var s := if w == 0 then "(null)" else args.text(w);
      StringText(w, args, precision) == s[..if 0 <= precision < |s| then precision else |s|]
  {
  }

  /** %c prints the character with the argument's low eight bits, and blanks up to the
      width on the side the minus flag says. */
  lemma CharDirective(fmt: CString, i: nat, d: Shape, args: Args, a: nat)
    requires Writable(d) && HasAt(fmt, i, Written(d) + ['c'])
    ensures var f := WrittenField(d, args, a);
      var w, text := args.slot(f.arg), PieceText(PieceAt(fmt, i, args, a));
      && |text| == Max(f.width, 1)
      && text[if f.flags.left then 0 else |text| - 1] as nat == w % 0x100
      && forall k :: (if f.flags.left then 1 <= k < |text| else 0 <= k < |text| - 1) ==> text[k] == ' '
  {
    var f := WrittenField(d, args, a);
    var s := [(args.slot(f.arg) % 0x100) as char];
    hide PieceAt;
    hide Written;
    hide Justified;
    WrittenPiece(fmt, i, d, 'c', args, a);
    JustifiedText(s, f.width, f.flags.left);
    var text := Justified(s, f.width, f.flags.left);
    assert (if f.flags.left then text[..1] else text[|text| - 1..])[0] == s[0];
  }

  /** %% prints a percent sign, %n nothing; a character that is no conversion prints the
      percent sign and is then printed itself, as all that stands between. */
  lemma OtherDirectives(fmt: CString, i: nat, d: Shape, c: char, args: Args, a: nat)
    requires Writable(d) && Conversion(c) && HasAt(fmt, i, Written(d) + [c])
    requires c !in "cspdiuoxX"
    ensures var p := PieceAt(fmt, i, args, a);
      && PieceText(p) == (if c == 'n' then "" else "%")
      && p.next == (if c == '%' || c == 'n' then i + |Written(d)| + 1 else i + 1)
      && p.arg == WrittenField(d, args, a).arg + if c == 'n' then 1 else 0
  {
    hide Written;
    hide PieceAt;
    WrittenPiece(fmt, i, d, c, args, a);
    assert "cspdiuoxX"[0] == 'c' && "cspdiuoxX"[1] == 's' && "cspdiuoxX"[2] == 'p' && "cspdiuoxX"[3] == 'd'
        && "cspdiuoxX"[4] == 'i' && "cspdiuoxX"[5] == 'u' && "cspdiuoxX"[6] == 'o' && "cspdiuoxX"[7] == 'x'
        && "cspdiuoxX"[8] == 'X';
  }

  /** Every other character of a format prints itself. */
  lemma PlainCharacter(fmt: CString, i: nat, args: Args, a: nat)
    requires i < |fmt| && fmt[i] != '%'
    ensures var p := PieceAt(fmt, i, args, a); PieceText(p) == [fmt[i]] && p.next == i + 1 && p.arg == a
  {
  }

  // ---------- directives without a field ----------

  function Bare(qualifier: char): Shape { Shape(NO_FLAGS, Absent, Absent, qualifier, 0) }

  lemma Ends(s: string)
    ensures "" + "" + s + "" == s && "" + s == s && s + "" == s
  {
  }

  /** Without width, precision and prefix a number is its sign and digits. */
  lemma BareText(num: Word64, base: nat, flags: Flags, negative: bool)
    requires 2 <= base <= 36 && !flags.special && !flags.zeroPad && !flags.left
    ensures NumberText(num, base, -1, -1, flags, negative) == SignText(flags, negative) + DigitsOf(num, base, flags.small)
  {
    var sign, d := SignText(flags, negative), DigitsOf(num, base, flags.small);
    Ends(sign);
    Ends(d);
    assert LeadText(num, base, -1, -1, flags, negative) == sign;
    assert BodyText(num, base, -1, -1, flags, negative) == d;
  }

  /** A bare %u prints the decimal digits exactly for values below ten, a bare %o the
      octal digits exactly below eight. */
  lemma BareUnsigned(fmt: CString, i: nat, qualifier: char, c: char, args: Args, a: nat)
    requires Writable(Bare(qualifier)) && HasAt(fmt, i, Written(Bare(qualifier)) + [c])
    requires c == 'u' || c == 'o'
    ensures var v := Unsigned(args.slot(a), qualifier);
      var base := if c == 'u' then 10 else 8;
      PieceText(PieceAt(fmt, i, args, a)) == DigitsOf(v, base, true) <==> v < base
  {
    hide PieceAt;
    hide PieceText;
    hide Written;
    hide NumberText;
    var v, base := Unsigned(args.slot(a), qualifier), if c == 'u' then 10 else 8;
    UnsignedIffSmall(fmt, i, Bare(qualifier), c, args, a);
    BareText(v, base, NO_FLAGS.(small := true), false);
    Ends(DigitsOf(v, base, true));
  }

  function SignedText(v: int): string { if v < 0 then "-" + DigitsOf(-v, 10, false) else DigitsOf(v, 10, false) }

  /** s is a minus sign exactly for negative values, then digits that read back as
      the absolute value. */
  predicate ReadsAs(s: string, v: int) {
    s != "" && (s[0] == '-' <==> v < 0) && Value(if v < 0 then s[1..] else s, 10) == if v < 0 then -v else v
  }

  lemma SignedReadsBack(v: int)
    ensures ReadsAs(SignedText(v), v)
  {
    var n := if v < 0 then -v else v;
    ReadsBack(n, 10, false);
    DigitsAreDigits(n);
    assert IsDigit(DigitsOf(n, 10, false)[0]);
    if v < 0 { assert SignedText(v)[1..] == DigitsOf(n, 10, false); }
  }

  lemma SignedDigits(v: int)
    ensures var s := SignedText(v);
      s != "" && Decimal(s) == v && (s[0] == '-' <==> v < 0) && forall k :: 1 <= k < |s| ==> IsDigit(s[k])
  {
    var n := if v < 0 then -v else v;
    SignedReadsBack(v);
    DigitsAreDigits(n);
    if v < 0 { assert SignedText(v)[1..] == DigitsOf(n, 10, false); }
  }

  lemma BareSigned(w: Word64, qualifier: char, next: nat, arg: nat)
    ensures PieceText(SignedPiece(w, qualifier, Field(-1, -1, NO_FLAGS, arg), next)) == SignedText(Signed(w, qualifier))
  {
    var v := Signed(w, qualifier);
    var n := if v < 0 then -v else v;
    BareText(n, 10, NO_FLAGS.(sign := true), v < 0);
    Ends(if v < 0 then "-" else "");
    Ends(DigitsOf(n, 10, false));
  }

  lemma SignedConversion(c: char, qualifier: char, args: Args, a: nat, start: nat, next: nat)
    requires c == 'd' || c == 'i'
    ensures PieceText(Convert(c, qualifier, Field(-1, -1, NO_FLAGS, a), args, start, next))
         == SignedText(Signed(args.slot(a), qualifier))
  {
    BareSigned(args.slot(a), qualifier, next, a);
  }

  /** What a minus sign and decimal digits stand for. */
  function Decimal(s: string): int {
    var n: int := Value(if s != "" && s[0] == '-' then s[1..] else s, 10);
    if s != "" && s[0] == '-' then -n else n
  }

  /** A bare %d prints a minus sign for negative values, then digits, which read back as
      the signed number in the low 16 bits of the argument, all 64, or the low 32. */
  lemma BareDecimal(fmt: CString, i: nat, qualifier: char, c: char, args: Args, a: nat)
    requires Writable(Bare(qualifier)) && HasAt(fmt, i, Written(Bare(qualifier)) + [c])
    requires c == 'd' || c == 'i'
    ensures var text := PieceText(PieceAt(fmt, i, args, a));
      && SignedIn(Decimal(text), args.slot(a), qualifier)
      && text != "" && (text[0] == '-' <==> Decimal(text) < 0)
      && forall k :: 1 <= k < |text| ==> IsDigit(text[k])
  {
    var v := Signed(args.slot(a), qualifier);
    SignedMeans(args.slot(a), qualifier);
    SignedDigits(v);
    hide PieceAt;
    hide PieceText;
    hide Convert;
    hide Written;
    hide SignedIn;
    WrittenPiece(fmt, i, Bare(qualifier), c, args, a);
    SignedConversion(c, qualifier, args, a, i, i + |Written(Bare(qualifier))| + 1);
    SignedReadsBack(Signed(args.slot(a), qualifier));
  }
}
