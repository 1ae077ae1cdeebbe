/** The kernel's number formatter: sign, prefix, padding and digits laid out in a
    bounded buffer (ISO C11, section 7.21.6.1, with the kernel's differences). */
module NumberFormat {
  import opened MachineTypes
  import opened Digits

  datatype Flags = Flags(zeroPad: bool, sign: bool, plus: bool, space: bool, left: bool, special: bool, small: bool)

  function Repeat(c: char, n: int): (s: string)
    ensures |s| == if n > 0 then n else 0
  {
    if n <= 0 then "" else Repeat(c, n - 1) + [c]
  }

  function Take(s: string, room: nat): (t: string)
    ensures |t| == if |s| < room then |s| else room
    ensures t <= s
  {
    if |s| <= room then s else s[..room]
  }

  lemma TakeTwice(s: string, t: string, room: nat)
    ensures Take(s, room) + Take(t, room - |Take(s, room)|) == Take(s + t, room)
  {
    if |s| > room {
      assert Take(t, 0) == "";
      assert (s + t)[..room] == s[..room];
    } else if |s + t| > room {
      assert (s + t)[..room] == s + t[..room - |s|];
    }
  }

  // ---------- the text of a number ----------

  function SignText(flags: Flags, negative: bool): string {
    if !flags.sign then ""
    else if negative then "-" else if flags.plus then "+" else if flags.space then " " else ""
  }

  function PrefixText(flags: Flags, base: nat): string {
    if !flags.special then ""
    else if base == 8 then "0"
    else if base == 16 then (if flags.small then "0x" else "0X")
    else ""
  }

  /** Zeros that bring the digits up to the precision. */
  function ZerosText(num: Word64, base: nat, precision: int): string
    requires 2 <= base <= 36
  {
    Repeat('0', precision - |DigitsOf(num, base, false)|)
  }

  function Max(a: int, b: int): int { if a > b then a else b }

  /** The padding: the width less everything else; a prefix is charged twice, and
      for every base but 8 as two characters the second time. */
  function Padding(num: Word64, base: nat, width: int, precision: int, flags: Flags, negative: bool): int
    requires 2 <= base <= 36
  {
    var charged := if !flags.special then 0 else if base == 8 then 1 + 1 else if base == 16 then 2 + 2 else 2;
    width - charged - |SignText(flags, negative)| - Max(precision, |DigitsOf(num, base, false)|)
  }

  /** Everything before the prefix. */
  function LeadText(num: Word64, base: nat, width: int, precision: int, flags: Flags, negative: bool): string
    requires 2 <= base <= 36
  {
    (if flags.left || flags.zeroPad then "" else Repeat(' ', Padding(num, base, width, precision, flags, negative)))
    + SignText(flags, negative)
  }

  /** Everything after the prefix. */
  function BodyText(num: Word64, base: nat, width: int, precision: int, flags: Flags, negative: bool): string
    requires 2 <= base <= 36
  {
    var pad := Padding(num, base, width, precision, flags, negative);
    (if !flags.left && flags.zeroPad then Repeat('0', pad) else "")
    + ZerosText(num, base, precision) + DigitsOf(num, base, flags.small)
    + (if flags.left then Repeat(' ', pad) else "")
  }

  /** The whole text of a number, whatever the room. */
  function NumberText(num: Word64, base: nat, width: int, precision: int, flags: Flags, negative: bool): string {
    if base < 2 || base > 36 then ""
    else
      LeadText(num, base, width, precision, flags, negative) + PrefixText(flags, base)
      + BodyText(num, base, width, precision, flags, negative)
  }

  /** Three parts written into room characters: the first and last cut off, the
      prefix written whole or not at all. */
  function Emit(lead: string, prefix: string, body: string, room: nat): string {
    var l := Take(lead, room);
    var p := if |prefix| <= room - |l| then prefix else "";
    l + p + Take(body, room - |l| - |p|)
  }

  /** The characters actually written when only room of them fit. */
  function NumberEmit(room: nat, num: Word64, base: nat, width: int, precision: int, flags: Flags, negative: bool): string {
    if base < 2 || base > 36 then ""
    else
      Emit(LeadText(num, base, width, precision, flags, negative), PrefixText(flags, base),
           BodyText(num, base, width, precision, flags, negative), room)
  }

  // ---------- properties of the text ----------

  lemma {:induction false} DigitCountCase(n: nat, base: nat)
    requires 2 <= base <= 36
    ensures |DigitsOf(n, base, true)| == |DigitsOf(n, base, false)|
    decreases n
  {
    if n >= base {
      Smaller(n, base);
      DigitCountCase(n / base, base);
    }
  }

  lemma LeadSize(num: Word64, base: nat, width: int, precision: int, flags: Flags, negative: bool)
    requires 2 <= base <= 36
    ensures |LeadText(num, base, width, precision, flags, negative)| == |SignText(flags, negative)|
         + if flags.left || flags.zeroPad then 0 else Max(0, Padding(num, base, width, precision, flags, negative))
  {
    hide SignText;
    hide Padding;
    hide Repeat;
  }

  lemma BodySize(num: Word64, base: nat, width: int, precision: int, flags: Flags, negative: bool)
    requires 2 <= base <= 36
    ensures |BodyText(num, base, width, precision, flags, negative)| == Max(precision, |DigitsOf(num, base, flags.small)|)
         + if flags.left || flags.zeroPad then Max(0, Padding(num, base, width, precision, flags, negative)) else 0
  {
    DigitCountCase(num, base);
    hide DigitsOf;
    hide Padding;
    hide Repeat;
  }

  /** The parts of the text, counted. */
  lemma TextSize(num: Word64, base: nat, width: int, precision: int, flags: Flags, negative: bool)
    requires 2 <= base <= 36
    ensures |NumberText(num, base, width, precision, flags, negative)|
         == |SignText(flags, negative)| + |PrefixText(flags, base)| + Max(precision, |DigitsOf(num, base, flags.small)|)
            + Max(0, Padding(num, base, width, precision, flags, negative))
  {
    LeadSize(num, base, width, precision, flags, negative);
    BodySize(num, base, width, precision, flags, negative);
    hide LeadText;
    hide BodyText;
    hide SignText;
    hide PrefixText;
    hide Padding;
  }

  /** Without a prefix the text is as long as the width, or as sign and digits
      (filled up to the precision) need. */
  lemma TextLength(num: Word64, base: nat, width: int, precision: int, flags: Flags, negative: bool)
    requires 2 <= base <= 36 && !flags.special
    ensures |NumberText(num, base, width, precision, flags, negative)|
         == Max(width, |SignText(flags, negative)| + Max(precision, |DigitsOf(num, base, flags.small)|))
  {
    TextSize(num, base, width, precision, flags, negative);
    DigitCountCase(num, base);
    hide NumberText;
    hide DigitsOf;
    hide SignText;
  }

  /** Fill, zeros and digits. */
  function DigitBlock(num: Word64, base: nat, width: int, precision: int, flags: Flags, negative: bool): string
    requires 2 <= base <= 36
  {
    (if !flags.left && flags.zeroPad then Repeat('0', Padding(num, base, width, precision, flags, negative)) else "")
    + ZerosText(num, base, precision) + DigitsOf(num, base, flags.small)
  }

  /** The block reads back in the base as the number, and has the precision. */
  lemma BlockReadsBack(num: Word64, base: nat, width: int, precision: int, flags: Flags, negative: bool)
    requires 2 <= base <= 36
    ensures Value(DigitBlock(num, base, width, precision, flags, negative), base) == num
    ensures |DigitBlock(num, base, width, precision, flags, negative)| >= precision
  {
    var pad, lack := Padding(num, base, width, precision, flags, negative), precision - |DigitsOf(num, base, false)|;
    var fill := if !flags.left && flags.zeroPad then Repeat('0', pad) else "";
    var zeros, d := Repeat('0', lack), DigitsOf(num, base, flags.small);
    RepeatAll('0', pad);
    RepeatAll('0', lack);
    DigitCountCase(num, base);
    ReadsBack(num, base, flags.small);
    LeadingZeros(zeros, d, base);
    LeadingZeros(fill, zeros + d, base);
    Assoc(fill, zeros, d);
  }

  /** The characters the # flag is charged the second time, when the width is used up. */
  function SpecialCharge(base: nat): nat { if base == 8 then 1 else 2 }

  /** With the # flag a prefix is charged to the width twice, and bases without one are
      charged two characters: the text is as long as the width less that charge, or as
      sign, prefix and digits need. */
  lemma PrefixedLength(num: Word64, base: nat, width: int, precision: int, flags: Flags, negative: bool)
    requires 2 <= base <= 36 && flags.special
    ensures var need := |SignText(flags, negative)| + |PrefixText(flags, base)|
                        + Max(precision, |DigitsOf(num, base, flags.small)|);
      var length := |NumberText(num, base, width, precision, flags, negative)|;
      && length == Max(width - SpecialCharge(base), need)
      && (length == Max(width, need) <==> width <= need)
  {
    TextSize(num, base, width, precision, flags, negative);
    PrefixedPadding(num, base, width, precision, flags, negative);
    hide NumberText;
    hide DigitsOf;
    hide SignText;
    hide PrefixText;
    hide Padding;
  }

  lemma PrefixedPadding(num: Word64, base: nat, width: int, precision: int, flags: Flags, negative: bool)
    requires 2 <= base <= 36 && flags.special
    ensures Padding(num, base, width, precision, flags, negative)
         == width - |PrefixText(flags, base)| - SpecialCharge(base) - |SignText(flags, negative)|
            - Max(precision, |DigitsOf(num, base, flags.small)|)
  {
    DigitCountCase(num, base);
    hide DigitsOf;
    hide SignText;
  }

  /** The text is blanks, sign, prefix, digit block and blanks, with the blanks on one
      side only. */
  lemma TextLayout(num: Word64, base: nat, width: int, precision: int, flags: Flags, negative: bool)
    requires 2 <= base <= 36
    ensures var pad := Padding(num, base, width, precision, flags, negative);
      NumberText(num, base, width, precision, flags, negative)
        == (if flags.left || flags.zeroPad then "" else Repeat(' ', pad)) + SignText(flags, negative)
           + PrefixText(flags, base) + DigitBlock(num, base, width, precision, flags, negative)
           + (if flags.left then Repeat(' ', pad) else "")
  {
    var start := LeadText(num, base, width, precision, flags, negative) + PrefixText(flags, base);
    var after := if flags.left then Repeat(' ', Padding(num, base, width, precision, flags, negative)) else "";
    Assoc(start, DigitBlock(num, base, width, precision, flags, negative), after);
  }

  // ---------- reading a text back ----------

  function SkipBlanks(s: string): string { if s != "" && s[0] == ' ' then SkipBlanks(s[1..]) else s }

  predicate IsDigitIn(c: char, base: nat) {
    ('0' <= c <= '9' || 'A' <= c <= 'Z' || 'a' <= c <= 'z') && DigitValue(c) < base
  }

  /** How many digits of the base a text starts with. */
  function DigitRun(s: string, base: nat): (n: nat)
    ensures n <= |s|
  {
    if s != "" && IsDigitIn(s[0], base) then 1 + DigitRun(s[1..], base) else 0
  }

  datatype Reading = Reading(negative: bool, value: nat, rest: string)

  /** The text behind a hexadecimal prefix that a digit follows. */
  function SkipPrefix(s: string, base: nat): string {
    if base == 16 && |s| > 2 && s[0] == '0' && (s[1] == 'x' || s[1] == 'X') && IsDigitIn(s[2], 16) then s[2..] else s
  }

  /** Reading a number the way strtol does: blanks, a sign, in base 16 a prefix, digits;
      the rest is left. */
  function ReadNumber(s: string, base: nat): Reading {
    var t := SkipBlanks(s);
    var u := SkipPrefix(if t != "" && (t[0] == '-' || t[0] == '+') then t[1..] else t, base);
    Reading(t != "" && t[0] == '-', Value(u[..DigitRun(u, base)], base), u[DigitRun(u, base)..])
  }

  lemma {:induction false} SkipAll(blanks: string, s: string)
    requires forall i :: 0 <= i < |blanks| ==> blanks[i] == ' '
    ensures SkipBlanks(blanks + s) == SkipBlanks(s)
    decreases |blanks|
  {
    if blanks == "" {
      assert blanks + s == s;
    } else {
      assert (blanks + s)[1..] == blanks[1..] + s;
      SkipAll(blanks[1..], s);
    }
  }

  lemma {:induction false} RunOfBlock(block: string, rest: string, base: nat)
    requires forall i :: 0 <= i < |block| ==> IsDigitIn(block[i], base)
    requires rest == "" || !IsDigitIn(rest[0], base)
    ensures DigitRun(block + rest, base) == |block|
    decreases |block|
  {
    if block == "" {
      assert block + rest == rest;
    } else {
      assert (block + rest)[1..] == block[1..] + rest;
      RunOfBlock(block[1..], rest, base);
    }
  }

  lemma DigitCharIn(d: nat, base: nat, small: bool)
    requires d < base <= 36
    ensures IsDigitIn(DigitChar(d, small), base)
  {
    DigitReadsBack(d, small);
    if d < 10 {
    } else if small {
    } else {
    }
  }

  lemma {:induction false} DigitsIn(n: nat, base: nat, small: bool)
    requires 2 <= base <= 36
    ensures forall i :: 0 <= i < |DigitsOf(n, base, small)| ==> IsDigitIn(DigitsOf(n, base, small)[i], base)
    decreases n
  {
    hide IsDigitIn;
    if n < base {
      DigitCharIn(n, base, small);
    } else {
      Smaller(n, base);
      DigitsIn(n / base, base, small);
      DigitCharIn(n % base, base, small);
    }
  }

  lemma BlockIn(num: Word64, base: nat, width: int, precision: int, flags: Flags, negative: bool)
    requires 2 <= base <= 36
    ensures var block := DigitBlock(num, base, width, precision, flags, negative);
      block != "" && forall i :: 0 <= i < |block| ==> IsDigitIn(block[i], base)
  {
    DigitsIn(num, base, flags.small);
    RepeatAll('0', Padding(num, base, width, precision, flags, negative));
    RepeatAll('0', precision - |DigitsOf(num, base, false)|);
    assert IsDigitIn('0', base);
    hide IsDigitIn;
    hide DigitsOf;
    hide Repeat;
    hide Padding;
  }

  /** Behind the sign: a prefix of base 16 is skipped, without one nothing is. */
  lemma PrefixSkipped(prefix: string, block: string, after: string, base: nat)
    requires block != "" && forall i :: 0 <= i < |block| ==> IsDigitIn(block[i], base)
    requires forall i :: 0 <= i < |after| ==> after[i] == ' '
    requires prefix == "" || (base == 16 && (prefix == "0x" || prefix == "0X"))
    ensures SkipPrefix(prefix + (block + after), base) == block + after
  {
    var core := block + after;
    if prefix == "" {
      assert prefix + core == core;
      if |core| > 1 { assert core[1] == if |block| > 1 then block[1] else after[0]; }
    } else {
      assert (prefix + core)[2..] == core && (prefix + core)[2] == block[0];
    }
  }

  /** Behind the blanks: a sign, then what the prefix leaves. */
  lemma SignSkipped(before: string, sign: string, number: string, base: nat)
    requires forall i :: 0 <= i < |before| ==> before[i] == ' '
    requires sign == "" || sign == "-" || sign == "+" || sign == " "
    requires number != "" && number[0] != ' ' && number[0] != '-' && number[0] != '+'
    ensures var u := SkipPrefix(number, base);
      ReadNumber(before + (sign + number), base)
        == Reading(sign == "-", Value(u[..DigitRun(u, base)], base), u[DigitRun(u, base)..])
  {
    hide Value;
    hide DigitRun;
    hide SkipPrefix;
    SkipAll(before, sign + number);
    assert SkipBlanks(number) == number;
    if sign == "" {
      assert sign + number == number;
    } else {
      assert (sign + number)[1..] == number;
    }
  }

  /** Reading sign, prefix and block, blanks around them. */
  lemma SignedBlockReads(before: string, sign: string, prefix: string, block: string, after: string, base: nat)
    requires 2 <= base <= 36 && block != "" && forall i :: 0 <= i < |block| ==> IsDigitIn(block[i], base)
    requires forall i :: 0 <= i < |before| ==> before[i] == ' '
    requires forall i :: 0 <= i < |after| ==> after[i] == ' '
    requires sign == "" || sign == "-" || sign == "+" || sign == " "
    requires prefix == "" || (base == 16 && (prefix == "0x" || prefix == "0X"))
    ensures ReadNumber(before + sign + prefix + block + after, base) == Reading(sign == "-", Value(block, base), after)
  {
    var core := block + after;
    var number := prefix + core;
    RunOfBlock(block, after, base);
    PrefixSkipped(prefix, block, after, base);
    assert number[0] == if prefix == "" then block[0] else '0';
    assert core[..|block|] == block && core[|block|..] == after;
    Assoc(before + sign + prefix, block, after);
    Assoc(before + sign, prefix, core);
    Assoc(before, sign, number);
    hide ReadNumber;
    hide Value;
    hide DigitRun;
    hide SkipPrefix;
    SignSkipped(before, sign, number, base);
  }

  /** The prefix of base 8 reads as one more digit of the block, that of base 16 is the
      one that is skipped. */
  lemma PrefixRole(flags: Flags, base: nat, block: string) returns (prefix: string, digits: string)
    requires 2 <= base <= 36 && block != "" && forall i :: 0 <= i < |block| ==> IsDigitIn(block[i], base)
    ensures prefix + digits == PrefixText(flags, base) + block && digits != ""
    ensures prefix == "" || (base == 16 && (prefix == "0x" || prefix == "0X"))
    ensures Value(digits, base) == Value(block, base) && forall i :: 0 <= i < |digits| ==> IsDigitIn(digits[i], base)
  {
    if base == 8 {
      prefix, digits := "", PrefixText(flags, base) + block;
      LeadingZeros(PrefixText(flags, base), block, base);
      assert prefix + digits == digits;
    } else {
      prefix, digits := PrefixText(flags, base), block;
    }
  }

  /** The whole text reads back as the number, with a minus sign exactly for negative
      signed values, and leaves blanks only, whatever the field. */
  lemma TextReadsBack(num: Word64, base: nat, width: int, precision: int, flags: Flags, negative: bool)
    requires 2 <= base <= 36
    ensures var r := ReadNumber(NumberText(num, base, width, precision, flags, negative), base);
      r.value == num && (r.negative <==> flags.sign && negative) && forall i :: 0 <= i < |r.rest| ==> r.rest[i] == ' '
  {
    var pad := Padding(num, base, width, precision, flags, negative);
    var before := if flags.left || flags.zeroPad then "" else Repeat(' ', pad);
    var after := if flags.left then Repeat(' ', pad) else "";
    var sign, block := SignText(flags, negative), DigitBlock(num, base, width, precision, flags, negative);
    TextLayout(num, base, width, precision, flags, negative);
    BlockIn(num, base, width, precision, flags, negative);
    BlockReadsBack(num, base, width, precision, flags, negative);
    RepeatAll(' ', pad);
    hide NumberText;
    hide DigitBlock;
    hide PrefixText;
    hide Padding;
    hide Repeat;
    hide Value;
    hide IsDigitIn;
    hide ReadNumber;
    var prefix, digits := PrefixRole(flags, base, block);
    Assoc(before + sign, PrefixText(flags, base), block);
    Assoc(before + sign, prefix, digits);
    SignedBlockReads(before, sign, prefix, digits, after, base);
  }

  // ---------- the characters of a text ----------

  /** The sign printed: a minus sign for negative signed numbers, for the others a plus
      sign or a blank as the flags ask, the plus sign first. */
  lemma SignCases(flags: Flags, negative: bool)
    ensures var sign := SignText(flags, negative);
      && (sign == "-" <==> flags.sign && negative)
      && (sign == "+" <==> flags.sign && !negative && flags.plus)
      && (sign == " " <==> flags.sign && !negative && !flags.plus && flags.space)
      && (sign == "" <==> !flags.sign || (!negative && !flags.plus && !flags.space))
  {
  }

  /** The prefix printed: none without the # flag, else 0 in base 8, 0x or 0X in base 16. */
  lemma PrefixCases(flags: Flags, base: nat)
    ensures var prefix := PrefixText(flags, base);
      && (prefix == "0" <==> flags.special && base == 8)
      && (prefix == "0x" <==> flags.special && base == 16 && flags.small)
      && (prefix == "0X" <==> flags.special && base == 16 && !flags.small)
      && (prefix == "" <==> !flags.special || (base != 8 && base != 16))
  {
  }

  /** The text ends in a digit unless it is left-justified, and starts with no blank of
      its padding if it is left-justified or filled with zeros. */
  lemma TextEnds(num: Word64, base: nat, width: int, precision: int, flags: Flags, negative: bool)
    requires 2 <= base <= 36
    ensures var text := NumberText(num, base, width, precision, flags, negative);
      && text != ""
      && (!flags.left ==> IsDigitIn(text[|text| - 1], base))
      && (flags.left || flags.zeroPad ==> SignText(flags, negative) <= text)
      && (flags.left || flags.zeroPad ==> SignText(flags, negative) == "" ==> text[0] != ' ')
  {
    var pad := Padding(num, base, width, precision, flags, negative);
    var before := if flags.left || flags.zeroPad then "" else Repeat(' ', pad);
    var after := if flags.left then Repeat(' ', pad) else "";
    var sign, prefix := SignText(flags, negative), PrefixText(flags, base);
    var block := DigitBlock(num, base, width, precision, flags, negative);
    TextLayout(num, base, width, precision, flags, negative);
    BlockIn(num, base, width, precision, flags, negative);
    assert prefix == "" || prefix[0] == '0';
    assert forall k :: 0 <= k < |block| ==> block[k] != ' ';
    hide NumberText;
    hide SignText;
    hide PrefixText;
    hide DigitBlock;
    hide Padding;
    hide Repeat;
    hide IsDigitIn;
    PartEnds(before, sign, prefix, block, after);
  }

  /** First and last character of five parts in a row. */
  lemma PartEnds(before: string, sign: string, prefix: string, block: string, after: string)
    requires block != ""
    ensures var text := before + sign + prefix + block + after;
      && text != "" && (after == "" ==> text[|text| - 1] == block[|block| - 1])
      && (before == "" ==> sign <= text)
      && (before == sign == "" ==> text[0] == (if prefix == "" then block[0] else prefix[0]))
  {
    var text := before + sign + prefix + block + after;
    if before == "" { assert text[..|sign|] == sign; }
  }

  /** Behind the padding a signed text starts with the sign, or with its prefix or digits
      where no sign is printed. */
  lemma SignShown(num: Word64, base: nat, width: int, precision: int, flags: Flags, negative: bool)
    requires 2 <= base <= 36
    ensures var s := SkipBlanks(NumberText(num, base, width, precision, flags, negative));
      && s != ""
      && (flags.sign && negative ==> s[0] == '-')
      && (flags.sign && !negative && flags.plus ==> s[0] == '+')
      && (!flags.sign || (!negative && !flags.plus) ==> IsDigitIn(s[0], base))
      && (!flags.sign ==> PrefixText(flags, base) <= s)
  {
    var pad := Padding(num, base, width, precision, flags, negative);
    var before := if flags.left || flags.zeroPad then "" else Repeat(' ', pad);
    var after := if flags.left then Repeat(' ', pad) else "";
    var sign, prefix := SignText(flags, negative), PrefixText(flags, base);
    var block := DigitBlock(num, base, width, precision, flags, negative);
    TextLayout(num, base, width, precision, flags, negative);
    BlockIn(num, base, width, precision, flags, negative);
    RepeatAll(' ', pad);
    var rest := prefix + (block + after);
    assert prefix == "" || prefix[0] == '0';
    assert IsDigitIn('0', base);
    Assoc(before + sign + prefix, block, after);
    Assoc(before + sign, prefix, block + after);
    Assoc(before, sign, rest);
    hide NumberText;
    hide DigitBlock;
    hide Padding;
    hide Repeat;
    hide PrefixText;
    assert rest[..|prefix|] == prefix;
    assert IsDigitIn(rest[0], base);
    AfterBlanks(before, sign, rest);
  }

  /** What is left behind blanks and a sign that may be one. */
  lemma AfterBlanks(before: string, sign: string, rest: string)
    requires forall i :: 0 <= i < |before| ==> before[i] == ' '
    requires sign == "" || sign == " " || sign == "-" || sign == "+"
    requires rest != "" && rest[0] != ' '
    ensures SkipBlanks(before + (sign + rest)) == if sign == " " then rest else sign + rest
  {
    SkipAll(before, sign + rest);
    assert SkipBlanks(rest) == rest;
    if sign == " " { SkipAll(sign, rest); } else if sign == "" { assert sign + rest == rest; }
  }

  predicate InCase(s: string, small: bool) {
    forall k :: 0 <= k < |s| ==> if small then !Capital(s[k]) else !SmallLetter(s[k])
  }

  lemma InCaseJoin(s: string, t: string, small: bool)
    requires InCase(s, small) && InCase(t, small)
    ensures InCase(s + t, small)
  {
  }

  lemma InCaseRepeat(c: char, n: int, small: bool)
    requires c == ' ' || c == '0'
    ensures InCase(Repeat(c, n), small)
  {
    RepeatAll(c, n);
  }

  /** With the flag for small letters there is no capital in the text, prefix included,
      without it no small letter. */
  lemma TextCase(num: Word64, base: nat, width: int, precision: int, flags: Flags, negative: bool)
    ensures InCase(NumberText(num, base, width, precision, flags, negative), flags.small)
  {
    if 2 <= base <= 36 {
      var pad := Padding(num, base, width, precision, flags, negative);
      var before := if flags.left || flags.zeroPad then "" else Repeat(' ', pad);
      var after := if flags.left then Repeat(' ', pad) else "";
      var sign, prefix := SignText(flags, negative), PrefixText(flags, base);
      TextLayout(num, base, width, precision, flags, negative);
      BlockCase(num, base, width, precision, flags, negative);
      InCaseRepeat(' ', pad, flags.small);
      assert InCase(sign, flags.small) && InCase(prefix, flags.small) && InCase("", flags.small);
      var block := DigitBlock(num, base, width, precision, flags, negative);
      hide NumberText;
      hide DigitBlock;
      hide Padding;
      hide Repeat;
      hide InCase;
      hide SignText;
      hide PrefixText;
      InCaseJoin(before, sign, flags.small);
      InCaseJoin(before + sign, prefix, flags.small);
      InCaseJoin(before + sign + prefix, block, flags.small);
      InCaseJoin(before + sign + prefix + block, after, flags.small);
    }
  }

  lemma BlockCase(num: Word64, base: nat, width: int, precision: int, flags: Flags, negative: bool)
    requires 2 <= base <= 36
    ensures InCase(DigitBlock(num, base, width, precision, flags, negative), flags.small)
  {
    var pad := Padding(num, base, width, precision, flags, negative);
    var fill := if !flags.left && flags.zeroPad then Repeat('0', pad) else "";
    var zeros, digits := ZerosText(num, base, precision), DigitsOf(num, base, flags.small);
    InCaseRepeat('0', pad, flags.small);
    InCaseRepeat('0', precision - |DigitsOf(num, base, false)|, flags.small);
    DigitCase(num, base, flags.small);
    assert InCase(digits, flags.small) && InCase("", flags.small);
    hide Repeat;
    hide DigitsOf;
    hide InCase;
    InCaseJoin(fill, zeros, flags.small);
    InCaseJoin(fill + zeros, digits, flags.small);
  }

  /** Leading zeros do not change a value. */
  lemma {:induction false} LeadingZeros(zeros: string, s: string, base: nat)
    requires forall i :: 0 <= i < |zeros| ==> zeros[i] == '0'
    ensures Value(zeros + s, base) == Value(s, base)
    decreases |zeros| + |s|
  {
    if s != "" {
      LeadingZeros(zeros, s[..|s| - 1], base);
      assert (zeros + s)[..|zeros + s| - 1] == zeros + s[..|s| - 1];
    } else if zeros != "" {
      LeadingZeros(zeros[..|zeros| - 1], "", base);
      assert zeros[..|zeros| - 1] + "" == zeros[..|zeros| - 1] && zeros + "" == zeros;
    }
  }

  lemma {:induction false} RepeatAll(c: char, n: int)
    ensures forall i :: 0 <= i < |Repeat(c, n)| ==> Repeat(c, n)[i] == c
    decreases n
  {
    if n > 0 { RepeatAll(c, n - 1); }
  }

  /** Without a prefix, what is written in a small room is the text cut off. */
  lemma EmitIsPrefix(room: nat, num: Word64, base: nat, width: int, precision: int, flags: Flags, negative: bool)
    requires PrefixText(flags, base) == ""
    ensures NumberEmit(room, num, base, width, precision, flags, negative)
         == Take(NumberText(num, base, width, precision, flags, negative), room)
  {
    if 2 <= base <= 36 {
      hide LeadText;
      hide BodyText;
      var lead := LeadText(num, base, width, precision, flags, negative);
      TakeTwice(lead, BodyText(num, base, width, precision, flags, negative), room);
      assert lead + "" == lead && Take(lead, room) + "" == Take(lead, room);
    }
  }

  lemma BodyNotEmpty(num: Word64, base: nat, width: int, precision: int, flags: Flags, negative: bool)
    requires 2 <= base <= 36
    ensures BodyText(num, base, width, precision, flags, negative) != ""
  {
  }

  /** A two-character prefix that is written whole or not at all. */
  lemma EmitCut(lead: string, prefix: string, body: string, room: nat)
    requires |prefix| == 2 && body != ""
    ensures Emit(lead, prefix, body, room) == Take(lead + prefix + body, room)
      <==> !(room == |lead| + 1 && body[0] != prefix[0])
    ensures room == |lead| + 1 ==> Emit(lead, prefix, body, room) == lead + [body[0]]
  {
    var text, out := lead + prefix + body, Emit(lead, prefix, body, room);
    if room == |lead| + 1 {
      assert out == lead + Take(body, 1);
      assert Take(text, room) == lead + [prefix[0]];
      assert out[|lead|] == body[0];
    } else if room <= |lead| {
      assert Take(text, room) == Take(lead, room) == out;
    } else {
      TakeTwice(lead + prefix, body, room);
    }
  }

  /** With the 0x prefix what is written is the text cut off, unless exactly one
      character of room is left at the prefix and the number does not go on with
      a zero. */
  lemma EmitWithPrefix(room: nat, num: Word64, width: int, precision: int, flags: Flags, negative: bool)
    requires flags.special
    ensures BodyText(num, 16, width, precision, flags, negative) != ""
    ensures NumberEmit(room, num, 16, width, precision, flags, negative)
        == Take(NumberText(num, 16, width, precision, flags, negative), room)
      <==> !(room == |LeadText(num, 16, width, precision, flags, negative)| + 1
             && BodyText(num, 16, width, precision, flags, negative)[0] != '0')
    ensures room == |LeadText(num, 16, width, precision, flags, negative)| + 1 ==>
              NumberEmit(room, num, 16, width, precision, flags, negative)
                == LeadText(num, 16, width, precision, flags, negative)
                   + [BodyText(num, 16, width, precision, flags, negative)[0]]
  {
    BodyNotEmpty(num, 16, width, precision, flags, negative);
    hide LeadText;
    hide BodyText;
    EmitCut(LeadText(num, 16, width, precision, flags, negative), PrefixText(flags, 16),
            BodyText(num, 16, width, precision, flags, negative), room);
  }
}
