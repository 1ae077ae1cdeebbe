/** The directives of a format string: how they are scanned, what each one stands
    for, and the whole text of a format (ISO C11, sections 7.21.6.1 and 7.21.6.12,
    with the kernel's differences). */
module FormatScan {
  import opened Digits
  import opened NumberFormat

  /** A C string without its terminating NUL. */
  type CString = s: string | forall i :: 0 <= i < |s| ==> s[i] != '\0'

  /** Reading a C string; its NUL lies right behind it. */
  function At(s: string, i: nat): char
    requires i <= |s|
  {
    if i < |s| then s[i] else '\0'
  }

  const NO_FLAGS: Flags := Flags(false, false, false, false, false, false, false)

  /** A field width or precision as written: nothing, an asterisk, a number. */
  datatype Num = Absent | Star | Given(n: nat)

  /** A directive as written, up to the position of its conversion character.
      qualifier is '2' for ll and NUL for none. */
  datatype Shape = Shape(flags: Flags, width: Num, precision: Num, qualifier: char, at: nat)

  predicate IsFlag(c: char) { c == '-' || c == '+' || c == ' ' || c == '#' || c == '0' }

  predicate IsDigit(c: char) { '0' <= c <= '9' }

  function WithFlag(f: Flags, c: char): Flags {
    if c == '-' then f.(left := true)
    else if c == '+' then f.(plus := true)
    else if c == ' ' then f.(space := true)
    else if c == '#' then f.(special := true)
    else if c == '0' then f.(zeroPad := true)
    else f
  }

  function FlagsFrom(fmt: string, i: nat, f: Flags): (r: (Flags, nat))
    requires i <= |fmt|
    ensures i <= r.1 <= |fmt| && !IsFlag(At(fmt, r.1))
    decreases |fmt| - i
  {
    if IsFlag(At(fmt, i)) then FlagsFrom(fmt, i + 1, WithFlag(f, fmt[i])) else (f, i)
  }

  function NumberFrom(fmt: string, i: nat, value: nat): (r: (nat, nat))
    requires i <= |fmt|
    ensures i <= r.1 <= |fmt| && !IsDigit(At(fmt, r.1))
    decreases |fmt| - i
  {
    if IsDigit(At(fmt, i)) then NumberFrom(fmt, i + 1, value * 10 + (fmt[i] as nat - '0' as nat)) else (value, i)
  }

  function WidthFrom(fmt: string, i: nat): (r: (Num, nat))
    requires i <= |fmt|
    ensures i <= r.1 <= |fmt|
  {
    if At(fmt, i) == '*' then (Star, i + 1)
    else if IsDigit(At(fmt, i)) then var (n, j) := NumberFrom(fmt, i, 0); (Given(n), j)
    else (Absent, i)
  }

  /** A point without a number means precision zero. */
  function PrecisionFrom(fmt: string, i: nat): (r: (Num, nat))
    requires i <= |fmt|
    ensures i <= r.1 <= |fmt|
  {
    if At(fmt, i) != '.' then (Absent, i)
    else
      var (n, j) := WidthFrom(fmt, i + 1);
      (if n == Absent then Given(0) else n, j)
  }

  function QualifierFrom(fmt: string, i: nat): (r: (char, nat))
    requires i <= |fmt|
    ensures i <= r.1 <= |fmt|
  {
    var c := At(fmt, i);
    if c == 'l' && At(fmt, i + 1) == 'l' then ('2', i + 2)
    else if c == 'h' || c == 'l' || c == 'L' then (c, i + 1)
    else ('\0', i)
  }

  /** The directive that starts with the percent sign at i. */
  function ShapeAt(fmt: string, i: nat): (r: Shape)
    requires i < |fmt|
    ensures i < r.at <= |fmt|
  {
    var (flags, j) := FlagsFrom(fmt, i + 1, NO_FLAGS);
    var (width, k) := WidthFrom(fmt, j);
    var (precision, l) := PrecisionFrom(fmt, k);
    var (qualifier, m) := QualifierFrom(fmt, l);
    Shape(flags, width, precision, qualifier, m)
  }

  // ---------- scanning inverts writing ----------

  function FlagString(on: bool, c: char): string { if on then [c] else "" }

  function FlagsString(f: Flags): string {
    FlagString(f.left, '-') + FlagString(f.plus, '+') + FlagString(f.space, ' ')
    + FlagString(f.special, '#') + FlagString(f.zeroPad, '0')
  }

  function NumString(n: Num): string {
    match n case Absent => "" case Star => "*" case Given(v) => DigitsOf(v, 10, false)
  }

  function QualifierString(c: char): string { if c == '2' then "ll" else if c == '\0' then "" else [c] }

  function PrecisionString(n: Num): string { if n == Absent then "" else "." + NumString(n) }

  /** A directive written out, without its conversion character. */
  function Written(d: Shape): string {
    "%" + FlagsString(d.flags) + NumString(d.width) + PrecisionString(d.precision) + QualifierString(d.qualifier)
  }

  /** Directives as they are spelled. */
  lemma Spelled()
    ensures Written(Shape(NO_FLAGS, Absent, Absent, '\0', 0)) == "%"
    ensures Written(Shape(NO_FLAGS.(left := true), Given(7), Absent, 'l', 0)) == "%-7l"
    ensures Written(Shape(NO_FLAGS.(plus := true), Star, Given(0), '2', 0)) == "%+*.0ll"
    ensures Written(Shape(NO_FLAGS.(space := true), Absent, Star, 'h', 0)) == "% .*h"
    ensures Written(Shape(NO_FLAGS.(special := true), Absent, Absent, 'L', 0)) == "%#L"
    ensures Written(Shape(NO_FLAGS.(zeroPad := true), Given(8), Absent, '\0', 0)) == "%08"
  {
    assert DigitsOf(7, 10, false) == "7" && DigitsOf(0, 10, false) == "0" && DigitsOf(8, 10, false) == "8";
  }

  /** A point with no number behind it means precision zero. */
  lemma BarePoint(fmt: string, i: nat)
    requires i < |fmt| && fmt[i] == '.' && At(fmt, i + 1) != '*' && !IsDigit(At(fmt, i + 1))
    ensures PrecisionFrom(fmt, i) == (Given(0), i + 1)
  {
  }

  /** What can end a directive: no character that would still be scanned. */
  predicate Conversion(c: char) {
    !IsFlag(c) && !IsDigit(c) && c != '*' && c != '.' && c != 'h' && c != 'l' && c != 'L'
  }

  /** The directives that can be written: a width of zero reads as a flag, and sign
      and case are set by conversions only. */
  predicate Writable(d: Shape) {
    && !d.flags.sign && !d.flags.small
    && d.width != Given(0)
    && (d.qualifier == '\0' || d.qualifier == 'h' || d.qualifier == 'l' || d.qualifier == 'L' || d.qualifier == '2')
  }

  predicate HasAt(fmt: string, i: nat, s: string) {
    i + |s| <= |fmt| && forall k: nat :: k < |s| ==> fmt[i + k] == s[k]
  }

  lemma HasAtSplit(fmt: string, i: nat, s: string, t: string)
    requires HasAt(fmt, i, s + t)
    ensures HasAt(fmt, i, s) && HasAt(fmt, i + |s|, t)
  {
    forall k: nat | k < |s|
      ensures fmt[i + k] == s[k]
    {
      assert (s + t)[k] == s[k];
    }
    forall k: nat | k < |t|
      ensures fmt[i + |s| + k] == t[k]
    {
      assert (s + t)[|s| + k] == t[k];
    }
  }

  lemma HasAtChar(fmt: string, i: nat, s: string)
    requires HasAt(fmt, i, s) && s != ""
    ensures At(fmt, i) == s[0]
  {
    assert fmt[i + 0] == s[0];
  }

  /** Five strings in a row, and where each but the first starts. */
  lemma HasAtParts(fmt: string, i: nat, s1: string, s2: string, s3: string, s4: string, s5: string)
    returns (j: nat, k: nat, l: nat, m: nat)
    requires HasAt(fmt, i, s1 + s2 + s3 + s4 + s5)
    ensures HasAt(fmt, j, s2) && j == i + |s1|
    ensures HasAt(fmt, k, s3) && k == j + |s2|
    ensures HasAt(fmt, l, s4) && l == k + |s3|
    ensures HasAt(fmt, m, s5) && m == l + |s4|
    ensures m + |s5| == i + |s1 + s2 + s3 + s4 + s5|
  {
    HasAtSplit(fmt, i, s1 + s2 + s3 + s4, s5);
    HasAtSplit(fmt, i, s1 + s2 + s3, s4);
    HasAtSplit(fmt, i, s1 + s2, s3);
    HasAtSplit(fmt, i, s1, s2);
    j, k, l, m := i + |s1|, i + |s1 + s2|, i + |s1 + s2 + s3|, i + |s1 + s2 + s3 + s4|;
  }

  /** The flags set by the characters of s. */
  function FlagsSet(s: string): Flags {
    if s == "" then NO_FLAGS else WithFlag(FlagsSet(s[..|s| - 1]), s[|s| - 1])
  }

  lemma OneFlag(s: string, on: bool, c: char)
    ensures FlagsSet(s + FlagString(on, c)) == if on then WithFlag(FlagsSet(s), c) else FlagsSet(s)
  {
    if on {
      assert (s + [c])[..|s|] == s;
    } else {
      assert s + "" == s;
    }
  }

  lemma FlagsOfString(f: Flags)
    requires !f.sign && !f.small
    ensures FlagsSet(FlagsString(f)) == f
  {
    var s1, s2, s3 := FlagString(f.left, '-'), FlagString(f.plus, '+'), FlagString(f.space, ' ');
    var s4, s5 := FlagString(f.special, '#'), FlagString(f.zeroPad, '0');
    assert "" + s1 == s1 && FlagsSet("") == NO_FLAGS;
    OneFlag("", f.left, '-');
    hide FlagsSet;
    hide FlagString;
    assert FlagsSet(s1) == NO_FLAGS.(left := f.left);
    OneFlag(s1, f.plus, '+');
    OneFlag(s1 + s2, f.space, ' ');
    OneFlag(s1 + s2 + s3, f.special, '#');
    OneFlag(s1 + s2 + s3 + s4, f.zeroPad, '0');
  }

  lemma {:induction false} FlagsPrefix(fmt: string, i: nat, j: nat)
    requires i <= j <= |fmt| && forall k :: i <= k < j ==> IsFlag(fmt[k])
    ensures FlagsFrom(fmt, i, NO_FLAGS) == FlagsFrom(fmt, j, FlagsSet(fmt[i..j]))
    decreases j
  {
    if i == j {
      assert fmt[i..j] == "";
    } else {
      FlagsPrefix(fmt, i, j - 1);
      assert fmt[i..j][..j - 1 - i] == fmt[i..j - 1];
    }
  }

  lemma AllFlags(f: Flags)
    ensures forall k :: 0 <= k < |FlagsString(f)| ==> IsFlag(FlagsString(f)[k])
  {
  }

  lemma FlagsReadBack(fmt: string, i: nat, f: Flags)
    requires HasAt(fmt, i, FlagsString(f)) && !IsFlag(At(fmt, i + |FlagsString(f)|)) && !f.sign && !f.small
    ensures FlagsFrom(fmt, i, NO_FLAGS) == (f, i + |FlagsString(f)|)
  {
    var s := FlagsString(f);
    var j := i + |s|;
    AllFlags(f);
    forall k | i <= k < j
      ensures IsFlag(fmt[k])
    {
      assert fmt[i + (k - i)] == s[k - i];
    }
    FlagsPrefix(fmt, i, j);
    assert fmt[i..j] == s;
    FlagsOfString(f);
  }

  lemma {:induction false} DigitsAreDigits(n: nat)
    ensures forall k :: 0 <= k < |DigitsOf(n, 10, false)| ==> IsDigit(DigitsOf(n, 10, false)[k])
    decreases n
  {
    if n >= 10 { DigitsAreDigits(n / 10); }
  }

  /** Reading digits up to j has the value of those digits. */
  lemma {:induction false} NumberPrefix(fmt: string, i: nat, j: nat)
    requires i <= j <= |fmt| && forall k :: i <= k < j ==> IsDigit(fmt[k])
    ensures NumberFrom(fmt, i, 0) == NumberFrom(fmt, j, Value(fmt[i..j], 10))
    decreases j
  {
    if i == j {
      assert fmt[i..j] == "";
    } else {
      NumberPrefix(fmt, i, j - 1);
      ValueOfPush(fmt[i..j - 1], 10, fmt[j - 1]);
      assert fmt[i..j] == fmt[i..j - 1] + [fmt[j - 1]];
    }
  }

  lemma NumberReadsBack(fmt: string, i: nat, n: nat)
    requires HasAt(fmt, i, DigitsOf(n, 10, false)) && !IsDigit(At(fmt, i + |DigitsOf(n, 10, false)|))
    ensures NumberFrom(fmt, i, 0) == (n, i + |DigitsOf(n, 10, false)|)
    ensures IsDigit(At(fmt, i)) && (n > 0 ==> At(fmt, i) != '0')
  {
    var s := DigitsOf(n, 10, false);
    var j := i + |s|;
    DigitsAreDigits(n);
    forall k | i <= k < j
      ensures IsDigit(fmt[k])
    {
      assert fmt[i + (k - i)] == s[k - i];
    }
    NumberPrefix(fmt, i, j);
    assert fmt[i..j] == s;
    ReadsBack(n, 10, false);
    HasAtChar(fmt, i, s);
    if n > 0 { NoLeadingZero(n, 10, false); }
  }

  lemma NumReadsBack(fmt: string, i: nat, n: Num)
    requires HasAt(fmt, i, NumString(n)) && !IsDigit(At(fmt, i + |NumString(n)|))
    requires n == Absent ==> At(fmt, i) != '*'
    ensures WidthFrom(fmt, i) == (n, i + |NumString(n)|)
  {
    match n
    case Absent =>
    case Star => HasAtChar(fmt, i, "*");
    case Given(v) => NumberReadsBack(fmt, i, v);
  }

  lemma QualifierReadsBack(fmt: string, i: nat, q: char, conversion: char)
    requires q == '\0' || q == 'h' || q == 'l' || q == 'L' || q == '2'
    requires HasAt(fmt, i, QualifierString(q)) && Conversion(conversion)
    requires At(fmt, i + |QualifierString(q)|) == conversion
    ensures QualifierFrom(fmt, i) == (q, i + |QualifierString(q)|)
    ensures !IsDigit(At(fmt, i)) && !IsFlag(At(fmt, i)) && At(fmt, i) != '*' && At(fmt, i) != '.'
  {
    if q != '\0' { HasAtChar(fmt, i, QualifierString(q)); }
    if q == '2' { assert fmt[i + 1] == "ll"[1]; }
  }

  lemma PrecisionReadsBack(fmt: string, i: nat, n: Num)
    requires HasAt(fmt, i, PrecisionString(n))
    requires var c := At(fmt, i + |PrecisionString(n)|); !IsDigit(c) && !IsFlag(c) && c != '*' && c != '.'
    ensures PrecisionFrom(fmt, i) == (n, i + |PrecisionString(n)|)
    ensures !IsDigit(At(fmt, i)) && !IsFlag(At(fmt, i)) && At(fmt, i) != '*'
  {
    if n != Absent {
      HasAtSplit(fmt, i, ".", NumString(n));
      HasAtChar(fmt, i, ".");
      NumReadsBack(fmt, i + 1, n);
    }
  }

  /** A width other than zero starts with no flag character. */
  lemma WidthReadsBack(fmt: string, i: nat, n: Num)
    requires n != Given(0) && HasAt(fmt, i, NumString(n))
    requires var c := At(fmt, i + |NumString(n)|); !IsDigit(c) && !IsFlag(c) && c != '*'
    ensures WidthFrom(fmt, i) == (n, i + |NumString(n)|) && !IsFlag(At(fmt, i))
  {
    NumReadsBack(fmt, i, n);
    if n.Given? {
      NumberReadsBack(fmt, i, n.n);
    } else if n.Star? {
      HasAtChar(fmt, i, "*");
    }
  }

  /** Precision and qualifier; what stands before them sees no digit, flag or star. */
  lemma TailReadsBack(fmt: string, k: nat, precision: Num, q: char, conversion: char, l: nat, m: nat)
    requires q == '\0' || q == 'h' || q == 'l' || q == 'L' || q == '2'
    requires HasAt(fmt, k, PrecisionString(precision)) && l == k + |PrecisionString(precision)|
    requires HasAt(fmt, l, QualifierString(q)) && m == l + |QualifierString(q)|
    requires Conversion(conversion) && At(fmt, m) == conversion
    ensures PrecisionFrom(fmt, k) == (precision, l) && QualifierFrom(fmt, l) == (q, m)
    ensures !IsDigit(At(fmt, k)) && !IsFlag(At(fmt, k)) && At(fmt, k) != '*'
  {
    QualifierReadsBack(fmt, l, q, conversion);
    PrecisionReadsBack(fmt, k, precision);
  }

  lemma FrontReadsBack(fmt: string, i: nat, d: Shape, j: nat, k: nat)
    requires !d.flags.sign && !d.flags.small && d.width != Given(0)
    requires HasAt(fmt, i, FlagsString(d.flags)) && j == i + |FlagsString(d.flags)|
    requires HasAt(fmt, j, NumString(d.width)) && k == j + |NumString(d.width)|
    requires !IsDigit(At(fmt, k)) && !IsFlag(At(fmt, k)) && At(fmt, k) != '*'
    ensures FlagsFrom(fmt, i, NO_FLAGS) == (d.flags, j) && WidthFrom(fmt, j) == (d.width, k)
  {
    WidthReadsBack(fmt, j, d.width);
    FlagsReadBack(fmt, i, d.flags);
  }

  /** The parts of a directive, one after the other. */
  lemma PartsReadBack(fmt: string, i: nat, d: Shape, conversion: char, j: nat, k: nat, l: nat, m: nat)
    requires Writable(d) && Conversion(conversion) && i < |fmt|
    requires HasAt(fmt, i + 1, FlagsString(d.flags)) && j == i + 1 + |FlagsString(d.flags)|
    requires HasAt(fmt, j, NumString(d.width)) && k == j + |NumString(d.width)|
    requires HasAt(fmt, k, PrecisionString(d.precision)) && l == k + |PrecisionString(d.precision)|
    requires HasAt(fmt, l, QualifierString(d.qualifier)) && m == l + |QualifierString(d.qualifier)|
    requires At(fmt, m) == conversion
    ensures ShapeAt(fmt, i) == d.(at := m)
  {
    hide HasAt;
    hide FlagsString;
    hide NumString;
    hide PrecisionString;
    hide QualifierString;
    hide FlagsFrom;
    TailReadsBack(fmt, k, d.precision, d.qualifier, conversion, l, m);
    FrontReadsBack(fmt, i + 1, d, j, k);
  }

  lemma WrittenParts(fmt: string, i: nat, d: Shape) returns (j: nat, k: nat, l: nat, m: nat)
    requires HasAt(fmt, i, Written(d))
    ensures j == i + 1 && HasAt(fmt, j, FlagsString(d.flags)) && k == j + |FlagsString(d.flags)|
    ensures HasAt(fmt, k, NumString(d.width)) && l == k + |NumString(d.width)|
    ensures HasAt(fmt, l, PrecisionString(d.precision)) && m == l + |PrecisionString(d.precision)|
    ensures HasAt(fmt, m, QualifierString(d.qualifier)) && i + |Written(d)| == m + |QualifierString(d.qualifier)|
  {
    j, k, l, m := HasAtParts(fmt, i, "%", FlagsString(d.flags), NumString(d.width), PrecisionString(d.precision),
                             QualifierString(d.qualifier));
  }

  /** Scanning a written directive gives the directive back. */
  lemma ShapeReadsBack(fmt: string, i: nat, d: Shape, conversion: char)
    requires Writable(d) && Conversion(conversion) && HasAt(fmt, i, Written(d) + [conversion])
    ensures ShapeAt(fmt, i) == d.(at := i + |Written(d)|)
    ensures At(fmt, i + |Written(d)|) == conversion
  {
    hide Written;
    hide HasAt;
    hide ShapeAt;
    HasAtSplit(fmt, i, Written(d), [conversion]);
    HasAtChar(fmt, i + |Written(d)|, [conversion]);
    var j, k, l, m := WrittenParts(fmt, i, d);
    PartsReadBack(fmt, i, d, conversion, k, l, m, i + |Written(d)|);
  }
}
