/** The formatter's number routine as it runs: a scratch array of reversed digits
    and guarded writes that stop at the end of the buffer. */
module NumberWriter {
  import opened MachineTypes
  import opened Digits
  import opened NumberFormat

  const SCRATCH: nat := 72

  /** Buffer b with s written from at. */
  function Put(b: seq<char>, at: nat, s: string): (r: seq<char>)
    requires at + |s| <= |b|
    ensures |r| == |b|
  {
    b[..at] + s + b[at + |s|..]
  }

  lemma PutTwice(b: seq<char>, at: nat, s: string, t: string)
    requires at + |s| + |t| <= |b|
    ensures Put(Put(b, at, s), at + |s|, t) == Put(b, at, s + t)
  {
  }

  lemma PutNothing(b: seq<char>, at: nat)
    requires at <= |b|
    ensures Put(b, at, "") == b
  {
  }

  /** What guarded writes of s from str leave, and where they stop. */
  ghost predicate Wrote(before: seq<char>, after: seq<char>, str: nat, str': nat, s: string) {
    str + |s| <= |before| && str' == str + |s| && after == Put(before, str, s)
  }

  lemma WroteTwice(b0: seq<char>, b1: seq<char>, b2: seq<char>, p0: nat, p1: nat, p2: nat, s: string, t: string)
    requires Wrote(b0, b1, p0, p1, s) && Wrote(b1, b2, p1, p2, t)
    ensures Wrote(b0, b2, p0, p2, s + t)
  {
    PutTwice(b0, p0, s, t);
  }

  /** Two guarded writes, one after the other. */
  lemma WroteTake(b0: seq<char>, b1: seq<char>, b2: seq<char>, p0: nat, p1: nat, p2: nat, end: nat, s: string, t: string)
    requires p0 <= end && p1 <= end
    requires Wrote(b0, b1, p0, p1, Take(s, end - p0)) && Wrote(b1, b2, p1, p2, Take(t, end - p1))
    ensures Wrote(b0, b2, p0, p2, Take(s + t, end - p0))
  {
    WroteTwice(b0, b1, b2, p0, p1, p2, Take(s, end - p0), Take(t, end - p1));
    TakeTwice(s, t, end - p0);
  }

  /** Lead, prefix and body written one after the other. */
  lemma WroteEmit(b0: seq<char>, b1: seq<char>, b2: seq<char>, b3: seq<char>, p0: nat, p1: nat, p2: nat, p3: nat,
                  end: nat, lead: string, prefix: string, body: string)
    requires p0 <= end && p1 <= end && p2 <= end
    requires Wrote(b0, b1, p0, p1, Take(lead, end - p0))
    requires Wrote(b1, b2, p1, p2, if |prefix| <= end - p1 then prefix else "")
    requires Wrote(b2, b3, p2, p3, Take(body, end - p2))
    ensures Wrote(b0, b3, p0, p3, Emit(lead, prefix, body, end - p0))
  {
    var l, p, b := Take(lead, end - p0), if |prefix| <= end - p1 then prefix else "", Take(body, end - p2);
    hide Put;
    hide Take;
    WroteTwice(b0, b1, b2, p0, p1, p2, l, p);
    WroteTwice(b0, b2, b3, p0, p2, p3, l + p, b);
  }

  lemma PutOne(b: seq<char>, at: nat, c: char)
    requires at < |b|
    ensures b[at := c] == Put(b, at, [c])
  {
  }

  /** One more character after a text. */
  lemma WroteOne(b0: seq<char>, b1: seq<char>, p0: nat, p1: nat, s: string, c: char)
    requires Wrote(b0, b1, p0, p1, s) && p1 < |b1|
    ensures Wrote(b0, b1[p1 := c], p0, p1 + 1, s + [c])
  {
    PutOne(b1, p1, c);
    PutTwice(b0, p0, s, [c]);
  }

  /** while (n-- > 0 && str < end) *str++ = c; */
  method Fill(buf: array<char>, str: nat, end: nat, c: char, n: int) returns (str': nat)
    requires str <= end <= buf.Length
    modifies buf
    ensures Wrote(old(buf[..]), buf[..], str, str', Take(Repeat(c, n), end - str))
  {
    hide Put;
    str' := str;
    var left := n;
    ghost var done, before := 0, buf[..];
    PutNothing(before, str);
    while left > 0 && str' < end
      invariant str' <= end && left == n - done && (done == 0 || done <= n)
      invariant Wrote(before, buf[..], str, str', Repeat(c, done))
      decreases left
    {
      WroteOne(before, buf[..], str, str', Repeat(c, done), c);
      buf[str'] := c;
      str' := str' + 1;
      left := left - 1;
      done := done + 1;
    }
    RepeatTake(c, n, done, end - str);
  }

  lemma {:induction false} RepeatTake(c: char, n: int, done: nat, room: nat)
    requires done == if n <= 0 then 0 else if n <= room then n else room
    ensures Take(Repeat(c, n), room) == Repeat(c, done)
    decreases n
  {
    if n > room {
      assert Take(Repeat(c, n), room) == Take(Repeat(c, n - 1), room);
      RepeatTake(c, n - 1, room, room);
    }
  }

  /** if (str < end) *str++ = c; */
  method PutChar(buf: array<char>, str: nat, end: nat, c: char) returns (str': nat)
    requires str <= end <= buf.Length
    modifies buf
    ensures Wrote(old(buf[..]), buf[..], str, str', Take([c], end - str))
  {
    str' := str;
    PutNothing(buf[..], str);
    if str < end {
      buf[str] := c;
      str' := str + 1;
    }
  }

  /** The reversed digits of num; the scratch array is never full before the
      number is used up. */
  method Reversed(num: Word64, base: nat, small: bool) returns (tmp: string)
    requires 2 <= base <= 36
    ensures Reverse(tmp) == DigitsOf(num, base, small) && |tmp| <= 64 < SCRATCH
  {
    AtMost64(num, base, small);
    ghost var want := DigitsOf(num, base, small);
    tmp := "";
    if num == 0 {
      tmp := [DigitChar(0, small)];
      ReversePush("", DigitChar(0, small));
      return;
    }
    var n: nat := num;
    while n != 0 && |tmp| < SCRATCH
      invariant want == if n == 0 then Reverse(tmp) else DigitsOf(n, base, small) + Reverse(tmp)
      decreases n
    {
      var c := DigitChar(n % base, small);
      ReversePush(tmp, c);
      if n >= base {
        Smaller(n, base);
        Assoc(DigitsOf(n / base, base, small), [c], Reverse(tmp));
      } else {
        QuotientZero(n, base);
      }
      ReverseLength(tmp);
      tmp := tmp + [c];
      n := n / base;
    }
    ReverseLength(tmp);
  }

  lemma QuotientZero(n: nat, base: nat)
    requires n < base
    ensures n / base == 0 && n % base == n
  {
  }

  lemma {:induction false} ReverseLength(s: string)
    ensures |Reverse(s)| == |s|
    decreases |s|
  {
    if s != "" { ReverseLength(s[..|s| - 1]); }
  }

  /** while (i-- > 0 && str < end) *str++ = tmp[i]; */
  method PutReversed(buf: array<char>, str: nat, end: nat, tmp: string) returns (str': nat)
    requires str <= end <= buf.Length
    modifies buf
    ensures Wrote(old(buf[..]), buf[..], str, str', Take(Reverse(tmp), end - str))
  {
    hide Put;
    str' := str;
    var i := |tmp|;
    ghost var done, before := "", buf[..];
    PutNothing(before, str);
    assert tmp[..i] == tmp && "" + Reverse(tmp) == Reverse(tmp);
    while i > 0 && str' < end
      invariant 0 <= i <= |tmp| && str' <= end
      invariant Reverse(tmp) == done + Reverse(tmp[..i])
      invariant Wrote(before, buf[..], str, str', done)
      decreases i
    {
      i := i - 1;
      WroteOne(before, buf[..], str, str', done, tmp[i]);
      buf[str'] := tmp[i];
      assert tmp[..i + 1][..i] == tmp[..i];
      Assoc(done, [tmp[i]], Reverse(tmp[..i]));
      done := done + [tmp[i]];
      str' := str' + 1;
    }
    assert done <= Reverse(tmp);
    if i == 0 { assert done + "" == done; }
  }

  method PutNumber(buf: array<char>, str: nat, end: nat, num: Word64, base: nat, width: int, precision: int,
                   flags: Flags, negative: bool) returns (str': nat)
    requires str <= end <= buf.Length && 2 <= base <= 36
    modifies buf
    ensures Wrote(old(buf[..]), buf[..], str, str',
              Emit(LeadText(num, base, width, precision, flags, negative), PrefixText(flags, base),
                   BodyText(num, base, width, precision, flags, negative), end - str))
  {
    hide *;
    var tmp := Reversed(num, base, flags.small);
    ReverseLength(tmp);
    PaddingFrom(num, base, width, precision, flags, negative);
    var i := |tmp|;
    var prec := if i > precision then i else precision;
    var w := width;
    if flags.special {
      if base == 8 { w := w - 1; } else if base == 16 { w := w - 2; }
    }
    var sign := SignText(flags, negative);
    w := w - |sign| - prec - (if flags.special then (if base == 8 then 1 else 2) else 0);
    LayoutLead(num, base, width, precision, flags, negative);
    LayoutBody(num, base, width, precision, flags, negative, tmp);
    ShortTexts(flags, negative, base);
    str' := Layout(buf, str, end, if flags.left || flags.zeroPad then 0 else w, sign, PrefixText(flags, base),
                   if !flags.left && flags.zeroPad then w else 0, prec - i, tmp, if flags.left then w else 0);
  }

  /** number: returns the new position. */
  method Number(buf: array<char>, str: nat, end: nat, num: Word64, base: nat, width: int, precision: int,
                flags: Flags, negative: bool) returns (str': nat)
    requires str <= end <= buf.Length
    modifies buf
    ensures Wrote(old(buf[..]), buf[..], str, str',
              NumberEmit(end - str, num, base, width, precision, flags, negative))
  {
    PutNothing(buf[..], str);
    if base < 2 || base > 36 { return str; }
    str' := PutNumber(buf, str, end, num, base, width, precision, flags, negative);
  }

  lemma ShortTexts(flags: Flags, negative: bool, base: nat)
    ensures |SignText(flags, negative)| <= 1 && |PrefixText(flags, base)| <= 2
  {
  }

  /** The padding from the number of digits in the case asked for. */
  lemma PaddingFrom(num: Word64, base: nat, width: int, precision: int, flags: Flags, negative: bool)
    requires 2 <= base <= 36
    ensures var i := |DigitsOf(num, base, flags.small)|;
      Padding(num, base, width, precision, flags, negative)
        == width - (if !flags.special then 0 else if base == 8 then 2 else if base == 16 then 4 else 2)
           - |SignText(flags, negative)| - (if i > precision then i else precision)
  {
    DigitCountCase(num, base);
  }

  lemma LayoutLead(num: Word64, base: nat, width: int, precision: int, flags: Flags, negative: bool)
    requires 2 <= base <= 36
    ensures var w := Padding(num, base, width, precision, flags, negative);
      LeadText(num, base, width, precision, flags, negative)
        == Repeat(' ', if flags.left || flags.zeroPad then 0 else w) + SignText(flags, negative)
  {
    NoRepeat(' ', 0);
    hide Repeat;
    hide Padding;
  }

  lemma LayoutBody(num: Word64, base: nat, width: int, precision: int, flags: Flags, negative: bool, tmp: string)
    requires 2 <= base <= 36 && Reverse(tmp) == DigitsOf(num, base, flags.small)
    ensures var w := Padding(num, base, width, precision, flags, negative);
      var prec := if |tmp| > precision then |tmp| else precision;
      BodyText(num, base, width, precision, flags, negative)
        == Repeat('0', if !flags.left && flags.zeroPad then w else 0) + Repeat('0', prec - |tmp|) + Reverse(tmp)
           + Repeat(' ', if flags.left then w else 0)
  {
    ReverseLength(tmp);
    DigitCountCase(num, base);
    NoRepeat('0', precision - |tmp|);
    NoRepeat(' ', 0);
    NoRepeat('0', 0);
    var prec := if |tmp| > precision then |tmp| else precision;
    assert ZerosText(num, base, precision) == Repeat('0', prec - |tmp|);
    hide Repeat;
    hide DigitsOf;
    hide Padding;
    hide Reverse;
    hide ZerosText;
  }

  lemma NoRepeat(c: char, n: int)
    ensures n <= 0 ==> Repeat(c, n) == ""
  {
  }

  /** Lead, prefix and body in turn. */
  method Layout(buf: array<char>, str: nat, end: nat, lead: int, sign: string, prefix: string,
                fill: int, zeros: int, tmp: string, trail: int) returns (str': nat)
    requires str <= end <= buf.Length && |sign| <= 1 && |prefix| <= 2
    modifies buf
    ensures Wrote(old(buf[..]), buf[..], str, str', Emit(Repeat(' ', lead) + sign, prefix,
              Repeat('0', fill) + Repeat('0', zeros) + Reverse(tmp) + Repeat(' ', trail), end - str))
  {
    hide *;
    ghost var b0 := buf[..];
    str' := PutLead(buf, str, end, lead, sign);
    ghost var b1, p1 := buf[..], str';
    str' := PutPrefix(buf, str', end, prefix);
    ghost var b2, p2 := buf[..], str';
    str' := PutBody(buf, str', end, fill, zeros, tmp, trail);
    WroteEmit(b0, b1, b2, buf[..], str, p1, p2, str', end, Repeat(' ', lead) + sign, prefix,
              Repeat('0', fill) + Repeat('0', zeros) + Reverse(tmp) + Repeat(' ', trail));
  }

  /** Leading blanks, then the sign. */
  method PutLead(buf: array<char>, str: nat, end: nat, blanks: int, sign: string) returns (str': nat)
    requires str <= end <= buf.Length && |sign| <= 1
    modifies buf
    ensures Wrote(old(buf[..]), buf[..], str, str', Take(Repeat(' ', blanks) + sign, end - str))
  {
    ghost var b0 := buf[..];
    str' := Fill(buf, str, end, ' ', blanks);
    ghost var b1, p1 := buf[..], str';
    str' := PutSign(buf, str', end, sign);
    WroteTake(b0, b1, buf[..], str, p1, str', end, Repeat(' ', blanks), sign);
  }

  method PutSign(buf: array<char>, str: nat, end: nat, sign: string) returns (str': nat)
    requires str <= end <= buf.Length && |sign| <= 1
    modifies buf
    ensures Wrote(old(buf[..]), buf[..], str, str', Take(sign, end - str))
  {
    if sign == "" {
      PutNothing(buf[..], str);
      return str;
    }
    assert sign == [sign[0]];
    str' := PutChar(buf, str, end, sign[0]);
  }

  /** The prefix, whole or not at all. */
  method PutPrefix(buf: array<char>, str: nat, end: nat, prefix: string) returns (str': nat)
    requires str <= end <= buf.Length && |prefix| <= 2
    modifies buf
    ensures Wrote(old(buf[..]), buf[..], str, str', if |prefix| <= end - str then prefix else "")
  {
    str' := str;
    PutNothing(buf[..], str);
    if |prefix| == 1 && str < end {
      buf[str] := prefix[0];
      str' := str + 1;
    } else if |prefix| == 2 && str + 1 < end {
      buf[str], buf[str + 1] := prefix[0], prefix[1];
      str' := str + 2;
      assert buf[..] == Put(old(buf[..]), str, prefix);
    }
  }

  /** Zero fill, precision zeros, digits, trailing blanks. */
  method PutBody(buf: array<char>, str: nat, end: nat, fill: int, zeros: int, tmp: string, blanks: int)
    returns (str': nat)
    requires str <= end <= buf.Length
    modifies buf
    ensures Wrote(old(buf[..]), buf[..], str, str',
              Take(Repeat('0', fill) + Repeat('0', zeros) + Reverse(tmp) + Repeat(' ', blanks), end - str))
  {
    ghost var b0 := buf[..];
    ghost var s1, s2, s3, s4 := Repeat('0', fill), Repeat('0', zeros), Reverse(tmp), Repeat(' ', blanks);
    str' := Fill(buf, str, end, '0', fill);
    ghost var b1, p1 := buf[..], str';
    str' := Fill(buf, str', end, '0', zeros);
    ghost var b2, p2 := buf[..], str';
    WroteTake(b0, b1, b2, str, p1, p2, end, s1, s2);
    str' := PutReversed(buf, str', end, tmp);
    ghost var b3, p3 := buf[..], str';
    WroteTake(b0, b2, b3, str, p2, p3, end, s1 + s2, s3);
    str' := Fill(buf, str', end, ' ', blanks);
    WroteTake(b0, b3, buf[..], str, p3, str', end, s1 + s2 + s3, s4);
  }
}
