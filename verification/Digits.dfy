/** Digits of a number in a base, and reading them back; the loader's decimal
    and hexadecimal printers. */
module Digits {
  import opened MachineTypes
  import opened Arithmetic

  const UPPER: string := "0123456789ABCDEFGHIJKLMNOPQRSTUVWXYZ"
  const LOWER: string := "0123456789abcdefghijklmnopqrstuvwxyz"

  function DigitChar(d: nat, small: bool): char
    requires d < 36
  {
    if small then LOWER[d] else UPPER[d]
  }

  /** The value of a digit in either case. */
  function DigitValue(c: char): nat {
    if '0' <= c <= '9' then c as nat - '0' as nat
    else if 'A' <= c <= 'Z' then c as nat - 'A' as nat + 10
    else if 'a' <= c <= 'z' then c as nat - 'a' as nat + 10
    else 0
  }

  lemma DigitReadsBack(d: nat, small: bool)
    requires d < 36
    ensures DigitValue(DigitChar(d, small)) == d
    ensures DigitChar(d, small) == '0' <==> d == 0
  {
    if d < 10 {
    } else if small {
    } else {
    }
  }

  /** Reading a digit string in a base. */
  function Value(s: string, base: nat): nat {
    if s == "" then 0 else Value(s[..|s| - 1], base) * base + DigitValue(s[|s| - 1])
  }

  /** The digits of n, most significant first. */
  function DigitsOf(n: nat, base: nat, small: bool): (s: string)
    requires 2 <= base <= 36
    ensures |s| > 0
    decreases n
  {
    if n < base then [DigitChar(n, small)]
    else
      Smaller(n, base);
      DigitsOf(n / base, base, small) + [DigitChar(n % base, small)]
  }

  lemma Smaller(n: nat, base: nat)
    requires 2 <= base <= n
    ensures 0 < n / base < n
  {
    var q := n / base;
    assert n == q * base + n % base;
    ProductAtLeast(q, base);
  }

  lemma ProductAtLeast(q: int, base: int)
    requires base >= 2
    ensures q >= 1 ==> q * base >= 2 * q
    ensures q <= 0 ==> q * base <= 0
  {
  }

  /** The digits read back give the number. */
  lemma {:induction false} ReadsBack(n: nat, base: nat, small: bool)
    requires 2 <= base <= 36
    ensures Value(DigitsOf(n, base, small), base) == n
    decreases n
  {
    if n < base {
      DigitReadsBack(n, small);
      ValueOfPush("", base, DigitChar(n, small));
      assert "" + [DigitChar(n, small)] == [DigitChar(n, small)];
    } else {
      Smaller(n, base);
      ReadsBack(n / base, base, small);
      DigitReadsBack(n % base, small);
      ValueOfPush(DigitsOf(n / base, base, small), base, DigitChar(n % base, small));
      assert n == n / base * base + n % base;
    }
  }

  predicate Capital(c: char) { 'A' <= c <= 'Z' }

  predicate SmallLetter(c: char) { 'a' <= c <= 'z' }

  /** Digits above nine are small letters or capitals, as asked for. */
  lemma {:induction false} DigitCase(n: nat, base: nat, small: bool)
    requires 2 <= base <= 36
    ensures forall k :: 0 <= k < |DigitsOf(n, base, small)| ==>
              '0' <= DigitsOf(n, base, small)[k] <= '9'
              || (if small then SmallLetter(DigitsOf(n, base, small)[k]) else Capital(DigitsOf(n, base, small)[k]))
    decreases n
  {
    if n < base {
      DigitCharCase(n, small);
    } else {
      Smaller(n, base);
      DigitCase(n / base, base, small);
      DigitCharCase(n % base, small);
    }
  }

  lemma DigitCharCase(d: nat, small: bool)
    requires d < 36
    ensures var c := DigitChar(d, small); '0' <= c <= '9' || (if small then SmallLetter(c) else Capital(c))
  {
    if d < 10 {
    } else if small {
    } else {
    }
  }

  lemma ValueOfPush(s: string, base: nat, c: char)
    ensures Value(s + [c], base) == Value(s, base) * base + DigitValue(c)
  {
    assert (s + [c])[..|s|] == s;
  }

  /** No leading zero but for the number zero. */
  lemma {:induction false} NoLeadingZero(n: nat, base: nat, small: bool)
    requires 2 <= base <= 36 && n > 0
    ensures DigitsOf(n, base, small)[0] != '0'
    decreases n
  {
    if n < base {
      DigitReadsBack(n, small);
    } else {
      Smaller(n, base);
      NoLeadingZero(n / base, base, small);
    }
  }

  function Power(base: nat, k: nat): nat { if k == 0 then 1 else base * Power(base, k - 1) }

  /** A number below base^k has at most k digits. */
  lemma {:induction false} DigitCount(n: nat, base: nat, small: bool, k: nat)
    requires 2 <= base <= 36 && k > 0 && n < Power(base, k)
    ensures |DigitsOf(n, base, small)| <= k
    decreases n
  {
    if n >= base {
      assert Power(base, 1) == base;
      Smaller(n, base);
      QuotientBound(n, base, Power(base, k - 1));
      DigitCount(n / base, base, small, k - 1);
    }
  }

  lemma QuotientBound(n: nat, base: nat, p: nat)
    requires base > 0 && n < base * p
    ensures n / base < p
  {
    var q := n / base;
    assert n == q * base + n % base;
    ProductOrder(p, q, base);
  }

  lemma {:induction false} PowerMonotone(a: nat, b: nat, k: nat)
    requires a <= b
    ensures Power(a, k) <= Power(b, k)
    decreases k
  {
    if k > 0 {
      PowerMonotone(a, b, k - 1);
      ProductOrder(Power(a, k - 1), Power(b, k - 1), a);
      ProductOrder(a, b, Power(b, k - 1));
    }
  }

  lemma {:induction false} PowerSum(a: nat, j: nat, k: nat)
    ensures Power(a, j + k) == Power(a, j) * Power(a, k)
    decreases j
  {
    if j > 0 {
      PowerSum(a, j - 1, k);
      assert Power(a, j + k) == a * Power(a, j - 1 + k);
    }
  }

  lemma Power64()
    ensures Power(2, 64) == 0x1_0000_0000_0000_0000
  {
    assert Power(2, 8) == 0x100;
    PowerSum(2, 8, 8);
    PowerSum(2, 16, 16);
    PowerSum(2, 32, 32);
  }

  /** 64-bit values have at most 64 digits in every base. */
  lemma AtMost64(n: nat, base: nat, small: bool)
    requires 2 <= base <= 36 && n < 0x1_0000_0000_0000_0000
    ensures |DigitsOf(n, base, small)| <= 64
  {
    Power64();
    PowerMonotone(2, base, 64);
    DigitCount(n, base, small, 64);
  }

  // ---------- the loader's printers ----------

  lemma Assoc(a: string, b: string, c: string)
    ensures (a + b) + c == a + (b + c)
  {
  }

  /** print_dec: digits are pushed on a stack and popped in reverse. */
  method PrintDec(ax0: Word) returns (out: string)
    ensures out == DigitsOf(ax0, 10, false)
    ensures Value(out, 10) == ax0
  {
    var ax, stack: string := ax0, "";
    var cx := 0;
    ghost var want := DigitsOf(ax0, 10, false);
    var more := true;
    assert Reverse(stack) == "" && want + "" == want;
    hide DigitsOf;
    hide Reverse;
    while more
      invariant cx == |stack|
      invariant want == (if more then DigitsOf(ax, 10, false) else "") + Reverse(stack)
      decreases more, ax
    {
      var dl := '0' + (ax % 10) as char;
      DecimalPush(ax, dl);
      ReversePush(stack, dl);
      Assoc(if ax >= 10 then DigitsOf(ax / 10, 10, false) else "", [dl], Reverse(stack));
      ax := ax / 10;
      stack := stack + [dl];
      cx := cx + 1;
      more := ax != 0;
    }
    out := "";
    assert stack[..cx] == stack && "" + Reverse(stack) == Reverse(stack);
    while cx > 0
      invariant 0 <= cx <= |stack| && out + Reverse(stack[..cx]) == want
    {
      var top := stack[cx - 1];
      assert stack[..cx] == stack[..cx - 1] + [top];
      ReversePush(stack[..cx - 1], top);
      Assoc(out, [top], Reverse(stack[..cx - 1]));
      out := out + [top];
      cx := cx - 1;
    }
    ReversedNothing(stack[..0]);
    assert out + "" == out;
    ReadsBack(ax0, 10, false);
  }

  lemma DecimalPush(n: nat, c: char)
    requires c == '0' + (n % 10) as char
    ensures DigitsOf(n, 10, false) == (if n >= 10 then DigitsOf(n / 10, 10, false) else "") + [c]
  {
    assert c == DigitChar(n % 10, false);
    if n < 10 { assert "" + [c] == [c]; }
  }

  lemma ReversedNothing(s: string)
    requires s == ""
    ensures Reverse(s) == ""
  {
  }

  function Reverse(s: string): string { if s == "" then "" else [s[|s| - 1]] + Reverse(s[..|s| - 1]) }

  lemma ReversePush(s: string, c: char)
    ensures Reverse(s + [c]) == [c] + Reverse(s)
  {
    assert (s + [c])[..|s|] == s;
  }

  /** The place values of a 16-bit word's nibbles. */
  function Place(k: nat): nat
    requires k <= 4
  {
    if k == 0 then 1 else if k == 1 then 0x10 else if k == 2 then 0x100 else if k == 3 then 0x1000 else 0x1_0000
  }

  /** Shifting the top nibble out leaves the rest, moved up one place. */
  lemma NibbleStep(lo: nat, cx: nat, bx: nat)
    requires 1 <= cx <= 4 && lo < Place(cx) && bx == lo * Place(4 - cx)
    ensures bx / 0x1000 % 0x10 == lo / Place(cx - 1)
    ensures bx * 16 % 0x1_0000 == lo % Place(cx - 1) * Place(5 - cx)
  {
    if cx == 1 {
    } else if cx == 2 {
    } else if cx == 3 {
    } else {
    }
  }

  lemma NibbleValue(ax: nat, v: nat, lo: nat, cx: nat)
    requires 1 <= cx <= 4 && lo < Place(cx) && ax == v * Place(cx) + lo
    ensures lo / Place(cx - 1) < 16 && lo % Place(cx - 1) < Place(cx - 1)
    ensures ax == (v * 16 + lo / Place(cx - 1)) * Place(cx - 1) + lo % Place(cx - 1)
  {
    if cx == 1 {
    } else if cx == 2 {
    } else if cx == 3 {
    } else {
    }
  }

  function HexChar(d: nat): (c: char)
    requires d < 16
    ensures DigitValue(c) == d && ('0' <= c <= '9' || Capital(c))
  {
    if d <= 9 then '0' + d as char else 'A' + (d - 10) as char
  }

  /** One turn: the top nibble is printed, the rest moves up. */
  lemma HexStep(ax: nat, out: string, lo: nat, cx: nat, bx: nat, c: char)
    requires 1 <= cx <= 4 && lo < Place(cx) && bx == lo * Place(4 - cx) && ax == Value(out, 16) * Place(cx) + lo
    requires DigitValue(c) == bx / 0x1000 % 0x10
    ensures lo % Place(cx - 1) < Place(cx - 1) && bx * 16 % 0x1_0000 == lo % Place(cx - 1) * Place(4 - (cx - 1))
    ensures ax == Value(out + [c], 16) * Place(cx - 1) + lo % Place(cx - 1)
  {
    NibbleStep(lo, cx, bx);
    NibbleValue(ax, Value(out, 16), lo, cx);
    hide Place;
    hide Value;
    ValueOfPush(out, 16, c);
  }

  /** print_hex16: four digits from the top nibble down. */
  method PrintHex16(ax: Word) returns (out: string)
    ensures |out| == 4 && Value(out, 16) == ax
    ensures forall k :: 0 <= k < 4 ==> '0' <= out[k] <= '9' || Capital(out[k])
  {
    out := "";
    var bx: int, cx := ax, 4;
    ghost var lo: nat := ax;
    while cx != 0
      invariant 0 <= cx <= 4 && |out| == 4 - cx
      invariant forall k :: 0 <= k < |out| ==> '0' <= out[k] <= '9' || Capital(out[k])
      invariant lo < Place(cx) && bx == lo * Place(4 - cx)
      invariant ax == Value(out, 16) * Place(cx) + lo
      decreases cx
    {
      var dl := HexChar(bx / 0x1000 % 0x10);
      HexStep(ax, out, lo, cx, bx, dl);
      out := out + [dl];
      bx := bx * 16 % 0x1_0000;
      lo := lo % Place(cx - 1);
      cx := cx - 1;
    }
  }
}
