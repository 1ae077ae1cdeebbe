/** vsnprintf as it runs: the format is scanned character by character and every
    write stops at the end of the buffer. */
module FormatWriter {
  import opened MachineTypes
  import opened NumberFormat
  import opened FormatScan
  import opened NumberWriter
  import opened Formatter

  method ScanFlags(fmt: CString, i: nat) returns (flags: Flags, j: nat)
    requires i <= |fmt|
    ensures (flags, j) == FlagsFrom(fmt, i, NO_FLAGS) && j <= |fmt|
  {
    flags, j := NO_FLAGS, i;
    while IsFlag(At(fmt, j))
      invariant j <= |fmt| && FlagsFrom(fmt, j, flags) == FlagsFrom(fmt, i, NO_FLAGS)
      decreases |fmt| - j
    {
      var c := At(fmt, j);
      if c == '-' { flags := flags.(left := true); }
      else if c == '+' { flags := flags.(plus := true); }
      else if c == ' ' { flags := flags.(space := true); }
      else if c == '#' { flags := flags.(special := true); }
      else { flags := flags.(zeroPad := true); }
      j := j + 1;
    }
  }

  method ScanNumber(fmt: CString, i: nat) returns (n: nat, j: nat)
    requires i <= |fmt|
    ensures (n, j) == NumberFrom(fmt, i, 0) && j <= |fmt|
  {
    n, j := 0, i;
    while IsDigit(At(fmt, j))
      invariant j <= |fmt| && NumberFrom(fmt, j, n) == NumberFrom(fmt, i, 0)
      decreases |fmt| - j
    {
      n := n * 10 + (At(fmt, j) as nat - '0' as nat);
      j := j + 1;
    }
  }

  method ScanWidth(fmt: CString, i: nat, flags0: Flags, args: Args, a: nat)
    returns (width: int, flags: Flags, j: nat, arg: nat)
    requires i <= |fmt|
    ensures var (n, k) := WidthFrom(fmt, i);
      width == WidthOf(n, args.slot(a)) && flags == WidthFlags(flags0, n, args.slot(a)) && j == k && arg == NextArg(n, a)
  {
    width, flags, j, arg := -1, flags0, i, a;
    if At(fmt, j) == '*' {
      j := j + 1;
      width := Int32(args.slot(arg));
      arg := arg + 1;
      if width < 0 {
        width := -width;
        flags := flags.(left := true);
      }
    } else if IsDigit(At(fmt, j)) {
      width, j := ScanNumber(fmt, j);
    }
  }

  method ScanPrecision(fmt: CString, i: nat, args: Args, a: nat) returns (precision: int, j: nat, arg: nat)
    requires i <= |fmt|
    ensures var (n, k) := PrecisionFrom(fmt, i);
      precision == PrecisionOf(n, args.slot(a)) && j == k && arg == NextArg(n, a)
  {
    precision, j, arg := -1, i, a;
    if At(fmt, j) == '.' {
      j := j + 1;
      if At(fmt, j) == '*' {
        j := j + 1;
        precision := Int32(args.slot(arg));
        arg := arg + 1;
      } else if IsDigit(At(fmt, j)) {
        precision, j := ScanNumber(fmt, j);
      }
      if precision < 0 { precision := 0; }
    }
  }

  method ScanQualifier(fmt: CString, i: nat) returns (qualifier: char, j: nat)
    requires i <= |fmt|
    ensures (qualifier, j) == QualifierFrom(fmt, i)
  {
    qualifier, j := '\0', i;
    if At(fmt, j) == 'h' || At(fmt, j) == 'l' || At(fmt, j) == 'L' {
      qualifier := At(fmt, j);
      j := j + 1;
      if qualifier == 'l' && At(fmt, j) == 'l' {
        qualifier := '2';
        j := j + 1;
      }
    }
  }

  /** Flags, width, precision and qualifier of the directive at i, asterisks taken
      from the arguments on the way. */
  method ScanField(fmt: CString, i: nat, args: Args, a: nat) returns (f: Field, qualifier: char, j: nat)
    requires i < |fmt|
    ensures var d := ShapeAt(fmt, i);
      f == FieldOf(d.flags, d.width, d.precision, args, a) && qualifier == d.qualifier && j == d.at
  {
    var flags, width, precision, arg;
    flags, j := ScanFlags(fmt, i + 1);
    width, flags, j, arg := ScanWidth(fmt, j, flags, args, a);
    precision, j, arg := ScanPrecision(fmt, j, args, arg);
    qualifier, j := ScanQualifier(fmt, j);
    f := Field(width, precision, flags, arg);
  }

  /** memcpy of what fits. */
  method PutText(buf: array<char>, str: nat, end: nat, s: string) returns (str': nat)
    requires str <= end <= buf.Length
    modifies buf
    ensures Wrote(old(buf[..]), buf[..], str, str', Take(s, end - str))
  {
    var n := if str + |s| <= end then |s| else end - str;
    forall k | 0 <= k < n {
      buf[str + k] := s[k];
    }
    str' := str + n;
    assert buf[..] == Put(old(buf[..]), str, Take(s, n));
  }

  method PutJustified(buf: array<char>, str: nat, end: nat, s: string, width: int, left: bool) returns (str': nat)
    requires str <= end <= buf.Length
    modifies buf
    ensures Wrote(old(buf[..]), buf[..], str, str', Take(Justified(s, width, left), end - str))
  {
    var padding := width - |s|;
    ghost var b0 := buf[..];
    ghost var before, after := if left then "" else Repeat(' ', padding), if left then Repeat(' ', padding) else "";
    str' := Fill(buf, str, end, ' ', if left then 0 else padding);
    ghost var b1, p1 := buf[..], str';
    str' := PutText(buf, str', end, s);
    ghost var b2, p2 := buf[..], str';
    WroteTake(b0, b1, b2, str, p1, p2, end, before, s);
    str' := Fill(buf, str', end, ' ', if left then padding else 0);
    WroteTake(b0, b2, buf[..], str, p2, str', end, before + s, after);
  }

  /** What a piece leaves in the buffer. */
  ghost predicate WrotePiece(before: seq<char>, after: seq<char>, str: nat, str': nat, end: nat, p: Piece) {
    str <= end && Wrote(before, after, str, str', PieceEmit(p, end - str))
  }

  method PutSigned(buf: array<char>, str: nat, end: nat, w: Word64, qualifier: char, f: Field, ghost next: nat)
    returns (str': nat)
    requires str <= end <= buf.Length
    modifies buf
    ensures WrotePiece(old(buf[..]), buf[..], str, str', end, SignedPiece(w, qualifier, f, next))
  {
    var v := Signed(w, qualifier);
    str' := NumberWriter.Number(buf, str, end, if v < 0 then -v else v, 10, f.width, f.precision,
                                f.flags.(sign := true), v < 0);
  }

  method PutUnsigned(buf: array<char>, str: nat, end: nat, w: Word64, qualifier: char, f: Field, small: bool,
                     ghost next: nat) returns (str': nat)
    requires str <= end <= buf.Length
    modifies buf
    ensures WrotePiece(old(buf[..]), buf[..], str, str', end, UnsignedPiece(w, qualifier, f, small, next))
  {
    str' := NumberWriter.Number(buf, str, end, Unsigned(w, qualifier), 16, f.width, f.precision,
                                f.flags.(small := small), false);
  }

  method PutPointer(buf: array<char>, str: nat, end: nat, w: Word64, f: Field, ghost next: nat) returns (str': nat)
    requires str <= end <= buf.Length
    modifies buf
    ensures WrotePiece(old(buf[..]), buf[..], str, str', end, PointerPiece(w, f, next))
  {
    str' := NumberWriter.Number(buf, str, end, w, 16, POINTER_WIDTH, f.precision,
                   f.flags.(special := true, small := true, zeroPad := true), false);
  }

  /** The switch over the conversion character. */
  method PutConversion(buf: array<char>, str: nat, end: nat, c: char, qualifier: char, f: Field, args: Args,
                       start: nat, j: nat) returns (str': nat, next: nat, arg: nat)
    requires str <= end <= buf.Length
    modifies buf
    ensures var p := Convert(c, qualifier, f, args, start, j + 1);
      WrotePiece(old(buf[..]), buf[..], str, str', end, p) && next == p.next && arg == p.arg
  {
    var w := args.slot(f.arg);
    str', next, arg := str, j + 1, f.arg + 1;
    if c == 'c' {
      str' := PutJustified(buf, str, end, [(w % 0x100) as char], f.width, f.flags.left);
    } else if c == 's' {
      str' := PutJustified(buf, str, end, StringText(w, args, f.precision), f.width, f.flags.left);
    } else if c == 'p' {
      str' := PutPointer(buf, str, end, w, f, j + 1);
    } else if c == 'd' || c == 'i' {
      str' := PutSigned(buf, str, end, w, qualifier, f, j + 1);
    } else if c == 'u' || c == 'o' || c == 'x' {
      str' := PutUnsigned(buf, str, end, w, qualifier, f, true, j + 1);
    } else if c == 'X' {
      str' := PutUnsigned(buf, str, end, w, qualifier, f, false, j + 1);
    } else if c == 'n' {
      PutNothing(buf[..], str);
    } else {
      arg := f.arg;
      next := if c == '%' then j + 1 else start + 1;
      str' := PutChar(buf, str, end, '%');
    }
  }

  method PutDirective(buf: array<char>, str: nat, end: nat, fmt: CString, i: nat, args: Args, a: nat)
    returns (str': nat, next: nat, arg: nat)
    requires str <= end <= buf.Length && i < |fmt|
    modifies buf
    ensures var p := DirectiveAt(fmt, i, args, a);
      WrotePiece(old(buf[..]), buf[..], str, str', end, p) && next == p.next && arg == p.arg
  {
    hide ShapeAt;
    hide FieldOf;
    hide Convert;
    hide WrotePiece;
    var f, qualifier, j := ScanField(fmt, i, args, a);
    str', next, arg := PutConversion(buf, str, end, At(fmt, j), qualifier, f, args, i, j);
  }

  /** One turn of the loop over the format. */
  method PutPiece(buf: array<char>, str: nat, end: nat, fmt: CString, i: nat, args: Args, a: nat)
    returns (str': nat, next: nat, arg: nat)
    requires str <= end <= buf.Length && i < |fmt|
    modifies buf
    ensures var p := PieceAt(fmt, i, args, a);
      WrotePiece(old(buf[..]), buf[..], str, str', end, p) && next == p.next && arg == p.arg
  {
    if fmt[i] != '%' {
      str' := PutChar(buf, str, end, fmt[i]);
      next, arg := i + 1, a;
    } else {
      str', next, arg := PutDirective(buf, str, end, fmt, i, args, a);
    }
  }

  lemma NothingLeft(fmt: CString, args: Args, i: nat, a: nat, room: nat)
    requires i >= |fmt| || room == 0
    ensures OutputFrom(fmt, args, i, a, room) == ""
  {
  }

  /** One turn, seen from the text still to be written. */
  method PutStep(buf: array<char>, str: nat, end: nat, fmt: CString, i: nat, args: Args, a: nat)
    returns (str': nat, next: nat, arg: nat, ghost out: string)
    requires str < end <= buf.Length && i < |fmt|
    modifies buf
    ensures Wrote(old(buf[..]), buf[..], str, str', out) && i < next <= |fmt| && |out| <= end - str
    ensures OutputFrom(fmt, args, i, a, end - str) == out + OutputFrom(fmt, args, next, arg, end - str')
  {
    hide PieceAt;
    hide OutputFrom;
    hide PieceEmit;
    OutputStep(fmt, args, i, a, end - str);
    out := PieceEmit(PieceAt(fmt, i, args, a), end - str);
    str', next, arg := PutPiece(buf, str, end, fmt, i, args, a);
  }

  /** The loop over the format. */
  method PutAll(buf: array<char>, size: nat, fmt: CString, args: Args) returns (str: nat)
    requires size <= buf.Length
    modifies buf
    ensures Wrote(old(buf[..]), buf[..], 0, str, OutputFrom(fmt, args, 0, 0, size))
  {
    hide OutputFrom;
    hide Put;
    ghost var done, before, all := "", buf[..], OutputFrom(fmt, args, 0, 0, size);
    var i: nat, a: nat := 0, 0;
    str := 0;
    PutNothing(buf[..], 0);
    while i < |fmt| && str < size
      invariant i <= |fmt| && str <= size && Wrote(before, buf[..], 0, str, done)
      invariant all == done + OutputFrom(fmt, args, i, a, size - str)
      decreases |fmt| - i
    {
      ghost var b1, p1, out := buf[..], str, "";
      str, i, a, out := PutStep(buf, str, size, fmt, i, args, a);
      WroteTwice(before, b1, buf[..], 0, p1, str, done, out);
      done := done + out;
    }
    NothingLeft(fmt, args, i, a, size - str);
    assert all == done + "" == done;
  }

  /** vsnprintf. The terminator goes right behind the text, which is one past the
      size when the text fills the buffer. */
  method Vsnprintf(buf: array<char>, size: nat, fmt: CString, args: Args) returns (n: int)
    requires size < buf.Length
    modifies buf
    ensures size == 0 ==> n == 0 && buf[..] == old(buf[..])
    ensures size > 0 ==> var out := OutputFrom(fmt, args, 0, 0, size);
      && buf[..] == Put(old(buf[..]), 0, out + "\0")
      && n == if |out| < size then |out| else size - 1
  {
    hide OutputFrom;
    if size == 0 { return 0; }
    ghost var before := buf[..];
    var str := PutAll(buf, size, fmt, args);
    ghost var b1 := buf[..];
    buf[str] := '\0';
    WroteTwice(before, b1, buf[..], 0, str, str + 1, OutputFrom(fmt, args, 0, 0, size), "\0");
    n := if str < size then str else size - 1;
  }
}
