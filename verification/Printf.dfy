/** vprintfmt of lib/print.c: the loop over literal text and directives. */
module Printf {
  import opened Common
  import opened PrintNum

  /** A variadic argument: an int or long, or a string. */
  datatype Arg = Num(n: int) | Text(s: string)

  /** What stands between '%' and the conversion character. */
  datatype Flags = Flags(ladjust: bool, zero: bool, width: nat, long: bool)

  /** The argument as the unsigned long that print_num takes. */
  function Unsigned(n: int): nat { n % WORD }

  predicate IsInt(n: int) { -0x8000_0000 <= n < 0x8000_0000 }

  // ----- one directive -----

  function Literal(fmt: string): (lit: string)
    ensures |lit| <= |fmt| && lit == fmt[..|lit|] && '%' !in lit && (|lit| < |fmt| ==> fmt[|lit|] == '%')
  {
    if fmt == "" || fmt[0] == '%' then "" else [fmt[0]] + Literal(fmt[1..])
  }

  predicate Starts(s: string, c: char) { s != "" && s[0] == c }

  function Skip(s: string, yes: bool): (r: string)
    requires yes ==> s != ""
    ensures |r| <= |s|
  {
    if yes then s[1..] else s
  }

  predicate Decimal(c: char) { '0' <= c <= '9' }

  /** The decimal width at the front of s, on top of acc, and what follows it. */
  function Width(s: string, acc: nat): (r: (nat, string))
    ensures |r.1| <= |s|
  {
    if s == "" || !Decimal(s[0]) then (acc, s) else Width(s[1..], acc * 10 + (s[0] - '0') as nat)
  }

  function Directive(s: string): (r: (Flags, string))
    ensures |r.1| <= |s|
  {
    var ladjust := Starts(s, '-');
    var s1 := Skip(s, ladjust);
    var zero := Starts(s1, '0');
    var (width, s3) := Width(Skip(s1, zero), 0);
    var long := Starts(s3, 'l');
    (Flags(ladjust, zero, width, long), Skip(s3, long))
  }

  /** A string or character between spaces. */
  function Field(s: string, width: nat, ladjust: bool): (r: string)
    ensures |r| == Max(width, |s|)
    ensures if ladjust then r[..|s|] == s && forall i :: |s| <= i < |r| ==> r[i] == ' '
            else r[|r| - |s|..] == s && forall i :: 0 <= i < |r| - |s| ==> r[i] == ' '
  {
    var pad := Repeat(' ', Max(width, |s|) - |s|);
    if ladjust then s + pad else pad + s
  }

  /** The text of one conversion and the arguments that are left; None when the argument is missing or of the other
    * kind. */
  function Convert(f: Flags, c: char, args: seq<Arg>): Option<(string, seq<Arg>)> {
    if !IsConversion(c) then Some(([c], args))
    else if args == [] || args[0].Text? != (c == 's') then None
    else if c == 's' then Some((Field(args[0].s, f.width, f.ladjust), args[1..]))
    else if !IsInt(args[0].n) then None
    else if c == 'c' then Some((Field([Byte(args[0].n)], f.width, f.ladjust), args[1..]))
    else Some((Number(f, c, args[0].n), args[1..]))
  }

  /** (char)n */
  function Byte(n: int): char { (n % 256) as char }

  predicate IsConversion(c: char) { c in "bdDoOuUxXcs" }

  function Base(c: char): nat {
    if c == 'b' then 2 else if c == 'o' || c == 'O' then 8 else if c == 'x' || c == 'X' then 16 else 10
  }

  function Number(f: Flags, c: char, n: int): string
    requires IsInt(n)
  {
    var neg := (c == 'd' || c == 'D') && n < 0;
    Layout(if neg then Magnitude(n) else Unsigned(n), Base(c), neg, f.width, f.ladjust, if f.zero then '0'
    else ' ', c == 'X')
  }

  /** What a conversion prints is, read back in the base that C gives it, the argument: %d as a signed number, the
    * others as the unsigned number with the same 32 bits. Letters are capitals for %X alone, and flags decide on
    * which side the padding stands and whether it is zeros. */
  lemma ConversionReads(f: Flags, c: char, n: int, rest: seq<Arg>)
    requires IsInt(n) && Numeral(c)
    ensures Convert(f, c, [Num(n)] + rest).Some?
    ensures var (text, left) := Convert(f, c, [Num(n)] + rest).value;
            var u := if n >= 0 then n else n + 0x1_0000_0000;
            && left == rest && |text| >= f.width
            && (c == 'd' || c == 'D' ==> Parse(text, 10) == (n < 0, if n < 0 then -n else n))
            && (c == 'b' ==> Parse(text, 2) == (false, u))
            && (c == 'o' || c == 'O' ==> Parse(text, 8) == (false, u))
            && (c == 'u' || c == 'U' ==> Parse(text, 10) == (false, u))
            && (c == 'x' || c == 'X' ==> Parse(text, 16) == (false, u))
            && Placed(text, (c == 'd' || c == 'D') && n < 0, f.ladjust, if f.zero then '0' else ' ', c == 'X')
  {
    hide Number, Parse, Placed, IsConversion;
    NumeralConverts(c);
    var args := [Num(n)] + rest;
    assert args[0] == Num(n) && args[1..] == rest;
    NumberReads(f, c, n);
  }

  /** The conversions that print an int. */
  predicate Numeral(c: char) {
    c == 'b' || c == 'd' || c == 'D' || c == 'o' || c == 'O' || c == 'u' || c == 'U' || c == 'x' || c == 'X'
  }

  lemma NumeralConverts(c: char)
    requires Numeral(c)
    ensures IsConversion(c)
  {
    var all := "bdDoOuUxXcs";
    assert all[0] == 'b' && all[1] == 'd' && all[2] == 'D' && all[3] == 'o' && all[4] == 'O' && all[5] == 'u'
        && all[6] == 'U' && all[7] == 'x' && all[8] == 'X';
  }

  lemma NumberReads(f: Flags, c: char, n: int)
    requires IsInt(n) && Numeral(c)
    ensures var text, neg := Number(f, c, n), (c == 'd' || c == 'D') && n < 0;
            var u := if n >= 0 then n else n + 0x1_0000_0000;
            && Parse(text, Base(c)) == (neg, if neg then -n else u) && |text| >= f.width
            && Placed(text, neg, f.ladjust, if f.zero then '0' else ' ', c == 'X')
  {
    hide Layout, Parse, Placed;
    var neg := (c == 'd' || c == 'D') && n < 0;
    var u: nat := if neg then Magnitude(n) else Unsigned(n);
    var padc := if f.zero then '0' else ' ';
    RoundTrip(u, Base(c), neg, f.width, f.ladjust, padc, c == 'X');
    Placement(u, Base(c), neg, f.width, f.ladjust, padc, c == 'X');
  }

  /** %s and %c pad with spaces on the side that the flags choose; a character that is no conversion is printed as it
    * is, and takes no argument. */
  lemma OtherConversions(f: Flags, c: char, n: int, s: string, rest: seq<Arg>)
    requires IsInt(n)
    ensures Convert(f, 's', [Text(s)] + rest) == Some((Field(s, f.width, f.ladjust), rest))
    ensures Convert(f, 'c', [Num(n)] + rest) == Some((Field([(n % 256) as char], f.width, f.ladjust), rest))
    ensures c !in "bdDoOuUxXcs" ==> Convert(f, c, rest) == Some(([c], rest))
  {
    assert ([Text(s)] + rest)[1..] == rest && ([Num(n)] + rest)[1..] == rest;
  }

  // ----- the whole format -----

  function Prepend(s: string, r: Option<string>): Option<string> {
    if r.Some? then Some(s + r.value) else None
  }

  /** What is printed. A lone '%' at the end prints nothing. */
  function Format(fmt: string, args: seq<Arg>): Option<string>
    decreases |fmt|
  {
    var lit := Literal(fmt);
    if |lit| == |fmt| then Some(lit)
    else
      var (f, rest) := Directive(fmt[|lit| + 1..]);
      if rest == "" then Some(lit)
      else
        var r := Convert(f, rest[0], args);
        if r.None? then None else Prepend(lit + r.value.0, Format(rest[1..], r.value.1))
  }

  /** The pieces a format string is meant to be made of. */
  datatype Piece = Plain(text: string) | Dir(f: Flags, c: char)

  predicate Proper(p: Piece) {
    match p
    case Plain(text) => '%' !in text
    case Dir(f, c) => IsConversion(c) || (c == '%' && f == Flags(false, false, 0, false))
  }

  function ShowFlags(f: Flags): string {
    (if f.ladjust then "-" else "") + (if f.zero then "0" else "")
        + (if f.width > 0 then Digits(f.width, 10, false) else "")
    + (if f.long then "l" else "")
  }

  function Show(ps: seq<Piece>): string {
    if ps == [] then ""
    else (match ps[0]
          case Plain(text) => text
          case Dir(f, c) => "%" + (ShowFlags(f) + [c])) + Show(ps[1..])
  }

  /** The meaning of a list of pieces: each in turn, taking its arguments. */
  function Render(ps: seq<Piece>, args: seq<Arg>): Option<string> {
    if ps == [] then Some("")
    else match ps[0]
      case Plain(text) => Prepend(text, Render(ps[1..], args))
      case Dir(f, c) =>
        var r := Convert(f, c, args);
        if r.None? then None else Prepend(r.value.0, Render(ps[1..], r.value.1))
  }

  // ----- a width is read back -----

  lemma {:induction false} WidthDigits(u: nat, rest: string)
    requires rest == "" || !Decimal(rest[0])
    ensures Width(Digits(u, 10, false) + rest, 0) == (u, rest)
  {
    WidthAppend(u, rest);
  }

  lemma {:induction false} WidthAppend(u: nat, rest: string)
    ensures Width(Digits(u, 10, false) + rest, 0) == Width(rest, u)
    decreases u
  {
    hide Quotient, Remainder;
    if u < 10 {
      WidthOne(u, rest, 0);
    } else {
      var q, m := Quotient(u, 10), Remainder(u, 10);
      assert Digits(u, 10, false) + rest == Digits(q, 10, false) + ([Digit(m, false)] + rest);
      WidthAppend(q, [Digit(m, false)] + rest);
      WidthOne(m, rest, q);
    }
  }

  lemma WidthOne(d: nat, rest: string, acc: nat)
    requires d < 10
    ensures Width([Digit(d, false)] + rest, acc) == Width(rest, acc * 10 + d)
  {
    var s := [Digit(d, false)] + rest;
    assert s[1..] == rest && s[0] == Digit(d, false);
    assert (s[0] - '0') as nat == d;
  }

  lemma LeadingDigit(u: nat)
    requires u > 0
    ensures Decimal(Digits(u, 10, false)[0]) && Digits(u, 10, false)[0] != '0'
  {
    DigitsShape(u, 10, false);
    DecimalDigits(u);
  }

  lemma {:induction false} DecimalDigits(u: nat)
    ensures Decimal(Digits(u, 10, false)[0])
    decreases u
  {
    hide Remainder;
    if u >= 10 { DecimalDigits(Quotient(u, 10)); }
  }

  /** Flags, width and length modifier are read as they were written. */
  lemma DirectiveReads(f: Flags, c: char, rest: string)
    requires c != '-' && c != 'l' && !Decimal(c)
    ensures Directive(ShowFlags(f) + [c] + rest) == (f, [c] + rest)
  {
    hide Digits, Width, Decimal, Starts, Skip;
    var tail := [c] + rest;
    var s3 := (if f.long then "l" else "") + tail;
    var num := if f.width > 0 then Digits(f.width, 10, false) else "";
    var s2 := num + s3;
    var s1 := (if f.zero then "0" else "") + s2;
    Regroup(if f.ladjust then "-" else "", if f.zero then "0" else "", num, if f.long then "l" else "", [c], rest);
    OptionalFirst(f.long, 'l', tail);
    NotDecimal();
    NumberFirst(f.width, num, s3);
    WidthPart(f.width, num, s3);
    OptionalFirst(f.zero, '0', s2);
    OptionalFirst(f.ladjust, '-', s1);
  }

  lemma NotDecimal()
    ensures !Decimal('l') && !Decimal('-')
  {
  }

  lemma Regroup(a: string, b: string, c: string, d: string, e: string, rest: string)
    ensures a + b + c + d + e + rest == a + (b + (c + (d + (e + rest))))
  {
    assert a + b + c + d + e + rest == a + b + c + (d + (e + rest));
    assert a + b + c + (d + (e + rest)) == a + (b + (c + (d + (e + rest))));
  }

  /** An optional character in front of a string that does not start with it. */
  lemma OptionalFirst(yes: bool, c: char, s: string)
    requires s != "" && s[0] != c
    ensures var w := (if yes then [c] else "") + s;
              Starts(w, c) == yes && Skip(w, yes) == s && w[0] == if yes then c else s[0]
  {
  }

  lemma NumberFirst(width: nat, num: string, rest: string)
    requires num == (if width > 0 then Digits(width, 10, false) else "") && rest != "" && !Decimal(rest[0])
             && rest[0] != '-'
    ensures (num + rest)[0] != '0' && (num + rest)[0] != '-'
  {
    if width > 0 { LeadingDigit(width); }
  }

  lemma WidthPart(width: nat, num: string, rest: string)
    requires num == (if width > 0 then Digits(width, 10, false) else "") && rest != "" && !Decimal(rest[0])
    ensures Width(num + rest, 0) == (width, rest)
  {
    if width > 0 { WidthDigits(width, rest); } else { assert num + rest == rest; }
  }

  // ----- formats mean what their pieces mean -----

  lemma {:induction false} FormatPlain(text: string, fmt: string, args: seq<Arg>)
    requires '%' !in text
    ensures Format(text + fmt, args) == Prepend(text, Format(fmt, args))
  {
    hide Literal, Directive, Convert;
    LiteralPlain(text, fmt);
    var lit := Literal(fmt);
    if |lit| < |fmt| {
      assert (text + fmt)[|text + lit| + 1..] == fmt[|lit| + 1..];
      var (f, rest) := Directive(fmt[|lit| + 1..]);
      if rest != "" {
        var r := Convert(f, rest[0], args);
        if r.Some? {
          var t := Format(rest[1..], r.value.1);
          if t.Some? { assert text + lit + r.value.0 + t.value == text + (lit + r.value.0 + t.value); }
        }
      }
    }
  }

  /** A percent sign at the very end, with or without flags, prints nothing. */
  lemma FormatCut(text: string, f: Flags, args: seq<Arg>)
    requires '%' !in text
    ensures Format(text + "%" + ShowFlags(f), args) == Some(text)
  {
    hide ShowFlags, Directive, Convert, Prepend;
    var fmt := "%" + ShowFlags(f);
    assert text + "%" + ShowFlags(f) == text + fmt;
    FormatPlain(text, fmt, args);
    assert fmt[0] == '%' && fmt[1..] == ShowFlags(f);
    assert Literal(fmt) == "";
    DirectiveCut(f);
    PrependNone(text);
  }

  lemma PrependNone(text: string)
    ensures Prepend(text, Some("")) == Some(text)
  {
    assert text + "" == text;
  }

  lemma DirectiveCut(f: Flags)
    ensures Directive(ShowFlags(f)) == (f, "")
  {
    hide Digits, Width, Decimal, Starts, Skip;
    var s3 := if f.long then "l" else "";
    var num := if f.width > 0 then Digits(f.width, 10, false) else "";
    var s2 := num + s3;
    var s1 := (if f.zero then "0" else "") + s2;
    assert ShowFlags(f) == (if f.ladjust then "-" else "") + s1;
    OptionalLast(f.long, 'l', "");
    assert s3 + "" == s3;
    NotDecimal();
    NumberLast(f.width, num, s3);
    OptionalLast(f.zero, '0', s2);
    OptionalLast(f.ladjust, '-', s1);
  }

  lemma OptionalLast(yes: bool, c: char, s: string)
    requires s == "" || s[0] != c
    ensures var w := (if yes then [c] else "") + s;
            Starts(w, c) == yes && Skip(w, yes) == s && (w != "" ==> w[0] == if yes then c else s[0])
  {
  }

  lemma NumberLast(width: nat, num: string, rest: string)
    requires num == (if width > 0 then Digits(width, 10, false) else "") && (rest == "" || rest == "l")
    ensures num + rest == "" || ((num + rest)[0] != '0' && (num + rest)[0] != '-')
    ensures Width(num + rest, 0) == (width, rest)
  {
    if width > 0 {
      LeadingDigit(width);
      WidthDigits(width, rest);
    } else {
      assert num + rest == rest;
    }
  }

  lemma {:induction false} LiteralPlain(text: string, fmt: string)
    requires '%' !in text
    ensures Literal(text + fmt) == text + Literal(fmt)
  {
    if text == "" {
      assert text + fmt == fmt;
    } else {
      assert (text + fmt)[1..] == text[1..] + fmt && (text + fmt)[0] == text[0];
      LiteralPlain(text[1..], fmt);
    }
  }

  /** Printing a format that was written from pieces prints the pieces, one after the other, and each takes its own
    * arguments. */
  lemma {:induction false} FormatPieces(ps: seq<Piece>, args: seq<Arg>)
    requires forall i :: 0 <= i < |ps| ==> Proper(ps[i])
    ensures Format(Show(ps), args) == Render(ps, args)
  {
    if ps != [] {
      var rest := Show(ps[1..]);
      assert Proper(ps[0]);
      match ps[0]
      case Plain(text) =>
        FormatPlain(text, rest, args);
        FormatPieces(ps[1..], args);
      case Dir(f, c) =>
        FormatDirective(f, c, rest, args);
        var r := Convert(f, c, args);
        if r.Some? { FormatPieces(ps[1..], r.value.1); }
    }
  }

  lemma FormatDirective(f: Flags, c: char, rest: string, args: seq<Arg>)
    requires Proper(Dir(f, c))
    ensures Format("%" + (ShowFlags(f) + [c]) + rest, args) ==
            var r := Convert(f, c, args);
            if r.None? then None else Prepend(r.value.0, Format(rest, r.value.1))
  {
    hide ShowFlags, Directive, Convert;
    var fmt := "%" + (ShowFlags(f) + [c]) + rest;
    assert fmt[0] == '%' && fmt[1..] == ShowFlags(f) + [c] + rest;
    assert Literal(fmt) == "";
    DirectiveReads(f, c, rest);
    assert ([c] + rest)[1..] == rest;
    var r := Convert(f, c, args);
    if r.Some? { assert "" + r.value.0 == r.value.0; }
  }

  // ----- the code -----

  lemma LiteralNext(fmt: string, j: nat)
    requires j <= |fmt|
    ensures j == |fmt| || fmt[j] == '%' ==> Literal(fmt[j..]) == ""
    ensures j < |fmt| && fmt[j] != '%' ==> Literal(fmt[j..]) == [fmt[j]] + Literal(fmt[j + 1..])
  {
    if j < |fmt| { assert fmt[j..][1..] == fmt[j + 1..]; }
  }

  lemma LiteralStep(fmt: string, i: nat, j: nat)
    requires i <= j < |fmt| && fmt[j] != '%'
    ensures fmt[i..j] + Literal(fmt[j..]) == fmt[i..j + 1] + Literal(fmt[j + 1..])
  {
    hide Literal;
    LiteralNext(fmt, j);
    assert fmt[i..j] + ([fmt[j]] + Literal(fmt[j + 1..])) == fmt[i..j + 1] + Literal(fmt[j + 1..]);
  }

  method ScanLiteral(fmt: string, i: nat) returns (j: nat)
    requires i <= |fmt|
    ensures i <= j <= |fmt| && fmt[i..j] == Literal(fmt[i..])
  {
    hide Literal;
    j := i;
    while j < |fmt| && fmt[j] != '%'
      invariant i <= j <= |fmt| && fmt[i..j] + Literal(fmt[j..]) == Literal(fmt[i..])
    {
      LiteralStep(fmt, i, j);
      j := j + 1;
    }
    LiteralNext(fmt, j);
  }

  method ScanWidth(fmt: string, i: nat) returns (width: nat, j: nat)
    requires i <= |fmt|
    ensures i <= j <= |fmt| && (width, fmt[j..]) == Width(fmt[i..], 0)
  {
    j, width := i, 0;
    while j < |fmt| && Decimal(fmt[j])
      invariant i <= j <= |fmt| && Width(fmt[j..], width) == Width(fmt[i..], 0)
    {
      assert fmt[j..][1..] == fmt[j + 1..];
      width := width * 10 + (fmt[j] - '0') as nat;
      j := j + 1;
    }
  }

  method ScanDirective(fmt: string, i: nat) returns (f: Flags, j: nat)
    requires i <= |fmt|
    ensures i <= j <= |fmt| && (f, fmt[j..]) == Directive(fmt[i..])
  {
    hide Width;
    j := i;
    var ladjust, zero, long := false, false, false;
    if j < |fmt| && fmt[j] == '-' {
      ladjust := true;
      j := j + 1;
    }
    ghost var s1 := fmt[j..];
    assert ladjust == Starts(fmt[i..], '-') && s1 == Skip(fmt[i..], ladjust);
    if j < |fmt| && fmt[j] == '0' {
      zero := true;
      j := j + 1;
    }
    assert zero == Starts(s1, '0') && fmt[j..] == Skip(s1, zero);
    var width, k := ScanWidth(fmt, j);
    j := k;
    ghost var s3 := fmt[j..];
    if j < |fmt| && fmt[j] == 'l' {
      long := true;
      j := j + 1;
    }
    assert long == Starts(s3, 'l') && fmt[j..] == Skip(s3, long);
    f := Flags(ladjust, zero, width, long);
  }

  /** print_str; print_char is the same with one character. */
  method PrintField(s: string, width: nat, ladjust: bool) returns (out: string)
    ensures out == Field(s, width, ladjust)
  {
    var length := if width < |s| then |s| else width;
    var i, spaces := 0, "";
    while i < length - |s|
      invariant 0 <= i <= length - |s| && spaces == Repeat(' ', i)
    {
      spaces := spaces + " ";
      i := i + 1;
    }
    out := if ladjust then s + spaces else spaces + s;
  }

  lemma {:induction false} Pow2Grows(n: nat, k: nat)
    ensures Pow2(n + k) >= Pow2(n)
    decreases k
  {
    if k > 0 { Pow2Grows(n, k - 1); }
  }

  lemma WordFits()
    ensures WORD <= Pow2(64)
  {
    assert Pow2(8) == 0x100;
    assert Pow2(16) == 0x1_0000;
    assert Pow2(24) == 0x100_0000;
    assert Pow2(32) == WORD;
    Pow2Grows(32, 32);
  }

  /** The switch on the conversion character. */
  method PrintOne(f: Flags, c: char, args: seq<Arg>) returns (r: Option<(string, seq<Arg>)>)
    ensures r == Convert(f, c, args)
  {
    hide Layout, Pow2;
    WordFits();
    if !IsConversion(c) {
      return Some(([c], args));
    }
    if args == [] || args[0].Text? != (c == 's') {
      return None;
    }
    var text;
    if c == 's' {
      text := PrintField(args[0].s, f.width, f.ladjust);
      return Some((text, args[1..]));
    }
    var num := args[0].n;
    if !IsInt(num) {
      return None;
    }
    if c == 'c' {
      text := PrintField([Byte(num)], f.width, f.ladjust);
    } else if (c == 'd' || c == 'D') && num < 0 {
      text := PrintNumber(Magnitude(num), 10, true, f.width, f.ladjust, if f.zero then '0' else ' ', false);
    } else {
      text := PrintNumber(Unsigned(num), Base(c), false, f.width, f.ladjust, if f.zero then '0' else ' ', c == 'X');
    }
    return Some((text, args[1..]));
  }

  lemma PrependTwice(a: string, b: string, r: Option<string>)
    ensures Prepend("", r) == r && Prepend(a, Prepend(b, r)) == Prepend(a + b, r)
  {
    if r.Some? { assert a + (b + r.value) == a + b + r.value && "" + r.value == r.value; }
  }

  lemma FormatStep(s: string, args: seq<Arg>)
    ensures Literal(s) == s ==> Format(s, args) == Some(s)
    ensures |Literal(s)| < |s| ==>
              var (f, rest) := Directive(s[|Literal(s)| + 1..]);
              Format(s, args) == if rest == "" then Some(Literal(s))
                                 else var r := Convert(f, rest[0], args);
                                      if r.None? then None
                                      else Prepend(Literal(s) + r.value.0, Format(rest[1..], r.value.1))
  {
  }

  /** vprintfmt: the scan computes Format, and it ends. */
  method VPrintFmt(fmt: string, args: seq<Arg>) returns (out: Option<string>)
    ensures out == Format(fmt, args)
  {
    hide Literal, Directive, Convert, Format;
    var i, rest, text := 0, args, "";
    assert fmt[0..] == fmt;
    PrependTwice("", "", Format(fmt, args));
    while true
      invariant i <= |fmt| && Format(fmt, args) == Prepend(text, Format(fmt[i..], rest))
      decreases |fmt| - i
    {
      FormatStep(fmt[i..], rest);
      var j := ScanLiteral(fmt, i);
      ghost var before := text;
      text := text + fmt[i..j];
      if j == |fmt| {
        return Some(text);
      }
      assert fmt[i..][j - i + 1..] == fmt[j + 1..];
      var f, k := ScanDirective(fmt, j + 1);
      if k == |fmt| {
        return Some(text);
      }
      var r := PrintOne(f, fmt[k], rest);
      if r.None? {
        return None;
      }
      assert fmt[k..][1..] == fmt[k + 1..];
      PrependTwice(before, fmt[i..j] + r.value.0, Format(fmt[k + 1..], r.value.1));
      assert before + (fmt[i..j] + r.value.0) == text + r.value.0;
      text := text + r.value.0;
      i, rest := k + 1, r.value.1;
    }
  }
}
