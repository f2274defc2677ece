/** print_num of lib/print.c: digits, sign and padding laid out in a buffer that is reversed in place. */
module PrintNum {
  import opened Common

  function Digit(d: nat, upcase: bool): char
    requires d < 16
  {
    if d <= 9 then '0' + d as char else if upcase then 'A' + (d - 10) as char else 'a' + (d - 10) as char
  }

  lemma DivisionFacts(u: nat, base: nat)
    requires base >= 2
    ensures (u / base == 0 <==> u < base) && 2 * (u / base) <= u
  {
    var q, r := u / base, u % base;
    assert u == q * base + r;
    if q > 0 { assert q * base >= q * 2 && q * base >= base; }
  }

  function Quotient(u: nat, base: nat): (q: nat)
    requires base >= 2
    ensures q == 0 <==> u < base
    ensures 2 * q <= u
  {
    DivisionFacts(u, base);
    u / base
  }

  function Remainder(u: nat, base: nat): (r: nat)
    requires base >= 2
    ensures r < base && (u < base ==> r == u) && Quotient(u, base) * base + r == u
  {
    u % base
  }

  /** The numeral of u, most significant digit first. */
  function Digits(u: nat, base: nat, upcase: bool): (s: string)
    requires 2 <= base <= 16
    ensures |s| > 0
    decreases u
  {
    if u < base then [Digit(u, upcase)]
    else Digits(Quotient(u, base), base, upcase) + [Digit(Remainder(u, base), upcase)]
  }

  function Repeat(c: char, n: nat): (s: string)
    ensures |s| == n
  {
    seq(n, _ => c)
  }

  function Max(a: nat, b: nat): nat { if a < b then b else a }

  /** The text: the numeral with its sign, filled up to the width; zeros go between sign and numeral,
    * and a left-adjusted number is filled with spaces on its right whatever the pad character. */
  function Layout(u: nat, base: nat, neg: bool, width: nat, ladjust: bool, padc: char, upcase: bool): string
    requires 2 <= base <= 16
  {
    var sign := if neg then "-" else "";
    var body := Digits(u, base, upcase);
    var pad := Max(width, |sign + body|) - |sign + body|;
    if ladjust then sign + body + Repeat(' ', pad)
    else if neg && padc == '0' then sign + Repeat('0', pad) + body
    else Repeat(padc, pad) + sign + body
  }

  // ----- reading a number back -----

  function DigitValue(c: char): (v: int)
    ensures v < 16
  {
    if '0' <= c <= '9' then (c - '0') as int
    else if 'a' <= c <= 'f' then (c - 'a') as int + 10
    else if 'A' <= c <= 'F' then (c - 'A') as int + 10
    else -1
  }

  /** The value of the digits at the front of s, on top of acc. */
  function Read(s: string, base: nat, acc: nat): nat {
    if s == "" || DigitValue(s[0]) < 0 then acc else Read(s[1..], base, acc * base + DigitValue(s[0]))
  }

  function SkipSpaces(s: string): string { if s != "" && s[0] == ' ' then SkipSpaces(s[1..]) else s }

  /** Sign and magnitude of a printed number. */
  function Parse(s: string, base: nat): (bool, nat) {
    var r := SkipSpaces(s);
    if r != "" && r[0] == '-' then (true, Read(r[1..], base, 0)) else (false, Read(r, base, 0))
  }

  lemma DigitRead(d: nat, upcase: bool)
    requires d < 16
    ensures DigitValue(Digit(d, upcase)) == d && Digit(d, upcase) != '-' && Digit(d, upcase) != ' '
  {
  }

  lemma {:induction false} ReadDigits(u: nat, base: nat, upcase: bool, rest: string)
    requires 2 <= base <= 16
    ensures Read(Digits(u, base, upcase) + rest, base, 0) == Read(rest, base, u)
    decreases u
  {
    hide Quotient, Remainder;
    if u < base {
      ReadOne(u, base, upcase, rest, 0);
      assert 0 * base == 0;
    } else {
      var q, m := Quotient(u, base), Remainder(u, base);
      var hi, d := Digits(q, base, upcase), Digit(m, upcase);
      assert Digits(u, base, upcase) + rest == hi + ([d] + rest);
      ReadDigits(q, base, upcase, [d] + rest);
      ReadOne(m, base, upcase, rest, q);
    }
  }

  lemma ReadOne(d: nat, base: nat, upcase: bool, rest: string, acc: nat)
    requires d < base <= 16
    ensures Read([Digit(d, upcase)] + rest, base, acc) == Read(rest, base, acc * base + d)
  {
    DigitRead(d, upcase);
    assert ([Digit(d, upcase)] + rest)[1..] == rest;
  }

  lemma {:induction false} ReadZeros(n: nat, base: nat, rest: string)
    ensures Read(Repeat('0', n) + rest, base, 0) == Read(rest, base, 0)
  {
    var s := Repeat('0', n) + rest;
    if n == 0 {
      assert s == rest;
    } else {
      assert s[1..] == Repeat('0', n - 1) + rest && s[0] == '0';
      ReadZeros(n - 1, base, rest);
    }
  }

  lemma {:induction false} SkipRepeat(n: nat, rest: string)
    ensures SkipSpaces(Repeat(' ', n) + rest) == SkipSpaces(rest)
  {
    var s := Repeat(' ', n) + rest;
    if n == 0 {
      assert s == rest;
    } else {
      assert s[1..] == Repeat(' ', n - 1) + rest && s[0] == ' ';
      SkipRepeat(n - 1, rest);
    }
  }

  lemma {:induction false} FirstDigit(u: nat, base: nat, upcase: bool)
    requires 2 <= base <= 16
    ensures Digits(u, base, upcase)[0] != '-' && Digits(u, base, upcase)[0] != ' '
    decreases u
  {
    hide Quotient, Remainder;
    if u < base { DigitRead(u, upcase); } else { FirstDigit(Quotient(u, base), base, upcase); }
  }

  lemma ReadNumeral(u: nat, base: nat, upcase: bool, n: nat)
    requires 2 <= base <= 16
    ensures Read(Digits(u, base, upcase) + Repeat(' ', n), base, 0) == u
  {
    ReadDigits(u, base, upcase, Repeat(' ', n));
  }

  /** Every choice of base, width, adjustment and padding prints a text that reads back as the same number,
    * and whose length is the larger of the width and of the numeral with its sign. */
  lemma RoundTrip(u: nat, base: nat, neg: bool, width: nat, ladjust: bool, padc: char, upcase: bool)
    requires 2 <= base <= 16 && (padc == ' ' || padc == '0')
    ensures Parse(Layout(u, base, neg, width, ladjust, padc, upcase), base) == (neg, u)
    ensures |Layout(u, base, neg, width, ladjust, padc, upcase)|
            == Max(width, |Digits(u, base, upcase)| + if neg then 1 else 0)
  {
    hide Digits, Read;
    var text := Layout(u, base, neg, width, ladjust, padc, upcase);
    var body := Digits(u, base, upcase);
    var sign := if neg then "-" else "";
    var pad := Max(width, |sign + body|) - |sign + body|;
    FirstDigit(u, base, upcase);
    ReadNumeral(u, base, upcase, pad);
    ReadNumeral(u, base, upcase, 0);
    assert body + Repeat(' ', 0) == body;
    if ladjust {
      assert text == sign + (body + Repeat(' ', pad));
      assert neg ==> text[1..] == body + Repeat(' ', pad);
      assert !neg ==> text == body + Repeat(' ', pad);
    } else if padc == '0' {
      ReadZeros(pad, base, body);
      assert text == sign + (Repeat('0', pad) + body);
      assert neg ==> text[1..] == Repeat('0', pad) + body;
      assert !neg ==> text == Repeat('0', pad) + body;
      assert (Repeat('0', pad) + body)[0] == if pad > 0 then '0' else body[0];
    } else {
      assert text == Repeat(' ', pad) + (sign + body);
      SkipRepeat(pad, sign + body);
      assert SkipSpaces(sign + body) == sign + body;
      assert neg ==> (sign + body)[1..] == body;
      assert !neg ==> sign + body == body;
    }
  }

  /** A digit character in the right case. */
  predicate Numeric(c: char, upcase: bool) { '0' <= c <= '9' || (if upcase then 'A' <= c <= 'F' else 'a' <= c <= 'f') }

  lemma {:induction false} DigitsShape(u: nat, base: nat, upcase: bool)
    requires 2 <= base <= 16
    ensures forall i :: 0 <= i < |Digits(u, base, upcase)| ==> Numeric(Digits(u, base, upcase)[i], upcase)
    ensures u > 0 ==> Digits(u, base, upcase)[0] != '0'
    decreases u
  {
    hide Quotient, Remainder;
    if u >= base { DigitsShape(Quotient(u, base), base, upcase); }
  }

  /** No space comes before anything else, and nothing else before a space. */
  predicate SpacesLast(text: string) { forall i, j :: 0 <= i < j < |text| && text[i] == ' ' ==> text[j] == ' ' }

  predicate SpacesFirst(text: string) { forall i, j :: 0 <= i < j < |text| && text[j] == ' ' ==> text[i] == ' ' }

  /** Where sign and padding stand: spaces are all on the right of a left-adjusted number and all on the left of any
    * other, there are none with zero padding, and only spaces stand before the sign. Everything else is a digit of
    * the right case. */
  ghost predicate Placed(text: string, neg: bool, ladjust: bool, padc: char, upcase: bool) {
    && (forall i :: 0 <= i < |text| ==> text[i] == ' ' || text[i] == '-' || Numeric(text[i], upcase))
    && (if ladjust then SpacesLast(text) else SpacesFirst(text))
    && (!ladjust && padc == '0' ==> ' ' !in text)
    && ('-' in text <==> neg) && (forall i, j :: 0 <= i < j < |text| && text[j] == '-' ==> text[i] == ' ')
  }

  /** Every layout is spaces, sign, zeros, numeral, spaces. */
  function Parts(left: nat, sign: string, zeros: nat, body: string, right: nat): string {
    Repeat(' ', left) + sign + Repeat('0', zeros) + body + Repeat(' ', right)
  }

  lemma PartsPlaced(left: nat, sign: string, zeros: nat, body: string, right: nat, upcase: bool)
    requires (sign == "" || sign == "-") && forall i :: 0 <= i < |body| ==> Numeric(body[i], upcase)
    ensures var text := Parts(left, sign, zeros, body, right);
            && (forall i :: 0 <= i < |text| ==> text[i] == ' ' || text[i] == '-' || Numeric(text[i], upcase))
            && (left == 0 ==> SpacesLast(text)) && (right == 0 ==> SpacesFirst(text))
            && (left == right == 0 ==> ' ' !in text)
            && ('-' in text <==> |sign| == 1)
            && (forall i, j :: 0 <= i < j < |text| && text[j] == '-' ==> text[i] == ' ')
  {
    var text := Parts(left, sign, zeros, body, right);
    var a, b := left + |sign|, left + |sign| + zeros + |body|;
    forall i | 0 <= i < |text|
      ensures if i < left || i >= b then text[i] == ' ' else if i < a then text[i] == '-' else Numeric(text[i], upcase)
    {
      PartsAt(left, sign, zeros, body, right, i);
    }
    if |sign| == 1 { assert text[left] == '-'; }
  }

  lemma PartsAt(left: nat, sign: string, zeros: nat, body: string, right: nat, i: nat)
    requires i < |Parts(left, sign, zeros, body, right)|
    ensures Parts(left, sign, zeros, body, right)[i] ==
            if i < left then ' '
            else if i < left + |sign| then sign[i - left]
            else if i < left + |sign| + zeros then '0'
            else if i < left + |sign| + zeros + |body| then body[i - left - |sign| - zeros] else ' '
  {
  }

  lemma Placement(u: nat, base: nat, neg: bool, width: nat, ladjust: bool, padc: char, upcase: bool)
    requires 2 <= base <= 16 && (padc == ' ' || padc == '0')
    ensures Placed(Layout(u, base, neg, width, ladjust, padc, upcase), neg, ladjust, padc, upcase)
  {
    hide Digits, SpacesFirst, SpacesLast, Numeric, Repeat;
    var text := Layout(u, base, neg, width, ladjust, padc, upcase);
    var body, sign := Digits(u, base, upcase), if neg then "-" else "";
    var pad := Max(width, |sign + body|) - |sign + body|;
    DigitsShape(u, base, upcase);
    var left := if !ladjust && padc == ' ' then pad else 0;
    var zeros := if !ladjust && padc == '0' then pad else 0;
    var right := if ladjust then pad else 0;
    NoRepeat();
    assert text == Parts(left, sign, zeros, body, right);
    PartsPlaced(left, sign, zeros, body, right, upcase);
  }

  lemma NoRepeat()
    ensures Repeat(' ', 0) == "" && Repeat('0', 0) == ""
  {
  }

  // ----- the buffer -----

  function Rev(s: string): (r: string)
    ensures |r| == |s|
  {
    seq(|s|, i requires 0 <= i < |s| => s[|s| - 1 - i])
  }

  lemma {:induction false} DigitsBound(u: nat, base: nat, upcase: bool, k: nat)
    requires 2 <= base <= 16 && u < Pow2(k + 1)
    ensures |Digits(u, base, upcase)| <= k + 1
    decreases u
  {
    hide Quotient, Remainder;
    if u >= base && k > 0 {
      DigitsBound(Quotient(u, base), base, upcase, k - 1);
    }
  }

  lemma DigitsLast(u: nat, base: nat, upcase: bool)
    requires 2 <= base <= 16
    ensures var q, d := Quotient(u, base), Digit(Remainder(u, base), upcase);
            Digits(u, base, upcase) == if q == 0 then [d] else Digits(q, base, upcase) + [d]
  {
    hide Quotient, Remainder;
  }

  lemma RevSnoc(s: string, c: char, r: string)
    requires r == s + [c]
    ensures Rev(r) == [c] + Rev(s)
  {
  }

  /** The swap loop. */
  method Reverse(buf: array<char>, n: nat)
    requires n <= buf.Length
    modifies buf
    ensures buf[..n] == Rev(old(buf[..n]))
    ensures forall i :: n <= i < buf.Length ==> buf[i] == old(buf[i])
  {
    var begin, end := 0, n - 1;
    while end > begin
      invariant 0 <= begin && begin + end == n - 1 && begin <= end + 2
      invariant forall i :: 0 <= i < begin ==> buf[i] == old(buf[n - 1 - i]) && buf[n - 1 - i] == old(buf[i])
      invariant forall i :: begin <= i <= end ==> buf[i] == old(buf[i])
      invariant forall i :: n <= i < buf.Length ==> buf[i] == old(buf[i])
    {
      buf[begin], buf[end] := buf[end], buf[begin];
      begin, end := begin + 1, end - 1;
    }
    ghost var was := old(buf[..n]);
    forall i | 0 <= i < n ensures buf[i] == was[n - 1 - i] {
      assert i < begin || begin <= i <= end || n - 1 - i < begin;
    }
  }

  /** The digit loop: the numeral, least significant digit first. */
  method PutDigits(buf: array<char>, value: nat, base: nat, upcase: bool) returns (p: nat)
    requires 2 <= base <= 16 && |Digits(value, base, upcase)| <= buf.Length
    modifies buf
    ensures p == |Digits(value, base, upcase)| && Rev(buf[..p]) == Digits(value, base, upcase)
  {
    hide Digits, Rev, Quotient, Remainder;
    p := 0;
    var u: nat, more := value, true;
    assert Digits(u, base, upcase) + Rev(buf[..0]) == Digits(u, base, upcase);
    while more
      invariant p <= buf.Length
      invariant more ==> Digits(value, base, upcase) == Digits(u, base, upcase) + Rev(buf[..p])
      invariant !more ==> Digits(value, base, upcase) == Rev(buf[..p])
      decreases more, u
    {
      ghost var before := buf[..p];
      var tmp := Remainder(u, base);
      if tmp <= 9 {
        buf[p] := '0' + tmp as char;
      } else if upcase {
        buf[p] := 'A' + (tmp - 10) as char;
      } else {
        buf[p] := 'a' + (tmp - 10) as char;
      }
      RevSnoc(before, Digit(tmp, upcase), buf[..p + 1]);
      DigitsLast(u, base, upcase);
      p, u := p + 1, Quotient(u, base);
      more := u != 0;
    }
  }

  method Fill(buf: array<char>, from: nat, to: nat, c: char)
    requires from <= to <= buf.Length
    modifies buf
    ensures buf[..to] == old(buf[..from]) + Repeat(c, to - from)
  {
    var i := from;
    while i < to
      invariant from <= i <= to
      invariant buf[..i] == old(buf[..from]) + Repeat(c, i - from)
    {
      buf[i] := c;
      i := i + 1;
    }
  }

  /** Padding: with zeros after a sign the sign moves to the end of the (reversed) text. */
  method AddPadding(buf: array<char>, actual: nat, len: nat, fill: char, signLast: bool)
    requires 0 < actual <= len <= buf.Length
    modifies buf
    ensures buf[..len] == if signLast then old(buf[..actual - 1]) + Repeat(fill, len - actual) + "-"
                          else old(buf[..actual]) + Repeat(fill, len - actual)
  {
    if signLast {
      Fill(buf, actual - 1, len - 1, fill);
      buf[len - 1] := '-';
    } else {
      Fill(buf, actual, len, fill);
    }
  }

  /** The numeral and its sign, reversed. */
  method PutNumber(buf: array<char>, u: nat, base: nat, neg: bool, upcase: bool) returns (p: nat)
    requires 2 <= base <= 16 && |Digits(u, base, upcase)| < buf.Length
    modifies buf
    ensures 0 < p <= buf.Length && buf[..p] == Rev(Digits(u, base, upcase)) + if neg then "-" else ""
  {
    hide Digits;
    p := PutDigits(buf, u, base, upcase);
    RevRev(buf[..p]);
    if neg {
      buf[p] := '-';
      p := p + 1;
    }
  }

  /** print_num for any value that a machine word of up to 64 bits can hold: the buffer of length + 70 characters
    * is large enough, and what is sent out is the layout. */
  method PrintNumber(u: nat, base: nat, neg: bool, length: nat, ladjust: bool, padc: char, upcase: bool)
      returns (text: string)
    requires 2 <= base <= 16 && u < Pow2(64)
    ensures text == Layout(u, base, neg, length, ladjust, padc, upcase)
  {
    hide Digits, Rev, Quotient, Remainder, Pow2, Layout, Repeat;
    DigitsBound(u, base, upcase, 63);
    var buf := new char[length + 70](_ => ' ');
    var actual := PutNumber(buf, u, base, neg, upcase);
    ghost var number := buf[..actual];
    var len := if length < actual then actual else length;
    var fill := if ladjust then ' ' else padc;
    var signLast := neg && !ladjust && fill == '0';
    assert buf[..actual - 1] == number[..actual - 1];
    AddPadding(buf, actual, len, fill, signLast);
    ghost var full := buf[..len];
    ReverseText(buf, actual, len, ladjust);
    text := buf[..len];
    LayoutText(u, base, neg, length, ladjust, padc, upcase, number, full);
  }

  /** Left-adjusted: only the number is reversed, its padding stays at the end. */
  method ReverseText(buf: array<char>, actual: nat, len: nat, ladjust: bool)
    requires actual <= len <= buf.Length
    modifies buf
    ensures buf[..len] == if ladjust then Rev(old(buf[..len])[..actual]) + old(buf[..len])[actual..]
            else Rev(old(buf[..len]))
  {
    ghost var full := buf[..len];
    Reverse(buf, if ladjust then actual else len);
    if ladjust {
      assert full[..actual] == old(buf[..actual]);
      assert buf[..len] == buf[..actual] + full[actual..];
    }
  }

  /** The three arrangements of the buffer before the swap loop, and the layouts they become. */
  lemma LayoutText(u: nat, base: nat, neg: bool, width: nat, ladjust: bool, padc: char, upcase: bool, number: string,
      full: string)
    requires 2 <= base <= 16 && number == Rev(Digits(u, base, upcase)) + if neg then "-" else ""
    requires var pad := Max(width, |number|) - |number|;
             full == if neg && !ladjust && padc == '0' then number[..|number| - 1] + Repeat(padc, pad) + "-"
                     else number + Repeat(if ladjust then ' ' else padc, pad)
    ensures Layout(u, base, neg, width, ladjust, padc, upcase)
            == if ladjust then Rev(full[..|number|]) + full[|number|..] else Rev(full)
  {
    hide Digits, Rev, Repeat;
    var body, sign := Digits(u, base, upcase), if neg then "-" else "";
    var pad := Max(width, |number|) - |number|;
    var low := Rev(body);
    RevRev(body);
    assert |number| == |sign + body|;
    RevParts(low, sign, padc, pad);
    if ladjust {
      assert full[..|number|] == number && full[|number|..] == Repeat(' ', pad);
    } else if neg && padc == '0' {
      assert number[..|number| - 1] == low;
      assert full == low + Repeat(padc, pad) + sign;
    } else {
      assert full == low + sign + Repeat(padc, pad);
    }
  }

  lemma RevRev(s: string)
    ensures Rev(Rev(s)) == s
  {
  }

  lemma RevParts(low: string, sign: string, c: char, n: nat)
    requires |sign| <= 1
    ensures Rev(low + sign) == sign + Rev(low)
    ensures Rev(low + Repeat(c, n) + sign) == sign + Repeat(c, n) + Rev(low)
    ensures Rev(low + sign + Repeat(c, n)) == Repeat(c, n) + sign + Rev(low)
  {
  }

  // ----- %d -----

  /** The argument of print_num for %d: a negative number is negated in 32 bits. */
  function Magnitude(num: int): nat
    requires -0x8000_0000 <= num < 0x8000_0000
  {
    if num < 0 then (WORD - num) % WORD else num
  }

  /** %d prints every 32-bit integer, the smallest one included, so that it reads back. */
  lemma PrintsSigned(num: int, width: nat, ladjust: bool, padc: char)
    requires -0x8000_0000 <= num < 0x8000_0000 && (padc == ' ' || padc == '0')
    ensures var (neg, m) := Parse(Layout(Magnitude(num), 10, num < 0, width, ladjust, padc, false), 10);
            num == if neg then 0 - m as int else m as int
  {
    RoundTrip(Magnitude(num), 10, num < 0, width, ladjust, padc, false);
  }
}
