/** Printing characters into caller memory, and print_num on top of it. */
module PrintNum {
  import opened Arithmetic
  import opened NumberText

  /** Memory `m` with the characters of `s` stored from address `a` on. */
  function Overwrite(m: map<int, char>, a: int, s: string): map<int, char> {
    if s == [] then m else Overwrite(m, a, s[..|s| - 1])[a + |s| - 1 := s[|s| - 1]]
  }

  lemma OverwriteAppend(m: map<int, char>, a: int, s: string, c: char)
    ensures Overwrite(m, a, s + [c]) == Overwrite(m, a, s)[a + |s| := c]
  {
    assert (s + [c])[..|s|] == s;
  }

  /** Exactly the addresses a .. a + |s| - 1 change, and they hold `s`. */
  lemma {:induction false} OverwriteAt(m: map<int, char>, a: int, s: string, b: int)
    ensures a <= b < a + |s| ==> b in Overwrite(m, a, s) && Overwrite(m, a, s)[b] == s[b - a]
    ensures !(a <= b < a + |s|) ==>
              (b in Overwrite(m, a, s) <==> b in m) && (b in m ==> Overwrite(m, a, s)[b] == m[b])
  {
    if s != [] {
      OverwriteAt(m, a, s[..|s| - 1], b);
    }
  }

  /** The static variables print_char_to_array works with, and the caller's memory. */
  class Printer {
    var memory: map<int, char>
    var arrayOut: int
    var arrayMax: int
    var arrayIndex: int
    var limitArraySize: bool
    /** Everything handed to the printer so far, and the memory as it was before. */
    ghost var printed: string
    ghost var before: map<int, char>

    /** How many of `n` characters get stored; an array size of 0 wraps around to no limit at all. */
    function Stored(n: nat): (k: nat)
      reads this
      ensures k <= n
    {
      if limitArraySize && (arrayMax - 1) % TWO_32 < n then (arrayMax - 1) % TWO_32 else n
    }

    ghost predicate Valid()
      reads this
    {
      && 0 <= arrayMax < TWO_32 && arrayIndex == Stored(|printed|)
      && memory == Overwrite(before, arrayOut, printed[..arrayIndex])
    }

    ghost function Length(): int
      reads this
    {
      |printed|
    }

    constructor (m: map<int, char>)
      ensures Valid() && memory == m && printed == ""
    {
      memory, before := m, m;
      arrayOut, arrayMax, arrayIndex, limitArraySize := 0, 0, 0, false;
      printed := "";
    }

    /** Stores a character if there is room for it; the number of characters stored. */
    method PrintChar(c: char) returns (stored: int)
      requires Valid()
      modifies `memory, `arrayIndex, `printed
      ensures Valid() && printed == old(printed) + [c]
    {
      ghost var given := printed;
      printed := printed + [c];
      stored := 0;
      if !limitArraySize || arrayIndex < (arrayMax - 1) % TWO_32 {
        assert printed[..arrayIndex + 1] == given + [c] && given[..arrayIndex] == given;
        OverwriteAppend(before, arrayOut, given, c);
        memory := memory[arrayOut + arrayIndex := c];
        arrayIndex := arrayIndex + 1;
        stored := 1;
      } else {
        assert printed[..arrayIndex] == given[..arrayIndex];
      }
    }

    /** Prints `c` while `count` is positive; how often it was printed. */
    method PrintRepeated(c: char, count: int) returns (n: int)
      requires Valid()
      modifies `memory, `arrayIndex, `printed
      ensures Valid() && printed == old(printed) + Repeat(c, count) && n == |Repeat(c, count)|
    {
      n := 0;
      while n < count
        invariant 0 <= n && (n <= count || n == 0) && Valid()
        invariant printed == old(printed) + Repeat(c, n)
      {
        RepeatAppend(c, n);
        var _ := PrintChar(c);
        n := n + 1;
      }
    }

    method PrintText(s: string) returns (n: int)
      requires Valid()
      modifies `memory, `arrayIndex, `printed
      ensures Valid() && printed == old(printed) + s && n == |s|
    {
      n := 0;
      while n < |s|
        invariant 0 <= n <= |s| && Valid()
        invariant printed == old(printed) + s[..n]
      {
        assert s[..n + 1] == s[..n] + [s[n]];
        var _ := PrintChar(s[n]);
        n := n + 1;
      }
      assert s[..n] == s;
    }
  }

  function Reverse(s: string): (r: string)
    ensures |r| == |s|
  {
    if s == [] then [] else [s[|s| - 1]] + Reverse(s[..|s| - 1])
  }

  lemma ReverseAppend(s: string, c: char)
    ensures Reverse(s + [c]) == [c] + Reverse(s)
  {
    assert (s + [c])[..|s|] == s;
  }

  lemma HalfAtMost(n: nat, radix: nat)
    requires 2 <= radix
    ensures Quotient(n, radix) * 2 <= n
  {
    if n >= radix {
      HalfAtMost(n - radix, radix);
    }
  }

  /** One more digit taken off the low end of `n` and put behind those in the buffer. */
  lemma {:induction false} DigitStep(n: nat, radix: nat, done: string)
    requires 2 <= radix <= 16
    ensures var after := Reverse(done + [HEX_CHARS[Remainder(n, radix)]]);
            (if Quotient(n, radix) == 0 then after else Digits(Quotient(n, radix), radix) + after) == Digits(n, radix) + Reverse(done)
  {
    ReverseAppend(done, HEX_CHARS[Remainder(n, radix)]);
    DigitsSplit(n, radix);
    if Quotient(n, radix) > 0 {
      Join2(Digits(Quotient(n, radix), radix), [HEX_CHARS[Remainder(n, radix)]], Reverse(done));
    }
  }

  lemma {:induction false} DigitsSplit(n: nat, radix: nat)
    requires 2 <= radix <= 16
    ensures Digits(n, radix) == (if Quotient(n, radix) == 0 then "" else Digits(Quotient(n, radix), radix))
                                + [HEX_CHARS[Remainder(n, radix)]]
  {
  }

  lemma {:induction false} FewerBits(n: nat, radix: nat, k: nat)
    requires 2 <= radix && 0 < k && n < Power(2, k)
    ensures Quotient(n, radix) < Power(2, k - 1)
  {
    HalfAtMost(n, radix);
  }

  /** The digits in the buffer, and those still to come, are those of the magnitude. */
  ghost predicate Converted(magnitude: nat, radix: nat, done: string, absNum: nat, more: bool)
    requires 2 <= radix <= 16
  {
    (if more then Digits(absNum, radix) + Reverse(done) else Reverse(done)) == Digits(magnitude, radix)
  }

  /** What is to come fits into what is left of the buffer. */
  ghost predicate RoomFor(absNum: nat, room: nat, more: bool) {
    more ==> room > 0 && absNum < Power(2, room)
  }

  lemma {:induction false} ConvertNext(magnitude: nat, radix: nat, done: string, absNum: nat)
    requires 2 <= radix <= 16 && Converted(magnitude, radix, done, absNum, true)
    ensures Converted(magnitude, radix, done + [HEX_CHARS[Remainder(absNum, radix)]], Quotient(absNum, radix), Quotient(absNum, radix) > 0)
  {
    DigitStep(absNum, radix, done);
  }

  lemma {:induction false} RoomNext(absNum: nat, radix: nat, room: nat)
    requires 2 <= radix && RoomFor(absNum, room, true)
    ensures RoomFor(Quotient(absNum, radix), room - 1, Quotient(absNum, radix) > 0)
  {
    FewerBits(absNum, radix, room);
  }

  /** Converts a magnitude to digits, least significant first. */
  method DigitBuffer(magnitude: nat, radix: nat, buffer: array<char>) returns (pos: nat)
    requires 2 <= radix <= 16 && magnitude < TWO_64 && buffer.Length == 64
    modifies buffer
    ensures 0 < pos <= 64 && Reverse(buffer[..pos]) == Digits(magnitude, radix)
  {
    var absNum: nat := magnitude;
    pos := 0;
    var more := true;
    Power64();
    ghost var room: nat := 64;
    while more
      invariant pos + room == 64 && (!more ==> pos > 0)
      invariant RoomFor(absNum, room, more) && Converted(magnitude, radix, buffer[..pos], absNum, more)
      decreases more, absNum
    {
      ConvertNext(magnitude, radix, buffer[..pos], absNum);
      RoomNext(absNum, radix, room);
      pos, absNum := StoreDigit(buffer, pos, absNum, radix);
      more, room := absNum > 0, room - 1;
    }
  }

  method StoreDigit(buffer: array<char>, pos: nat, absNum: nat, radix: nat) returns (pos': nat, absNum': nat)
    requires 2 <= radix <= 16 && pos < buffer.Length
    modifies buffer
    ensures pos' == pos + 1 && absNum' == Quotient(absNum, radix)
    ensures buffer[..pos'] == old(buffer[..pos]) + [HEX_CHARS[Remainder(absNum, radix)]]
  {
    DivisionBySubtraction(absNum, radix);
    var rem := absNum % radix;
    absNum' := absNum / radix;
    buffer[pos] := HEX_CHARS[rem];
    pos' := pos + 1;
  }

  lemma Power64()
    ensures Power(2, 64) == TWO_64
  {
    assert Power(2, 1) == 2;
    PowerDouble(1);
    PowerDouble(2);
    PowerDouble(4);
    PowerDouble(8);
    PowerDouble(16);
    PowerDouble(32);
  }

  lemma {:induction false} PowerSum(m: nat, n: nat)
    ensures Power(2, m + n) == Power(2, m) * Power(2, n)
  {
    if n > 0 {
      PowerSum(m, n - 1);
      Associate(Power(2, m), Power(2, n - 1), 2);
    }
  }

  lemma PowerDouble(m: nat)
    ensures Power(2, 2 * m) == Power(2, m) * Power(2, m)
  {
    PowerSum(m, m);
  }

  lemma TakeOne(s: string, p: nat, printed: string)
    requires 0 < p <= |s|
    ensures printed + Reverse(s[..p]) == printed + [s[p - 1]] + Reverse(s[..p - 1])
  {
    assert s[..p] == s[..p - 1] + [s[p - 1]];
    ReverseAppend(s[..p - 1], s[p - 1]);
  }

  /** Prints the digits from the top of the buffer down. */
  method PrintBuffer(buffer: array<char>, pos: nat, printer: Printer) returns (n: int)
    requires pos <= buffer.Length && printer.Valid()
    modifies printer`memory, printer`arrayIndex, printer`printed
    ensures printer.Valid() && printer.printed == old(printer.printed) + Reverse(buffer[..pos]) && n == pos
  {
    n := 0;
    var p := pos;
    while p > 0
      invariant 0 <= p <= pos && n == pos - p && printer.Valid()
      invariant printer.printed + Reverse(buffer[..p]) == old(printer.printed) + Reverse(buffer[..pos])
    {
      TakeOne(buffer[..], p, printer.printed);
      p := p - 1;
      var _ := printer.PrintChar(buffer[p]);
      n := n + 1;
    }
  }

  /** Prints the sign and prefix. */
  method PrintSignAndPrefix(num: int, radix: nat, hasSign: bool, signChar: char, altForm: bool, printer: Printer) returns (n: int)
    requires printer.Valid()
    modifies printer`memory, printer`arrayIndex, printer`printed
    ensures printer.Valid() && n == printer.Length() - old(printer.Length())
    ensures printer.printed == old(printer.printed) + ((if hasSign then [signChar] else "")
              + (if !altForm then "" else if radix == 16 then "0x" else if radix == 8 && num == 0 then "0" else ""))
  {
    n := 0;
    if hasSign {
      var _ := printer.PrintChar(signChar);
      n := n + 1;
    }
    if altForm {
      if radix == 8 && num == 0 {
        var _ := printer.PrintChar('0');
        n := n + 1;
      } else if radix == 16 {
        var _ := printer.PrintChar('0');
        var _ := printer.PrintChar('x');
        n := n + 2;
      }
    }
  }

  /** What comes before the precision's zeros and the digits. */
  function Front(sgn: string, prefix: string, room: int, f: Flags): string {
    if f.leftJustify || room <= 0 then sgn + prefix
    else if f.zeroPad then sgn + prefix + Repeat('0', room - |sgn| - |prefix|)
    else Repeat(' ', room - |sgn| - if f.altForm then 2 else 0) + sgn + prefix
  }

  /** What comes from the precision's zeros on. */
  function Back(sgn: string, prefix: string, room: int, z: int, body: string, f: Flags): string {
    Repeat('0', z) + body
    + if f.leftJustify || room <= 0 then Repeat(if f.zeroPad then '0' else ' ', room - |sgn| - |prefix|) else ""
  }

  lemma FrontAndBack(sgn: string, prefix: string, room: int, z: int, body: string, f: Flags)
    ensures Front(sgn, prefix, room, f) + Back(sgn, prefix, room, z, body, f) == Arrange(sgn, prefix, room, z, body, f)
  {
  }

  lemma BackText(sgn: string, prefix: string, room: int, z: int, body: string, f: Flags, behind: int)
    requires if f.leftJustify || room <= 0 then behind == room - |sgn| - |prefix| else behind <= 0
    ensures Repeat('0', z) + body + Repeat(if f.zeroPad then '0' else ' ', behind) == Back(sgn, prefix, room, z, body, f)
  {
  }

  lemma Join3(a: string, b: string, c: string, d: string)
    ensures a + b + c + d == a + (b + c + d)
  {
  }

  lemma Join2(a: string, b: string, c: string)
    ensures a + b + c == a + (b + c)
  {
  }

  /** Blanks, sign and prefix. */
  method PrintBlanks(num: int, radix: nat, hasSign: bool, signChar: char, padding: int, flags: Flags, printer: Printer)
    returns (n: int, padding': int)
    requires printer.Valid() && !flags.leftJustify && padding > 0 && !flags.zeroPad
    modifies printer`memory, printer`arrayIndex, printer`printed
    ensures printer.Valid() && padding' <= 0
    ensures var front := Front(if hasSign then [signChar] else "", PrefixText(num, radix, flags), padding, flags);
            printer.printed == old(printer.printed) + front && n == |front|
  {
    ghost var start := printer.printed;
    ghost var sgn, prefix := if hasSign then [signChar] else "", PrefixText(num, radix, flags);
    padding' := padding;
    if hasSign {
      padding' := padding' - 1;
    }
    if flags.altForm {
      padding' := padding' - 2;
    }
    Join2(start, Repeat(' ', padding'), sgn + prefix);
    Join2(Repeat(' ', padding'), sgn, prefix);
    n := printer.PrintRepeated(' ', padding');
    padding' := padding' - n;
    var m := PrintSignAndPrefix(num, radix, hasSign, signChar, flags.altForm, printer);
    n := n + m;
  }

  /** Padding on the left, sign and prefix; `padding'` is what is left to pad behind the digits. */
  method PrintFront(num: int, radix: nat, hasSign: bool, signChar: char, padding: int, flags: Flags, printer: Printer)
    returns (n: int, padding': int)
    requires printer.Valid()
    modifies printer`memory, printer`arrayIndex, printer`printed
    ensures printer.Valid()
    ensures var (sgn, prefix) := (if hasSign then [signChar] else "", PrefixText(num, radix, flags));
            && printer.printed == old(printer.printed) + Front(sgn, prefix, padding, flags)
            && n == |Front(sgn, prefix, padding, flags)|
            && (if flags.leftJustify || padding <= 0 then padding' == padding - |sgn| - |prefix| else padding' <= 0)
  {
    ghost var start := printer.printed;
    ghost var sgn, prefix := if hasSign then [signChar] else "", PrefixText(num, radix, flags);
    padding' := padding;
    if !flags.leftJustify && padding > 0 {
      if flags.zeroPad {
        n := PrintSignAndPrefix(num, radix, hasSign, signChar, flags.altForm, printer);
        padding' := padding' - n;
        Join2(start, sgn + prefix, Repeat('0', padding'));
        var m := printer.PrintRepeated('0', padding');
        n := n + m;
        padding' := padding' - m;
      } else {
        n, padding' := PrintBlanks(num, radix, hasSign, signChar, padding, flags, printer);
      }
    } else {
      n := PrintSignAndPrefix(num, radix, hasSign, signChar, flags.altForm, printer);
      padding' := padding' - n;
    }
  }

  /** The digits, unless the number is zero and its precision 0. */
  method PrintBody(num: int, precision: int, buffer: array<char>, pos: nat, printer: Printer) returns (n: int)
    requires pos <= buffer.Length && printer.Valid()
    modifies printer`memory, printer`arrayIndex, printer`printed
    ensures printer.Valid()
    ensures var text := if precision == 0 && num == 0 then "" else Reverse(buffer[..pos]);
            printer.printed == old(printer.printed) + text && n == |text|
  {
    n := 0;
    if precision != 0 || num != 0 {
      n := PrintBuffer(buffer, pos, printer);
    } else {
      assert printer.printed == printer.printed + "";
    }
  }

  /** Zeros for the precision, the digits and padding behind them. */
  method PrintBack(num: int, precision: int, buffer: array<char>, pos: nat, padding: int, padChar: char, printer: Printer)
    returns (n: int)
    requires pos <= buffer.Length && printer.Valid()
    modifies printer`memory, printer`arrayIndex, printer`printed
    ensures printer.Valid()
    ensures var text := Repeat('0', precision - pos)
                        + (if precision == 0 && num == 0 then "" else Reverse(buffer[..pos]))
                        + Repeat(padChar, padding);
            printer.printed == old(printer.printed) + text && n == |text|
  {
    ghost var start := printer.printed;
    var zeros := printer.PrintRepeated('0', precision - pos);
    var digits := PrintBody(num, precision, buffer, pos, printer);
    var pad := printer.PrintRepeated(padChar, padding);
    Join3(start, Repeat('0', precision - pos), if precision == 0 && num == 0 then "" else Reverse(buffer[..pos]),
          Repeat(padChar, padding));
    n := zeros + digits + pad;
  }

  /** Prints the parts of a number whose digits are in the buffer. */
  method PrintParts(num: int, radix: nat, padding: int, precision: int, hasSign: bool, signChar: char, flags: Flags,
                    buffer: array<char>, pos: nat, printer: Printer, ghost sgn: string, ghost body: string)
    returns (charCount: int)
    requires pos <= buffer.Length && printer.Valid()
    requires sgn == if hasSign then [signChar] else ""
    requires body == if precision == 0 && num == 0 then "" else Reverse(buffer[..pos])
    modifies printer`memory, printer`arrayIndex, printer`printed
    ensures printer.Valid()
    ensures var text := Arrange(sgn, PrefixText(num, radix, flags), padding, precision - pos, body, flags);
            printer.printed == old(printer.printed) + text && charCount == |text|
  {
    ghost var start, prefix := printer.printed, PrefixText(num, radix, flags);
    var n, behind := PrintFront(num, radix, hasSign, signChar, padding, flags, printer);
    BackText(sgn, prefix, padding, precision - pos, body, flags, behind);
    var m := PrintBack(num, precision, buffer, pos, behind, if flags.zeroPad then '0' else ' ', printer);
    Combine(start, sgn, prefix, padding, precision - pos, body, flags);
    charCount := n + m;
  }

  lemma Combine(start: string, sgn: string, prefix: string, room: int, z: int, body: string, f: Flags)
    ensures start + Front(sgn, prefix, room, f) + Back(sgn, prefix, room, z, body, f) == start + Arrange(sgn, prefix, room, z, body, f)
    ensures |Front(sgn, prefix, room, f)| + |Back(sgn, prefix, room, z, body, f)| == |Arrange(sgn, prefix, room, z, body, f)|
  {
    FrontAndBack(sgn, prefix, room, z, body, f);
    Join2(start, Front(sgn, prefix, room, f), Back(sgn, prefix, room, z, body, f));
  }

  method MagnitudeAndSign(num: int, signed: bool, flags: Flags) returns (absNum: nat, hasSign: bool, signChar: char)
    requires -TWO_64 / 2 <= num < TWO_64 / 2
    ensures absNum == Magnitude(num, signed) && absNum < TWO_64
    ensures SignText(num, signed, flags) == if hasSign then [signChar] else ""
  {
    var negative := num < 0;
    hasSign := signed && (negative || flags.sign);
    signChar := if signed && negative then '-' else '+';
    absNum := if signed && negative then -num else num % TWO_64;
    if !hasSign && flags.space {
      hasSign := true;
      signChar := ' ';
    }
  }

  /** Prints a number; the number of characters printed. */
  method PrintNumber(num: int, radix: nat, width: int, precision: int, signed: bool, flags: Flags, printer: Printer)
    returns (charCount: int)
    requires 2 <= radix <= 16 && -TWO_64 / 2 <= num < TWO_64 / 2 && printer.Valid()
    modifies printer`memory, printer`arrayIndex, printer`printed
    ensures printer.Valid()
    ensures printer.printed == old(printer.printed) + Layout(num, radix, width, precision, signed, flags)
    ensures charCount == |Layout(num, radix, width, precision, signed, flags)|
  {
    var absNum, hasSign, signChar := MagnitudeAndSign(num, signed, flags);
    var buffer := new char[64](_ => '0');
    var pos := DigitBuffer(absNum, radix, buffer);
    var padding := width - precision;
    if pos > precision {
      padding := width - pos;
    }
    ghost var sgn, body := SignText(num, signed, flags), Body(num, radix, precision, signed);
    assert padding == Room(num, radix, width, precision, signed) && precision - pos == Short(num, radix, precision, signed);
    charCount := PrintParts(num, radix, padding, precision, hasSign, signChar, flags, buffer, pos, printer, sgn, body);
  }
}
