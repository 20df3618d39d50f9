/** format_print as the state machine it is, and vsnprintf on top of it. */
module Printf {
  import opened Arithmetic
  import opened NumberText
  import opened NumberReaders
  import opened FormatText
  import opened PhysicalMemory
  import opened PrintNum

  datatype State = Normal | InFlags | InWidth | InPrecision | InLength | InSpecifier

  /** How many states may follow without a character being consumed. */
  function Rank(s: State): nat {
    match s
    case InFlags => 4
    case InWidth => 3
    case InPrecision => 2
    case InLength => 1
    case InSpecifier => 0
    case Normal => 0
  }

  /** The directive being scanned, `d.end` being the position reached. */
  function Scanned(call: Call, s: State, d: Directive): (r: Directive)
    requires d.end <= |call.fmt|
    ensures d.end <= r.end <= |call.fmt|
  {
    match s
    case InFlags => call.Scan(d.end, d.flags, d.arg)
    case InWidth => call.ScanWidth(d.end, d.flags, d.arg)
    case InPrecision => call.ScanPrecision(d.end, d.flags, d.width, d.arg)
    case InLength =>
      var (length, j) := call.ScanLength(d.end, d.length);
      d.(length := length, end := j)
    case InSpecifier => d
    case Normal => d
  }

  /** What is still to be printed in a state. */
  function Remaining(call: Call, s: State, d: Directive): string
    requires d.end <= |call.fmt|
  {
    if s == Normal then Render(call.Converted, call.Items(d.end, d.arg), d.flags, true)
    else call.FromDirective(call.Converted, Scanned(call, s, d))
  }

  /** What the variables are in states that have not set them yet. */
  predicate Fresh(s: State, d: Directive) {
    && (s == Normal || s == InFlags || s == InWidth ==> d.precision == -1)
    && (s != InLength && s != InSpecifier ==> d.length == Plain)
  }

  /** Reads a width or precision. */
  method ReadField(call: Call, pos: nat, arg: nat) returns (n: int, pos': nat, arg': nat)
    requires pos < |call.fmt|
    ensures (n, pos', arg') == call.ScanNumber(pos, arg) && pos <= pos' <= |call.fmt|
  {
    if call.fmt[pos] == '*' {
      n, pos', arg' := Signed32(call.words(arg)), pos + 1, arg + 1;
    } else {
      n, pos' := ParseInt(call.fmt, pos);
      DecimalSame(call.fmt, pos);
      arg' := arg;
    }
  }

  /** Prints what a specifier stands for. */
  method Convert(call: Call, c: char, d: Directive, printer: Printer) returns (count: int)
    requires printer.Valid()
    modifies printer`memory, printer`arrayIndex, printer`printed
    ensures printer.Valid()
    ensures printer.printed == old(printer.printed) + call.Converted(c, d) && count == |call.Converted(c, d)|
  {
    count := 0;
    var radix, hasSign, isNumber := 10, false, false;
    if c == 'c' {
      var _ := printer.PrintChar((call.words(d.arg) % 256) as char);
      count := 1;
    } else if c == 's' {
      count := printer.PrintText(call.text(call.words(d.arg)));
    } else if c == '%' {
      var _ := printer.PrintChar('%');
      count := 1;
    } else if c == 'd' || c == 'i' {
      radix, hasSign, isNumber := 10, true, true;
    } else if c == 'u' {
      radix, hasSign, isNumber := 10, false, true;
    } else if c == 'X' || c == 'x' || c == 'p' {
      radix, hasSign, isNumber := 16, false, true;
    } else if c == 'o' {
      radix, hasSign, isNumber := 8, false, true;
    }
    if isNumber {
      count := PrintNumber(call.Number(d.length, d.arg), radix, d.width, d.precision, hasSign, d.flags, printer);
    }
  }

  /** The state and the variables behind a width. */
  function AfterWidth(call: Call, d: Directive): (State, Directive)
    requires d.end <= |call.fmt|
  {
    if d.end < |call.fmt| && call.fmt[d.end] == '.' then (InPrecision, d.(end := d.end + 1)) else (InLength, d)
  }

  lemma {:induction false} WidthScanned(call: Call, d: Directive, e: Directive)
    requires d.end < |call.fmt| && d.precision == -1 && d.length == Plain && e.end <= |call.fmt|
    requires call.ScanNumber(d.end, d.arg) == (e.width, e.end, e.arg) && e == d.(width := e.width, end := e.end, arg := e.arg)
    ensures var (s, d') := AfterWidth(call, e); Scanned(call, s, d') == call.ScanWidth(d.end, d.flags, d.arg)
  {
  }

  /** The width, and whether a precision follows. */
  method WidthStep(call: Call, d: Directive) returns (s': State, d': Directive)
    requires d.end < |call.fmt| && d.precision == -1 && d.length == Plain
    ensures d.end <= d'.end <= |call.fmt| && (s' == InPrecision || s' == InLength) && d'.length == Plain
    ensures Scanned(call, s', d') == call.ScanWidth(d.end, d.flags, d.arg)
  {
    var width, pos, arg := ReadField(call, d.end, d.arg);
    s', d' := InLength, d.(width := width, end := pos, arg := arg);
    WidthScanned(call, d, d');
    if pos < |call.fmt| && call.fmt[pos] == '.' {
      s', d' := InPrecision, d'.(end := pos + 1);
    }
  }

  method PrecisionStep(call: Call, d: Directive) returns (d': Directive)
    requires d.end < |call.fmt| && d.length == Plain
    ensures d.end <= d'.end <= |call.fmt| && d'.length == Plain
    ensures Scanned(call, InLength, d') == call.ScanPrecision(d.end, d.flags, d.width, d.arg)
  {
    var precision, pos, arg := ReadField(call, d.end, d.arg);
    d' := d.(precision := precision, end := pos, arg := arg);
  }

  method LengthStep(call: Call, d: Directive) returns (s': State, d': Directive)
    requires d.end < |call.fmt|
    ensures d.end <= d'.end <= |call.fmt| && (s' == InSpecifier || (s' == InLength && d'.end > d.end))
    ensures Scanned(call, s', d') == Scanned(call, InLength, d)
  {
    var c := call.fmt[d.end];
    if c == 'h' || c == 'l' {
      s' := if d.length == ShortShort then InSpecifier else InLength;
      d' := d.(length := AddLength(d.length, c), end := d.end + 1);
    } else {
      s', d' := InSpecifier, d;
    }
  }

  /** One round of the loop inside a directive in front of its specifier. */
  method ScanStep(call: Call, s: State, d: Directive) returns (s': State, d': Directive)
    requires d.end < |call.fmt| && Fresh(s, d) && s != Normal && s != InSpecifier
    ensures d.end <= d'.end <= |call.fmt| && Fresh(s', d') && s' != Normal
    ensures d'.end == d.end ==> Rank(s') < Rank(s)
    ensures Scanned(call, s', d') == Scanned(call, s, d)
  {
    match s
    case InFlags =>
      if IsFlag(call.fmt[d.end]) {
        s', d' := InFlags, d.(flags := AddFlag(d.flags, call.fmt[d.end]), end := d.end + 1);
      } else {
        s', d' := InWidth, d;
      }
    case InWidth =>
      s', d' := WidthStep(call, d);
    case InPrecision =>
      s' := InLength;
      d' := PrecisionStep(call, d);
    case InLength =>
      s', d' := LengthStep(call, d);
  }

  lemma PercentStep(call: Call, d: Directive)
    requires d.end < |call.fmt| && call.fmt[d.end] == '%'
    ensures Remaining(call, Normal, d) == Remaining(call, InFlags, d.(end := d.end + 1))
  {
    call.FromPercent(call.Converted, d.end, d.flags, d.arg, call.Items(d.end, d.arg));
  }

  lemma LiteralStep(call: Call, d: Directive, printed: string)
    requires d.end < |call.fmt| && call.fmt[d.end] != '%'
    ensures printed + Remaining(call, Normal, d) == printed + [call.fmt[d.end]] + Remaining(call, Normal, d.(end := d.end + 1))
  {
    RenderLiteral(call.Converted, call.fmt[d.end], call.Items(d.end + 1, d.arg), d.flags, true);
    Join2(printed, [call.fmt[d.end]], Remaining(call, Normal, d.(end := d.end + 1)));
  }

  method NormalStep(call: Call, d: Directive, printer: Printer) returns (s': State, count: int)
    requires d.end < |call.fmt| && printer.Valid()
    modifies printer`memory, printer`arrayIndex, printer`printed
    ensures printer.Valid() && (s' == Normal || s' == InFlags)
    ensures printer.printed + Remaining(call, s', d.(end := d.end + 1)) == old(printer.printed) + Remaining(call, Normal, d)
    ensures count == printer.Length() - old(printer.Length())
  {
    var c := call.fmt[d.end];
    if c == '%' {
      PercentStep(call, d);
      s', count := InFlags, 0;
    } else {
      LiteralStep(call, d, printer.printed);
      s', count := Normal, 1;
      var _ := printer.PrintChar(c);
    }
  }

  /** What is to be printed at a specifier: what it stands for, and what comes behind it. */
  lemma {:induction false} ConvertedFirst(call: Call, d: Directive, d': Directive)
    requires d.end < |call.fmt| && d' == Directive(d.flags, 0, -1, Plain, call.NextArgument(d), d.end + 1)
    ensures Remaining(call, InSpecifier, d) == call.Converted(call.fmt[d.end], d) + Remaining(call, Normal, d')
  {
    call.FromSpecifier(call.Converted, d, call.Items(d'.end, d'.arg));
  }

  method SpecifierStep(call: Call, d: Directive, printer: Printer) returns (d': Directive, count: int)
    requires d.end < |call.fmt| && printer.Valid()
    modifies printer`memory, printer`arrayIndex, printer`printed
    ensures printer.Valid() && d' == Directive(d.flags, 0, -1, Plain, call.NextArgument(d), d.end + 1)
    ensures printer.printed + Remaining(call, Normal, d') == old(printer.printed) + Remaining(call, InSpecifier, d)
    ensures count == printer.Length() - old(printer.Length())
  {
    d' := Directive(d.flags, 0, -1, Plain, call.NextArgument(d), d.end + 1);
    ConvertedFirst(call, d, d');
    Join2(printer.printed, call.Converted(call.fmt[d.end], d), Remaining(call, Normal, d'));
    count := Convert(call, call.fmt[d.end], d, printer);
  }

  /** One round of the loop: the state it goes to, the variables it leaves and the number of
      characters it printed. */
  method Step(call: Call, s: State, d: Directive, printer: Printer) returns (s': State, d': Directive, count: int)
    requires d.end < |call.fmt| && Fresh(s, d) && printer.Valid()
    modifies printer`memory, printer`arrayIndex, printer`printed
    ensures d.end <= d'.end <= |call.fmt| && Fresh(s', d') && printer.Valid()
    ensures d'.end == d.end ==> Rank(s') < Rank(s)
    ensures printer.printed + Remaining(call, s', d') == old(printer.printed) + Remaining(call, s, d)
    ensures count == printer.Length() - old(printer.Length())
  {
    if s == Normal {
      s', count := NormalStep(call, d, printer);
      d' := d.(end := d.end + 1);
    } else if s == InSpecifier {
      s' := Normal;
      d', count := SpecifierStep(call, d, printer);
    } else {
      s', d' := ScanStep(call, s, d);
      count := 0;
    }
  }

  /** Prints a format with its arguments; the number of characters printed. */
  method FormatPrint(call: Call, printer: Printer) returns (charCount: int)
    requires printer.Valid()
    modifies printer`memory, printer`arrayIndex, printer`printed
    ensures printer.Valid() && printer.printed == old(printer.printed) + call.Output() && charCount == |call.Output()|
  {
    var s, d := Normal, Directive(NO_FLAGS, 0, -1, Plain, 0, 0);
    charCount := 0;
    while d.end < |call.fmt|
      invariant d.end <= |call.fmt| && Fresh(s, d) && printer.Valid()
      invariant printer.printed + Remaining(call, s, d) == old(printer.printed) + call.Output()
      invariant charCount == printer.Length() - old(printer.Length())
      decreases |call.fmt| - d.end, Rank(s)
    {
      var count;
      s, d, count := Step(call, s, d, printer);
      charCount := charCount + count;
    }
    AtEnd(call, s, d);
  }

  lemma AtEnd(call: Call, s: State, d: Directive)
    requires d.end == |call.fmt|
    ensures Remaining(call, s, d) == ""
  {
    assert Scanned(call, s, d).end == |call.fmt|;
  }

  /** Stores as much of the output as fits into `n` bytes at `s`, and a terminator; the length of the
      whole output. */
  method VsnPrintf(s: int, n: Word, call: Call, printer: Printer) returns (result: int)
    modifies printer
    ensures result == |call.Output()|
    ensures printer.memory == Overwrite(old(printer.memory), s, SnprintfText(call.Output(), n))
  {
    printer.arrayMax, printer.arrayIndex, printer.arrayOut, printer.limitArraySize := n, 0, s, true;
    printer.printed, printer.before := "", printer.memory;
    result := FormatPrint(call, printer);
    Terminated(printer.before, s, printer.printed, call.Output(), n, printer.arrayIndex);
    printer.memory := printer.memory[printer.arrayOut + printer.arrayIndex := '\0'];
    printer.arrayOut := 0;
  }

  /** What vsnprintf leaves at its destination. */
  function SnprintfText(output: string, n: Word): string {
    (if (n - 1) % TWO_32 < |output| then output[..(n - 1) % TWO_32] else output) + ['\0']
  }

  lemma Terminated(m: map<int, char>, s: int, printed: string, output: string, n: Word, k: nat)
    requires printed == "" + output && k == if (n - 1) % TWO_32 < |printed| then (n - 1) % TWO_32 else |printed|
    ensures Overwrite(m, s, SnprintfText(output, n)) == Overwrite(m, s, printed[..k])[s + k := '\0']
  {
    assert SnprintfText(output, n) == printed[..k] + ['\0'];
    OverwriteAppend(m, s, printed[..k], '\0');
  }

  /** For n >= 1 that is the first min(n - 1, L) characters and a terminator; nothing outside the
      `n` bytes changes exactly when n >= 1. */
  lemma SnprintfExactlyWhen(output: string, n: Word)
    ensures n >= 1 ==> SnprintfText(output, n) == output[..if |output| < n then |output| else n - 1] + ['\0']
    ensures |SnprintfText(output, n)| <= n <==> n >= 1
  {
  }

  /** A size of 0 that does not keep vsnprintf from writing four characters. */
  lemma {:induction false} SizeZeroWrites(call: Call)
    requires call.fmt == "abc"
    ensures SnprintfText(call.Output(), 0) == "abc" + ['\0']
  {
    call.PlainFormat(call.Converted, 0, NO_FLAGS, 0, true);
    assert call.fmt[0..] == "abc";
  }
}
