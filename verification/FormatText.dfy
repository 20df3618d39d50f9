/** What format_print makes of a format and its arguments, one directive at a time. */
module FormatText {
  import opened Arithmetic
  import opened NumberText
  import opened NumberReaders
  import opened PhysicalMemory
  import opened TextShapes

  /** How the length modifiers of a directive are kept. */
  datatype Length = Plain | Short | ShortShort | Long | LongLong

  /** A directive without its specifier, which stands at `end`; `arg` is the next argument word. */
  datatype Directive = Directive(flags: Flags, width: int, precision: int, length: Length, arg: nat, end: nat)

  /** A format is a sequence of characters to copy and of directives with their specifiers. */
  datatype Item = Literal(c: char) | Conversion(d: Directive, c: char)

  predicate IsFlag(c: char) {
    c == '-' || c == '+' || c == ' ' || c == '#' || c == '0' || c == '\''
  }

  function AddFlag(f: Flags, c: char): Flags {
    Flags(f.leftJustify || c == '-', f.sign || c == '+', f.space || c == ' ', f.altForm || c == '#',
          f.zeroPad || c == '0', f.group || c == '\'')
  }

  /** The modifier after one more 'h' or 'l'. */
  function AddLength(length: Length, c: char): Length {
    if c == 'h' then (if length == Plain then Short else ShortShort)
    else if length == Plain then Long
    else LongLong
  }

  predicate IsNumber(c: char) {
    c == 'd' || c == 'i' || c == 'u' || c == 'X' || c == 'x' || c == 'p' || c == 'o'
  }

  function Radix(c: char): (r: nat)
    ensures 2 <= r <= 16
  {
    if c == 'X' || c == 'x' || c == 'p' then 16 else if c == 'o' then 8 else 10
  }

  predicate IsSigned(c: char) {
    c == 'd' || c == 'i'
  }

  /** A call of format_print: the format up to its terminator, the argument words on the stack, and
      the text that stands at every address. */
  datatype Call = Call(fmt: string, words: nat -> Word, text: Word -> string) {

    /** The flags from `i` on, added to `f`, and where they end. */
    function ScanFlags(i: nat, f: Flags): (r: (Flags, nat))
      requires i <= |fmt|
      ensures i <= r.1 <= |fmt|
      decreases |fmt| - i
    {
      if i < |fmt| && IsFlag(fmt[i]) then ScanFlags(i + 1, AddFlag(f, fmt[i])) else (f, i)
    }

    /** A width or precision: a number in the format, or a star for the next argument. */
    function ScanNumber(i: nat, arg: nat): (r: (int, nat, nat))
      requires i <= |fmt|
      ensures i <= r.1 <= |fmt|
    {
      if i < |fmt| && fmt[i] == '*' then (Signed32(words(arg)), i + 1, arg + 1)
      else
        var (n, j) := DecimalFrom(fmt, i, 0);
        (n, j, arg)
    }

    /** Length modifiers from `i` on; anything may follow, but nothing more is taken after "hh" and
        one further modifier. */
    function ScanLength(i: nat, length: Length): (r: (Length, nat))
      requires i <= |fmt|
      ensures i <= r.1 <= |fmt|
      decreases |fmt| - i
    {
      if i < |fmt| && (fmt[i] == 'h' || fmt[i] == 'l') then
        if length == ShortShort then (AddLength(length, fmt[i]), i + 1)
        else ScanLength(i + 1, AddLength(length, fmt[i]))
      else (length, i)
    }

    function ScanRest(i: nat, f: Flags, width: int, precision: int, arg: nat): (d: Directive)
      requires i <= |fmt|
      ensures i <= d.end <= |fmt| && d.flags == f
    {
      var (length, j) := ScanLength(i, Plain);
      Directive(f, width, precision, length, arg, j)
    }

    function ScanPrecision(i: nat, f: Flags, width: int, arg: nat): (d: Directive)
      requires i <= |fmt|
      ensures i <= d.end <= |fmt| && d.flags == f
    {
      var (precision, j, a) := ScanNumber(i, arg);
      ScanRest(j, f, width, precision, a)
    }

    function ScanWidth(i: nat, f: Flags, arg: nat): (d: Directive)
      requires i <= |fmt|
      ensures i <= d.end <= |fmt| && d.flags == f
    {
      var (width, j, a) := ScanNumber(i, arg);
      if j < |fmt| && fmt[j] == '.' then ScanPrecision(j + 1, f, width, a) else ScanRest(j, f, width, -1, a)
    }

    /** The directive whose flags start at `i`. */
    function Scan(i: nat, f: Flags, arg: nat): (d: Directive)
      requires i <= |fmt|
      ensures i <= d.end <= |fmt|
    {
      var (f', j) := ScanFlags(i, f);
      ScanWidth(j, f', arg)
    }

    /** The number a directive prints: two argument words for a long long, otherwise one. */
    function Number(length: Length, arg: nat): (n: int)
      ensures -TWO_64 / 2 <= n < TWO_64 / 2
    {
      if length == LongLong then Signed32(words(arg + 1)) * TWO_32 + words(arg) else Signed32(words(arg))
    }

    function ArgumentWords(c: char, length: Length): nat {
      if IsNumber(c) then (if length == LongLong then 2 else 1) else if c == 'c' || c == 's' then 1 else 0
    }

    /** The argument after those of a directive that has a specifier. */
    function NextArgument(d: Directive): nat
      requires d.end < |fmt|
    {
      d.arg + ArgumentWords(fmt[d.end], d.length)
    }

    /** What one directive prints. */
    function Converted(c: char, d: Directive): string {
      if IsNumber(c) then Layout(Number(d.length, d.arg), Radix(c), d.width, d.precision, IsSigned(c), d.flags)
      else if c == 'c' then [(words(d.arg) % 256) as char]
      else if c == 's' then text(words(d.arg))
      else if c == '%' then "%"
      else ""
    }

    /** The format from position `i` on, outside a directive. A directive that has no specifier when
        the format ends is dropped. */
    function Items(i: nat, arg: nat): seq<Item>
      requires i <= |fmt|
      decreases |fmt| - i
    {
      if i == |fmt| then []
      else if fmt[i] != '%' then [Literal(fmt[i])] + Items(i + 1, arg)
      else
        var d := Scan(i + 1, NO_FLAGS, arg);
        if d.end == |fmt| then [] else [Conversion(d, fmt[d.end])] + Items(d.end + 1, NextArgument(d))
    }

    /** Everything the call prints: flags are never taken back. */
    function Output(): string {
      Render(Converted, Items(0, 0), NO_FLAGS, true)
    }

    /** The same with the flags reset for every directive: each has its own only. */
    function ResetOutput(): string {
      Render(Converted, Items(0, 0), NO_FLAGS, false)
    }

    /** Flags `g` spread a directive's number out as its own flags do. */
    predicate SpreadAlike(c: char, d: Directive, g: Flags) {
      var num := Number(d.length, d.arg);
      var digits := |Digits(Magnitude(num, IsSigned(c)), Radix(c))|;
      IsNumber(c) ==>
        SpreadOf(num, digits, Radix(c), d.width, d.precision, IsSigned(c), g)
        == SpreadOf(num, digits, Radix(c), d.width, d.precision, IsSigned(c), d.flags)
    }

    /** So do the flags in force for every directive, `f` being left over to begin with. */
    predicate Harmless(items: seq<Item>, f: Flags) {
      items == [] ||
      match items[0]
      case Literal(_) => Harmless(items[1..], f)
      case Conversion(d, c) => SpreadAlike(c, d, Union(f, d.flags)) && Harmless(items[1..], Union(f, d.flags))
    }

    lemma SameConverted(c: char, d: Directive, g: Flags)
      ensures Converted(c, d.(flags := g)) == Converted(c, d) <==> SpreadAlike(c, d, g)
    {
      if IsNumber(c) {
        SpreadExactlyWhen(Number(d.length, d.arg), Radix(c), d.width, d.precision, IsSigned(c), g, d.flags);
      }
    }

    lemma {:induction false} HarmlessUnaffected(items: seq<Item>, f: Flags)
      ensures Harmless(items, f) <==> Unaffected(Converted, items, f)
    {
      if items != [] {
        match items[0]
        case Literal(_) => HarmlessUnaffected(items[1..], f);
        case Conversion(d, c) =>
          SameConverted(c, d, Union(f, d.flags));
          HarmlessUnaffected(items[1..], Union(f, d.flags));
      }
    }

    /** Unless an alternative form is left over for a decimal or octal number, which can shorten its
        padding, a call prints what it would print with the flags reset when, and only when, the flags
        left over spread no directive's number out differently. */
    lemma OutputsAgreeExactlyWhen()
      ensures Harmless(Items(0, 0), NO_FLAGS) ==> Output() == ResetOutput()
      ensures NoStrayForm(Items(0, 0), false) && Output() == ResetOutput() ==> Harmless(Items(0, 0), NO_FLAGS)
    {
      HarmlessUnaffected(Items(0, 0), NO_FLAGS);
      if Harmless(Items(0, 0), NO_FLAGS) {
        UnaffectedAlike(Converted, Items(0, 0), NO_FLAGS);
      }
      if NoStrayForm(Items(0, 0), false) {
        FlagsLengthen(Items(0, 0), NO_FLAGS);
        AlikeUnaffected(Converted, Items(0, 0), NO_FLAGS);
      }
    }

    lemma {:induction false} FlagsLengthen(items: seq<Item>, f: Flags)
      requires NoStrayForm(items, f.altForm)
      ensures NoneShorter(Converted, items, f)
    {
      if items != [] {
        match items[0]
        case Literal(_) => FlagsLengthen(items[1..], f);
        case Conversion(d, c) =>
          var flags := Union(f, d.flags);
          if IsNumber(c) {
            LayoutLengthens(Number(d.length, d.arg), Radix(c), d.width, d.precision, IsSigned(c), f, d.flags);
          }
          FlagsLengthen(items[1..], flags);
      }
    }

    lemma {:induction false} FlagsAdd(i: nat, f: Flags, g: Flags)
      requires i <= |fmt|
      ensures ScanFlags(i, Union(f, g)) == (Union(f, ScanFlags(i, g).0), ScanFlags(i, g).1)
      decreases |fmt| - i
    {
      if i < |fmt| && IsFlag(fmt[i]) {
        AddUnion(f, g, fmt[i]);
        FlagsAdd(i + 1, f, AddFlag(g, fmt[i]));
      }
    }

    lemma WidthApart(i: nat, f: Flags, g: Flags, arg: nat)
      requires i <= |fmt|
      ensures ScanWidth(i, f, arg) == ScanWidth(i, g, arg).(flags := f)
    {
    }

    /** The flags in force for a directive are its own and those that were in force before. */
    lemma FlagsInForce(i: nat, f: Flags, arg: nat)
      requires i <= |fmt|
      ensures Scan(i, f, arg) == Scan(i, NO_FLAGS, arg).(flags := Union(f, Scan(i, NO_FLAGS, arg).flags))
      ensures Scan(i, f, arg) == Scan(i, NO_FLAGS, arg) <==> HasFlags(Scan(i, NO_FLAGS, arg).flags, f)
    {
      FlagsAdd(i, f, NO_FLAGS);
      assert Union(f, NO_FLAGS) == f;
      WidthApart(ScanFlags(i, f).1, ScanFlags(i, f).0, ScanFlags(i, NO_FLAGS).0, arg);
    }

    /** The items behind a scanned directive. */
    function Behind(d: Directive): seq<Item>
      requires d.end <= |fmt|
    {
      if d.end == |fmt| then [] else Items(d.end + 1, NextArgument(d))
    }

    /** What is printed from a scanned directive on that has all flags in force, `rest` being behind it. */
    function WrittenFrom(show: (char, Directive) -> string, d: Directive, rest: seq<Item>): string
      requires d.end <= |fmt|
    {
      if d.end == |fmt| then "" else show(fmt[d.end], d) + Render(show, rest, d.flags, true)
    }

    function FromDirective(show: (char, Directive) -> string, d: Directive): string
      requires d.end <= |fmt|
    {
      WrittenFrom(show, d, Behind(d))
    }

    /** The items that a directive written without flags of others starts. */
    function ItemsFrom(d: Directive, rest: seq<Item>): seq<Item>
      requires d.end <= |fmt|
    {
      if d.end == |fmt| then [] else [Conversion(d, fmt[d.end])] + rest
    }

    /** The flags do not change what stands behind a directive. */
    lemma {:induction false} BehindFlags(d: Directive, flags: Flags)
      requires d.end <= |fmt|
      ensures Behind(d.(flags := flags)) == Behind(d)
    {
      assert d.end < |fmt| ==> NextArgument(d.(flags := flags)) == NextArgument(d);
    }

    lemma {:induction false} FromWritten(show: (char, Directive) -> string, d: Directive, f: Flags, rest: seq<Item>)
      requires d.end <= |fmt|
      ensures Render(show, ItemsFrom(d, rest), f, true) == WrittenFrom(show, d.(flags := Union(f, d.flags)), rest)
    {
      if d.end < |fmt| {
        RenderConversion(show, d, fmt[d.end], rest, f, true);
      }
    }

    lemma {:induction false} FromSpecifier(show: (char, Directive) -> string, d: Directive, rest: seq<Item>)
      requires d.end < |fmt| && rest == Items(d.end + 1, NextArgument(d))
      ensures FromDirective(show, d) == show(fmt[d.end], d) + Render(show, rest, d.flags, true)
    {
    }

    /** One more directive, once it is known how it is scanned. */
    lemma ItemScanned(i: nat, arg: nat, d: Directive)
      requires i < |fmt| && fmt[i] == '%' && d == Scan(i + 1, NO_FLAGS, arg) && d.end < |fmt|
      ensures Items(i, arg) == [Conversion(d, fmt[d.end])] + Items(d.end + 1, NextArgument(d))
    {
    }

    lemma {:induction false} ItemsPercent(i: nat, arg: nat)
      requires i < |fmt| && fmt[i] == '%'
      ensures var d := Scan(i + 1, NO_FLAGS, arg); Items(i, arg) == ItemsFrom(d, Behind(d))
    {
    }

    /** What is printed from a directive on is what its items print with the flags that are left over. */
    lemma {:induction false} FromScanned(show: (char, Directive) -> string, i: nat, f: Flags, arg: nat, items: seq<Item>)
      requires i <= |fmt| && items == ItemsFrom(Scan(i, NO_FLAGS, arg), Behind(Scan(i, NO_FLAGS, arg)))
      ensures Render(show, items, f, true) == FromDirective(show, Scan(i, f, arg))
    {
      var d := Scan(i, NO_FLAGS, arg);
      FlagsInForce(i, f, arg);
      BehindFlags(d, Union(f, d.flags));
      FromWritten(show, d, f, Behind(d));
    }

    lemma {:induction false} FromPercent(show: (char, Directive) -> string, i: nat, f: Flags, arg: nat, items: seq<Item>)
      requires i < |fmt| && fmt[i] == '%' && items == Items(i, arg)
      ensures Render(show, items, f, true) == FromDirective(show, Scan(i + 1, f, arg))
    {
      ItemsPercent(i, arg);
      FromScanned(show, i + 1, f, arg, items);
    }

    /** A format without directives is printed as it is. */
    lemma {:induction false} PlainFormat(show: (char, Directive) -> string, i: nat, f: Flags, arg: nat, keep: bool)
      requires i <= |fmt| && '%' !in fmt[i..]
      ensures Render(show, Items(i, arg), f, keep) == fmt[i..]
      decreases |fmt| - i
    {
      if i < |fmt| {
        assert fmt[i] in fmt[i..];
        PlainFormat(show, i + 1, f, arg, keep);
        RenderLiteral(show, fmt[i], Items(i + 1, arg), f, keep);
        assert fmt[i..] == [fmt[i]] + fmt[i + 1..];
      }
    }

    /** A directive without width, precision and length modifier. */
    lemma ScanBare(i: nat, f: Flags, arg: nat)
      requires i < |fmt| && (fmt[i] == 'd' || fmt[i] == 's')
      ensures Scan(i, f, arg) == Directive(f, 0, -1, Plain, arg, i)
    {
      assert fmt[i..][0] == fmt[i] && DigitRun(fmt[i..], 10) == [];
      assert ScanRest(i, f, 0, -1, arg) == Directive(f, 0, -1, Plain, arg, i);
    }

    lemma {:induction false} SignedScan(i: nat, arg: nat)
      requires i + 1 < |fmt| && fmt[i] == '+' && fmt[i + 1] == 'd'
      ensures Scan(i, NO_FLAGS, arg) == Directive(NO_FLAGS.(sign := true), 0, -1, Plain, arg, i + 1)
    {
      var plus := NO_FLAGS.(sign := true);
      assert AddFlag(NO_FLAGS, '+') == plus;
      assert ScanFlags(i, NO_FLAGS) == ScanFlags(i + 1, plus);
      ScanBare(i + 1, plus, arg);
    }

    /** A bare directive at the end of the format. */
    lemma {:induction false} LastItem(i: nat, arg: nat)
      requires i + 2 == |fmt| && fmt[i] == '%' && (fmt[i + 1] == 'd' || fmt[i + 1] == 's')
      ensures Items(i, arg) == [Conversion(Directive(NO_FLAGS, 0, -1, Plain, arg, i + 1), fmt[i + 1])] + []
    {
      ScanBare(i + 1, NO_FLAGS, arg);
      ItemsPercent(i, arg);
    }

    /** A signed number, and another bare directive behind it. */
    predicate TwoDirectives(c: char) {
      && (c == 'd' || c == 's') && |fmt| == 5
      && fmt[0] == '%' && fmt[1] == '+' && fmt[2] == 'd' && fmt[3] == '%' && fmt[4] == c
    }

    lemma {:induction false} LeakItems(c: char)
      requires TwoDirectives(c)
      ensures Items(0, 0) == [Conversion(Directive(NO_FLAGS.(sign := true), 0, -1, Plain, 0, 2), 'd')]
                             + ([Conversion(Directive(NO_FLAGS, 0, -1, Plain, 1, 4), c)] + [])
    {
      LastItem(3, 1);
      SignedScan(1, 0);
      ItemsPercent(0, 0);
    }

    lemma {:induction false} DigitConverted(d: Directive)
      requires d.width == 0 && d.precision == -1 && d.length == Plain && words(d.arg) < 10
      requires d.flags == NO_FLAGS || d.flags == NO_FLAGS.(sign := true)
      ensures Converted('d', d) == (if d.flags.sign then "+" else "") + [HEX_CHARS[words(d.arg)]]
    {
      BareDigit(words(d.arg), d.flags);
    }

    /** What they print. */
    lemma {:induction false} LeakRender(show: (char, Directive) -> string, c: char, d: Directive, e: Directive)
      requires TwoDirectives(c)
      requires d == Directive(NO_FLAGS.(sign := true), 0, -1, Plain, 0, 2) && e == Directive(NO_FLAGS, 0, -1, Plain, 1, 4)
      ensures Render(show, Items(0, 0), NO_FLAGS, true) == show('d', d) + show(c, e.(flags := d.flags))
      ensures Render(show, Items(0, 0), NO_FLAGS, false) == show('d', d) + show(c, e)
      ensures !RepeatsFlags(Items(0, 0), NO_FLAGS)
    {
      LeakItems(c);
      TwoItems(show, d, e, c);
    }

    lemma {:induction false} LeakShown(show: (char, Directive) -> string, d: Directive, e: Directive)
      requires TwoDirectives('d')
      requires d == Directive(NO_FLAGS.(sign := true), 0, -1, Plain, 0, 2) && e == Directive(NO_FLAGS, 0, -1, Plain, 1, 4)
      requires show('d', d) == "+1" && show('d', e) == "2" && show('d', e.(flags := d.flags)) == "+2"
      ensures Render(show, Items(0, 0), NO_FLAGS, true) == "+1+2" && Render(show, Items(0, 0), NO_FLAGS, false) == "+12"
    {
      LeakRender(show, 'd', d, e);
    }

    /** The flags of one directive show in the next: a sign is printed that was not asked for. */
    lemma {:induction false} FlagsLeak()
      requires fmt == "%+d%d" && words(0) == 1 && words(1) == 2
      ensures Output() == "+1+2" && ResetOutput() == "+12"
    {
      var d, e := Directive(NO_FLAGS.(sign := true), 0, -1, Plain, 0, 2), Directive(NO_FLAGS, 0, -1, Plain, 1, 4);
      DigitConverted(d);
      DigitConverted(e);
      DigitConverted(e.(flags := d.flags));
      LeakShown(Converted, d, e);
    }

    /** Where the next directive has no use for them, left-over flags do no harm. */
    lemma {:induction false} HarmlessLeak()
      requires fmt == "%+d%s"
      ensures !RepeatsFlags(Items(0, 0), NO_FLAGS) && Output() == ResetOutput()
    {
      LeakRender(Converted, 's', Directive(NO_FLAGS.(sign := true), 0, -1, Plain, 0, 2), Directive(NO_FLAGS, 0, -1, Plain, 1, 4));
    }

    lemma {:induction false} FormFlags(i: nat)
      requires i + 2 < |fmt| && fmt[i] == ' ' && fmt[i + 1] == '#' && !IsFlag(fmt[i + 2])
      ensures ScanFlags(i, NO_FLAGS) == (SpaceForm(), i + 2)
    {
      assert AddFlag(NO_FLAGS, ' ') == NO_FLAGS.(space := true) && AddFlag(NO_FLAGS.(space := true), '#') == SpaceForm();
      assert ScanFlags(i + 1, NO_FLAGS.(space := true)) == ScanFlags(i + 2, SpaceForm()) == (SpaceForm(), i + 2);
    }

    lemma {:induction false} FormScan(i: nat, arg: nat)
      requires i + 2 < |fmt| && fmt[i] == ' ' && fmt[i + 1] == '#' && fmt[i + 2] == '%'
      ensures Scan(i, NO_FLAGS, arg) == Directive(SpaceForm(), 0, -1, Plain, arg, i + 2)
    {
      FormFlags(i);
      NoDigit(fmt, i + 2);
      assert ScanRest(i + 2, SpaceForm(), 0, -1, arg) == Directive(SpaceForm(), 0, -1, Plain, arg, i + 2);
    }

    lemma {:induction false} PreciseScan(i: nat, arg: nat)
      requires i + 2 < |fmt| && fmt[i] == '.' && fmt[i + 1] == '0' && fmt[i + 2] == 'd'
      ensures Scan(i, NO_FLAGS, arg) == Directive(NO_FLAGS, 0, 0, Plain, arg, i + 2)
    {
      NoDigit(fmt, i);
      OneDigit(fmt, i + 1);
      assert ScanRest(i + 2, NO_FLAGS, 0, 0, arg) == Directive(NO_FLAGS, 0, 0, Plain, arg, i + 2);
      assert ScanPrecision(i + 1, NO_FLAGS, 0, arg) == ScanRest(i + 2, NO_FLAGS, 0, 0, arg);
    }

    lemma {:induction false} WideScan(i: nat, arg: nat)
      requires i + 1 < |fmt| && fmt[i] == '3' && fmt[i + 1] == 'd'
      ensures Scan(i, NO_FLAGS, arg) == Directive(NO_FLAGS, 3, -1, Plain, arg, i + 1)
    {
      OneDigit(fmt, i);
      assert ScanRest(i + 1, NO_FLAGS, 3, -1, arg) == Directive(NO_FLAGS, 3, -1, Plain, arg, i + 1);
    }

    function ScanAt(): (nat, nat) -> Directive {
      (i: nat, arg: nat) => if i <= |fmt| then Scan(i, NO_FLAGS, arg) else Directive(NO_FLAGS, 0, -1, Plain, arg, i)
    }

    /** The format from `i` on is written as these items, `scan` giving its directives. */
    predicate Writes(scan: (nat, nat) -> Directive, items: seq<Item>, i: nat, arg: nat) {
      if items == [] then i == |fmt|
      else
        && i < |fmt|
        && match items[0]
           case Literal(c) => fmt[i] == c && c != '%' && Writes(scan, items[1..], i + 1, arg)
           case Conversion(d, c) =>
             && fmt[i] == '%' && d == scan(i + 1, arg) && d.end < |fmt| && fmt[d.end] == c
             && Writes(scan, items[1..], d.end + 1, NextArgument(d))
    }

    lemma {:induction false} WrittenItems(items: seq<Item>, i: nat, arg: nat)
      requires Writes(ScanAt(), items, i, arg)
      ensures i <= |fmt| && Items(i, arg) == items
      decreases |items|
    {
      if items != [] {
        assert items == [items[0]] + items[1..];
        match items[0]
        case Literal(c) =>
          WrittenItems(items[1..], i + 1, arg);
          CopiedThen(items[1..], i, arg);
        case Conversion(d, c) =>
          WrittenItems(items[1..], d.end + 1, NextArgument(d));
          ScannedThen(items[1..], i, arg, d);
      }
    }

    lemma CopiedThen(rest: seq<Item>, i: nat, arg: nat)
      requires i < |fmt| && fmt[i] != '%' && rest == Items(i + 1, arg)
      ensures Items(i, arg) == [Literal(fmt[i])] + rest
    {
    }

    lemma ScannedThen(rest: seq<Item>, i: nat, arg: nat, d: Directive)
      requires i < |fmt| && fmt[i] == '%' && d == ScanAt()(i + 1, arg) && d.end < |fmt|
      requires rest == Items(d.end + 1, NextArgument(d))
      ensures Items(i, arg) == [Conversion(d, fmt[d.end])] + rest
    {
      ItemScanned(i, arg, d);
    }

    lemma WritesNext(scan: (nat, nat) -> Directive, rest: seq<Item>, i: nat, arg: nat)
      requires i < |fmt| && fmt[i] == '%' && scan(i + 1, arg).end < |fmt|
      requires var d := scan(i + 1, arg); Writes(scan, rest, d.end + 1, NextArgument(d))
      ensures var d := scan(i + 1, arg); Writes(scan, [Conversion(d, fmt[d.end])] + rest, i, arg)
    {
      var d := scan(i + 1, arg);
      assert ([Conversion(d, fmt[d.end])] + rest)[1..] == rest;
    }

    /** The format "% #%%.0d%3d" from `i` on. */
    predicate BlanksFrom(i: nat) {
      && |fmt| == i + 11
      && fmt[i] == '%' && fmt[i + 1] == ' ' && fmt[i + 2] == '#' && fmt[i + 3] == '%'
      && fmt[i + 4] == '%' && fmt[i + 5] == '.' && fmt[i + 6] == '0' && fmt[i + 7] == 'd'
      && fmt[i + 8] == '%' && fmt[i + 9] == '3' && fmt[i + 10] == 'd'
    }

    lemma BlanksWritten(scan: (nat, nat) -> Directive, i: nat, arg: nat)
      requires BlanksFrom(i)
      requires scan(i + 1, arg) == Directive(SpaceForm(), 0, -1, Plain, arg, i + 3)
      requires scan(i + 5, arg) == Directive(NO_FLAGS, 0, 0, Plain, arg, i + 7)
      requires scan(i + 9, arg + 1) == Directive(NO_FLAGS, 3, -1, Plain, arg + 1, i + 10)
      ensures Writes(scan, BlankDirectives(i, arg), i, arg)
    {
      WritesNext(scan, [], i + 8, arg + 1);
      WritesNext(scan, [Conversion(scan(i + 9, arg + 1), 'd')] + [], i + 4, arg);
      WritesNext(scan, [Conversion(scan(i + 5, arg), 'd')] + ([Conversion(scan(i + 9, arg + 1), 'd')] + []), i, arg);
    }

    lemma BlankItems(i: nat, arg: nat)
      requires BlanksFrom(i)
      ensures Writes(ScanAt(), BlankDirectives(i, arg), i, arg)
    {
      FormScan(i + 1, arg);
      PreciseScan(i + 5, arg);
      WideScan(i + 9, arg + 1);
      BlanksWritten(ScanAt(), i, arg);
    }

    lemma BlanksConverted(i: nat, arg: nat)
      requires words(arg) == 0 && words(arg + 1) == 7
      ensures CancelBlanks(Converted, i, arg)
    {
      BlankLayouts();
    }

    /** With a left-over alternative form two changes can make up for each other: a zero without digits
        gets a blank in front, and the padding of the next number comes out a blank short. */
    lemma {:induction false} ChangesCancel()
      requires fmt == "% #%%.0d%3d" && words(0) == 0 && words(1) == 7
      ensures Output() == ResetOutput() == "%  7" && !Harmless(Items(0, 0), NO_FLAGS)
    {
      assert BlanksFrom(0);
      CancelledFrom(0, 0);
    }

    lemma {:induction false} CancelledFrom(i: nat, arg: nat)
      requires BlanksFrom(i) && words(arg) == 0 && words(arg + 1) == 7
      ensures Render(Converted, Items(i, arg), NO_FLAGS, true) == "%  7"
      ensures Render(Converted, Items(i, arg), NO_FLAGS, false) == "%  7"
      ensures !Harmless(Items(i, arg), NO_FLAGS)
    {
      BlanksConverted(i, arg);
      BlankFormat(i, arg);
      BlanksCancel(Converted, i, arg);
      HarmlessUnaffected(BlankDirectives(i, arg), NO_FLAGS);
    }

    lemma {:induction false} BlankFormat(i: nat, arg: nat)
      requires BlanksFrom(i)
      ensures Items(i, arg) == BlankDirectives(i, arg)
    {
      BlankItems(i, arg);
      WrittenItems(BlankDirectives(i, arg), i, arg);
    }

    /** An argument printed unsigned is the number passed exactly when it is a long long or fits an int. */
    lemma UnsignedExactlyWhen(length: Length, arg: nat)
      ensures Magnitude(Number(length, arg), false) == (if length == LongLong then words(arg + 1) * TWO_32 else 0) + words(arg)
              <==> length == LongLong || words(arg) <= INT_MAX
    {
      var (lo, hi) := (words(arg), words(arg + 1));
      if length == LongLong {
        UnsignedPair(lo, hi);
      }
    }

    /** An unsigned number that is printed as another: "%x" of 0x80000000. */
    lemma {:induction false} UnsignedWidened()
      requires fmt == "%x" && words(0) == 0x8000_0000
      ensures Output() == "FFFFFFFF80000000"
    {
      WidenedFrom(0, 0);
    }

    lemma {:induction false} WidenedFrom(i: nat, arg: nat)
      requires i + 2 == |fmt| && fmt[i] == '%' && fmt[i + 1] == 'x' && words(arg) == 0x8000_0000
      ensures Render(Converted, Items(i, arg), NO_FLAGS, true) == "FFFFFFFF80000000"
    {
      BareHex(i, arg);
      WidenedText(Number(Plain, arg));
    }

    /** A bare directive for a hexadecimal number at the end of the format. */
    lemma {:induction false} BareHex(i: nat, arg: nat)
      requires i + 2 == |fmt| && fmt[i] == '%' && fmt[i + 1] == 'x'
      ensures Render(Converted, Items(i, arg), NO_FLAGS, true) == Layout(Number(Plain, arg), 16, 0, -1, false, NO_FLAGS)
    {
      var d := Directive(NO_FLAGS, 0, -1, Plain, arg, i + 1);
      NoDigit(fmt, i + 1);
      assert ScanRest(i + 1, NO_FLAGS, 0, -1, arg) == d;
      ItemScanned(i, arg, d);
      assert Items(i + 2, arg + 1) == [];
      assert Union(NO_FLAGS, NO_FLAGS) == NO_FLAGS;
      RenderConversion(Converted, d, 'x', [], NO_FLAGS, true);
    }

    lemma ZeroFlag(i: nat)
      requires i + 1 < |fmt| && fmt[i] == '0' && !IsFlag(fmt[i + 1])
      ensures ScanFlags(i, NO_FLAGS) == (NO_FLAGS.(zeroPad := true), i + 1)
    {
      assert AddFlag(NO_FLAGS, '0') == NO_FLAGS.(zeroPad := true);
      assert ScanFlags(i, NO_FLAGS) == ScanFlags(i + 1, NO_FLAGS.(zeroPad := true));
    }

    lemma WidthBeforeHex(i: nat, width: nat, f: Flags, arg: nat)
      requires i < |fmt| && fmt[i] != '*' && DecimalFrom(fmt, i, 0) == (width, |fmt| - 1) && fmt[|fmt| - 1] == 'x'
      ensures ScanWidth(i, f, arg) == Directive(f, width, -1, Plain, arg, |fmt| - 1)
    {
      assert ScanRest(|fmt| - 1, f, width, -1, arg) == Directive(f, width, -1, Plain, arg, |fmt| - 1);
    }

    lemma {:induction false} ScanZeroPadded(i: nat, width: nat, text: string, arg: nat)
      requires 1 <= width <= INT_MAX && text == Digits(width, 10)
      requires i + 1 < |fmt| && fmt[i] == '0' && fmt[i + 1..] == text + "x"
      ensures Scan(i, NO_FLAGS, arg) == Directive(NO_FLAGS.(zeroPad := true), width, -1, Plain, arg, |fmt| - 1)
    {
      LeadingDigit(width, 10);
      DigitsRoundTrip(width, 10);
      assert fmt[i + 1] == fmt[i + 1..][0] == text[0] && fmt[|fmt| - 1] == fmt[i + 1..][|text|] == 'x';
      ZeroFlag(i);
      DecimalRead(fmt, i + 1, width, text, "x");
      DecimalSame(fmt, i + 1);
      WidthBeforeHex(i + 1, width, NO_FLAGS.(zeroPad := true), arg);
    }

    /** A directive for a zero padded hexadecimal number, its width written by print_num. */
    lemma {:induction false} ScanPadded(width: nat, flags: Flags)
      requires 1 <= width <= INT_MAX && fmt == "%0" + Digits(width, 10) + "x" && flags == NO_FLAGS.(zeroPad := true)
      ensures Scan(1, NO_FLAGS, 0) == Directive(flags, width, -1, Plain, 0, |fmt| - 1)
    {
      assert fmt[2..] == Digits(width, 10) + "x";
      ScanZeroPadded(1, width, Digits(width, 10), 0);
    }

    lemma {:induction false} PaddedOutput(show: (char, Directive) -> string, width: nat, flags: Flags, d: Directive)
      requires 1 <= width <= INT_MAX && fmt == "%0" + Digits(width, 10) + "x" && flags == NO_FLAGS.(zeroPad := true)
      requires d == Directive(flags, width, -1, Plain, 0, |fmt| - 1)
      ensures Render(show, Items(0, 0), NO_FLAGS, true) == show('x', d)
    {
      ScanPadded(width, flags);
      FromPercent(show, 0, NO_FLAGS, 0, Items(0, 0));
      assert fmt[d.end] == 'x' && Render(show, Items(d.end + 1, NextArgument(d)), flags, true) == "";
    }

    /** Printing with such a format and reading with to_int gives the number back and consumes it all. */
    lemma {:induction false} PaddedHexReadBack(width: nat)
      requires 1 <= width <= INT_MAX && fmt == "%0" + Digits(width, 10) + "x" && words(0) <= INT_MAX
      ensures |Output()| == Max(width, |Digits(words(0), 16)|) && HexAt(Output(), 0) == (words(0), |Output()|)
    {
      var flags := NO_FLAGS.(zeroPad := true);
      PaddedOutput(Converted, width, flags, Directive(flags, width, -1, Plain, 0, |fmt| - 1));
      PaddedHex(width, words(0), flags, Output());
    }
  }

  lemma {:induction false} PaddedHex(width: nat, v: nat, flags: Flags, text: string)
    requires v <= INT_MAX && flags == NO_FLAGS.(zeroPad := true) && text == Layout(v, 16, width, -1, false, flags)
    ensures |text| == Max(width, |Digits(v, 16)|) && HexAt(text, 0) == (v, |text|)
  {
    LengthExactlyWhen(v, 16, width, -1, false, flags);
    NotNegative(v, false);
    assert text[0..] == text + "";
    HexRoundTrip(v, width, -1, false, flags, text, text, 0, "");
  }

  function Union(f: Flags, g: Flags): Flags {
    Flags(f.leftJustify || g.leftJustify, f.sign || g.sign, f.space || g.space, f.altForm || g.altForm,
          f.zeroPad || g.zeroPad, f.group || g.group)
  }

  lemma AddUnion(f: Flags, g: Flags, c: char)
    ensures AddFlag(Union(f, g), c) == Union(f, AddFlag(g, c))
  {
  }

  predicate HasFlags(g: Flags, f: Flags) {
    Union(f, g) == g
  }

  lemma UnsignedPair(lo: Word, hi: Word)
    ensures (Signed32(hi) * TWO_32 + lo) % TWO_64 == hi * TWO_32 + lo
  {
    if hi > INT_MAX {
      assert Signed32(hi) * TWO_32 + lo == hi * TWO_32 + lo - TWO_64;
    }
  }

  lemma {:induction false} LeadingDigit(n: nat, radix: nat)
    requires 2 <= radix <= 10 && n > 0
    ensures '1' <= Digits(n, radix)[0] <= '9'
  {
    if n >= radix {
      LeadingDigit(Quotient(n, radix), radix);
    }
  }

  /** What items print if `show` says what one directive prints. `f` are the flags in force; with
      `keep`, a directive's flags stay in force for the directives behind it. */
  function Render(show: (char, Directive) -> string, items: seq<Item>, f: Flags, keep: bool): string {
    if items == [] then ""
    else
      match items[0]
      case Literal(c) => [c] + Render(show, items[1..], f, keep)
      case Conversion(d, c) =>
        var flags := Union(f, d.flags);
        show(c, d.(flags := flags)) + Render(show, items[1..], if keep then flags else NO_FLAGS, keep)
  }

  lemma RenderConversion(show: (char, Directive) -> string, d: Directive, c: char, rest: seq<Item>,
                                            f: Flags, keep: bool)
    ensures var flags := Union(f, d.flags);
            Render(show, [Conversion(d, c)] + rest, f, keep) ==
            show(c, d.(flags := flags)) + Render(show, rest, if keep then flags else NO_FLAGS, keep)
  {
    assert ([Conversion(d, c)] + rest)[1..] == rest;
  }

  lemma RenderLiteral(show: (char, Directive) -> string, c: char, rest: seq<Item>, f: Flags, keep: bool)
    ensures Render(show, [Literal(c)] + rest, f, keep) == [c] + Render(show, rest, f, keep)
  {
    assert ([Literal(c)] + rest)[1..] == rest;
  }

  lemma TwoItems(show: (char, Directive) -> string, d: Directive, e: Directive, c: char)
    ensures var items := [Conversion(d, 'd')] + ([Conversion(e, c)] + []);
            && Render(show, items, NO_FLAGS, true) == show('d', d) + show(c, e.(flags := Union(d.flags, e.flags)))
            && Render(show, items, NO_FLAGS, false) == show('d', d) + show(c, e)
            && (RepeatsFlags(items, NO_FLAGS) ==> HasFlags(e.flags, d.flags))
  {
    var rest := [Conversion(e, c)] + [];
    assert Union(NO_FLAGS, d.flags) == d.flags && Union(NO_FLAGS, e.flags) == e.flags;
    assert ([Conversion(d, 'd')] + rest)[1..] == rest && RepeatsFlags(rest, d.flags) ==> HasFlags(e.flags, d.flags);
    RenderConversion(show, d, 'd', rest, NO_FLAGS, true);
    RenderConversion(show, e, c, [], d.flags, true);
    RenderConversion(show, d, 'd', rest, NO_FLAGS, false);
    RenderConversion(show, e, c, [], NO_FLAGS, false);
  }

  lemma {:induction false} NoDigit(s: string, i: nat)
    requires i < |s| && !('0' <= s[i] <= '9')
    ensures DecimalFrom(s, i, 0) == (0, i)
  {
  }

  lemma {:induction false} OneDigit(s: string, i: nat)
    requires i + 1 < |s| && '0' <= s[i] <= '9' && !('0' <= s[i + 1] <= '9')
    ensures DecimalFrom(s, i, 0) == (s[i] as int - '0' as int, i + 1)
  {
    var d := s[i] as int - '0' as int;
    assert DecimalFrom(s, i, 0) == DecimalFrom(s, i + 1, Signed32(Signed32(0) + d));
  }

  function SpaceForm(): Flags {
    NO_FLAGS.(space := true, altForm := true)
  }

  function BlankDirectives(i: nat, arg: nat): seq<Item> {
    [Conversion(Directive(SpaceForm(), 0, -1, Plain, arg, i + 3), '%')]
    + ([Conversion(Directive(NO_FLAGS, 0, 0, Plain, arg, i + 7), 'd')]
       + ([Conversion(Directive(NO_FLAGS, 3, -1, Plain, arg + 1, i + 10), 'd')] + []))
  }

  predicate CancelBlanks(show: (char, Directive) -> string, i: nat, arg: nat) {
    && show('%', Directive(SpaceForm(), 0, -1, Plain, arg, i + 3)) == "%"
    && show('d', Directive(SpaceForm(), 0, 0, Plain, arg, i + 7)) == " "
    && show('d', Directive(NO_FLAGS, 0, 0, Plain, arg, i + 7)) == ""
    && show('d', Directive(SpaceForm(), 3, -1, Plain, arg + 1, i + 10)) == " 7"
    && show('d', Directive(NO_FLAGS, 3, -1, Plain, arg + 1, i + 10)) == "  7"
  }

  lemma BlankRender(show: (char, Directive) -> string, i: nat, arg: nat, f: Flags, keep: bool)
    requires f == (if keep then SpaceForm() else NO_FLAGS)
    ensures Render(show, BlankDirectives(i, arg), NO_FLAGS, keep) ==
            show('%', Directive(SpaceForm(), 0, -1, Plain, arg, i + 3))
            + (show('d', Directive(f, 0, 0, Plain, arg, i + 7)) + show('d', Directive(f, 3, -1, Plain, arg + 1, i + 10)))
  {
    var last := [Conversion(Directive(NO_FLAGS, 3, -1, Plain, arg + 1, i + 10), 'd')] + [];
    var rest := [Conversion(Directive(NO_FLAGS, 0, 0, Plain, arg, i + 7), 'd')] + last;
    assert Union(NO_FLAGS, SpaceForm()) == SpaceForm() && Union(f, NO_FLAGS) == f;
    RenderConversion(show, Directive(SpaceForm(), 0, -1, Plain, arg, i + 3), '%', rest, NO_FLAGS, keep);
    RenderConversion(show, Directive(NO_FLAGS, 0, 0, Plain, arg, i + 7), 'd', last, f, keep);
    RenderConversion(show, Directive(NO_FLAGS, 3, -1, Plain, arg + 1, i + 10), 'd', [], f, keep);
  }

  lemma BlanksCancel(show: (char, Directive) -> string, i: nat, arg: nat)
    requires CancelBlanks(show, i, arg)
    ensures Render(show, BlankDirectives(i, arg), NO_FLAGS, true) == "%  7"
    ensures Render(show, BlankDirectives(i, arg), NO_FLAGS, false) == "%  7"
    ensures !Unaffected(show, BlankDirectives(i, arg), NO_FLAGS)
  {
    BlankRender(show, i, arg, SpaceForm(), true);
    BlankRender(show, i, arg, NO_FLAGS, false);
    var last := [Conversion(Directive(NO_FLAGS, 3, -1, Plain, arg + 1, i + 10), 'd')] + [];
    var d := Directive(NO_FLAGS, 0, 0, Plain, arg, i + 7);
    UnaffectedConversion(show, Directive(SpaceForm(), 0, -1, Plain, arg, i + 3), '%', [Conversion(d, 'd')] + last, NO_FLAGS);
    UnaffectedConversion(show, d, 'd', last, SpaceForm());
  }

  lemma UnaffectedConversion(show: (char, Directive) -> string, d: Directive, c: char, rest: seq<Item>, f: Flags)
    ensures var flags := Union(f, d.flags);
            Unaffected(show, [Conversion(d, c)] + rest, f)
            <==> show(c, d.(flags := flags)) == show(c, d) && Unaffected(show, rest, flags)
  {
    assert ([Conversion(d, c)] + rest)[1..] == rest;
  }

  lemma {:induction false} HexAppend(n: nat, d: nat, s: string) returns (m: nat)
    requires n > 0 && d < 16 && Digits(n, 16) == s
    ensures m == 16 * n + d && Digits(m, 16) == s + [HEX_CHARS[d]]
  {
    m := 16 * n + d;
    DivisionBySubtraction(m, 16);
    assert Quotient(m, 16) == n && Remainder(m, 16) == d;
  }

  /** Without flags, width and precision only the digits are printed. */
  lemma {:induction false} PlainHex(num: int)
    requires -TWO_64 / 2 <= num < TWO_64 / 2
    ensures Layout(num, 16, 0, -1, false, NO_FLAGS) == Digits(Magnitude(num, false), 16)
  {
  }

  lemma {:induction false} WidenedText(num: int)
    requires num == -0x8000_0000
    ensures Layout(num, 16, 0, -1, false, NO_FLAGS) == "FFFFFFFF80000000"
  {
    var n := WidenedDigits();
    PlainHex(num);
    assert Magnitude(num, false) == n;
  }

  lemma {:induction false} WidenedDigits() returns (n: nat)
    ensures n == 0xFFFF_FFFF_8000_0000 && Digits(n, 16) == "FFFFFFFF80000000"
  {
    n := 0xF;
    n := HexAppend(n, 0xF, "F");
    n := HexAppend(n, 0xF, "FF");
    n := HexAppend(n, 0xF, "FFF");
    n := HexAppend(n, 0xF, "FFFF");
    n := HexAppend(n, 0xF, "FFFFF");
    n := HexAppend(n, 0xF, "FFFFFF");
    n := HexAppend(n, 0xF, "FFFFFFF");
    n := HexAppend(n, 0x8, "FFFFFFFF");
    n := HexAppend(n, 0x0, "FFFFFFFF8");
    n := HexAppend(n, 0x0, "FFFFFFFF80");
    n := HexAppend(n, 0x0, "FFFFFFFF800");
    n := HexAppend(n, 0x0, "FFFFFFFF8000");
    n := HexAppend(n, 0x0, "FFFFFFFF80000");
    n := HexAppend(n, 0x0, "FFFFFFFF800000");
    n := HexAppend(n, 0x0, "FFFFFFFF8000000");
  }

  lemma {:induction false} BlankLayouts()
    ensures Layout(0, 10, 0, 0, true, SpaceForm()) == " " && Layout(0, 10, 0, 0, true, NO_FLAGS) == ""
    ensures Layout(7, 10, 3, -1, true, SpaceForm()) == " 7" && Layout(7, 10, 3, -1, true, NO_FLAGS) == "  7"
  {
    NotNegative(0, true);
    NotNegative(7, true);
    assert Digits(0, 10) == "0" && Digits(7, 10) == "7";
  }

  /** A number of one digit, printed without width and precision. */
  lemma {:induction false} BareDigit(v: nat, f: Flags)
    requires v < 10 && (f == NO_FLAGS || f == NO_FLAGS.(sign := true))
    ensures Layout(v, 10, 0, -1, true, f) == (if f.sign then "+" else "") + [HEX_CHARS[v]]
  {
    NotNegative(v, true);
    assert Digits(v, 10) == [HEX_CHARS[v]];
  }

  /** What is printed with flags left in force is what is printed with flags reset once the flags
      that are in force for a directive are all written out in it. */
  lemma {:induction false} KeptIsInForce(show: (char, Directive) -> string, items: seq<Item>, f: Flags)
    ensures Render(show, items, f, true) == Render(show, InForce(items, f), NO_FLAGS, false)
  {
    if items != [] {
      match items[0]
      case Literal(c) =>
        KeptIsInForce(show, items[1..], f);
        RenderLiteral(show, c, InForce(items[1..], f), NO_FLAGS, false);
      case Conversion(d, c) =>
        var e := d.(flags := Union(f, d.flags));
        assert Union(NO_FLAGS, e.flags) == e.flags;
        KeptIsInForce(show, items[1..], e.flags);
        RenderConversion(show, e, c, InForce(items[1..], e.flags), NO_FLAGS, false);
    }
  }

  // ----- when left-over flags show -----

  /** No directive's text is changed by the flags of those before it, `f` to begin with. */
  ghost predicate Unaffected(show: (char, Directive) -> string, items: seq<Item>, f: Flags) {
    items == [] ||
    match items[0]
    case Literal(_) => Unaffected(show, items[1..], f)
    case Conversion(d, c) =>
      var flags := Union(f, d.flags);
      show(c, d.(flags := flags)) == show(c, d) && Unaffected(show, items[1..], flags)
  }

  lemma {:induction false} UnaffectedAlike(show: (char, Directive) -> string, items: seq<Item>, f: Flags)
    requires Unaffected(show, items, f)
    ensures Render(show, items, f, true) == Render(show, items, NO_FLAGS, false)
  {
    if items != [] {
      match items[0]
      case Literal(_) => UnaffectedAlike(show, items[1..], f);
      case Conversion(d, _) =>
        assert Union(NO_FLAGS, d.flags) == d.flags;
        UnaffectedAlike(show, items[1..], Union(f, d.flags));
    }
  }

  /** No directive's text is made shorter by the flags of those before it, `f` to begin with. */
  ghost predicate NoneShorter(show: (char, Directive) -> string, items: seq<Item>, f: Flags) {
    items == [] ||
    match items[0]
    case Literal(_) => NoneShorter(show, items[1..], f)
    case Conversion(d, c) =>
      var flags := Union(f, d.flags);
      |show(c, d.(flags := flags))| >= |show(c, d)| && NoneShorter(show, items[1..], flags)
  }

  /** Then no change is made up for by another. */
  lemma {:induction false} AlikeUnaffected(show: (char, Directive) -> string, items: seq<Item>, f: Flags)
    requires NoneShorter(show, items, f)
    ensures |Render(show, items, f, true)| >= |Render(show, items, NO_FLAGS, false)|
    ensures Render(show, items, f, true) == Render(show, items, NO_FLAGS, false) ==> Unaffected(show, items, f)
  {
    if items != [] {
      match items[0]
      case Literal(_) =>
        AlikeUnaffected(show, items[1..], f);
        SameParts([items[0].c], Render(show, items[1..], f, true), [items[0].c], Render(show, items[1..], NO_FLAGS, false));
      case Conversion(d, c) =>
        var flags := Union(f, d.flags);
        assert Union(NO_FLAGS, d.flags) == d.flags;
        AlikeUnaffected(show, items[1..], flags);
        SameParts(show(c, d.(flags := flags)), Render(show, items[1..], flags, true),
                  show(c, d), Render(show, items[1..], NO_FLAGS, false));
    }
  }

  lemma SameParts(a: string, b: string, c: string, d: string)
    requires |a| >= |c| && |b| >= |d|
    ensures a + b == c + d ==> a == c && b == d
  {
    if a + b == c + d {
      assert a == (a + b)[..|a|] && b == (a + b)[|a|..] && c == (c + d)[..|c|] && d == (c + d)[|c|..];
    }
  }

  /** No alternative form is left over, one being in force if `form`, for a decimal or octal number. */
  predicate NoStrayForm(items: seq<Item>, form: bool) {
    items == [] ||
    match items[0]
    case Literal(_) => NoStrayForm(items[1..], form)
    case Conversion(d, c) =>
      (form && !d.flags.altForm && IsNumber(c) ==> Radix(c) == 16) && NoStrayForm(items[1..], form || d.flags.altForm)
  }

  lemma LayoutLengthens(num: int, radix: nat, width: int, precision: int, signed: bool, f: Flags, g: Flags)
    requires 2 <= radix <= 16 && -TWO_64 / 2 <= num < TWO_64 / 2
    requires f.altForm && !g.altForm ==> radix == 16
    ensures |Layout(num, radix, width, precision, signed, Union(f, g))| >= |Layout(num, radix, width, precision, signed, g)|
  {
    var room, body := Room(num, radix, width, precision, signed), Body(num, radix, precision, signed);
    var z := NumberText.Short(num, radix, precision, signed);
    var h := Union(f, g);
    ArrangeLengthens(SignText(num, signed, h), PrefixText(num, radix, h), SignText(num, signed, g), PrefixText(num, radix, g),
                     room, z, body, h, g);
  }

  lemma ArrangeLengthens(s: string, p: string, t: string, q: string, room: int, z: int, body: string, h: Flags, g: Flags)
    requires |t| <= |s| && |q| <= |p| <= 2 && (h.altForm && !g.altForm ==> |p| == 2 && q == "")
    requires HasFlags(h, g) && (!g.altForm ==> q == "")
    ensures |Arrange(s, p, room, z, body, h)| >= |Arrange(t, q, room, z, body, g)|
  {
  }

  /** Every directive writes all flags given before it, `f` to begin with. */
  predicate RepeatsFlags(items: seq<Item>, f: Flags) {
    items == [] ||
    match items[0]
    case Literal(_) => RepeatsFlags(items[1..], f)
    case Conversion(d, _) => HasFlags(d.flags, f) && RepeatsFlags(items[1..], d.flags)
  }

  lemma {:induction false} RepeatedUnaffected(show: (char, Directive) -> string, items: seq<Item>, f: Flags)
    requires RepeatsFlags(items, f)
    ensures Unaffected(show, items, f)
  {
    if items != [] {
      match items[0]
      case Literal(_) => RepeatedUnaffected(show, items[1..], f);
      case Conversion(d, _) => RepeatedUnaffected(show, items[1..], d.flags);
    }
  }

  function FlagCount(f: Flags): nat {
    (if f.leftJustify then 1 else 0) + (if f.sign then 1 else 0) + (if f.space then 1 else 0)
    + (if f.altForm then 1 else 0) + (if f.zeroPad then 1 else 0) + if f.group then 1 else 0
  }

  /** One character for every flag in force. */
  function Tally(c: char, d: Directive): string {
    Repeat(c, FlagCount(d.flags))
  }

  lemma MoreFlags(f: Flags, g: Flags)
    ensures FlagCount(Union(f, g)) >= FlagCount(g)
    ensures FlagCount(Union(f, g)) == FlagCount(g) <==> HasFlags(g, f)
  {
  }

  /** Left-over flags can only lengthen the tally, and they do unless all are repeated. */
  lemma {:induction false} TallyGrows(items: seq<Item>, f: Flags)
    ensures |Render(Tally, items, f, true)| >= |Render(Tally, items, NO_FLAGS, false)|
    ensures !RepeatsFlags(items, f) ==> |Render(Tally, items, f, true)| > |Render(Tally, items, NO_FLAGS, false)|
  {
    if items != [] {
      match items[0]
      case Literal(_) => TallyGrows(items[1..], f);
      case Conversion(d, _) =>
        MoreFlags(f, d.flags);
        assert Union(NO_FLAGS, d.flags) == d.flags;
        TallyGrows(items[1..], Union(f, d.flags));
    }
  }

  /** Keeping flags prints the same as resetting them. */
  predicate PrintsAlike(show: (char, Directive) -> string, items: seq<Item>) {
    Render(show, items, NO_FLAGS, true) == Render(show, items, NO_FLAGS, false)
  }

  /** Whatever text directives stand for, keeping flags prints the same as resetting them, when, and
      only when, every directive repeats the flags before it. */
  lemma {:induction false} FlagsExactlyWhen(items: seq<Item>)
    ensures (forall show :: PrintsAlike(show, items)) <==> RepeatsFlags(items, NO_FLAGS)
  {
    if RepeatsFlags(items, NO_FLAGS) {
      forall show ensures PrintsAlike(show, items) {
        RepeatedUnaffected(show, items, NO_FLAGS);
        UnaffectedAlike(show, items, NO_FLAGS);
      }
    } else {
      TallyGrows(items, NO_FLAGS);
      assert !PrintsAlike(Tally, items);
    }
  }

  /** The items with the flags that are in force for them, `f` being those given before. */
  function InForce(items: seq<Item>, f: Flags): (r: seq<Item>)
    ensures |r| == |items|
  {
    if items == [] then []
    else
      match items[0]
      case Literal(_) => [items[0]] + InForce(items[1..], f)
      case Conversion(d, c) =>
        var flags := Union(f, d.flags);
        [Conversion(d.(flags := flags), c)] + InForce(items[1..], flags)
  }
}
