/** Formats put together from text and directives, and what each directive prints of which arguments. */
module FormatPieces {
  import opened Arithmetic
  import opened NumberText
  import opened NumberReaders
  import opened PhysicalMemory
  import opened FormatText

  /** A width or precision: left out, a number, or a star. */
  datatype Field = Absent | Given(n: nat) | Star

  datatype Precision = None | Point(field: Field)

  /** Text to copy, or a directive with its flags, width, precision, length modifiers and specifier. */
  datatype Piece = Copied(s: string) | Directed(flags: string, width: Field, precision: Precision, length: Length, c: char)

  // ----- how a format is written -----

  predicate IsDigit(c: char) {
    '0' <= c <= '9'
  }

  /** A character that ends a directive, whatever stands before it. */
  predicate Specifier(c: char) {
    !IsFlag(c) && !IsDigit(c) && c != '*' && c != '.' && c != 'h' && c != 'l'
  }

  predicate Sound(p: Piece) {
    match p
    case Copied(s) => '%' !in s
    case Directed(flags, width, precision, _, c) =>
      && (forall i :: 0 <= i < |flags| ==> IsFlag(flags[i]))
      && (width.Given? ==> 0 < width.n <= INT_MAX)
      && (precision.Point? && precision.field.Given? ==> precision.field.n <= INT_MAX)
      && Specifier(c)
  }

  function FieldText(w: Field): string {
    match w
    case Absent => ""
    case Given(n) => Digits(n, 10)
    case Star => "*"
  }

  function PrecisionText(p: Precision): string {
    match p
    case None => ""
    case Point(w) => "." + FieldText(w)
  }

  function LengthText(length: Length): string {
    match length
    case Plain => ""
    case Short => "h"
    case ShortShort => "hh"
    case Long => "l"
    case LongLong => "ll"
  }

  function PieceText(p: Piece): string {
    match p
    case Copied(s) => s
    case Directed(flags, width, precision, length, c) =>
      "%" + (flags + (FieldText(width) + (PrecisionText(precision) + (LengthText(length) + [c]))))
  }

  /** Pieces one behind the other, `text` saying how each is written. */
  function Joined(text: Piece -> string, ps: seq<Piece>): string {
    if ps == [] then "" else text(ps[0]) + Joined(text, ps[1..])
  }

  function Written(ps: seq<Piece>): string {
    Joined(PieceText, ps)
  }

  // ----- what it prints -----

  /** The arguments of a call: words on the stack, and the text at every address. */
  datatype Arguments = Arguments(words: nat -> Word, text: Word -> string)

  function FlagsOf(s: string): Flags {
    Flags('-' in s, '+' in s, ' ' in s, '#' in s, '0' in s, '\'' in s)
  }

  /** The value of a width or precision, a star standing for the next argument. */
  function FieldValue(w: Field, a: Arguments, arg: nat): int {
    match w
    case Absent => 0
    case Given(n) => n
    case Star => Signed32(a.words(arg))
  }

  function FieldArguments(w: Field): nat {
    if w.Star? then 1 else 0
  }

  function PrecisionValue(p: Precision, a: Arguments, arg: nat): int {
    if p.None? then -1 else FieldValue(p.field, a, arg)
  }

  function PrecisionArguments(p: Precision): nat {
    if p.None? then 0 else FieldArguments(p.field)
  }

  /** An integer argument: two words, the low one first, for a long long, and one otherwise. */
  function IntegerArgument(length: Length, a: Arguments, arg: nat): (n: int)
    ensures -TWO_64 / 2 <= n < TWO_64 / 2
  {
    if length == LongLong then Signed32(a.words(arg + 1)) * TWO_32 + a.words(arg) else Signed32(a.words(arg))
  }

  /** How many words a specifier takes. */
  function Taken(c: char, length: Length): nat {
    if c in {'d', 'i', 'u', 'o', 'x', 'X', 'p'} then (if length == LongLong then 2 else 1)
    else if c == 'c' || c == 's' then 1
    else 0
  }

  /** The text a specifier stands for. */
  function SpecifierText(c: char, length: Length, width: int, precision: int, f: Flags, a: Arguments, arg: nat): string {
    if c == 'd' || c == 'i' then Layout(IntegerArgument(length, a, arg), 10, width, precision, true, f)
    else if c == 'u' then Layout(IntegerArgument(length, a, arg), 10, width, precision, false, f)
    else if c == 'o' then Layout(IntegerArgument(length, a, arg), 8, width, precision, false, f)
    else if c == 'x' || c == 'X' || c == 'p' then Layout(IntegerArgument(length, a, arg), 16, width, precision, false, f)
    else if c == 'c' then [(a.words(arg) % 256) as char]
    else if c == 's' then a.text(a.words(arg))
    else if c == '%' then "%"
    else ""
  }

  /** What a specifier prints, as a directive with its argument asks for it. */
  type Show = (char, Directive) -> string

  function Meaning(a: Arguments): Show {
    (c: char, d: Directive) => SpecifierText(c, d.length, d.width, d.precision, d.flags, a, d.arg)
  }

  /** The directive that a piece amounts to when `arg` is the next argument and `f` the flags in force:
      it takes the arguments for its width and its precision, in this order, before its own. */
  function DirectiveOf(p: Piece, a: Arguments, arg: nat, f: Flags): (d: Directive)
    requires p.Directed?
  {
    var arg1 := arg + FieldArguments(p.width);
    Directive(Union(f, FlagsOf(p.flags)), FieldValue(p.width, a, arg), PrecisionValue(p.precision, a, arg1), p.length,
              arg1 + PrecisionArguments(p.precision), 0)
  }

  /** What the pieces print from argument `arg` on, `f` being the flags in force; the flags of a directive stay. */
  function Printed(meaning: Show, ps: seq<Piece>, a: Arguments, arg: nat, f: Flags): string {
    if ps == [] then ""
    else
      match ps[0]
      case Copied(s) => s + Printed(meaning, ps[1..], a, arg, f)
      case Directed(_, _, _, length, c) =>
        var d := DirectiveOf(ps[0], a, arg, f);
        meaning(c, d) + Printed(meaning, ps[1..], a, d.arg + Taken(c, length), d.flags)
  }

  // ----- scanning what was written -----

  /** From position `i` on the format is `a` and then `b`. */
  lemma Parted(fmt: string, i: nat, a: string, b: string)
    requires i <= |fmt| && fmt[i..] == a + b
    ensures i + |a| <= |fmt| && fmt[i + |a|..] == b
    ensures b != "" ==> i + |a| < |fmt| && fmt[i + |a|] == b[0]
    ensures a != "" ==> i < |fmt| && fmt[i] == a[0]
  {
    assert fmt[i..][|a|..] == b;
    if b != "" {
      assert fmt[i..][|a|] == b[0];
    }
    if a != "" {
      assert fmt[i..][0] == a[0];
    }
  }

  lemma {:induction false} FlagsScanned(call: Call, i: nat, flags: string, rest: string, f: Flags)
    requires i <= |call.fmt| && call.fmt[i..] == flags + rest && forall k :: 0 <= k < |flags| ==> IsFlag(flags[k])
    requires rest != "" && !IsFlag(rest[0])
    ensures i + |flags| <= |call.fmt| && call.ScanFlags(i, f) == (Union(f, FlagsOf(flags)), i + |flags|)
    decreases |flags|
  {
    Parted(call.fmt, i, flags, rest);
    if flags != "" {
      var more := flags[1..];
      assert call.fmt[i + 1..] == call.fmt[i..][1..] == more + rest;
      FlagsScanned(call, i + 1, more, rest, AddFlag(f, flags[0]));
      assert flags == [flags[0]] + more;
      FlagAdded(f, flags[0], more);
    }
  }

  lemma FlagAdded(f: Flags, c: char, more: string)
    requires IsFlag(c)
    ensures Union(AddFlag(f, c), FlagsOf(more)) == Union(f, FlagsOf([c] + more))
  {
    assert forall x: char :: x in [c] + more <==> x == c || x in more;
  }

  lemma {:induction false} FieldScanned(call: Call, a: Arguments, i: nat, w: Field, rest: string, arg: nat)
    requires i <= |call.fmt| && call.fmt[i..] == FieldText(w) + rest && a.words == call.words
    requires rest != "" && !IsDigit(rest[0]) && rest[0] != '*' && (w.Given? ==> w.n <= INT_MAX)
    ensures i + |FieldText(w)| <= |call.fmt|
    ensures call.ScanNumber(i, arg) == (FieldValue(w, a, arg), i + |FieldText(w)|, arg + FieldArguments(w))
  {
    Parted(call.fmt, i, FieldText(w), rest);
    match w
    case Absent => NoDigit(call.fmt, i);
    case Given(n) =>
      NumberScanned(call.fmt, i, n, rest);
    case Star =>
  }

  lemma {:induction false} NumberScanned(s: string, i: nat, n: nat, rest: string)
    requires n <= INT_MAX && i <= |s| && s[i..] == Digits(n, 10) + rest && rest != "" && !IsDigit(rest[0])
    ensures i < |s| && s[i] != '*' && DecimalFrom(s, i, 0) == (n, i + |Digits(n, 10)|)
  {
    DigitsRoundTrip(n, 10);
    DigitsScanned(s, i, n, Digits(n, 10), rest);
  }

  lemma {:induction false} DigitsScanned(s: string, i: nat, n: nat, text: string, rest: string)
    requires n <= INT_MAX && AllDigits(text, 10) && Value(text, 10) == n && text != ""
    requires i <= |s| && s[i..] == text + rest && rest != "" && !IsDigit(rest[0])
    ensures i < |s| && s[i] != '*' && DecimalFrom(s, i, 0) == (n, i + |text|)
  {
    Parted(s, i, text, rest);
    DecimalRead(s, i, n, text, rest);
    DecimalSame(s, i);
  }

  lemma {:induction false} LengthScanned(call: Call, i: nat, length: Length, rest: string)
    requires i <= |call.fmt| && call.fmt[i..] == LengthText(length) + rest && rest != "" && rest[0] != 'h' && rest[0] != 'l'
    ensures i + |LengthText(length)| <= |call.fmt| && call.ScanLength(i, Plain) == (length, i + |LengthText(length)|)
  {
    Parted(call.fmt, i, LengthText(length), rest);
    if length == ShortShort || length == LongLong {
      var half := if length == ShortShort then Short else Long;
      assert call.fmt[i..][1] == LengthText(length)[1];
      assert call.ScanLength(i, Plain) == call.ScanLength(i + 1, half) == call.ScanLength(i + 2, length);
    }
  }

  /** A string that neither goes on with a number nor starts with a flag or a star. */
  predicate Ends(s: string) {
    s != "" && !IsDigit(s[0]) && s[0] != '*' && !IsFlag(s[0])
  }

  /** The length modifiers, the specifier and what is behind it. */
  function LengthOn(length: Length, c: char, rest: string): string {
    LengthText(length) + ([c] + rest)
  }

  function PrecisionOn(p: Precision, more: string): string {
    PrecisionText(p) + more
  }

  function WidthOn(w: Field, more: string): string {
    FieldText(w) + more
  }

  lemma {:induction false} LengthEnds(length: Length, c: char, rest: string)
    requires Specifier(c)
    ensures Ends(LengthOn(length, c, rest)) && LengthOn(length, c, rest)[0] != '.'
  {
    assert ([c] + rest)[0] == c;
  }

  lemma {:induction false} PrecisionEnds(p: Precision, more: string)
    requires Ends(more)
    ensures Ends(PrecisionOn(p, more))
  {
    if p.Point? {
      assert PrecisionOn(p, more)[0] == '.';
    } else {
      assert "" + more == more;
    }
  }

  lemma {:induction false} WidthNoFlag(w: Field, more: string)
    requires Ends(more) && (w.Given? ==> w.n > 0)
    ensures WidthOn(w, more) != "" && !IsFlag(WidthOn(w, more)[0])
  {
    match w
    case Absent => assert "" + more == more;
    case Given(n) =>
      LeadingDigit(n, 10);
      assert WidthOn(w, more)[0] == Digits(n, 10)[0];
    case Star =>
  }

  lemma {:induction false} RestScanned(call: Call, i: nat, f: Flags, width: int, precision: int, length: Length, c: char, rest: string, arg: nat)
    requires i <= |call.fmt| && call.fmt[i..] == LengthOn(length, c, rest) && Specifier(c)
    ensures var d := call.ScanRest(i, f, width, precision, arg);
            && d == Directive(f, width, precision, length, arg, i + |LengthText(length)|)
            && d.end < |call.fmt| && call.fmt[d.end] == c && call.fmt[d.end + 1..] == rest
  {
    LengthScanned(call, i, length, [c] + rest);
    Parted(call.fmt, i, LengthText(length), [c] + rest);
    Parted(call.fmt, i + |LengthText(length)|, [c], rest);
  }

  /** A directive as scanned, from where it stands in the format on. */
  ghost predicate ScannedAs(call: Call, d: Directive, f: Flags, width: int, precision: int, length: Length, c: char, rest: string, arg: nat) {
    && d.end < |call.fmt| && call.fmt[d.end] == c && call.fmt[d.end + 1..] == rest
    && d == Directive(f, width, precision, length, arg, d.end)
  }

  /** The format goes on with `more` behind a width or precision. */
  lemma {:induction false} FieldRead(call: Call, a: Arguments, i: nat, w: Field, more: string, arg: nat) returns (j: nat)
    requires i <= |call.fmt| && call.fmt[i..] == WidthOn(w, more) && a.words == call.words && Ends(more) && (w.Given? ==> w.n <= INT_MAX)
    ensures i <= j < |call.fmt| && call.fmt[j..] == more
    ensures call.ScanNumber(i, arg) == (FieldValue(w, a, arg), j, arg + FieldArguments(w))
  {
    FieldScanned(call, a, i, w, more, arg);
    Parted(call.fmt, i, FieldText(w), more);
    j := i + |FieldText(w)|;
  }

  lemma {:induction false} PointScanned(call: Call, i: nat, j: nat, f: Flags, width: int, precision: int, length: Length, c: char, rest: string, arg: nat, arg2: nat)
    requires i <= j <= |call.fmt| && call.ScanNumber(i, arg) == (precision, j, arg2)
    requires call.fmt[j..] == LengthOn(length, c, rest) && Specifier(c)
    ensures ScannedAs(call, call.ScanPrecision(i, f, width, arg), f, width, precision, length, c, rest, arg2)
  {
    RestScanned(call, j, f, width, precision, length, c, rest, arg2);
  }

  lemma {:induction false} NoPoint(call: Call, i: nat, j: nat, f: Flags, width: int, length: Length, c: char, rest: string, arg: nat, arg1: nat)
    requires i <= j < |call.fmt| && call.ScanNumber(i, arg) == (width, j, arg1) && call.fmt[j] != '.'
    requires call.fmt[j..] == LengthOn(length, c, rest) && Specifier(c)
    ensures ScannedAs(call, call.ScanWidth(i, f, arg), f, width, -1, length, c, rest, arg1)
  {
    RestScanned(call, j, f, width, -1, length, c, rest, arg1);
  }

  lemma AtPoint(call: Call, i: nat, j: nat, f: Flags, width: int, arg: nat, arg1: nat)
    requires i <= j < |call.fmt| && call.ScanNumber(i, arg) == (width, j, arg1) && call.fmt[j] == '.'
    ensures call.ScanWidth(i, f, arg) == call.ScanPrecision(j + 1, f, width, arg1)
  {
  }

  lemma {:induction false} PointOn(call: Call, a: Arguments, i: nat, j: nat, f: Flags, width: int, w: Field, length: Length, c: char, rest: string, arg: nat, arg1: nat)
    requires i <= j < |call.fmt| && call.ScanNumber(i, arg) == (width, j, arg1) && Specifier(c)
    requires call.fmt[j..] == PrecisionOn(Point(w), LengthOn(length, c, rest)) && a.words == call.words && (w.Given? ==> w.n <= INT_MAX)
    ensures ScannedAs(call, call.ScanWidth(i, f, arg), f, width, FieldValue(w, a, arg1), length, c, rest, arg1 + FieldArguments(w))
  {
    var tail := LengthOn(length, c, rest);
    PointText(call, j, w, tail);
    LengthEnds(length, c, rest);
    AtPoint(call, i, j, f, width, arg, arg1);
    var k := FieldRead(call, a, j + 1, w, tail, arg1);
    PointScanned(call, j + 1, k, f, width, FieldValue(w, a, arg1), length, c, rest, arg1, arg1 + FieldArguments(w));
  }

  lemma {:induction false} PrecisionScanned(call: Call, a: Arguments, i: nat, j: nat, f: Flags, width: int, p: Precision, length: Length, c: char, rest: string, arg: nat, arg1: nat)
    requires i <= j < |call.fmt| && call.ScanNumber(i, arg) == (width, j, arg1) && Specifier(c)
    requires call.fmt[j..] == PrecisionOn(p, LengthOn(length, c, rest)) && a.words == call.words
    requires p.Point? && p.field.Given? ==> p.field.n <= INT_MAX
    ensures ScannedAs(call, call.ScanWidth(i, f, arg), f, width, PrecisionValue(p, a, arg1), length, c, rest, arg1 + PrecisionArguments(p))
  {
    match p
    case None =>
      LengthEnds(length, c, rest);
      NothingBefore(LengthOn(length, c, rest));
      assert call.fmt[j..][0] == call.fmt[j];
      NoPoint(call, i, j, f, width, length, c, rest, arg, arg1);
    case Point(field) =>
      PointOn(call, a, i, j, f, width, field, length, c, rest, arg, arg1);
  }

  lemma NothingBefore(s: string)
    ensures PrecisionOn(None, s) == s
  {
  }

  lemma {:induction false} WidthScanned(call: Call, a: Arguments, i: nat, f: Flags, w: Field, p: Precision, length: Length, c: char, rest: string, arg: nat)
    requires i <= |call.fmt| && call.fmt[i..] == WidthOn(w, PrecisionOn(p, LengthOn(length, c, rest))) && Specifier(c)
    requires a.words == call.words && (w.Given? ==> 0 < w.n <= INT_MAX) && (p.Point? && p.field.Given? ==> p.field.n <= INT_MAX)
    ensures var arg1 := arg + FieldArguments(w);
            ScannedAs(call, call.ScanWidth(i, f, arg), f, FieldValue(w, a, arg), PrecisionValue(p, a, arg1), length, c, rest,
                      arg1 + PrecisionArguments(p))
  {
    LengthEnds(length, c, rest);
    PrecisionEnds(p, LengthOn(length, c, rest));
    var j := FieldRead(call, a, i, w, PrecisionOn(p, LengthOn(length, c, rest)), arg);
    PrecisionScanned(call, a, i, j, f, FieldValue(w, a, arg), p, length, c, rest, arg, arg + FieldArguments(w));
  }

  lemma PointText(call: Call, j: nat, field: Field, tail: string)
    requires j < |call.fmt| && call.fmt[j..] == PrecisionOn(Point(field), tail)
    ensures call.fmt[j] == '.' && call.fmt[j + 1..] == WidthOn(field, tail)
  {
    PointBefore(FieldText(field), tail);
    assert call.fmt[j..][0] == call.fmt[j] && call.fmt[j + 1..] == call.fmt[j..][1..];
  }

  lemma PointBefore(text: string, tail: string)
    ensures ("." + text + tail)[0] == '.' && ("." + text + tail)[1..] == text + tail
  {
  }

  /** What stands behind the flags of a directive. */
  function FieldsOn(p: Piece, rest: string): string
    requires p.Directed?
  {
    WidthOn(p.width, PrecisionOn(p.precision, LengthOn(p.length, p.c, rest)))
  }

  lemma {:induction false} FieldsNoFlag(p: Piece, rest: string)
    requires p.Directed? && Sound(p)
    ensures FieldsOn(p, rest) != "" && !IsFlag(FieldsOn(p, rest)[0])
  {
    LengthEnds(p.length, p.c, rest);
    PrecisionEnds(p.precision, LengthOn(p.length, p.c, rest));
    WidthNoFlag(p.width, PrecisionOn(p.precision, LengthOn(p.length, p.c, rest)));
  }

  lemma {:induction false} FieldsScanned(call: Call, a: Arguments, i: nat, f: Flags, p: Piece, rest: string, arg: nat)
    requires p.Directed? && Sound(p) && a.words == call.words && i <= |call.fmt| && call.fmt[i..] == FieldsOn(p, rest)
    ensures var arg1 := arg + FieldArguments(p.width);
            ScannedAs(call, call.ScanWidth(i, f, arg), f, FieldValue(p.width, a, arg), PrecisionValue(p.precision, a, arg1),
                      p.length, p.c, rest, arg1 + PrecisionArguments(p.precision))
  {
    WidthScanned(call, a, i, f, p.width, p.precision, p.length, p.c, rest, arg);
  }

  /** A directive behind its percent sign is scanned as it was written. */
  lemma {:induction false} DirectiveScanned(call: Call, a: Arguments, i: nat, p: Piece, rest: string, arg: nat)
    requires p.Directed? && Sound(p) && a.words == call.words && i <= |call.fmt| && call.fmt[i..] == p.flags + FieldsOn(p, rest)
    ensures var arg1 := arg + FieldArguments(p.width);
            ScannedAs(call, call.Scan(i, NO_FLAGS, arg), FlagsOf(p.flags), FieldValue(p.width, a, arg), PrecisionValue(p.precision, a, arg1),
                      p.length, p.c, rest, arg1 + PrecisionArguments(p.precision))
  {
    FieldsNoFlag(p, rest);
    var j := FlagsRead(call, i, p.flags, FieldsOn(p, rest), arg);
    FieldsScanned(call, a, j, FlagsOf(p.flags), p, rest, arg);
  }

  lemma ScanFrom(call: Call, i: nat, g: Flags, j: nat, arg: nat)
    requires i <= j <= |call.fmt| && call.ScanFlags(i, NO_FLAGS) == (g, j)
    ensures call.Scan(i, NO_FLAGS, arg) == call.ScanWidth(j, g, arg)
  {
  }

  lemma {:induction false} FlagsRead(call: Call, i: nat, flags: string, more: string, arg: nat) returns (j: nat)
    requires i <= |call.fmt| && call.fmt[i..] == flags + more && forall k :: 0 <= k < |flags| ==> IsFlag(flags[k])
    requires more != "" && !IsFlag(more[0])
    ensures i <= j <= |call.fmt| && call.fmt[j..] == more
    ensures call.Scan(i, NO_FLAGS, arg) == call.ScanWidth(j, FlagsOf(flags), arg)
  {
    FlagsScanned(call, i, flags, more, NO_FLAGS);
    Parted(call.fmt, i, flags, more);
    FlagsAlone(flags);
    j := i + |flags|;
    ScanFrom(call, i, FlagsOf(flags), j, arg);
  }

  // ----- printing what was written -----

  function ArgumentsOf(call: Call): Arguments {
    Arguments(call.words, call.text)
  }

  lemma {:induction false} DirectedText(p: Piece, rest: string)
    requires p.Directed?
    ensures PieceText(p) + rest == "%" + (p.flags + FieldsOn(p, rest))
  {
    Regrouped(p.flags, FieldText(p.width), PrecisionText(p.precision), LengthText(p.length), [p.c], rest);
  }

  lemma Regrouped(flags: string, w: string, p: string, l: string, c: string, rest: string)
    ensures "%" + (flags + (w + (p + (l + c)))) + rest == "%" + (flags + (w + (p + (l + (c + rest)))))
  {
  }

  lemma {:induction false} BehindPercent(fmt: string, i: nat, p: Piece, rest: string)
    requires p.Directed? && i <= |fmt| && fmt[i..] == PieceText(p) + rest
    ensures i < |fmt| && fmt[i] == '%' && fmt[i + 1..] == p.flags + FieldsOn(p, rest)
  {
    DirectedText(p, rest);
    Parted(fmt, i, "%", p.flags + FieldsOn(p, rest));
  }

  /** How directives are scanned, and what is printed from a position, an argument and flags in force on. */
  type Scanner = (nat, nat) -> Directive
  type Output = (nat, nat, Flags) -> string

  predicate At(i: nat, arg: nat) {
    true
  }

  /** Nothing is printed at the end, and other characters than the percent sign are copied. */
  ghost predicate Copies(fmt: string, out: Output) {
    && (forall arg: nat, f: Flags :: out(|fmt|, arg, f) == "")
    && forall i: nat, arg: nat, f: Flags {:trigger At(i, arg), out(i, arg, f)} ::
         i < |fmt| && fmt[i] != '%' ==> out(i, arg, f) == [fmt[i]] + out(i + 1, arg, f)
  }

  /** A directive is shown with all flags in force, which stay. */
  ghost predicate ShownAt(fmt: string, scan: Scanner, show: Show, out: Output, i: nat, arg: nat, f: Flags) {
    var d := scan(i + 1, arg);
    d.end < |fmt| && out(i, arg, f) == show(fmt[d.end], d.(flags := Union(f, d.flags)))
                                       + out(d.end + 1, d.arg + Taken(fmt[d.end], d.length), Union(f, d.flags))
  }

  ghost predicate Shows(fmt: string, scan: Scanner, show: Show, out: Output) {
    forall i: nat, arg: nat, f: Flags {:trigger At(i, arg), out(i, arg, f)} ::
      i < |fmt| && fmt[i] == '%' && scan(i + 1, arg).end < |fmt| ==> ShownAt(fmt, scan, show, out, i, arg, f)
  }

  /** The text of a directive is scanned as that directive. */
  ghost predicate ScannedAt(fmt: string, d: Directive, a: Arguments, arg: nat, p: Piece, rest: string)
    requires p.Directed?
  {
    d.end < |fmt| && fmt[d.end] == p.c && fmt[d.end + 1..] == rest && d.(end := 0) == DirectiveOf(p, a, arg, NO_FLAGS)
  }

  ghost predicate ScansAt(fmt: string, scan: Scanner, text: Piece -> string, a: Arguments, i: nat, arg: nat, p: Piece, rest: string) {
    p.Directed? && Sound(p) && i <= |fmt| && fmt[i..] == text(p) + rest ==>
      i < |fmt| && fmt[i] == '%' && ScannedAt(fmt, scan(i + 1, arg), a, arg, p, rest)
  }

  ghost predicate Scans(fmt: string, scan: Scanner, text: Piece -> string, a: Arguments) {
    forall i: nat, arg: nat, p: Piece, rest: string {:trigger At(i, arg), text(p) + rest} :: ScansAt(fmt, scan, text, a, i, arg, p, rest)
  }

  /** Text is written as it is. */
  ghost predicate Plainly(text: Piece -> string) {
    forall p: Piece {:trigger text(p)} :: p.Copied? ==> text(p) == p.s
  }

  /** Wherever it ends, a directive is shown as it is meant. */
  ghost predicate Converts(show: Show, meaning: Show) {
    forall c, d {:trigger show(c, d)} :: show(c, d) == meaning(c, d.(end := 0))
  }

  lemma {:induction false} CopyAlong(fmt: string, out: Output, i: nat, s: string, rest: string, arg: nat, f: Flags)
    requires Copies(fmt, out) && i <= |fmt| && fmt[i..] == s + rest && '%' !in s
    ensures i + |s| <= |fmt| && fmt[i + |s|..] == rest && out(i, arg, f) == s + out(i + |s|, arg, f)
    decreases |s|
  {
    Parted(fmt, i, s, rest);
    if s != "" {
      var more := s[1..];
      assert s == [s[0]] + more && s[0] in s;
      assert fmt[i + 1..] == fmt[i..][1..] == more + rest;
      assert At(i, arg);
      CopyAlong(fmt, out, i + 1, more, rest, arg, f);
    }
  }

  lemma {:induction false} DirectedPrinted(meaning: Show, ps: seq<Piece>, a: Arguments, arg: nat, f: Flags)
    requires ps != [] && ps[0].Directed?
    ensures var d := DirectiveOf(ps[0], a, arg, f);
            Printed(meaning, ps, a, arg, f)
            == meaning(ps[0].c, d) + Printed(meaning, ps[1..], a, d.arg + Taken(ps[0].c, ps[0].length), d.flags)
  {
  }

  /** A directive is shown, and the rest is printed behind it. */
  lemma {:induction false} DirectedShown(fmt: string, scan: Scanner, text: Piece -> string, show: Show, meaning: Show, out: Output, a: Arguments, i: nat, p: Piece, rest: string, arg: nat, f: Flags)
    returns (j: nat)
    requires Shows(fmt, scan, show, out) && Scans(fmt, scan, text, a) && Converts(show, meaning)
    requires p.Directed? && Sound(p) && i <= |fmt| && fmt[i..] == text(p) + rest
    ensures j <= |fmt| && fmt[j..] == rest
    ensures var d := DirectiveOf(p, a, arg, f);
            out(i, arg, f) == meaning(p.c, d) + out(j, d.arg + Taken(p.c, p.length), d.flags)
  {
    assert At(i, arg);
    assert ScansAt(fmt, scan, text, a, i, arg, p, rest);
    assert out(i, arg, f) == out(i, arg, f) && ShownAt(fmt, scan, show, out, i, arg, f);
    j := ShownAsMeant(fmt, scan, show, meaning, out, a, i, p, rest, arg, f);
  }

  lemma {:induction false} ShownAsMeant(fmt: string, scan: Scanner, show: Show, meaning: Show, out: Output, a: Arguments, i: nat, p: Piece, rest: string, arg: nat, f: Flags)
    returns (j: nat)
    requires p.Directed? && ScannedAt(fmt, scan(i + 1, arg), a, arg, p, rest) && ShownAt(fmt, scan, show, out, i, arg, f) && Converts(show, meaning)
    ensures j <= |fmt| && fmt[j..] == rest
    ensures var d := DirectiveOf(p, a, arg, f);
            out(i, arg, f) == meaning(p.c, d) + out(j, d.arg + Taken(p.c, p.length), d.flags)
  {
    var d := scan(i + 1, arg);
    j := d.end + 1;
    FlagsMerged(p, a, arg, f);
    assert d.(flags := Union(f, d.flags)).(end := 0) == DirectiveOf(p, a, arg, f);
  }

  lemma FlagsMerged(p: Piece, a: Arguments, arg: nat, f: Flags)
    requires p.Directed?
    ensures var d := DirectiveOf(p, a, arg, NO_FLAGS); DirectiveOf(p, a, arg, f) == d.(flags := Union(f, d.flags))
  {
    assert Union(NO_FLAGS, FlagsOf(p.flags)) == FlagsOf(p.flags);
  }

  lemma {:induction false} CopiedPrinted(meaning: Show, ps: seq<Piece>, a: Arguments, arg: nat, f: Flags)
    requires ps != [] && ps[0].Copied?
    ensures Printed(meaning, ps, a, arg, f) == ps[0].s + Printed(meaning, ps[1..], a, arg, f)
  {
  }

  /** From position `i` on, what is printed is what the pieces print. */
  ghost predicate Follows(out: Output, meaning: Show, a: Arguments, i: nat, ps: seq<Piece>, arg: nat, f: Flags) {
    out(i, arg, f) == Printed(meaning, ps, a, arg, f)
  }

  lemma {:induction false} CopiedFollows(fmt: string, text: Piece -> string, out: Output, meaning: Show, a: Arguments, i: nat, ps: seq<Piece>, rest: string, arg: nat, f: Flags)
    returns (j: nat)
    requires Copies(fmt, out) && Plainly(text) && ps != [] && ps[0].Copied? && Sound(ps[0])
    requires i <= |fmt| && fmt[i..] == text(ps[0]) + rest
    ensures j <= |fmt| && fmt[j..] == rest && (Follows(out, meaning, a, j, ps[1..], arg, f) ==> Follows(out, meaning, a, i, ps, arg, f))
  {
    CopyAlong(fmt, out, i, ps[0].s, rest, arg, f);
    CopiedPrinted(meaning, ps, a, arg, f);
    j := i + |ps[0].s|;
  }

  lemma {:induction false} DirectedFollows(fmt: string, scan: Scanner, text: Piece -> string, show: Show, meaning: Show, out: Output, a: Arguments, i: nat, ps: seq<Piece>, rest: string, arg: nat, f: Flags)
    returns (j: nat, arg': nat, g: Flags)
    requires Shows(fmt, scan, show, out) && Scans(fmt, scan, text, a) && Converts(show, meaning)
    requires ps != [] && ps[0].Directed? && Sound(ps[0]) && i <= |fmt| && fmt[i..] == text(ps[0]) + rest
    ensures j <= |fmt| && fmt[j..] == rest && (Follows(out, meaning, a, j, ps[1..], arg', g) ==> Follows(out, meaning, a, i, ps, arg, f))
  {
    var d := DirectiveOf(ps[0], a, arg, f);
    arg', g := d.arg + Taken(ps[0].c, ps[0].length), d.flags;
    j := DirectedShown(fmt, scan, text, show, meaning, out, a, i, ps[0], rest, arg, f);
    DirectedPrinted(meaning, ps, a, arg, f);
  }

  lemma {:induction false} PiecesFollow(fmt: string, scan: Scanner, text: Piece -> string, show: Show, meaning: Show, out: Output, a: Arguments, i: nat, ps: seq<Piece>, arg: nat, f: Flags)
    requires Copies(fmt, out) && Shows(fmt, scan, show, out) && Scans(fmt, scan, text, a) && Converts(show, meaning) && Plainly(text)
    requires i <= |fmt| && fmt[i..] == Joined(text, ps) && forall k :: 0 <= k < |ps| ==> Sound(ps[k])
    ensures Follows(out, meaning, a, i, ps, arg, f)
    decreases |ps|
  {
    if ps == [] {
      assert i == |fmt|;
    } else if ps[0].Copied? {
      var j := CopiedFollows(fmt, text, out, meaning, a, i, ps, Joined(text, ps[1..]), arg, f);
      PiecesFollow(fmt, scan, text, show, meaning, out, a, j, ps[1..], arg, f);
    } else {
      var j, arg', g := DirectedFollows(fmt, scan, text, show, meaning, out, a, i, ps, Joined(text, ps[1..]), arg, f);
      PiecesFollow(fmt, scan, text, show, meaning, out, a, j, ps[1..], arg', g);
    }
  }

  // ----- a call does so -----

  /** The items of a format from a position and an argument on. */
  type ItemsFrom = (nat, nat) -> seq<Item>

  function OutputOf(items: ItemsFrom, show: Show): Output {
    (i: nat, arg: nat, f: Flags) => Render(show, items(i, arg), f, true)
  }

  ghost predicate CopiedAt(fmt: string, items: ItemsFrom, i: nat, arg: nat)
    requires i < |fmt|
  {
    items(i, arg) == [Literal(fmt[i])] + items(i + 1, arg)
  }

  ghost predicate DirectedAt(fmt: string, scan: Scanner, items: ItemsFrom, i: nat, arg: nat) {
    var d := scan(i + 1, arg);
    d.end < |fmt| && items(i, arg) == [Conversion(d, fmt[d.end])] + items(d.end + 1, d.arg + Taken(fmt[d.end], d.length))
  }

  lemma {:induction false} OutputCopies(fmt: string, items: ItemsFrom, show: Show)
    requires forall arg: nat :: items(|fmt|, arg) == []
    requires forall i: nat, arg: nat :: i < |fmt| && fmt[i] != '%' ==> CopiedAt(fmt, items, i, arg)
    ensures Copies(fmt, OutputOf(items, show))
  {
    var out := OutputOf(items, show);
    forall i: nat, arg: nat, f: Flags | i < |fmt| && fmt[i] != '%'
      ensures out(i, arg, f) == [fmt[i]] + out(i + 1, arg, f)
    {
      assert CopiedAt(fmt, items, i, arg);
      RenderLiteral(show, fmt[i], items(i + 1, arg), f, true);
    }
  }

  lemma {:induction false} OutputShows(fmt: string, scan: Scanner, items: ItemsFrom, show: Show)
    requires forall i: nat, arg: nat :: i < |fmt| && fmt[i] == '%' && scan(i + 1, arg).end < |fmt| ==> DirectedAt(fmt, scan, items, i, arg)
    ensures Shows(fmt, scan, show, OutputOf(items, show))
  {
    var out := OutputOf(items, show);
    forall i: nat, arg: nat, f: Flags | i < |fmt| && fmt[i] == '%' && scan(i + 1, arg).end < |fmt|
      ensures ShownAt(fmt, scan, show, out, i, arg, f)
    {
      assert DirectedAt(fmt, scan, items, i, arg);
      var d := scan(i + 1, arg);
      RenderConversion(show, d, fmt[d.end], items(d.end + 1, d.arg + Taken(fmt[d.end], d.length)), f, true);
    }
  }

  function ItemsOf(call: Call): ItemsFrom {
    (i: nat, arg: nat) => if i <= |call.fmt| then call.Items(i, arg) else []
  }

  /** The items and the directives of a call. */
  ghost predicate Itemizes(call: Call, scan: Scanner, items: ItemsFrom) {
    forall i: nat, arg: nat {:trigger At(i, arg)} ::
      i <= |call.fmt| ==> items(i, arg) == call.Items(i, arg) && scan(i, arg) == call.Scan(i, NO_FLAGS, arg)
  }

  lemma {:induction false} CallItemizes(call: Call)
    ensures Itemizes(call, call.ScanAt(), ItemsOf(call))
  {
  }

  lemma {:induction false} CallCopies(call: Call, scan: Scanner, items: ItemsFrom, i: nat, arg: nat)
    requires Itemizes(call, scan, items) && i < |call.fmt| && call.fmt[i] != '%'
    ensures CopiedAt(call.fmt, items, i, arg)
  {
    assert At(i, arg) && At(i + 1, arg);
    call.CopiedThen(call.Items(i + 1, arg), i, arg);
  }

  lemma {:induction false} ItemsDirected(call: Call, i: nat, arg: nat, d: Directive, rest: seq<Item>)
    requires i < |call.fmt| && call.fmt[i] == '%' && d == call.Scan(i + 1, NO_FLAGS, arg) && d.end < |call.fmt|
    requires rest == call.Items(d.end + 1, d.arg + Taken(call.fmt[d.end], d.length))
    ensures call.Items(i, arg) == [Conversion(d, call.fmt[d.end])] + rest
  {
    WordsTaken(call, d);
    call.ScannedThen(rest, i, arg, d);
  }

  lemma {:induction false} CallDirects(call: Call, scan: Scanner, items: ItemsFrom, i: nat, arg: nat, d: Directive, rest: seq<Item>)
    requires Itemizes(call, scan, items)
    requires i < |call.fmt| && call.fmt[i] == '%' && d == scan(i + 1, arg) && d.end < |call.fmt|
    requires rest == items(d.end + 1, d.arg + Taken(call.fmt[d.end], d.length))
    ensures items(i, arg) == [Conversion(d, call.fmt[d.end])] + rest
  {
    assert At(i, arg) && At(i + 1, arg) && At(d.end + 1, d.arg + Taken(call.fmt[d.end], d.length));
    ItemsDirected(call, i, arg, d, rest);
  }

  lemma {:induction false} WordsTaken(call: Call, d: Directive)
    requires d.end < |call.fmt|
    ensures call.NextArgument(d) == d.arg + Taken(call.fmt[d.end], d.length)
  {
  }

  lemma {:induction false} ScannedSo(call: Call, a: Arguments, d: Directive, arg: nat, p: Piece, rest: string)
    requires p.Directed?
    requires var arg1 := arg + FieldArguments(p.width);
             ScannedAs(call, d, FlagsOf(p.flags), FieldValue(p.width, a, arg), PrecisionValue(p.precision, a, arg1),
                       p.length, p.c, rest, arg1 + PrecisionArguments(p.precision))
    ensures ScannedAt(call.fmt, d, a, arg, p, rest)
  {
    FlagsAlone(p.flags);
  }

  lemma {:induction false} CallScansOne(call: Call, a: Arguments, i: nat, arg: nat, p: Piece, rest: string, d: Directive)
    requires p.Directed? && Sound(p) && a.words == call.words && i <= |call.fmt| && call.fmt[i..] == p.flags + FieldsOn(p, rest)
    requires d == call.Scan(i, NO_FLAGS, arg)
    ensures ScannedAt(call.fmt, d, a, arg, p, rest)
  {
    DirectiveScanned(call, a, i, p, rest, arg);
    ScannedSo(call, a, d, arg, p, rest);
  }

  lemma {:induction false} CallScans(call: Call)
    ensures Scans(call.fmt, call.ScanAt(), PieceText, ArgumentsOf(call))
  {
    var (fmt, scan, a) := (call.fmt, call.ScanAt(), ArgumentsOf(call));
    forall i: nat, arg: nat, p: Piece, rest: string
      ensures ScansAt(fmt, scan, PieceText, a, i, arg, p, rest)
    {
      if p.Directed? && Sound(p) && i <= |fmt| && fmt[i..] == PieceText(p) + rest {
        BehindPercent(fmt, i, p, rest);
        CallScansOne(call, a, i + 1, arg, p, rest, scan(i + 1, arg));
      }
    }
  }

  lemma FlagsAlone(flags: string)
    ensures Union(NO_FLAGS, FlagsOf(flags)) == FlagsOf(flags)
  {
  }

  lemma NumberTaken(call: Call, length: Length, arg: nat)
    ensures call.Number(length, arg) == IntegerArgument(length, ArgumentsOf(call), arg)
  {
  }

  lemma {:induction false} NumberSpecified(c: char, length: Length, width: int, precision: int, f: Flags, a: Arguments, arg: nat)
    requires IsNumber(c)
    ensures SpecifierText(c, length, width, precision, f, a, arg)
            == Layout(IntegerArgument(length, a, arg), Radix(c), width, precision, IsSigned(c), f)
  {
  }

  lemma {:induction false} OneConverts(call: Call, c: char, d: Directive)
    ensures call.Converted(c, d) == SpecifierText(c, d.length, d.width, d.precision, d.flags, ArgumentsOf(call), d.arg)
  {
    if IsNumber(c) {
      NumberTaken(call, d.length, d.arg);
      NumberSpecified(c, d.length, d.width, d.precision, d.flags, ArgumentsOf(call), d.arg);
    }
  }

  lemma {:induction false} CallConverts(call: Call)
    ensures Converts(call.Converted, Meaning(ArgumentsOf(call)))
  {
    var (show, meaning) := (call.Converted, Meaning(ArgumentsOf(call)));
    forall c, d
      ensures show(c, d) == meaning(c, d.(end := 0))
    {
      OneConverts(call, c, d);
    }
  }

  lemma {:induction false} CallCopiesAll(call: Call, scan: Scanner, items: ItemsFrom, show: Show)
    requires Itemizes(call, scan, items)
    ensures Copies(call.fmt, OutputOf(items, show))
  {
    var fmt := call.fmt;
    forall i: nat, arg: nat | i < |fmt| && fmt[i] != '%'
      ensures CopiedAt(fmt, items, i, arg)
    {
      CallCopies(call, scan, items, i, arg);
    }
    forall arg: nat
      ensures items(|fmt|, arg) == []
    {
      assert At(|fmt|, arg);
    }
    OutputCopies(fmt, items, show);
  }

  lemma DirectedSo(fmt: string, scan: Scanner, items: ItemsFrom, i: nat, arg: nat, d: Directive, rest: seq<Item>)
    requires d == scan(i + 1, arg) && d.end < |fmt| && rest == items(d.end + 1, d.arg + Taken(fmt[d.end], d.length))
    requires items(i, arg) == [Conversion(d, fmt[d.end])] + rest
    ensures DirectedAt(fmt, scan, items, i, arg)
  {
  }

  lemma {:induction false} CallShowsAll(call: Call, scan: Scanner, items: ItemsFrom, show: Show)
    requires Itemizes(call, scan, items)
    ensures Shows(call.fmt, scan, show, OutputOf(items, show))
  {
    var fmt := call.fmt;
    forall i: nat, arg: nat | i < |fmt| && fmt[i] == '%' && scan(i + 1, arg).end < |fmt|
      ensures DirectedAt(fmt, scan, items, i, arg)
    {
      var d := scan(i + 1, arg);
      var rest := items(d.end + 1, d.arg + Taken(fmt[d.end], d.length));
      CallDirects(call, scan, items, i, arg, d, rest);
      DirectedSo(fmt, scan, items, i, arg, d, rest);
    }
    OutputShows(fmt, scan, items, show);
  }

  /** Format and arguments determine the output: every format that is written from pieces prints them
      one after the other, each directive with its own arguments. */
  lemma {:induction false} PiecesPrinted(call: Call, ps: seq<Piece>)
    requires call.fmt == Written(ps) && forall k :: 0 <= k < |ps| ==> Sound(ps[k])
    ensures call.Output() == Printed(Meaning(ArgumentsOf(call)), ps, ArgumentsOf(call), 0, NO_FLAGS)
  {
    var out := OutputOf(ItemsOf(call), call.Converted);
    assert call.fmt[0..] == call.fmt;
    CallItemizes(call);
    CallCopiesAll(call, call.ScanAt(), ItemsOf(call), call.Converted);
    CallShowsAll(call, call.ScanAt(), ItemsOf(call), call.Converted);
    CallScans(call);
    CallConverts(call);
    PiecesFollow(call.fmt, call.ScanAt(), PieceText, call.Converted, Meaning(ArgumentsOf(call)), out, ArgumentsOf(call), 0, ps, 0, NO_FLAGS);
    assert out(0, 0, NO_FLAGS) == call.Output();
  }
}
