/**
 What section 7.19.6.1 of ISO C99 asks of the conversions d, i, u, o, x and X, and
 for which calls print_num meets it.
 */
module CStandard {
  import opened Arithmetic
  import opened NumberText
  import opened TextShapes
  import opened FormatText

  /** Conversions and flags for which the standard says what is printed: '#' has a meaning only for o, x and X. */
  predicate Defined(c: char, f: Flags) {
    c in {'d', 'i', 'u', 'o', 'x', 'X'} && (f.altForm ==> c in {'o', 'x', 'X'})
  }

  function LowerCase(c: char): char {
    if 'A' <= c <= 'F' then (c as int + 32) as char else c
  }

  function Lower(s: string): (t: string)
    ensures |t| == |s| && forall i :: 0 <= i < |s| ==> t[i] == LowerCase(s[i])
  {
    if s == "" then "" else [LowerCase(s[0])] + Lower(s[1..])
  }

  // ----- the standard -----

  /** The sign of a signed conversion; the other conversions have none. */
  function StandardSign(c: char, num: int, f: Flags): string {
    if !IsSigned(c) then "" else if num < 0 then "-" else if f.sign then "+" else if f.space then " " else ""
  }

  /** Nonzero results of # with x and X. */
  function StandardBase(c: char, num: int, f: Flags): string {
    if f.altForm && num != 0 then (if c == 'x' then "0x" else if c == 'X' then "0X" else "") else ""
  }

  /** The digits; none for zero with precision 0. */
  function StandardDigits(c: char, num: int, precision: int): string
    requires -TWO_64 / 2 <= num < TWO_64 / 2
  {
    var digits := Body(num, Radix(c), precision, IsSigned(c));
    if c == 'x' then Lower(digits) else digits
  }

  /** How many zeros the precision adds, or # with o, which makes the first digit a zero. */
  function StandardZeros(c: char, num: int, precision: int, f: Flags): nat
    requires -TWO_64 / 2 <= num < TWO_64 / 2
  {
    var digits := StandardDigits(c, num, precision);
    if precision > |digits| then precision - |digits|
    else if c == 'o' && f.altForm && (digits == "" || digits[0] != '0') then 1
    else 0
  }

  /** The standard's three ways to pad. */
  function Padded(sign: string, base: string, zeros: nat, digits: string, pad: int, left: bool, zeroed: bool): string {
    if left then sign + base + Repeat('0', zeros) + digits + Repeat(' ', pad)
    else if zeroed then sign + base + Repeat('0', pad) + Repeat('0', zeros) + digits
    else Repeat(' ', pad) + sign + base + Repeat('0', zeros) + digits
  }

  /** How far the width exceeds what is to be printed. */
  function StandardPad(c: char, num: int, width: int, precision: int, f: Flags): int
    requires -TWO_64 / 2 <= num < TWO_64 / 2
  {
    Size(width) - |StandardSign(c, num, f)| - |StandardBase(c, num, f)|
    - StandardZeros(c, num, precision, f) - |StandardDigits(c, num, precision)|
  }

  /** What is printed. A negative precision is none; a negative width asks for justification to the left. */
  function Standard(c: char, num: int, width: int, precision: int, f: Flags): string
    requires -TWO_64 / 2 <= num < TWO_64 / 2
  {
    Padded(StandardSign(c, num, f), StandardBase(c, num, f), StandardZeros(c, num, precision, f), StandardDigits(c, num, precision),
           StandardPad(c, num, width, precision, f), f.leftJustify || width < 0, f.zeroPad && precision < 0)
  }

  function Size(width: int): nat {
    if width < 0 then -width else width
  }

  // ----- when the layout is that of the standard -----

  /** Padding comes out right: there is none, or it is not one of the cases that go wrong, which are a
      width given as a negative number, zero without digits, and a 0 flag that is to be ignored because
      of a - flag or a precision. */
  predicate PadsAlike(size: nat, width: int, precision: int, f: Flags, empty: bool) {
    Size(width) <= size || (width >= 0 && !empty && !(f.zeroPad && (f.leftJustify || precision >= 0)))
  }

  /** A blank printed for the space flag takes the place of one that pads on the left. */
  predicate BlankAbsorbed(size: nat, width: int, precision: int, f: Flags, empty: bool) {
    if empty then Size(width) == 1
    else width > size && !f.leftJustify && (!f.zeroPad || (precision >= 0 && width == size + 1))
  }

  /** The cases in which # with o comes out right although the code puts a zero in front of 0 only, `d`
      being the number of digits. */
  predicate OctalForm(d: nat, zero: bool, width: int, precision: int, f: Flags) {
    var zeros := f.zeroPad && !f.leftJustify;
    if zero && precision == 0 then (if f.space then width == 2 && !f.leftJustify else Size(width) <= 1)
    else if zero then precision < 0 && !f.space && zeros && width >= 2
    else if precision > d then
      if f.space then !f.leftJustify && width == precision + 1
      else Size(width) <= precision || (width >= 0 && f.leftJustify && !f.zeroPad)
    else if f.space then zeros && precision >= 0 && width == d + 2
    else zeros && width > d && (precision < 0 || width == d + 1)
  }

  predicate HasLetter(s: string) {
    exists i :: 0 <= i < |s| && 'A' <= s[i] <= 'F'
  }

  /** The condition, in terms of the conversion, the number, width, precision and flags. */
  predicate Conforms(c: char, num: int, width: int, precision: int, f: Flags)
    requires -TWO_64 / 2 <= num < TWO_64 / 2
  {
    var digits := Digits(Magnitude(num, IsSigned(c)), Radix(c));
    var empty := num == 0 && precision == 0;
    var size := Max(if empty then 0 else |digits|, precision);
    if c == 'o' && f.altForm then OctalForm(|digits|, num == 0, width, precision, f)
    else
      && (c == 'x' ==> !HasLetter(digits))
      && (f.altForm ==> c == 'x' && num != 0)
      && if IsSigned(c) then PadsAlike(|StandardSign(c, num, f)| + size, width, precision, f, empty)
         else if f.space then BlankAbsorbed(|StandardBase(c, num, f)| + size, width, precision, f, empty)
         else PadsAlike(|StandardBase(c, num, f)| + size, width, precision, f, empty)
  }

  // ----- the shape the standard asks for -----

  function StandardShape(c: char, num: int, width: int, precision: int, f: Flags): Shape
    requires -TWO_64 / 2 <= num < TWO_64 / 2
  {
    PaddedShape(StandardSign(c, num, f), StandardBase(c, num, f), StandardZeros(c, num, precision, f), StandardDigits(c, num, precision),
                Max(0, StandardPad(c, num, width, precision, f)), f.leftJustify || width < 0, f.zeroPad && precision < 0, num == 0)
  }

  lemma LeftGrouped(sign: string, base: string, zeros: nat, digits: string, pad: nat)
    ensures sign + base + Repeat('0', zeros) + digits + Repeat(' ', pad)
            == Repeat(' ', 0) + (sign + (base + (Repeat('0', zeros) + digits + Repeat('0', 0) + Repeat(' ', pad))))
  {
    assert Repeat('0', zeros) + digits + Repeat('0', 0) == Repeat('0', zeros) + digits;
  }

  lemma ZerosGrouped(sign: string, base: string, pad: nat, zeros: nat, digits: string)
    ensures sign + base + Repeat('0', pad) + Repeat('0', zeros) + digits
            == Repeat(' ', 0) + (sign + (base + (Repeat('0', pad + zeros) + digits + Repeat('0', 0) + Repeat(' ', 0))))
  {
    RepeatJoin('0', pad, zeros);
    LeftGrouped(sign, base, pad + zeros, digits, 0);
    assert sign + base + Repeat('0', pad) + Repeat('0', zeros) == sign + base + (Repeat('0', pad) + Repeat('0', zeros));
    assert sign + base + Repeat('0', pad + zeros) + digits + Repeat(' ', 0) == sign + base + Repeat('0', pad + zeros) + digits;
  }

  lemma BlanksGrouped(pad: nat, sign: string, base: string, zeros: nat, digits: string)
    ensures Repeat(' ', pad) + sign + base + Repeat('0', zeros) + digits
            == Repeat(' ', pad) + (sign + (base + (Repeat('0', zeros) + digits + Repeat('0', 0) + Repeat(' ', 0))))
  {
    assert Repeat('0', zeros) + digits + Repeat('0', 0) + Repeat(' ', 0) == Repeat('0', zeros) + digits;
  }

  lemma LowerProper(digits: string, zero: bool)
    requires ProperDigits(digits, zero)
    ensures ProperDigits(Lower(digits), zero)
  {
  }

  lemma {:induction false} DigitsProper(c: char, num: int, precision: int)
    requires -TWO_64 / 2 <= num < TWO_64 / 2
    ensures ProperDigits(StandardDigits(c, num, precision), num == 0)
  {
    BodyProper(num, Radix(c), precision, IsSigned(c));
    LowerProper(Body(num, Radix(c), precision, IsSigned(c)), num == 0);
  }

  function PaddedShape(sign: string, base: string, zeros: nat, digits: string, pad: nat, left: bool, zeroed: bool, zero: bool): Shape {
    Shaping(if left || zeroed then 0 else pad, sign, base, if !left && zeroed then pad + zeros else zeros, digits, 0, if left then pad else 0, zero)
  }

  lemma {:induction false} PaddedText(sign: string, base: string, zeros: nat, digits: string, pad: nat,
                                      left: bool, zeroed: bool, zero: bool)
    requires ProperDigits(digits, zero)
    ensures PaddedShape(sign, base, zeros, digits, pad, left, zeroed, zero).Text() == Padded(sign, base, zeros, digits, pad, left, zeroed)
  {
    if left {
      LeftGrouped(sign, base, zeros, digits, pad);
      ShapingText(0, sign, base, zeros, digits, 0, pad, zero);
    } else if zeroed {
      ZerosGrouped(sign, base, pad, zeros, digits);
      ShapingText(0, sign, base, pad + zeros, digits, 0, 0, zero);
    } else {
      BlanksGrouped(pad, sign, base, zeros, digits);
      ShapingText(pad, sign, base, zeros, digits, 0, 0, zero);
    }
  }

  lemma PaddedNone(sign: string, base: string, zeros: nat, digits: string, pad: int, left: bool, zeroed: bool)
    ensures Padded(sign, base, zeros, digits, pad, left, zeroed) == Padded(sign, base, zeros, digits, Max(0, pad), left, zeroed)
  {
    RepeatNone(' ', pad);
    RepeatNone('0', pad);
  }

  lemma PaddedProper(sign: string, base: string, zeros: nat, digits: string, pad: nat, left: bool, zeroed: bool, zero: bool)
    requires sign in {"", " ", "+", "-"} && base in {"", "0x", "0X"} && ProperDigits(digits, zero)
    ensures PaddedShape(sign, base, zeros, digits, pad, left, zeroed, zero).Proper()
  {
  }

  lemma {:induction false} PaddedParts(sign: string, base: string, zeros: nat, digits: string, pad: int,
                                       left: bool, zeroed: bool, zero: bool)
    requires sign in {"", " ", "+", "-"} && base in {"", "0x", "0X"} && ProperDigits(digits, zero)
    ensures PaddedShape(sign, base, zeros, digits, Max(0, pad), left, zeroed, zero).Proper()
    ensures PaddedShape(sign, base, zeros, digits, Max(0, pad), left, zeroed, zero).Text()
            == Padded(sign, base, zeros, digits, pad, left, zeroed)
  {
    PaddedNone(sign, base, zeros, digits, pad, left, zeroed);
    PaddedText(sign, base, zeros, digits, Max(0, pad), left, zeroed, zero);
    PaddedProper(sign, base, zeros, digits, Max(0, pad), left, zeroed, zero);
  }

  lemma {:induction false} StandardParts(c: char, num: int, width: int, precision: int, f: Flags)
    requires -TWO_64 / 2 <= num < TWO_64 / 2
    ensures StandardShape(c, num, width, precision, f).Proper()
    ensures StandardShape(c, num, width, precision, f).Text() == Standard(c, num, width, precision, f)
  {
    DigitsProper(c, num, precision);
    PaddedParts(StandardSign(c, num, f), StandardBase(c, num, f), StandardZeros(c, num, precision, f), StandardDigits(c, num, precision),
                StandardPad(c, num, width, precision, f), f.leftJustify || width < 0, f.zeroPad && precision < 0, num == 0);
  }

  // ----- comparing the parts -----

  lemma {:induction false} SignedAlike(c: char, num: int, width: int, precision: int, f: Flags)
    requires -TWO_64 / 2 <= num < TWO_64 / 2 && IsSigned(c) && !f.altForm
    ensures LayoutShape(num, Radix(c), width, precision, true, f) == StandardShape(c, num, width, precision, f)
            <==> Conforms(c, num, width, precision, f)
  {
  }

  lemma {:induction false} UnsignedAlike(c: char, num: int, width: int, precision: int, f: Flags)
    requires -TWO_64 / 2 <= num < TWO_64 / 2 && c in {'u', 'o', 'X'} && !f.altForm
    ensures LayoutShape(num, Radix(c), width, precision, false, f) == StandardShape(c, num, width, precision, f)
            <==> Conforms(c, num, width, precision, f)
  {
    if f.space {
      UnsignedBlank(c, num, width, precision, f);
    } else {
      UnsignedBare(c, num, width, precision, f);
    }
  }

  lemma {:induction false} UnsignedBlank(c: char, num: int, width: int, precision: int, f: Flags)
    requires -TWO_64 / 2 <= num < TWO_64 / 2 && c in {'u', 'o', 'X'} && !f.altForm && f.space
    ensures LayoutShape(num, Radix(c), width, precision, false, f) == StandardShape(c, num, width, precision, f)
            <==> Conforms(c, num, width, precision, f)
  {
  }

  lemma {:induction false} UnsignedBare(c: char, num: int, width: int, precision: int, f: Flags)
    requires -TWO_64 / 2 <= num < TWO_64 / 2 && c in {'u', 'o', 'X'} && !f.altForm && !f.space
    ensures LayoutShape(num, Radix(c), width, precision, false, f) == StandardShape(c, num, width, precision, f)
            <==> Conforms(c, num, width, precision, f)
  {
  }

  lemma {:induction false} OctalNonzero(num: int, width: int, precision: int, f: Flags)
    requires -TWO_64 / 2 <= num < TWO_64 / 2 && f.altForm && num != 0
    ensures LayoutShape(num, 8, width, precision, false, f) == StandardShape('o', num, width, precision, f)
            <==> Conforms('o', num, width, precision, f)
  {
    MagnitudeZero(num, false);
    FirstDigit(Magnitude(num, false), 8);
  }

  lemma {:induction false} OctalZero(width: int, precision: int, f: Flags)
    requires f.altForm
    ensures LayoutShape(0, 8, width, precision, false, f) == StandardShape('o', 0, width, precision, f)
            <==> Conforms('o', 0, width, precision, f)
  {
    assert Digits(0, 8) == "0";
  }

  lemma LowerKeeps(s: string)
    requires !HasLetter(s)
    ensures Lower(s) == s
  {
  }

  lemma LowerNoLetter(s: string)
    ensures !HasLetter(Lower(s))
  {
    forall i | 0 <= i < |s| ensures !('A' <= Lower(s)[i] <= 'F') {
      assert Lower(s)[i] == LowerCase(s[i]);
    }
  }

  lemma NoLetterBody(num: int, radix: nat, precision: int, signed: bool)
    requires 2 <= radix <= 16 && -TWO_64 / 2 <= num < TWO_64 / 2 && !HasLetter(Digits(Magnitude(num, signed), radix))
    ensures Lower(Body(num, radix, precision, signed)) == Body(num, radix, precision, signed)
  {
    LowerKeeps(Body(num, radix, precision, signed));
  }

  lemma {:induction false} SmallIsCapital(num: int, width: int, precision: int, f: Flags)
    requires -TWO_64 / 2 <= num < TWO_64 / 2 && !f.altForm && !HasLetter(Digits(Magnitude(num, false), 16))
    ensures StandardShape('x', num, width, precision, f) == StandardShape('X', num, width, precision, f)
    ensures Conforms('x', num, width, precision, f) <==> Conforms('X', num, width, precision, f)
  {
    NoLetterBody(num, 16, precision, false);
  }

  /** Without a letter among the digits, x is X. */
  lemma {:induction false} HexPlain(num: int, width: int, precision: int, f: Flags)
    requires -TWO_64 / 2 <= num < TWO_64 / 2 && !f.altForm && !HasLetter(Digits(Magnitude(num, false), 16))
    ensures LayoutShape(num, 16, width, precision, false, f) == StandardShape('x', num, width, precision, f)
            <==> Conforms('x', num, width, precision, f)
  {
    SmallIsCapital(num, width, precision, f);
    UnsignedAlike('X', num, width, precision, f);
  }

  lemma {:induction false} HexForm(num: int, width: int, precision: int, f: Flags)
    requires -TWO_64 / 2 <= num < TWO_64 / 2 && f.altForm && num != 0
    requires !HasLetter(Digits(Magnitude(num, false), 16)) && StandardDigits('x', num, precision) == Body(num, 16, precision, false)
    ensures LayoutShape(num, 16, width, precision, false, f) == StandardShape('x', num, width, precision, f)
            <==> Conforms('x', num, width, precision, f)
  {
  }

  /** The base indication of the code is 0x, that of the standard 0X, or none for 0. */
  lemma {:induction false} BaseDiffers(c: char, num: int, width: int, precision: int, f: Flags)
    requires -TWO_64 / 2 <= num < TWO_64 / 2 && f.altForm && (c == 'X' || (c == 'x' && num == 0))
    ensures LayoutShape(num, 16, width, precision, false, f).base != StandardShape(c, num, width, precision, f).base
    ensures !Conforms(c, num, width, precision, f)
  {
  }

  lemma {:induction false} LetterNonzero(num: int)
    requires -TWO_64 / 2 <= num < TWO_64 / 2 && HasLetter(Digits(Magnitude(num, false), 16))
    ensures num != 0
  {
    assert Digits(0, 16) == "0";
  }

  lemma {:induction false} NoLetterStandard(num: int, width: int, precision: int, f: Flags)
    requires -TWO_64 / 2 <= num < TWO_64 / 2
    ensures !HasLetter(StandardShape('x', num, width, precision, f).body)
  {
    LowerNoLetter(Body(num, 16, precision, false));
  }

  /** A capital letter among the digits of x is printed, and the standard has none. */
  lemma {:induction false} LetterDiffers(num: int, width: int, precision: int, f: Flags)
    requires -TWO_64 / 2 <= num < TWO_64 / 2 && HasLetter(Digits(Magnitude(num, false), 16))
    ensures Layout(num, 16, width, precision, false, f) != Standard('x', num, width, precision, f)
  {
    var s, t := LayoutShape(num, 16, width, precision, false, f), StandardShape('x', num, width, precision, f);
    LayoutParts(num, 16, width, precision, false, f);
    LayoutBody(num, 16, width, precision, false, f);
    StandardParts('x', num, width, precision, f);
    LetterNonzero(num);
    NoLetterStandard(num, width, precision, f);
    LetterShown(s);
    NoLetterShown(t);
  }

  lemma LetterShown(s: Shape)
    requires HasLetter(s.body)
    ensures HasLetter(s.Text())
  {
    var i :| 0 <= i < |s.body| && 'A' <= s.body[i] <= 'F';
    var front := Repeat(' ', s.blanks) + (s.sign + (s.base + Repeat('0', s.zeros)));
    assert s.Text() == front + s.Back();
    assert s.Text()[|front| + i] == s.body[i];
  }

  lemma NoLetterJoin(s: string, t: string)
    requires !HasLetter(s) && !HasLetter(t)
    ensures !HasLetter(s + t)
  {
  }

  lemma NoLetterShown(s: Shape)
    requires s.Proper() && !HasLetter(s.body)
    ensures !HasLetter(s.Text())
  {
    NoLetterJoin(Repeat('0', s.behind), Repeat(' ', s.after));
    NoLetterJoin(s.body, Repeat('0', s.behind) + Repeat(' ', s.after));
    NoLetterJoin(Repeat('0', s.zeros), s.Back());
    NoLetterJoin(s.base, Repeat('0', s.zeros) + s.Back());
    NoLetterJoin(s.sign, s.Tail());
    NoLetterJoin(Repeat(' ', s.blanks), s.sign + s.Tail());
  }

  // ----- exactly when print_num conforms -----

  lemma {:induction false} ShapesAlike(c: char, num: int, width: int, precision: int, f: Flags)
    requires -TWO_64 / 2 <= num < TWO_64 / 2 && Defined(c, f)
    requires c == 'x' ==> !HasLetter(Digits(Magnitude(num, false), 16))
    ensures LayoutShape(num, Radix(c), width, precision, IsSigned(c), f) == StandardShape(c, num, width, precision, f)
            <==> Conforms(c, num, width, precision, f)
  {
    if IsSigned(c) {
      SignedAlike(c, num, width, precision, f);
    } else if c == 'x' && !f.altForm {
      HexPlain(num, width, precision, f);
    } else if c == 'x' && num != 0 {
      NoLetterBody(num, 16, precision, false);
      HexForm(num, width, precision, f);
    } else if c == 'x' || (c == 'X' && f.altForm) {
      BaseDiffers(c, num, width, precision, f);
    } else if f.altForm {
      if num == 0 {
        OctalZero(width, precision, f);
      } else {
        OctalNonzero(num, width, precision, f);
      }
    } else {
      UnsignedAlike(c, num, width, precision, f);
    }
  }

  lemma {:induction false} SameBody(c: char, num: int, width: int, precision: int, f: Flags)
    requires -TWO_64 / 2 <= num < TWO_64 / 2
    requires c == 'x' ==> !HasLetter(Digits(Magnitude(num, false), 16))
    ensures LayoutShape(num, Radix(c), width, precision, IsSigned(c), f).body == StandardShape(c, num, width, precision, f).body
  {
    LayoutBody(num, Radix(c), width, precision, IsSigned(c), f);
    if c == 'x' {
      NoLetterBody(num, 16, precision, false);
    }
  }

  /** print_num prints what the standard asks for exactly when `Conforms` says so. */
  lemma {:induction false} ConformsExactlyWhen(c: char, num: int, width: int, precision: int, f: Flags)
    requires -TWO_64 / 2 <= num < TWO_64 / 2 && Defined(c, f)
    ensures Layout(num, Radix(c), width, precision, IsSigned(c), f) == Standard(c, num, width, precision, f)
            <==> Conforms(c, num, width, precision, f)
  {
    if c == 'x' && HasLetter(Digits(Magnitude(num, false), 16)) {
      LetterDiffers(num, width, precision, f);
    } else {
      LayoutParts(num, Radix(c), width, precision, IsSigned(c), f);
      StandardParts(c, num, width, precision, f);
      SameBody(c, num, width, precision, f);
      SameText(LayoutShape(num, Radix(c), width, precision, IsSigned(c), f), StandardShape(c, num, width, precision, f));
      ShapesAlike(c, num, width, precision, f);
    }
  }

  /** Calls that do not conform. %x prints capital letters. */
  lemma {:induction false} LettersDeviate()
    ensures Layout(10, 16, 0, -1, false, NO_FLAGS) == "A" && Standard('x', 10, 0, -1, NO_FLAGS) == "a"
  {
    assert Digits(10, 16) == "A" && Lower("A") == "a";
  }

  /** %#o of a number other than zero has no leading zero. */
  lemma {:induction false} OctalDeviates()
    ensures var f := NO_FLAGS.(altForm := true);
            Layout(8, 8, 0, -1, false, f) == "10" && Standard('o', 8, 0, -1, f) == "010"
  {
    assert Quotient(8, 8) == 1 && Remainder(8, 8) == 0 && Digits(8, 8) == "10";
  }

  /** And of zero it has two. */
  lemma {:induction false} OctalZeroDeviates()
    ensures var f := NO_FLAGS.(altForm := true);
            Layout(0, 8, 0, -1, false, f) == "00" && Standard('o', 0, 0, -1, f) == "0"
  {
    assert Digits(0, 8) == "0";
  }

  /** The space flag puts a blank in front of an unsigned number. */
  lemma {:induction false} BlankDeviates()
    ensures var f := NO_FLAGS.(space := true);
            Layout(5, 10, 0, -1, false, f) == " 5" && Standard('u', 5, 0, -1, f) == "5"
  {
    assert Digits(5, 10) == "5";
  }

  /** A left justified number is padded with zeros behind it. */
  lemma {:induction false} ZerosDeviate()
    ensures var f := NO_FLAGS.(leftJustify := true, zeroPad := true);
            Layout(7, 10, 3, -1, true, f) == "700" && Standard('d', 7, 3, -1, f) == "7  "
  {
    assert Digits(7, 10) == "7";
  }
}
