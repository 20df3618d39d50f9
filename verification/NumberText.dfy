/** How print_num lays a number out as text, and what can be read back from it. */
module NumberText {
  import opened Arithmetic

  const HEX_CHARS: string := "0123456789ABCDEF"

  datatype Flags = Flags(leftJustify: bool, sign: bool, space: bool, altForm: bool, zeroPad: bool, group: bool)

  const NO_FLAGS: Flags := Flags(false, false, false, false, false, false)

  // ----- digits -----

  /** Division by repeated subtraction; see `DivisionBySubtraction`. */
  function Quotient(n: nat, d: nat): (q: nat)
    requires 0 < d
    ensures q <= n && (d >= 2 && n > 0 ==> q < n) && (n < d ==> q == 0) && (n >= d ==> q > 0)
  {
    if n < d then 0 else 1 + Quotient(n - d, d)
  }

  function Remainder(n: nat, d: nat): (r: nat)
    requires 0 < d
    ensures r < d
  {
    if n < d then n else Remainder(n - d, d)
  }

  lemma {:induction false} DivisionBySubtraction(n: nat, d: nat)
    requires 0 < d
    ensures n == Quotient(n, d) * d + Remainder(n, d)
    ensures Quotient(n, d) == n / d && Remainder(n, d) == n % d
    decreases n
  {
    if n >= d {
      DivisionBySubtraction(n - d, d);
      assert Quotient(n, d) * d == Quotient(n - d, d) * d + d;
    } else {
      assert Quotient(n, d) * d == 0;
    }
    DivisionUnique(n, d, Quotient(n, d), Remainder(n, d));
  }

  /** The digits of `n`, most significant first; "0" for zero. */
  function Digits(n: nat, radix: nat): (s: string)
    requires 2 <= radix <= 16
    ensures |s| > 0
  {
    if n < radix then [HEX_CHARS[n]] else Digits(Quotient(n, radix), radix) + [HEX_CHARS[Remainder(n, radix)]]
  }

  /** The value of a digit, or -1 for any other character. */
  function DigitValue(c: char): (d: int)
    ensures -1 <= d < 16
  {
    if '0' <= c <= '9' then c as int - '0' as int
    else if 'A' <= c <= 'F' then c as int - 'A' as int + 10
    else -1
  }

  lemma HexCharValue(d: nat)
    requires d < 16
    ensures DigitValue(HEX_CHARS[d]) == d
  {
  }

  predicate AllDigits(s: string, radix: nat) {
    forall i :: 0 <= i < |s| ==> 0 <= DigitValue(s[i]) < radix
  }

  /** The value of a string of digits. */
  function Value(s: string, radix: nat): int {
    if s == [] then 0 else Value(s[..|s| - 1], radix) * radix + DigitValue(s[|s| - 1])
  }

  lemma ValueAppend(s: string, c: char, radix: nat)
    ensures Value(s + [c], radix) == Value(s, radix) * radix + DigitValue(c)
  {
    assert (s + [c])[..|s|] == s;
  }

  /** Writing a number and reading its digits gives it back. */
  lemma {:induction false} DigitsRoundTrip(n: nat, radix: nat)
    requires 2 <= radix <= 16
    ensures AllDigits(Digits(n, radix), radix) && Value(Digits(n, radix), radix) == n
  {
    if n < radix {
      HexCharValue(n);
      ValueAppend([], HEX_CHARS[n], radix);
      assert [] + [HEX_CHARS[n]] == [HEX_CHARS[n]];
    } else {
      DivisionBySubtraction(n, radix);
      var (q, r) := (Quotient(n, radix), Remainder(n, radix));
      DigitsRoundTrip(q, radix);
      HexCharValue(r);
      ValueAppend(Digits(q, radix), HEX_CHARS[r], radix);
    }
  }

  function Power(radix: nat, k: nat): nat {
    if k == 0 then 1 else Power(radix, k - 1) * radix
  }

  function Repeat(c: char, n: int): (s: string)
    ensures |s| == if n > 0 then n else 0
    ensures forall i :: 0 <= i < |s| ==> s[i] == c
  {
    if n <= 0 then "" else seq(n, _ => c)
  }

  lemma RepeatAppend(c: char, n: nat)
    ensures Repeat(c, n + 1) == Repeat(c, n) + [c]
  {
  }

  lemma {:induction false} ValueOfZeros(z: nat, s: string, radix: nat)
    ensures Value(Repeat('0', z) + s, radix) == Value(s, radix)
    decreases z + |s|
  {
    var t := Repeat('0', z) + s;
    if s != [] {
      assert t[..|t| - 1] == Repeat('0', z) + s[..|s| - 1];
      ValueOfZeros(z, s[..|s| - 1], radix);
    } else if z > 0 {
      assert t[..|t| - 1] == Repeat('0', z - 1) + [];
      ValueOfZeros(z - 1, [], radix);
      assert t[|t| - 1] == '0';
    }
  }

  lemma {:induction false} ValueBeforeZeros(s: string, z: nat, radix: nat)
    ensures Value(s + Repeat('0', z), radix) == Value(s, radix) * Power(radix, z)
    decreases z
  {
    var t := s + Repeat('0', z);
    if z == 0 {
      assert t == s;
    } else {
      assert t[..|t| - 1] == s + Repeat('0', z - 1);
      ValueBeforeZeros(s, z - 1, radix);
      assert Value(t, radix) == Value(s, radix) * Power(radix, z - 1) * radix;
      Associate(Value(s, radix), Power(radix, z - 1), radix);
    }
  }

  lemma Associate(a: int, b: int, c: int)
    ensures a * b * c == a * (b * c)
  {
  }

  // ----- layout -----

  /** The magnitude that gets printed: a negative number printed unsigned wraps around at 64 bits. */
  function Magnitude(num: int, signed: bool): nat
    requires -TWO_64 / 2 <= num < TWO_64 / 2
  {
    if signed && num < 0 then -num else num % TWO_64
  }

  function SignText(num: int, signed: bool, f: Flags): (s: string)
    ensures |s| <= 1
  {
    if signed && num < 0 then "-"
    else if signed && f.sign then "+"
    else if f.space then " "
    else ""
  }

  function PrefixText(num: int, radix: nat, f: Flags): (s: string)
    ensures |s| <= 2
  {
    if !f.altForm then "" else if radix == 16 then "0x" else if radix == 8 && num == 0 then "0" else ""
  }

  function Max(a: int, b: int): int {
    if a < b then b else a
  }

  /** The digits actually printed: none for zero with precision 0. */
  function Body(num: int, radix: nat, precision: int, signed: bool): string
    requires 2 <= radix <= 16 && -TWO_64 / 2 <= num < TWO_64 / 2
  {
    if precision == 0 && num == 0 then "" else Digits(Magnitude(num, signed), radix)
  }

  /** What the width leaves beside the digits. */
  function Room(num: int, radix: nat, width: int, precision: int, signed: bool): int
    requires 2 <= radix <= 16 && -TWO_64 / 2 <= num < TWO_64 / 2
  {
    width - Max(|Digits(Magnitude(num, signed), radix)|, precision)
  }

  /** How many zeros the precision adds. */
  function Short(num: int, radix: nat, precision: int, signed: bool): int
    requires 2 <= radix <= 16 && -TWO_64 / 2 <= num < TWO_64 / 2
  {
    precision - |Digits(Magnitude(num, signed), radix)|
  }

  /** The order in which the parts are printed, and where the padding goes. */
  function Arrange(sgn: string, prefix: string, room: int, z: int, body: string, f: Flags): string {
    if f.leftJustify || room <= 0 then
      sgn + prefix + Repeat('0', z) + body + Repeat(if f.zeroPad then '0' else ' ', room - |sgn| - |prefix|)
    else if f.zeroPad then
      sgn + prefix + Repeat('0', room - |sgn| - |prefix|) + Repeat('0', z) + body
    else
      Repeat(' ', room - |sgn| - if f.altForm then 2 else 0) + sgn + prefix + Repeat('0', z) + body
  }

  /** Everything print_num prints. */
  function Layout(num: int, radix: nat, width: int, precision: int, signed: bool, f: Flags): string
    requires 2 <= radix <= 16 && -TWO_64 / 2 <= num < TWO_64 / 2
  {
    Arrange(SignText(num, signed, f), PrefixText(num, radix, f), Room(num, radix, width, precision, signed),
            Short(num, radix, precision, signed), Body(num, radix, precision, signed), f)
  }

  /** Length of the sign, the prefix and at least as many digits as the precision asks for. */
  function ContentLength(num: int, radix: nat, precision: int, signed: bool, f: Flags): int
    requires 2 <= radix <= 16 && -TWO_64 / 2 <= num < TWO_64 / 2
  {
    |SignText(num, signed, f)| + |PrefixText(num, radix, f)| + Max(|Body(num, radix, precision, signed)|, precision)
  }

  /** The two cases whose padding comes out short: zero with precision 0, and the alternative form
      outside base 16 when padded with blanks on the left. */
  predicate PadsShort(num: int, radix: nat, precision: int, f: Flags) {
    (precision == 0 && num == 0) || (f.altForm && radix != 16 && !f.leftJustify && !f.zeroPad)
  }

  /** print_num prints max(width, content) characters exactly when the content already fills the
      width or neither of the two special cases applies. */
  lemma LengthExactlyWhen(num: int, radix: nat, width: int, precision: int, signed: bool, f: Flags)
    requires 2 <= radix <= 16 && -TWO_64 / 2 <= num < TWO_64 / 2
    ensures |Layout(num, radix, width, precision, signed, f)| == Max(width, ContentLength(num, radix, precision, signed, f))
            <==> width <= ContentLength(num, radix, precision, signed, f) || !PadsShort(num, radix, precision, f)
  {
  }

  /** Layouts that come out short of their width: of 0 without digits, and of 8 with # in base 8. */
  lemma {:induction false} PaddingShort()
    ensures |Layout(0, 10, 2, 0, true, NO_FLAGS)| == 1
    ensures |Layout(8, 8, 5, -1, false, NO_FLAGS.(altForm := true))| == 3
  {
    assert Digits(0, 10) == "0" && Quotient(8, 8) == 1 && Remainder(8, 8) == 0 && Digits(8, 8) == "10";
  }

  // ----- reading back -----

  function SkipBlanks(s: string): string {
    if s != [] && s[0] == ' ' then SkipBlanks(s[1..]) else s
  }

  predicate StartsWith(s: string, p: string) {
    p <= s
  }

  /** The digits a string starts with. */
  function DigitRun(s: string, radix: nat): (r: string)
    ensures r <= s
  {
    if s != [] && 0 <= DigitValue(s[0]) < radix then [s[0]] + DigitRun(s[1..], radix) else []
  }

  /** The value of the digits after an optional prefix. */
  function ReadTail(u: string, radix: nat): int {
    Value(DigitRun(if radix == 16 && StartsWith(u, "0x") then u[2..] else u, radix), radix)
  }

  /** Whether a minus sign was read, and the value of what follows the sign. */
  function ReadSigned(t: string, radix: nat): (bool, int) {
    if t != [] && t[0] == '-' then (true, ReadTail(t[1..], radix))
    else if t != [] && t[0] == '+' then (false, ReadTail(t[1..], radix))
    else (false, ReadTail(t, radix))
  }

  function ReadNumber(text: string, radix: nat): (bool, int) {
    ReadSigned(SkipBlanks(text), radix)
  }

  lemma {:induction false} SkipRepeated(a: nat, s: string)
    ensures SkipBlanks(Repeat(' ', a) + s) == SkipBlanks(s)
  {
    if a == 0 {
      assert Repeat(' ', 0) + s == s;
    } else {
      assert (Repeat(' ', a) + s)[1..] == Repeat(' ', a - 1) + s;
      SkipRepeated(a - 1, s);
    }
  }

  lemma {:induction false} RunOf(d: string, s: string, radix: nat)
    requires AllDigits(d, radix) && (s == [] || !(0 <= DigitValue(s[0]) < radix))
    ensures DigitRun(d + s, radix) == d
  {
    if d == [] {
      assert d + s == s;
    } else {
      assert (d + s)[1..] == d[1..] + s;
      RunOf(d[1..], s, radix);
    }
  }

  /** What follows sign and prefix: digits, then blanks. */
  lemma ReadDigits(d: string, b: nat, radix: nat)
    requires AllDigits(d, radix)
    ensures DigitRun(d + Repeat(' ', b), radix) == d
    ensures !StartsWith(d + Repeat(' ', b), "0x")
  {
    RunOf(d, Repeat(' ', b), radix);
    var t := d + Repeat(' ', b);
    assert |t| > 1 ==> t[1] != 'x';
    assert "0x"[1] == 'x';
  }

  /** Prefix, digits and blanks. */
  function Tail(prefixed: bool, d: string, b: nat): string {
    (if prefixed then "0x" else "") + d + Repeat(' ', b)
  }

  lemma {:induction false} TailRead(prefixed: bool, d: string, b: nat, radix: nat)
    requires AllDigits(d, radix) && (prefixed ==> radix == 16)
    ensures ReadTail(Tail(prefixed, d, b), radix) == Value(d, radix)
  {
    ReadDigits(d, b, radix);
    var t := d + Repeat(' ', b);
    if prefixed {
      assert Tail(true, d, b) == "0x" + t && ("0x" + t)[2..] == t;
    } else {
      assert Tail(false, d, b) == t;
    }
  }

  /** With no sign in front, skipping blanks leaves the text as it is or nothing at all. */
  lemma BlankOrStart(prefixed: bool, d: string, b: nat, radix: nat)
    requires AllDigits(d, radix) && (prefixed ==> radix == 16)
    ensures var u := Tail(prefixed, d, b);
            if prefixed || d != [] then SkipBlanks(u) == u && u[0] != '-' && u[0] != '+' else SkipBlanks(u) == []
  {
    var u := Tail(prefixed, d, b);
    if prefixed {
      assert u[0] == '0';
    } else if d != [] {
      assert u[0] == d[0];
    } else {
      assert u == Repeat(' ', b) + [];
      SkipRepeated(b, []);
    }
  }

  lemma UnsignedRead(prefixed: bool, d: string, b: nat, radix: nat)
    requires AllDigits(d, radix) && (prefixed ==> radix == 16)
    ensures ReadNumber(Tail(prefixed, d, b), radix) == (false, Value(d, radix))
  {
    BlankOrStart(prefixed, d, b, radix);
    TailRead(prefixed, d, b, radix);
  }

  /** Blanks, a sign, a prefix, digits and blanks are read as what they say. */
  lemma ReadShape(a: nat, sgn: string, prefixed: bool, d: string, b: nat, radix: nat)
    requires sgn in {"", " ", "+", "-"} && AllDigits(d, radix) && (prefixed ==> radix == 16)
    ensures ReadNumber(Repeat(' ', a) + (sgn + Tail(prefixed, d, b)), radix) == (sgn == "-", Value(d, radix))
  {
    var u := Tail(prefixed, d, b);
    SkipRepeated(a, sgn + u);
    if sgn == "+" || sgn == "-" {
      assert (sgn + u)[0] == sgn[0] && (sgn + u)[1..] == u;
      TailRead(prefixed, d, b, radix);
    } else if sgn == "" {
      assert sgn + u == u;
      UnsignedRead(prefixed, d, b, radix);
    } else {
      assert (sgn + u)[0] == ' ' && (sgn + u)[1..] == u;
      UnsignedRead(prefixed, d, b, radix);
    }
  }

  /** The zeros padded on behind the number. */
  function TrailingZeros(sgn: string, prefix: string, room: int, f: Flags): nat {
    if (f.leftJustify || room <= 0) && f.zeroPad then Max(0, room - |sgn| - |prefix|) else 0
  }

  /** The zeros in front of the digits: of an octal prefix, of the padding and of the precision. */
  function LeadingZeros(sgn: string, prefix: string, room: int, z: int, f: Flags): nat {
    (if prefix == "0" then 1 else 0)
    + (if !f.leftJustify && room > 0 && f.zeroPad then Max(0, room - |sgn| - |prefix|) else 0)
    + Max(0, z)
  }

  /** All digits printed, whether they pad or count. */
  function DigitsPrinted(sgn: string, prefix: string, room: int, z: int, body: string, f: Flags): string {
    Repeat('0', LeadingZeros(sgn, prefix, room, z, f)) + body + Repeat('0', TrailingZeros(sgn, prefix, room, f))
  }

  /** Reading what print_num printed gives the number's sign and magnitude, times the radix once for
      every zero padded on behind it. */
  lemma PrintedReadsBack(num: int, radix: nat, width: int, precision: int, signed: bool, f: Flags)
    requires radix in {8, 10, 16} && -TWO_64 / 2 <= num < TWO_64 / 2
    ensures var behind := TrailingZeros(SignText(num, signed, f), PrefixText(num, radix, f), Room(num, radix, width, precision, signed), f);
            ReadNumber(Layout(num, radix, width, precision, signed, f), radix) ==
            (signed && num < 0, Magnitude(num, signed) * Power(radix, behind))
  {
    var (sgn, prefix) := (SignText(num, signed, f), PrefixText(num, radix, f));
    var (room, z) := (Room(num, radix, width, precision, signed), Short(num, radix, precision, signed));
    var body := Body(num, radix, precision, signed);
    BodyValue(num, radix, precision, signed);
    var a, b := ArrangeShape(sgn, prefix, room, z, body, f);
    PaddedValue(LeadingZeros(sgn, prefix, room, z, f), body, TrailingZeros(sgn, prefix, room, f), radix);
    ReadShape(a, sgn, prefix == "0x", DigitsPrinted(sgn, prefix, room, z, body, f), b, radix);
  }

  /** So the number reads back exactly when it is zero or nothing was padded on behind it. */
  lemma ReadsBackExactlyWhen(num: int, radix: nat, width: int, precision: int, signed: bool, f: Flags)
    requires radix in {8, 10, 16} && -TWO_64 / 2 <= num < TWO_64 / 2
    ensures ReadNumber(Layout(num, radix, width, precision, signed, f), radix) == (signed && num < 0, Magnitude(num, signed))
            <==> num == 0 || TrailingZeros(SignText(num, signed, f), PrefixText(num, radix, f),
                                           Room(num, radix, width, precision, signed), f) == 0
  {
    PrintedReadsBack(num, radix, width, precision, signed, f);
    var behind := TrailingZeros(SignText(num, signed, f), PrefixText(num, radix, f), Room(num, radix, width, precision, signed), f);
    OnlyTrivialPower(Magnitude(num, signed), radix, behind);
    MagnitudeZero(num, signed);
  }

  lemma MagnitudeZero(num: int, signed: bool)
    requires -TWO_64 / 2 <= num < TWO_64 / 2
    ensures Magnitude(num, signed) == 0 <==> num == 0
  {
  }

  lemma OnlyTrivialPower(m: nat, radix: nat, k: nat)
    requires 2 <= radix
    ensures m * Power(radix, k) == m <==> m == 0 || k == 0
  {
    if m > 0 && k > 0 {
      PowerGrows(radix, k, m);
    }
  }

  lemma {:induction false} PowerGrows(radix: nat, k: nat, m: nat)
    requires 2 <= radix && 0 < k && 0 < m
    ensures Power(radix, k) >= 2 && m * Power(radix, k) > m
  {
    if k == 1 {
      assert Power(radix, 1) == Power(radix, 0) * radix == radix;
    } else {
      PowerGrows(radix, k - 1, m);
      Scale(Power(radix, k - 1), radix);
    }
    Scale(m, Power(radix, k));
  }

  lemma Scale(m: nat, p: nat)
    requires 0 < m && 2 <= p
    ensures m * p > m && m * p >= 2
  {
  }

  lemma BodyValue(num: int, radix: nat, precision: int, signed: bool)
    requires 2 <= radix <= 16 && -TWO_64 / 2 <= num < TWO_64 / 2
    ensures var body := Body(num, radix, precision, signed);
            AllDigits(body, radix) && Value(body, radix) == Magnitude(num, signed)
  {
    DigitsRoundTrip(Magnitude(num, signed), radix);
  }

  lemma PaddedValue(lead: nat, body: string, behind: nat, radix: nat)
    requires AllDigits(body, radix) && 2 <= radix
    ensures var d := Repeat('0', lead) + body + Repeat('0', behind);
            AllDigits(d, radix) && Value(d, radix) == Value(body, radix) * Power(radix, behind)
  {
    ValueOfZeros(lead, body, radix);
    ValueBeforeZeros(Repeat('0', lead) + body, behind, radix);
  }

  lemma RepeatJoin(c: char, m: nat, n: nat)
    ensures Repeat(c, m) + Repeat(c, n) == Repeat(c, m + n)
  {
  }

  /** Prefix and zeros in front of `rest`, regrouped. */
  lemma Regroup(prefix: string, z: nat, rest: string)
    requires prefix in {"", "0", "0x"}
    ensures prefix + Repeat('0', z) + rest ==
            (if prefix == "0x" then "0x" else "") + Repeat('0', (if prefix == "0" then 1 else 0) + z) + rest
  {
    if prefix == "0" {
      assert "0" == Repeat('0', 1);
      RepeatJoin('0', 1, z);
    }
  }

  /** The parts after the sign, regrouped; `pad` is what comes after the digits. */
  lemma Reassociate(sgn: string, prefix: string, zs: string, body: string, pad: string)
    ensures sgn + prefix + zs + body + pad == sgn + (prefix + zs + (body + pad))
  {
  }

  lemma TailOf(prefixed: bool, zs: string, body: string, t: nat, b: nat)
    ensures Tail(prefixed, zs + body + Repeat('0', t), b) ==
            (if prefixed then "0x" else "") + zs + (body + (Repeat('0', t) + Repeat(' ', b)))
  {
  }

  lemma LeftShape(sgn: string, prefix: string, z: nat, body: string, zeroPad: bool, n: nat)
    requires prefix in {"", "0", "0x"}
    ensures sgn + prefix + Repeat('0', z) + body + Repeat(if zeroPad then '0' else ' ', n) ==
            Repeat(' ', 0) + (sgn + Tail(prefix == "0x",
              Repeat('0', (if prefix == "0" then 1 else 0) + z) + body + Repeat('0', if zeroPad then n else 0),
              if zeroPad then 0 else n))
  {
    var pad := Repeat(if zeroPad then '0' else ' ', n);
    Reassociate(sgn, prefix, Repeat('0', z), body, pad);
    Regroup(prefix, z, body + pad);
    TailOf(prefix == "0x", Repeat('0', (if prefix == "0" then 1 else 0) + z), body, if zeroPad then n else 0, if zeroPad then 0 else n);
    assert Repeat('0', 0) + pad == pad && pad + Repeat(' ', 0) == pad;
  }

  lemma ZeroShape(sgn: string, prefix: string, m: nat, z: nat, body: string)
    requires prefix in {"", "0", "0x"}
    ensures sgn + prefix + Repeat('0', m) + Repeat('0', z) + body ==
            Repeat(' ', 0) + (sgn + Tail(prefix == "0x",
              Repeat('0', (if prefix == "0" then 1 else 0) + m + z) + body + Repeat('0', 0), 0))
  {
    RepeatJoin('0', m, z);
    assert sgn + prefix + Repeat('0', m) + Repeat('0', z) + body == sgn + prefix + (Repeat('0', m) + Repeat('0', z)) + body;
    LeftShape(sgn, prefix, m + z, body, true, 0);
    assert sgn + prefix + Repeat('0', m + z) + body + Repeat('0', 0) == sgn + prefix + Repeat('0', m + z) + body;
  }

  lemma BlankShape(a: nat, sgn: string, prefix: string, z: nat, body: string)
    requires prefix in {"", "0", "0x"}
    ensures Repeat(' ', a) + sgn + prefix + Repeat('0', z) + body ==
            Repeat(' ', a) + (sgn + Tail(prefix == "0x",
              Repeat('0', (if prefix == "0" then 1 else 0) + z) + body + Repeat('0', 0), 0))
  {
    LeftShape(sgn, prefix, z, body, true, 0);
    assert sgn + prefix + Repeat('0', z) + body + Repeat('0', 0) == sgn + prefix + Repeat('0', z) + body;
    assert Repeat(' ', a) + sgn + prefix + Repeat('0', z) + body == Repeat(' ', a) + (sgn + prefix + Repeat('0', z) + body);
  }

  lemma RepeatNone(c: char, n: int)
    ensures Repeat(c, n) == Repeat(c, Max(0, n))
  {
  }

  /** The text is blanks, sign, and a tail of prefix, digits and blanks. */
  ghost predicate Shaped(text: string, a: nat, sgn: string, prefix: string, digits: string, b: nat) {
    text == Repeat(' ', a) + (sgn + Tail(prefix == "0x", digits, b))
  }

  lemma ArrangeLeft(sgn: string, prefix: string, room: int, z: int, body: string, f: Flags, n: nat)
    requires prefix in {"", "0", "0x"} && (f.leftJustify || room <= 0) && n == Max(0, room - |sgn| - |prefix|)
    ensures Shaped(Arrange(sgn, prefix, room, z, body, f), 0, sgn, prefix,
                   DigitsPrinted(sgn, prefix, room, z, body, f), if f.zeroPad then 0 else n)
  {
    RepeatNone('0', z);
    RepeatNone(if f.zeroPad then '0' else ' ', room - |sgn| - |prefix|);
    LeftShape(sgn, prefix, Max(0, z), body, f.zeroPad, n);
    assert LeadingZeros(sgn, prefix, room, z, f) == (if prefix == "0" then 1 else 0) + Max(0, z);
  }

  lemma ArrangedZero(sgn: string, prefix: string, room: int, z: int, body: string, f: Flags)
    requires !f.leftJustify && room > 0 && f.zeroPad
    ensures Arrange(sgn, prefix, room, z, body, f)
            == sgn + prefix + Repeat('0', Max(0, room - |sgn| - |prefix|)) + Repeat('0', Max(0, z)) + body
  {
    RepeatNone('0', z);
    RepeatNone('0', room - |sgn| - |prefix|);
  }

  lemma ArrangeZero(sgn: string, prefix: string, room: int, z: int, body: string, f: Flags)
    requires prefix in {"", "0", "0x"} && !f.leftJustify && room > 0 && f.zeroPad
    ensures Shaped(Arrange(sgn, prefix, room, z, body, f), 0, sgn, prefix, DigitsPrinted(sgn, prefix, room, z, body, f), 0)
  {
    ArrangedZero(sgn, prefix, room, z, body, f);
    ZeroShape(sgn, prefix, Max(0, room - |sgn| - |prefix|), Max(0, z), body);
  }

  lemma ArrangeBlank(sgn: string, prefix: string, room: int, z: int, body: string, f: Flags, a: nat)
    requires prefix in {"", "0", "0x"} && !f.leftJustify && room > 0 && !f.zeroPad
    requires a == Max(0, room - |sgn| - if f.altForm then 2 else 0)
    ensures Shaped(Arrange(sgn, prefix, room, z, body, f), a, sgn, prefix, DigitsPrinted(sgn, prefix, room, z, body, f), 0)
  {
    RepeatNone('0', z);
    RepeatNone(' ', room - |sgn| - if f.altForm then 2 else 0);
    BlankShape(a, sgn, prefix, Max(0, z), body);
  }

  lemma ArrangeShape(sgn: string, prefix: string, room: int, z: int, body: string, f: Flags) returns (a: nat, b: nat)
    requires prefix in {"", "0", "0x"}
    ensures Shaped(Arrange(sgn, prefix, room, z, body, f), a, sgn, prefix, DigitsPrinted(sgn, prefix, room, z, body, f), b)
  {
    a, b := 0, 0;
    if f.leftJustify || room <= 0 {
      var n := Max(0, room - |sgn| - |prefix|);
      ArrangeLeft(sgn, prefix, room, z, body, f, n);
      b := if f.zeroPad then 0 else n;
    } else if f.zeroPad {
      ArrangeZero(sgn, prefix, room, z, body, f);
    } else {
      a := Max(0, room - |sgn| - if f.altForm then 2 else 0);
      ArrangeBlank(sgn, prefix, room, z, body, f, a);
    }
  }
}
