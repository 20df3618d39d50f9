/** What a printed number consists of, part by part. The parts determine the text, and the text the parts. */
module TextShapes {
  import opened Arithmetic
  import opened NumberText

  /** Blanks, a sign, a base indication, zeros, the digits from the first that is not zero on, zeros
      padded on behind them, and blanks. */
  datatype Shape = Shape(blanks: nat, sign: string, base: string, zeros: nat, body: string, behind: nat, after: nat) {

    /** What stands behind the leading zeros. */
    function Back(): string {
      body + (Repeat('0', behind) + Repeat(' ', after))
    }

    /** What stands behind the sign. */
    function Tail(): string {
      base + (Repeat('0', zeros) + Back())
    }

    function Text(): string {
      Repeat(' ', blanks) + (sign + Tail())
    }

    predicate OnlyBlanks() {
      sign == "" && base == "" && zeros == 0 && body == ""
    }

    /** Every part is where it belongs: zeros of a number without other digits count as leading, and
        blanks of a text without anything else as being in front. */
    predicate Proper() {
      && (sign == "" || sign == "+" || sign == "-") && (base == "" || base == "0x" || base == "0X")
      && (body != "" ==> body[0] != '0') && (body == "" ==> behind == 0) && (OnlyBlanks() ==> after == 0)
      && (forall i :: 0 <= i < |body| ==> IsDigit(body[i]))
    }
  }

  predicate IsDigit(c: char) {
    c != ' ' && c != '+' && c != '-' && c != 'x' && c != 'X'
  }

  /** Two runs of one character, each followed by something else. */
  lemma SameRun(c: char, m: nat, u: string, n: nat, v: string)
    requires Repeat(c, m) + u == Repeat(c, n) + v && (u != "" ==> u[0] != c) && (v != "" ==> v[0] != c)
    ensures m == n && u == v
  {
    var s, t := Repeat(c, m) + u, Repeat(c, n) + v;
    assert |s| == m + |u| && |t| == n + |v|;
    assert m < |s| ==> s[m] == u[0];
    assert n < |t| ==> t[n] == v[0];
    assert (forall i :: 0 <= i < m ==> s[i] == c) && (forall i :: 0 <= i < n ==> t[i] == c);
    assert m == n;
    assert s[m..] == u && t[n..] == v;
  }

  lemma BackStart(s: Shape)
    requires s.Proper()
    ensures s.Back() != "" ==> s.Back()[0] != '0'
    ensures s.Back() != "" ==> s.Back()[0] == ' ' || IsDigit(s.Back()[0])
  {
    if s.body == "" {
      assert s.Back() == Repeat(' ', s.after);
    } else {
      assert s.Back()[0] == s.body[0];
    }
  }

  /** The first characters of a tail tell whether it has a base indication, and which. */
  lemma TailStart(s: Shape)
    requires s.Proper()
    ensures var t := s.Tail();
            && (t != "" ==> t[0] == ' ' || IsDigit(t[0]))
            && (s.base != "" ==> |t| >= 2 && t[1] == s.base[1])
            && (s.base == "" && |t| >= 2 ==> t[1] != 'x' && t[1] != 'X')
  {
    var t := s.Tail();
    BackStart(s);
    if s.base == "" {
      assert t == Repeat('0', s.zeros) + s.Back();
      TailSecond(s);
    } else {
      assert t[0] == s.base[0] && t[1] == s.base[1];
    }
  }

  lemma TailSecond(s: Shape)
    requires s.Proper()
    ensures var u := Repeat('0', s.zeros) + s.Back();
            |u| >= 2 ==> u[1] == ' ' || IsDigit(u[1])
  {
    var u, back := Repeat('0', s.zeros) + s.Back(), s.Back();
    forall i | 0 <= i < |back| ensures back[i] == ' ' || IsDigit(back[i]) {
      assert back[i] == if i < |s.body| then s.body[i] else (Repeat('0', s.behind) + Repeat(' ', s.after))[i - |s.body|];
    }
    if |u| >= 2 {
      assert u[1] == if s.zeros >= 2 then '0' else back[1 - s.zeros];
    }
  }

  lemma SameBack(s: Shape, t: Shape)
    requires s.Proper() && t.Proper() && s.body == t.body && s.Back() == t.Back()
    ensures s.behind == t.behind && s.after == t.after
  {
    assert s.Back()[|s.body|..] == Repeat('0', s.behind) + Repeat(' ', s.after);
    assert t.Back()[|t.body|..] == Repeat('0', t.behind) + Repeat(' ', t.after);
    SameRun('0', s.behind, Repeat(' ', s.after), t.behind, Repeat(' ', t.after));
    assert |Repeat(' ', s.after)| == s.after && |Repeat(' ', t.after)| == t.after;
  }

  lemma SameTail(s: Shape, t: Shape)
    requires s.Proper() && t.Proper() && s.body == t.body && s.Tail() == t.Tail()
    ensures s.base == t.base && s.zeros == t.zeros && s.behind == t.behind && s.after == t.after
  {
    TailStart(s);
    TailStart(t);
    assert s.base == t.base;
    assert s.Tail()[|s.base|..] == Repeat('0', s.zeros) + s.Back();
    assert t.Tail()[|t.base|..] == Repeat('0', t.zeros) + t.Back();
    BackStart(s);
    BackStart(t);
    SameRun('0', s.zeros, s.Back(), t.zeros, t.Back());
    SameBack(s, t);
  }

  /** What stands behind the leading blanks does not start with one. */
  lemma SignStart(s: Shape)
    requires s.Proper()
    ensures var u := s.sign + s.Tail(); u != "" ==> u[0] != ' '
    ensures s.Tail() != "" ==> s.Tail()[0] != '+' && s.Tail()[0] != '-'
  {
    TailStart(s);
    if s.sign == "" {
      assert s.sign + s.Tail() == s.Tail();
      if s.base != "" {
        assert s.Tail()[0] == s.base[0];
      } else if s.zeros > 0 {
        assert s.Tail()[0] == '0';
      } else if s.body != "" {
        assert s.Tail()[0] == s.body[0];
      } else {
        assert s.Tail() == "";
      }
    } else {
      assert (s.sign + s.Tail())[0] == s.sign[0];
    }
  }

  /** With the same digits, the same text means the same parts. */
  lemma SameText(s: Shape, t: Shape)
    requires s.Proper() && t.Proper() && s.body == t.body
    ensures s.Text() == t.Text() <==> s == t
  {
    if s.Text() == t.Text() {
      SignStart(s);
      SignStart(t);
      SameRun(' ', s.blanks, s.sign + s.Tail(), t.blanks, t.sign + t.Tail());
      var u := s.sign + s.Tail();
      assert s.sign == t.sign by {
        assert s.sign != "" ==> u[0] == s.sign[0];
        assert t.sign != "" ==> u[0] == t.sign[0];
      }
      assert u[|s.sign|..] == s.Tail() && u[|t.sign|..] == t.Tail();
      SameTail(s, t);
    }
  }

  // ----- the shape of a layout -----

  /** The shape of blanks, a sign, zeros and digits, and blanks; `zero` if the digits are all zeros. */
  function Joined(front: nat, sign: string, base: string, lead: nat, digits: string, behind: nat, b: nat, zero: bool): Shape {
    var zeros := if zero then lead + |digits| + behind else lead;
    if sign == "" && base == "" && zero && zeros == 0 then Shape(front + b, "", "", 0, "", 0, 0)
    else Shape(front, sign, base, zeros, if zero then "" else digits, if zero then 0 else behind, b)
  }

  /** The same when the sign may be a blank. */
  function Shaping(a: nat, sgn: string, base: string, lead: nat, digits: string, behind: nat, b: nat, zero: bool): Shape {
    Joined(a + if sgn == " " then 1 else 0, if sgn == " " then "" else sgn, base, lead, digits, behind, b, zero)
  }

  /** The digits of a number: nothing or zeros for 0, otherwise starting with another digit. */
  predicate ProperDigits(digits: string, zero: bool) {
    if zero then digits == Repeat('0', |digits|)
    else digits != "" && digits[0] != '0' && forall i :: 0 <= i < |digits| ==> IsDigit(digits[i])
  }

  lemma JoinedText(front: nat, sign: string, base: string, lead: nat, digits: string, behind: nat, b: nat, zero: bool, back: string)
    requires ProperDigits(digits, zero) && back == Repeat('0', lead) + digits + Repeat('0', behind) + Repeat(' ', b)
    ensures Joined(front, sign, base, lead, digits, behind, b, zero).Text() == Repeat(' ', front) + (sign + (base + back))
  {
    BackJoined(lead, digits, behind, b, zero);
    if sign == "" && base == "" && zero && lead + |digits| + behind == 0 {
      OnlyBlanksText(front, back, b);
    } else if zero {
      PartsText(front, sign, base, lead + |digits| + behind, "", 0, b, back);
    } else {
      PartsText(front, sign, base, lead, digits, behind, b, back);
    }
  }

  lemma ShapingText(a: nat, sgn: string, base: string, lead: nat, digits: string, behind: nat, b: nat, zero: bool)
    requires ProperDigits(digits, zero)
    ensures Shaping(a, sgn, base, lead, digits, behind, b, zero).Text()
            == Repeat(' ', a) + (sgn + (base + (Repeat('0', lead) + digits + Repeat('0', behind) + Repeat(' ', b))))
  {
    var back := Repeat('0', lead) + digits + Repeat('0', behind) + Repeat(' ', b);
    BlankSign(a, sgn, base + back);
    JoinedText(a + if sgn == " " then 1 else 0, if sgn == " " then "" else sgn, base, lead, digits, behind, b, zero, back);
  }

  lemma PartsText(front: nat, sign: string, base: string, zeros: nat, body: string, behind: nat, b: nat, back: string)
    requires back == Repeat('0', zeros) + (body + (Repeat('0', behind) + Repeat(' ', b)))
    ensures Shape(front, sign, base, zeros, body, behind, b).Text() == Repeat(' ', front) + (sign + (base + back))
  {
  }

  lemma OnlyBlanksText(front: nat, back: string, b: nat)
    requires back == Repeat(' ', b)
    ensures Shape(front + b, "", "", 0, "", 0, 0).Text() == Repeat(' ', front) + ("" + ("" + back))
  {
    RepeatJoin(' ', front, b);
    assert "" + ("" + back) == back;
    assert Shape(front + b, "", "", 0, "", 0, 0).Text() == Repeat(' ', front + b);
  }

  /** A blank in place of a sign is one more blank in front. */
  lemma BlankSign(a: nat, sgn: string, rest: string)
    ensures Repeat(' ', a) + (sgn + rest)
            == Repeat(' ', a + if sgn == " " then 1 else 0) + ((if sgn == " " then "" else sgn) + rest)
  {
    if sgn == " " {
      assert " " == Repeat(' ', 1);
      RepeatJoin(' ', a, 1);
      assert Repeat(' ', a) + (" " + rest) == Repeat(' ', a) + " " + rest;
      assert "" + rest == rest;
    }
  }

  lemma BackJoined(lead: nat, digits: string, behind: nat, b: nat, zero: bool)
    requires ProperDigits(digits, zero)
    ensures Repeat('0', lead) + digits + Repeat('0', behind) + Repeat(' ', b)
            == if zero then Repeat('0', lead + |digits| + behind) + ("" + (Repeat('0', 0) + Repeat(' ', b)))
               else Repeat('0', lead) + (digits + (Repeat('0', behind) + Repeat(' ', b)))
  {
    if zero {
      RepeatJoin('0', lead, |digits|);
      RepeatJoin('0', lead + |digits|, behind);
      assert "" + (Repeat('0', 0) + Repeat(' ', b)) == Repeat(' ', b);
    }
  }

  /** Which parts an arrangement has. */
  function ArrangedShape(sgn: string, prefix: string, room: int, z: int, body: string, f: Flags, zero: bool): Shape {
    var n := if f.zeroPad then 0 else Max(0, room - |sgn| - |prefix|);
    var a := if f.leftJustify || room <= 0 || f.zeroPad then 0 else Max(0, room - |sgn| - if f.altForm then 2 else 0);
    Shaping(a, sgn, if prefix == "0x" then prefix else "", LeadingZeros(sgn, prefix, room, z, f), body,
            TrailingZeros(sgn, prefix, room, f), if f.leftJustify || room <= 0 then n else 0, zero)
  }

  /** The parts of what print_num prints. */
  function LayoutShape(num: int, radix: nat, width: int, precision: int, signed: bool, f: Flags): Shape
    requires 2 <= radix <= 16 && -TWO_64 / 2 <= num < TWO_64 / 2
  {
    ArrangedShape(SignText(num, signed, f), PrefixText(num, radix, f), Room(num, radix, width, precision, signed),
                  Short(num, radix, precision, signed), Body(num, radix, precision, signed), f, num == 0)
  }

  lemma {:induction false} FirstDigit(n: nat, radix: nat)
    requires 2 <= radix <= 16 && n > 0
    ensures Digits(n, radix)[0] != '0'
  {
    if n >= radix {
      FirstDigit(Quotient(n, radix), radix);
    }
  }

  lemma {:induction false} BodyProper(num: int, radix: nat, precision: int, signed: bool)
    requires 2 <= radix <= 16 && -TWO_64 / 2 <= num < TWO_64 / 2
    ensures ProperDigits(Body(num, radix, precision, signed), num == 0)
  {
    var body := Body(num, radix, precision, signed);
    MagnitudeZero(num, signed);
    if num == 0 {
      assert Digits(0, radix) == "0" == Repeat('0', 1);
    } else {
      FirstDigit(Magnitude(num, signed), radix);
      DigitsRoundTrip(Magnitude(num, signed), radix);
      forall i | 0 <= i < |body| ensures IsDigit(body[i]) {
        assert 0 <= DigitValue(body[i]);
      }
    }
  }

  lemma ShapedText(a: nat, sgn: string, prefix: string, room: int, z: int, body: string, b: nat, f: Flags, zero: bool)
    requires ProperDigits(body, zero)
    ensures var s := Shaping(a, sgn, if prefix == "0x" then prefix else "", LeadingZeros(sgn, prefix, room, z, f), body,
                             TrailingZeros(sgn, prefix, room, f), b, zero);
            Shaped(s.Text(), a, sgn, prefix, DigitsPrinted(sgn, prefix, room, z, body, f), b)
  {
    var base := if prefix == "0x" then prefix else "";
    var lead, behind := LeadingZeros(sgn, prefix, room, z, f), TrailingZeros(sgn, prefix, room, f);
    ShapingText(a, sgn, base, lead, body, behind, b, zero);
    TailGrouped(base, Repeat('0', lead) + body + Repeat('0', behind), Repeat(' ', b));
  }

  lemma TailGrouped(base: string, digits: string, blanks: string)
    ensures base + digits + blanks == base + (digits + blanks)
  {
  }

  lemma PartsLeft(sgn: string, prefix: string, room: int, z: int, body: string, f: Flags, zero: bool)
    requires prefix in {"", "0", "0x"} && ProperDigits(body, zero) && (f.leftJustify || room <= 0)
    ensures ArrangedShape(sgn, prefix, room, z, body, f, zero).Text() == Arrange(sgn, prefix, room, z, body, f)
  {
    var n := Max(0, room - |sgn| - |prefix|);
    ArrangeLeft(sgn, prefix, room, z, body, f, n);
    ShapedText(0, sgn, prefix, room, z, body, if f.zeroPad then 0 else n, f, zero);
  }

  lemma PartsZero(sgn: string, prefix: string, room: int, z: int, body: string, f: Flags, zero: bool)
    requires prefix in {"", "0", "0x"} && ProperDigits(body, zero) && !f.leftJustify && room > 0 && f.zeroPad
    ensures ArrangedShape(sgn, prefix, room, z, body, f, zero).Text() == Arrange(sgn, prefix, room, z, body, f)
  {
    ArrangeZero(sgn, prefix, room, z, body, f);
    ShapedText(0, sgn, prefix, room, z, body, 0, f, zero);
  }

  lemma PartsBlank(sgn: string, prefix: string, room: int, z: int, body: string, f: Flags, zero: bool)
    requires prefix in {"", "0", "0x"} && ProperDigits(body, zero) && !f.leftJustify && room > 0 && !f.zeroPad
    ensures ArrangedShape(sgn, prefix, room, z, body, f, zero).Text() == Arrange(sgn, prefix, room, z, body, f)
  {
    var a := Max(0, room - |sgn| - if f.altForm then 2 else 0);
    ArrangeBlank(sgn, prefix, room, z, body, f, a);
    ShapedText(a, sgn, prefix, room, z, body, 0, f, zero);
  }

  lemma ArrangedProper(sgn: string, prefix: string, room: int, z: int, body: string, f: Flags, zero: bool)
    requires sgn in {"", " ", "+", "-"} && ProperDigits(body, zero)
    ensures ArrangedShape(sgn, prefix, room, z, body, f, zero).Proper()
  {
  }

  lemma ArrangedParts(sgn: string, prefix: string, room: int, z: int, body: string, f: Flags, zero: bool)
    requires sgn in {"", " ", "+", "-"} && prefix in {"", "0", "0x"} && ProperDigits(body, zero)
    ensures ArrangedShape(sgn, prefix, room, z, body, f, zero).Proper()
    ensures ArrangedShape(sgn, prefix, room, z, body, f, zero).Text() == Arrange(sgn, prefix, room, z, body, f)
  {
    ArrangedProper(sgn, prefix, room, z, body, f, zero);
    if f.leftJustify || room <= 0 {
      PartsLeft(sgn, prefix, room, z, body, f, zero);
    } else if f.zeroPad {
      PartsZero(sgn, prefix, room, z, body, f, zero);
    } else {
      PartsBlank(sgn, prefix, room, z, body, f, zero);
    }
  }

  lemma SignPrefix(num: int, radix: nat, signed: bool, f: Flags)
    ensures SignText(num, signed, f) in {"", " ", "+", "-"} && PrefixText(num, radix, f) in {"", "0", "0x"}
  {
  }

  /** These parts make up the layout. */
  lemma {:induction false} LayoutParts(num: int, radix: nat, width: int, precision: int, signed: bool, f: Flags)
    requires 2 <= radix <= 16 && -TWO_64 / 2 <= num < TWO_64 / 2
    ensures LayoutShape(num, radix, width, precision, signed, f).Proper()
    ensures LayoutShape(num, radix, width, precision, signed, f).Text() == Layout(num, radix, width, precision, signed, f)
  {
    SignPrefix(num, radix, signed, f);
    BodyProper(num, radix, precision, signed);
    ArrangedParts(SignText(num, signed, f), PrefixText(num, radix, f), Room(num, radix, width, precision, signed),
                  Short(num, radix, precision, signed), Body(num, radix, precision, signed), f, num == 0);
  }

  lemma LayoutBody(num: int, radix: nat, width: int, precision: int, signed: bool, f: Flags)
    requires 2 <= radix <= 16 && -TWO_64 / 2 <= num < TWO_64 / 2
    ensures LayoutShape(num, radix, width, precision, signed, f).body == if num == 0 then "" else Digits(Magnitude(num, signed), radix)
  {
  }

  /** Two layouts of one number are the same text exactly when they have the same parts. */
  lemma {:induction false} LayoutsAlikeExactlyWhen(num: int, radix: nat, signed: bool, width: int, precision: int, f: Flags,
                                                   width': int, precision': int, f': Flags)
    requires 2 <= radix <= 16 && -TWO_64 / 2 <= num < TWO_64 / 2
    ensures Layout(num, radix, width, precision, signed, f) == Layout(num, radix, width', precision', signed, f')
            <==> LayoutShape(num, radix, width, precision, signed, f) == LayoutShape(num, radix, width', precision', signed, f')
  {
    LayoutParts(num, radix, width, precision, signed, f);
    LayoutParts(num, radix, width', precision', signed, f');
    LayoutBody(num, radix, width, precision, signed, f);
    LayoutBody(num, radix, width', precision', signed, f');
    SameText(LayoutShape(num, radix, width, precision, signed, f), LayoutShape(num, radix, width', precision', signed, f'));
  }

  // ----- in numbers -----

  /** How a number is spread out: blanks in front, whether it has a plus sign and a base indication, zeros
      in front of its other digits and behind them, blanks behind. */
  datatype Spread = Spread(front: nat, plus: bool, base: bool, zeros: nat, behind: nat, after: nat)

  /** The same from the number, how many digits it has, width, precision and flags. */
  function SpreadOf(num: int, digits: nat, radix: nat, width: int, precision: int, signed: bool, f: Flags): Spread {
    var plus := signed && num >= 0 && f.sign;
    var blank := f.space && !plus && !(signed && num < 0);
    var sign := if plus || blank || (signed && num < 0) then 1 else 0;
    var base := f.altForm && radix == 16;
    var octal := if f.altForm && radix == 8 && num == 0 then 1 else 0;
    var room := width - Max(digits, precision);
    var left := f.leftJustify || room <= 0;
    var pad := Max(0, room - sign - if base then 2 else octal);
    var front := (if blank then 1 else 0) + if left || f.zeroPad then 0 else Max(0, room - sign - if f.altForm then 2 else 0);
    var zeros := octal + Max(0, precision - digits) + if !left && f.zeroPad then pad else 0;
    var behind, after := if left && f.zeroPad then pad else 0, if left && !f.zeroPad then pad else 0;
    if num != 0 then Spread(front, plus, base, zeros, behind, after)
    else if zeros + behind == 0 && precision == 0 && !plus && !base then Spread(front + after, false, false, 0, 0, 0)
    else Spread(front, plus, base, zeros + behind + (if precision == 0 then 0 else 1), 0, after)
  }

  predicate SpreadLike(s: Shape, t: Spread, negative: bool) {
    && s.blanks == t.front && s.zeros == t.zeros && s.behind == t.behind && s.after == t.after
    && s.sign == (if negative then "-" else if t.plus then "+" else "") && s.base == (if t.base then "0x" else "")
  }

  lemma {:induction false} SpreadNonzero(num: int, radix: nat, width: int, precision: int, signed: bool, f: Flags)
    requires 2 <= radix <= 16 && -TWO_64 / 2 <= num < TWO_64 / 2 && num != 0
    ensures SpreadLike(LayoutShape(num, radix, width, precision, signed, f),
                       SpreadOf(num, |Digits(Magnitude(num, signed), radix)|, radix, width, precision, signed, f), signed && num < 0)
  {
  }

  lemma {:induction false} SpreadZero(radix: nat, width: int, precision: int, signed: bool, f: Flags)
    requires 2 <= radix <= 16
    ensures SpreadLike(LayoutShape(0, radix, width, precision, signed, f), SpreadOf(0, 1, radix, width, precision, signed, f), false)
  {
    ZeroDigit(radix);
    if precision == 0 {
      SpreadEmpty(radix, width, signed, f);
    } else {
      SpreadOneDigit(radix, width, precision, signed, f);
    }
  }

  lemma {:induction false} SpreadEmpty(radix: nat, width: int, signed: bool, f: Flags)
    requires 2 <= radix <= 16 && Digits(0, radix) == "0"
    ensures SpreadLike(LayoutShape(0, radix, width, 0, signed, f), SpreadOf(0, 1, radix, width, 0, signed, f), false)
  {
  }

  lemma {:induction false} SpreadOneDigit(radix: nat, width: int, precision: int, signed: bool, f: Flags)
    requires 2 <= radix <= 16 && precision != 0 && Digits(0, radix) == "0"
    ensures SpreadLike(LayoutShape(0, radix, width, precision, signed, f), SpreadOf(0, 1, radix, width, precision, signed, f), false)
  {
  }

  /** Two layouts of one number are the same text exactly when they spread it out alike. */
  lemma {:induction false} SpreadExactlyWhen(num: int, radix: nat, width: int, precision: int, signed: bool, f: Flags, g: Flags)
    requires 2 <= radix <= 16 && -TWO_64 / 2 <= num < TWO_64 / 2
    ensures var digits := |Digits(Magnitude(num, signed), radix)|;
            Layout(num, radix, width, precision, signed, f) == Layout(num, radix, width, precision, signed, g)
            <==> SpreadOf(num, digits, radix, width, precision, signed, f) == SpreadOf(num, digits, radix, width, precision, signed, g)
  {
    var digits := |Digits(Magnitude(num, signed), radix)|;
    LayoutsAlikeExactlyWhen(num, radix, signed, width, precision, f, width, precision, g);
    LayoutBody(num, radix, width, precision, signed, f);
    LayoutBody(num, radix, width, precision, signed, g);
    ShapeSpread(num, radix, width, precision, signed, f);
    ShapeSpread(num, radix, width, precision, signed, g);
    SpreadsAlike(LayoutShape(num, radix, width, precision, signed, f), SpreadOf(num, digits, radix, width, precision, signed, f),
                 LayoutShape(num, radix, width, precision, signed, g), SpreadOf(num, digits, radix, width, precision, signed, g),
                 signed && num < 0);
  }

  lemma {:induction false} ShapeSpread(num: int, radix: nat, width: int, precision: int, signed: bool, f: Flags)
    requires 2 <= radix <= 16 && -TWO_64 / 2 <= num < TWO_64 / 2
    ensures SpreadLike(LayoutShape(num, radix, width, precision, signed, f),
                       SpreadOf(num, |Digits(Magnitude(num, signed), radix)|, radix, width, precision, signed, f), signed && num < 0)
  {
    if num == 0 {
      ZeroDigit(radix);
      SpreadZero(radix, width, precision, signed, f);
    } else {
      SpreadNonzero(num, radix, width, precision, signed, f);
    }
  }

  lemma ZeroDigit(radix: nat)
    requires 2 <= radix <= 16
    ensures Digits(0, radix) == "0"
  {
  }

  lemma SpreadsAlike(s: Shape, t: Spread, s': Shape, t': Spread, negative: bool)
    requires SpreadLike(s, t, negative) && SpreadLike(s', t', negative) && s.body == s'.body && (negative ==> !t.plus && !t'.plus)
    ensures s == s' <==> t == t'
  {
  }
}
