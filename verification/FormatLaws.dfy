/** What single directives print between text, and which arguments directives in a row take. */
module FormatLaws {
  import opened Arithmetic
  import opened NumberText
  import opened NumberReaders
  import opened PhysicalMemory
  import opened FormatText
  import opened FormatPieces

  /** The directive with a specifier and nothing else. */
  function Bare(c: char): Piece {
    Directed("", Absent, None, Plain, c)
  }

  lemma {:induction false} BareText(c: char)
    ensures PieceText(Bare(c)) == "%" + [c]
  {
  }

  /** One directive between text. */
  lemma {:induction false} OneDirective(call: Call, p: string, d: Piece, q: string)
    requires call.fmt == p + PieceText(d) + q && '%' !in p && '%' !in q && d.Directed? && Sound(d)
    ensures var (a, x) := (ArgumentsOf(call), DirectiveOf(d, ArgumentsOf(call), 0, NO_FLAGS));
            call.Output() == p + SpecifierText(d.c, x.length, x.width, x.precision, x.flags, a, x.arg) + q
  {
    var (a, m) := (ArgumentsOf(call), Meaning(ArgumentsOf(call)));
    var ps := [Copied(p), d, Copied(q)];
    ThreeWritten(PieceText, ps);
    assert p + PieceText(d) + q == p + (PieceText(d) + q);
    PiecesPrinted(call, ps);
    var x := DirectiveOf(d, a, 0, NO_FLAGS);
    assert ps[1..] == [d, Copied(q)] && ps[1..][1..] == [Copied(q)];
    CopiedPrinted(m, ps, a, 0, NO_FLAGS);
    DirectedPrinted(m, ps[1..], a, 0, NO_FLAGS);
    LastPrinted(m, q, a, x.arg + Taken(d.c, d.length), x.flags);
  }

  lemma {:induction false} ThreeWritten(text: Piece -> string, ps: seq<Piece>)
    requires |ps| == 3
    ensures Joined(text, ps) == text(ps[0]) + (text(ps[1]) + text(ps[2]))
  {
    assert ps[1..][1..] == [ps[2]] && [ps[2]][1..] == [];
    assert Joined(text, [ps[2]]) == text(ps[2]) + "" == text(ps[2]);
    assert Joined(text, ps[1..]) == text(ps[1]) + Joined(text, [ps[2]]);
  }

  lemma {:induction false} LastPrinted(m: Show, q: string, a: Arguments, arg: nat, f: Flags)
    ensures Printed(m, [Copied(q)], a, arg, f) == q
  {
    CopiedPrinted(m, [Copied(q)], a, arg, f);
    assert [Copied(q)][1..] == [] && q + "" == q;
  }

  lemma {:induction false} FourWritten(text: Piece -> string, ps: seq<Piece>)
    requires |ps| == 4
    ensures Joined(text, ps) == text(ps[0]) + text(ps[1]) + text(ps[2]) + text(ps[3])
  {
    ThreeWritten(text, ps[1..]);
    Regroup(text(ps[0]), text(ps[1]), text(ps[2]), text(ps[3]));
  }

  /** Two directives in a row between text: the second takes the arguments behind those of the first,
      and has its flags as well as its own. */
  lemma {:induction false} TwoPrinted(m: Show, p: string, d: Piece, e: Piece, q: string, a: Arguments, x: Directive, y: Directive)
    requires d.Directed? && e.Directed?
    requires x == DirectiveOf(d, a, 0, NO_FLAGS) && y == DirectiveOf(e, a, x.arg + Taken(d.c, d.length), x.flags)
    ensures Printed(m, [Copied(p), d, e, Copied(q)], a, 0, NO_FLAGS) == p + m(d.c, x) + m(e.c, y) + q
  {
    var ps := [Copied(p), d, e, Copied(q)];
    assert ps[1..] == [d, e, Copied(q)] && ps[1..][1..] == [e, Copied(q)] && [e, Copied(q)][1..] == [Copied(q)];
    CopiedPrinted(m, ps, a, 0, NO_FLAGS);
    DirectedPrinted(m, ps[1..], a, 0, NO_FLAGS);
    DirectedPrinted(m, ps[1..][1..], a, x.arg + Taken(d.c, d.length), x.flags);
    LastPrinted(m, q, a, y.arg + Taken(e.c, e.length), y.flags);
    Regroup(p, m(d.c, x), m(e.c, y), q);
  }

  lemma {:induction false} TwoWritten(call: Call, p: string, d: Piece, e: Piece, q: string)
    requires call.fmt == p + PieceText(d) + PieceText(e) + q && '%' !in p && '%' !in q && Sound(d) && Sound(e)
    ensures var a := ArgumentsOf(call); call.Output() == Printed(Meaning(a), [Copied(p), d, e, Copied(q)], a, 0, NO_FLAGS)
  {
    var ps := [Copied(p), d, e, Copied(q)];
    FourWritten(PieceText, ps);
    PiecesPrinted(call, ps);
  }

  lemma Regroup(p: string, d: string, e: string, q: string)
    ensures p + d + e + q == p + (d + (e + q))
  {
  }

  // ----- what bare directives stand for -----

  /** The value of a word as an int. */
  function AsInt(w: Word): int {
    if w < 0x8000_0000 then w else w - 0x1_0000_0000
  }

  /** The value of two words as a long long. */
  function AsLong(lo: Word, hi: Word): int {
    lo + 0x1_0000_0000 * AsInt(hi)
  }

  lemma Signed32Is(w: Word)
    ensures Signed32(w) == AsInt(w)
  {
  }

  lemma IntegerIs(a: Arguments, arg: nat)
    ensures IntegerArgument(Plain, a, arg) == AsInt(a.words(arg))
    ensures IntegerArgument(LongLong, a, arg) == AsLong(a.words(arg), a.words(arg + 1))
  {
    Signed32Is(a.words(arg));
    Signed32Is(a.words(arg + 1));
  }

  /** Sign and digits of a number. */
  function Signed(n: int): string {
    if n < 0 then "-" + Digits(-n, 10) else Digits(n, 10)
  }

  /** A number that was passed as an int, printed without a sign. */
  function Unsigned(w: Word, radix: nat): string
    requires 2 <= radix <= 16
  {
    Digits(if w < 0x8000_0000 then w else w + 0xFFFF_FFFF_0000_0000, radix)
  }

  lemma {:induction false} PlainLayout(num: int, radix: nat, signed: bool)
    requires 2 <= radix <= 16 && -TWO_64 / 2 <= num < TWO_64 / 2
    ensures Layout(num, radix, 0, -1, signed, NO_FLAGS) == (if signed && num < 0 then "-" else "") + Digits(Magnitude(num, signed), radix)
  {
    var body := Digits(Magnitude(num, signed), radix);
    assert SignText(num, signed, NO_FLAGS) == if signed && num < 0 then "-" else "";
    ArrangeBody(SignText(num, signed, NO_FLAGS), Room(num, radix, 0, -1, signed), NumberText.Short(num, radix, -1, signed), body);
  }

  lemma ArrangeBody(sgn: string, room: int, z: int, body: string)
    requires room <= 0 && z <= 0
    ensures Arrange(sgn, "", room, z, body, NO_FLAGS) == sgn + body
  {
  }

  lemma MagnitudeIs(num: int, signed: bool)
    requires -TWO_64 / 2 <= num < TWO_64 / 2
    ensures Magnitude(num, signed) == if num >= 0 then num else if signed then -num else num + TWO_64
  {
  }

  lemma {:induction false} SignedText(length: Length, a: Arguments, arg: nat, c: char)
    requires c == 'd' || c == 'i'
    ensures SpecifierText(c, length, 0, -1, NO_FLAGS, a, arg) == Signed(IntegerArgument(length, a, arg))
  {
    var num := IntegerArgument(length, a, arg);
    PlainLayout(num, 10, true);
    MagnitudeIs(num, true);
  }

  lemma {:induction false} UnsignedText(a: Arguments, arg: nat, c: char)
    requires c in {'u', 'x', 'X', 'p', 'o'}
    ensures SpecifierText(c, Plain, 0, -1, NO_FLAGS, a, arg)
            == Unsigned(a.words(arg), if c == 'u' then 10 else if c == 'o' then 8 else 16)
  {
    var num := IntegerArgument(Plain, a, arg);
    IntegerIs(a, arg);
    PlainLayout(num, if c == 'u' then 10 else if c == 'o' then 8 else 16, false);
    MagnitudeIs(num, false);
  }

  lemma BareDirective(c: char, a: Arguments, arg: nat)
    ensures DirectiveOf(Bare(c), a, arg, NO_FLAGS) == Directive(NO_FLAGS, 0, -1, Plain, arg, 0)
  {
  }

  lemma {:induction false} OneBare(call: Call, p: string, c: char, q: string)
    requires call.fmt == p + ("%" + [c]) + q && '%' !in p && '%' !in q && Specifier(c)
    ensures call.Output() == p + SpecifierText(c, Plain, 0, -1, NO_FLAGS, ArgumentsOf(call), 0) + q
  {
    BareText(c);
    BareDirective(c, ArgumentsOf(call), 0);
    OneDirective(call, p, Bare(c), q);
  }

  lemma {:induction false} TwoBare(call: Call, p: string, c: char, c': char, q: string)
    requires call.fmt == p + ("%" + [c]) + ("%" + [c']) + q && '%' !in p && '%' !in q && Specifier(c) && Specifier(c')
    ensures var a := ArgumentsOf(call);
            call.Output() == p + SpecifierText(c, Plain, 0, -1, NO_FLAGS, a, 0)
                             + SpecifierText(c', Plain, 0, -1, NO_FLAGS, a, Taken(c, Plain)) + q
  {
    var a := ArgumentsOf(call);
    BareText(c);
    BareText(c');
    BareDirective(c, a, 0);
    BareDirective(c', a, Taken(c, Plain));
    TwoWritten(call, p, Bare(c), Bare(c'), q);
    TwoPrinted(Meaning(a), p, Bare(c), Bare(c'), q, a, Directive(NO_FLAGS, 0, -1, Plain, 0, 0),
               Directive(NO_FLAGS, 0, -1, Plain, Taken(c, Plain), 0));
  }

  // ----- single directives -----

  /** %c prints the character in the low byte of its argument. */
  lemma {:induction false} CharacterPrinted(call: Call, p: string, q: string)
    requires call.fmt == p + "%c" + q && '%' !in p && '%' !in q
    ensures call.Output() == p + [(call.words(0) % 256) as char] + q
  {
    OneBare(call, p, 'c', q);
  }

  /** %s prints the text at the address that is its argument. */
  lemma {:induction false} StringPrinted(call: Call, p: string, q: string)
    requires call.fmt == p + "%s" + q && '%' !in p && '%' !in q
    ensures call.Output() == p + call.text(call.words(0)) + q
  {
    OneBare(call, p, 's', q);
  }

  lemma {:induction false} PercentPrinted(call: Call, p: string, q: string)
    requires call.fmt == p + "%%" + q && '%' !in p && '%' !in q
    ensures call.Output() == p + "%" + q
  {
    OneBare(call, p, '%', q);
  }

  /** %d and %i print their argument as a signed int in base 10. */
  lemma {:induction false} SignedPrinted(call: Call, p: string, c: char, q: string)
    requires (c == 'd' || c == 'i') && call.fmt == p + ("%" + [c]) + q && '%' !in p && '%' !in q
    ensures call.Output() == p + Signed(AsInt(call.words(0))) + q
  {
    OneBare(call, p, c, q);
    SignedText(Plain, ArgumentsOf(call), 0, c);
    IntegerIs(ArgumentsOf(call), 0);
  }

  /** %u, %x, %X, %p and %o print it without a sign in base 10, 16 and 8; arguments from 0x80000000 on
      come out as 64-bit numbers. */
  lemma {:induction false} UnsignedPrinted(call: Call, p: string, c: char, q: string)
    requires c in {'u', 'x', 'X', 'p', 'o'} && call.fmt == p + ("%" + [c]) + q && '%' !in p && '%' !in q
    ensures call.Output() == p + Unsigned(call.words(0), if c == 'u' then 10 else if c == 'o' then 8 else 16) + q
  {
    OneBare(call, p, c, q);
    UnsignedText(ArgumentsOf(call), 0, c);
  }

  // ----- directives in a row -----

  /** A string and a character behind it take one word each. */
  lemma {:induction false} StringThenCharacter(call: Call, p: string, q: string)
    requires call.fmt == p + "%s" + "%c" + q && '%' !in p && '%' !in q
    ensures call.Output() == p + call.text(call.words(0)) + [(call.words(1) % 256) as char] + q
  {
    TwoBare(call, p, 's', 'c', q);
  }

  lemma {:induction false} CharacterThenNumber(call: Call, p: string, q: string)
    requires call.fmt == p + "%c" + "%d" + q && '%' !in p && '%' !in q
    ensures call.Output() == p + [(call.words(0) % 256) as char] + Signed(AsInt(call.words(1))) + q
  {
    TwoBare(call, p, 'c', 'd', q);
    SignedText(Plain, ArgumentsOf(call), 1, 'd');
    IntegerIs(ArgumentsOf(call), 1);
  }

  lemma {:induction false} LongText()
    ensures PieceText(Directed("", Absent, None, LongLong, 'd')) == "%lld"
    ensures PieceText(Directed("", Star, None, Plain, 'd')) == "%*d"
  {
  }

  /** A long long takes two words, the low one first, and what comes behind it the third. */
  lemma {:induction false} LongThenString(call: Call, p: string, q: string)
    requires call.fmt == p + "%lld" + "%s" + q && '%' !in p && '%' !in q
    ensures call.Output() == p + Signed(AsLong(call.words(0), call.words(1))) + call.text(call.words(2)) + q
  {
    var a := ArgumentsOf(call);
    LongText();
    BareText('s');
    LongDirective(a);
    BareDirective('s', a, 2);
    TwoWritten(call, p, Directed("", Absent, None, LongLong, 'd'), Bare('s'), q);
    TwoPrinted(Meaning(a), p, Directed("", Absent, None, LongLong, 'd'), Bare('s'), q, a,
               Directive(NO_FLAGS, 0, -1, LongLong, 0, 0), Directive(NO_FLAGS, 0, -1, Plain, 2, 0));
    LongMeaning(a);
  }

  lemma LongDirective(a: Arguments)
    ensures DirectiveOf(Directed("", Absent, None, LongLong, 'd'), a, 0, NO_FLAGS) == Directive(NO_FLAGS, 0, -1, LongLong, 0, 0)
  {
  }

  lemma {:induction false} LongMeaning(a: Arguments)
    ensures Meaning(a)('d', Directive(NO_FLAGS, 0, -1, LongLong, 0, 0)) == Signed(AsLong(a.words(0), a.words(1)))
    ensures Meaning(a)('s', Directive(NO_FLAGS, 0, -1, Plain, 2, 0)) == a.text(a.words(2))
  {
    SignedText(LongLong, a, 0, 'd');
    IntegerIs(a, 0);
  }

  /** A star takes its width before the number itself. */
  lemma {:induction false} StarThenNumber(call: Call, p: string, q: string)
    requires call.fmt == p + "%*d" + q && '%' !in p && '%' !in q
    ensures call.Output() == p + Layout(AsInt(call.words(1)), 10, AsInt(call.words(0)), -1, true, NO_FLAGS) + q
  {
    var (a, d) := (ArgumentsOf(call), Directed("", Star, None, Plain, 'd'));
    LongText();
    OneDirective(call, p, d, q);
    Signed32Is(a.words(0));
    assert DirectiveOf(d, a, 0, NO_FLAGS) == Directive(NO_FLAGS, AsInt(a.words(0)), -1, Plain, 1, 0);
    IntegerIs(a, 1);
  }
}
