/** The two number readers of the kernel, and how they undo print_num. */
module NumberReaders {
  import opened Arithmetic
  import opened NumberText

  const INT_MAX: int := 0x7FFF_FFFF

  /** The value a signed 32-bit variable takes: the one in its range that differs by a multiple of 2^32. */
  function Signed32(x: int): (r: int)
    ensures -0x8000_0000 <= r <= INT_MAX
    decreases if x < 0 then -x - 1 else x
  {
    if x > INT_MAX then Signed32(x - TWO_32) else if x < -0x8000_0000 then Signed32(x + TWO_32) else x
  }

  lemma {:induction false} SignedDiff(x: int) returns (k: int)
    ensures Signed32(x) == x + TWO_32 * k
    decreases if x < 0 then -x - 1 else x
  {
    if x > INT_MAX {
      k := SignedDiff(x - TWO_32);
      k := k - 1;
    } else if x < -0x8000_0000 {
      k := SignedDiff(x + TWO_32);
      k := k + 1;
    } else {
      k := 0;
    }
  }

  /** Numbers a multiple of 2^32 apart are stored alike. */
  lemma SignedShift(x: int, y: int, k: int)
    requires y == x + TWO_32 * k
    ensures Signed32(y) == Signed32(x)
  {
    var m := SignedDiff(x);
    var n := SignedDiff(y);
    assert Signed32(y) - Signed32(x) == TWO_32 * (k + n - m);
  }

  /** Wrapping after every operation is the same as wrapping once. */
  lemma Signed32Step(x: int, d: int)
    ensures Signed32(Signed32(Signed32(x) * 10) + d) == Signed32(x * 10 + d)
  {
    var k := SignedDiff(x);
    var m := SignedDiff(Signed32(x) * 10);
    SignedShift(x * 10 + d, Signed32(Signed32(x) * 10) + d, 10 * k + m);
  }

  /** What parseint makes of the characters from `pos` on: the value of the digits found there, as
      far as an int can hold it, and where they end. */
  function DecimalAt(s: string, pos: nat): (int, nat)
    requires pos <= |s|
  {
    var run := DigitRun(s[pos..], 10);
    (Signed32(Value(run, 10)), pos + |run|)
  }

  /** The first `k` characters are digits, and `result` is their value as far as an int can hold it. */
  ghost predicate DigitsSoFar(s: string, k: nat, result: int) {
    k <= |s| && AllDigits(s[..k], 10) && result == Signed32(Value(s[..k], 10))
  }

  lemma {:induction false} OneMoreDigit(s: string, k: nat, result: int)
    requires DigitsSoFar(s, k, result) && k < |s| && '0' <= s[k] <= '9'
    ensures DigitsSoFar(s, k + 1, Signed32(Signed32(result * 10) + (s[k] as int - '0' as int)))
  {
    assert s[..k + 1] == s[..k] + [s[k]];
    ValueAppend(s[..k], s[k], 10);
    Signed32Step(Value(s[..k], 10), DigitValue(s[k]));
  }

  lemma {:induction false} DigitsEnd(fmt: string, pos: nat, k: nat, result: int)
    requires pos <= |fmt| && DigitsSoFar(fmt[pos..], k, result)
    requires pos + k == |fmt| || !('0' <= fmt[pos + k] <= '9')
    ensures DecimalAt(fmt, pos) == (result, pos + k)
  {
    var s := fmt[pos..];
    assert s == s[..k] + s[k..];
    RunOf(s[..k], s[k..], 10);
  }

  /** The same digit by digit, `result` being the value of those before `pos`. */
  function DecimalFrom(s: string, pos: nat, result: int): (r: (int, nat))
    requires pos <= |s|
    ensures pos <= r.1 <= |s|
    decreases |s| - pos
  {
    if pos < |s| && '0' <= s[pos] <= '9' then DecimalFrom(s, pos + 1, Signed32(Signed32(result * 10) + (s[pos] as int - '0' as int)))
    else (result, pos)
  }

  lemma {:induction false} DecimalContinued(s: string, pos: nat, k: nat, result: int)
    requires pos + k <= |s| && DigitsSoFar(s[pos..], k, result)
    ensures DecimalFrom(s, pos + k, result) == DecimalAt(s, pos)
    decreases |s| - k
  {
    if pos + k < |s| && '0' <= s[pos + k] <= '9' {
      OneMoreDigit(s[pos..], k, result);
      DecimalContinued(s, pos, k + 1, Signed32(Signed32(result * 10) + (s[pos + k] as int - '0' as int)));
    } else {
      DigitsEnd(s, pos, k, result);
    }
  }

  lemma {:induction false} DecimalSame(s: string, pos: nat)
    requires pos <= |s|
    ensures DecimalFrom(s, pos, 0) == DecimalAt(s, pos)
  {
    DecimalContinued(s, pos, 0, 0);
  }

  /** Reads a base 10 number from `fmt`, which ends at its length as a C string ends at its NUL. */
  method ParseInt(fmt: string, pos: nat) returns (result: int, pos': nat)
    requires pos <= |fmt|
    ensures (result, pos') == DecimalAt(fmt, pos) && pos <= pos' <= |fmt|
  {
    result := 0;
    pos' := pos;
    while pos' < |fmt| && '0' <= fmt[pos'] <= '9'
      invariant pos <= pos' <= |fmt| && DigitsSoFar(fmt[pos..], pos' - pos, result)
    {
      OneMoreDigit(fmt[pos..], pos' - pos, result);
      result := Signed32(result * 10);
      result := Signed32(result + (fmt[pos'] as int - '0' as int));
      pos' := pos' + 1;
    }
    DigitsEnd(fmt, pos, pos' - pos, result);
  }

  lemma {:induction false} DecimalRead(s: string, pos: nat, n: nat, text: string, after: string)
    requires n <= INT_MAX && AllDigits(text, 10) && Value(text, 10) == n
    requires pos <= |s| && s[pos..] == text + after && (after == [] || !(0 <= DigitValue(after[0]) < 10))
    ensures DecimalAt(s, pos) == (n, pos + |text|)
  {
    RunOf(text, after, 10);
  }

  /** Any int that is not negative, printed in base 10 without sign or blanks anywhere in a string,
      is read back from there, and reading stops just after its digits. */
  lemma {:induction false} DecimalRoundTrip(n: nat, width: int, precision: int, signed: bool, f: Flags, text: string,
                                            s: string, pos: nat, after: string)
    requires n <= INT_MAX && PrintedPlain(n, 10, width, precision, signed, f)
    requires text == Layout(n, 10, width, precision, signed, f) && pos <= |s| && s[pos..] == text + after
    requires after == [] || !(0 <= DigitValue(after[0]) < 10)
    ensures DecimalAt(s, pos) == (n, pos + |text|)
  {
    PlainText(n, 10, width, precision, signed, f, text);
    DecimalRead(s, pos, n, text, after);
  }

  // ----- what the readers can read -----

  /** No sign, prefix or blanks are printed, and at least one digit is. */
  predicate PrintedPlain(n: nat, radix: nat, width: int, precision: int, signed: bool, f: Flags)
    requires 2 <= radix <= 16
  {
    && !f.space && !f.altForm && !(signed && f.sign) && !(precision == 0 && n == 0)
    && ((f.zeroPad && !f.leftJustify) || width <= Max(|Digits(n, radix)|, precision))
  }

  lemma {:induction false} ArrangePlain(room: int, z: int, body: string, f: Flags) returns (k: nat)
    requires room <= 0 || (f.zeroPad && !f.leftJustify)
    ensures Arrange("", "", room, z, body, f) == Repeat('0', k) + body
  {
    k := Max(0, room) + Max(0, z);
    RepeatNone('0', room);
    RepeatNone('0', z);
    RepeatJoin('0', Max(0, room), Max(0, z));
  }

  /** Leading zeros change nothing. */
  lemma {:induction false} ZerosAndDigits(n: nat, z: nat, radix: nat)
    requires 2 <= radix <= 16
    ensures var text := Repeat('0', z) + Digits(n, radix);
            AllDigits(text, radix) && Value(text, radix) == n
  {
    DigitsRoundTrip(n, radix);
    ValueOfZeros(z, Digits(n, radix), radix);
  }

  lemma {:induction false} ArrangedDigits(n: nat, radix: nat, room: int, z: int, f: Flags)
    requires 2 <= radix <= 16 && (room <= 0 || (f.zeroPad && !f.leftJustify))
    ensures var text := Arrange("", "", room, z, Digits(n, radix), f);
            AllDigits(text, radix) && Value(text, radix) == n
  {
    var k := ArrangePlain(room, z, Digits(n, radix), f);
    ZerosAndDigits(n, k, radix);
  }

  lemma NotNegative(n: nat, signed: bool)
    requires n < TWO_64 / 2
    ensures Magnitude(n, signed) == n
  {
  }

  /** Then print_num prints digits only, which say the number. */
  lemma {:induction false} PlainText(n: nat, radix: nat, width: int, precision: int, signed: bool, f: Flags, text: string)
    requires 2 <= radix <= 16 && n < TWO_64 / 2 && PrintedPlain(n, radix, width, precision, signed, f)
    requires text == Layout(n, radix, width, precision, signed, f)
    ensures AllDigits(text, radix) && Value(text, radix) == n
  {
    NotNegative(n, signed);
    assert SignText(n, signed, f) == "" && PrefixText(n, radix, f) == "" && Body(n, radix, precision, signed) == Digits(n, radix);
    ArrangedDigits(n, radix, Room(n, radix, width, precision, signed), Short(n, radix, precision, signed), f);
  }

  // ----- the hexadecimal reader of the shell -----

  const COMMAND_SIZE: nat := 80

  /** The value of a hexadecimal digit of either case, or -1 for any other character. */
  function HexValue(c: char): (d: int)
    ensures -1 <= d < 16
    ensures DigitValue(c) >= 0 ==> d == DigitValue(c)
  {
    if '0' <= c <= '9' then c as int - '0' as int
    else if 'A' <= c <= 'F' then c as int - 'A' as int + 0xA
    else if 'a' <= c <= 'f' then c as int - 'a' as int + 0xA
    else -1
  }

  function HexRun(s: string): (r: string)
    ensures r <= s
  {
    if s != [] && HexValue(s[0]) >= 0 then [s[0]] + HexRun(s[1..]) else []
  }

  function HexNumber(s: string): int {
    if s == [] then 0 else HexNumber(s[..|s| - 1]) * 0x10 + HexValue(s[|s| - 1])
  }

  /** What to_int makes of the command line from `pos` on. */
  function HexAt(command: string, pos: nat): (int, nat)
    requires pos <= |command|
  {
    var run := HexRun(command[pos..]);
    (HexNumber(run) % TWO_32, pos + |run|)
  }

  lemma HexRunLonger(s: string, i: nat)
    requires i <= |s| && forall k :: 0 <= k < i ==> HexValue(s[k]) >= 0
    ensures i == |s| || HexValue(s[i]) < 0 ==> HexRun(s) == s[..i]
    decreases i
  {
    if i > 0 {
      HexRunLonger(s[1..], i - 1);
      assert s[..i] == [s[0]] + s[1..][..i - 1];
    }
  }

  lemma HexStep(x: int, d: int)
    ensures (x % TWO_32 * 0x10 + d) % TWO_32 == (x * 0x10 + d) % TWO_32
  {
    var q := x / TWO_32;
    assert x * 0x10 + d == x % TWO_32 * 0x10 + d + TWO_32 * (0x10 * q);
  }

  /** The first `k` characters are hexadecimal digits, and `value` is their value modulo 2^32. */
  ghost predicate HexSoFar(s: string, k: nat, value: int) {
    k <= |s| && (forall j :: 0 <= j < k ==> HexValue(s[j]) >= 0) && value == HexNumber(s[..k]) % TWO_32
  }

  lemma {:induction false} OneMoreHex(s: string, k: nat, value: int, d: int)
    requires HexSoFar(s, k, value) && k < |s| && d == HexValue(s[k]) >= 0
    ensures HexSoFar(s, k + 1, (value * 0x10 + d) % TWO_32)
  {
    assert s[..k + 1][..k] == s[..k];
    HexStep(HexNumber(s[..k]), d);
  }

  lemma {:induction false} HexEnd(command: string, pos: nat, k: nat, value: int)
    requires pos <= |command| && HexSoFar(command[pos..], k, value)
    requires pos + k == |command| || HexValue(command[pos + k]) < 0
    ensures HexAt(command, pos) == (value, pos + k)
  {
    HexRunLonger(command[pos..], k);
  }

  /** Reads a hexadecimal number, at most up to the end of the command line. */
  method ToInt(command: string, pos: nat) returns (value: int, pos': nat)
    requires |command| == COMMAND_SIZE && pos < COMMAND_SIZE
    ensures (value, pos') == HexAt(command, pos) && pos <= pos' <= COMMAND_SIZE
  {
    value := 0;
    pos' := pos;
    var c := command[pos];
    var stop := false;
    while !stop
      invariant pos <= pos' <= COMMAND_SIZE && HexSoFar(command[pos..], pos' - pos, value)
      invariant if stop then pos' == COMMAND_SIZE || HexValue(command[pos']) < 0 else pos' < COMMAND_SIZE && c == command[pos']
      decreases COMMAND_SIZE - pos', !stop
    {
      var d := HexValue(c);
      if d < 0 {
        stop := true;
      } else {
        OneMoreHex(command[pos..], pos' - pos, value, d);
        value := (value * 0x10 + d) % TWO_32;
        pos' := pos' + 1;
        if pos' >= COMMAND_SIZE {
          stop := true;
        } else {
          c := command[pos'];
        }
      }
    }
    HexEnd(command, pos, pos' - pos, value);
  }

  lemma {:induction false} HexOfDigits(d: string, after: string)
    requires AllDigits(d, 16) && (after == [] || HexValue(after[0]) < 0)
    ensures HexRun(d + after) == d
  {
    if d == [] {
      assert d + after == after;
    } else {
      assert (d + after)[1..] == d[1..] + after;
      HexOfDigits(d[1..], after);
    }
  }

  lemma {:induction false} HexNumberIsValue(d: string)
    requires AllDigits(d, 16)
    ensures HexNumber(d) == Value(d, 16)
  {
    if d != [] {
      HexNumberIsValue(d[..|d| - 1]);
    }
  }

  lemma {:induction false} HexRead(s: string, pos: nat, n: nat, text: string, after: string)
    requires n < TWO_32 && AllDigits(text, 16) && Value(text, 16) == n
    requires pos <= |s| && s[pos..] == text + after && (after == [] || HexValue(after[0]) < 0)
    ensures HexAt(s, pos) == (n, pos + |text|)
  {
    HexOfDigits(text, after);
    HexNumberIsValue(text);
  }

  /** Any 32-bit number, printed in base 16 without prefix or blanks anywhere in a string, is read
      back from there, and reading stops just after its digits. */
  lemma {:induction false} HexRoundTrip(n: nat, width: int, precision: int, signed: bool, f: Flags, text: string,
                                            s: string, pos: nat, after: string)
    requires n < TWO_32 && PrintedPlain(n, 16, width, precision, signed, f)
    requires text == Layout(n, 16, width, precision, signed, f) && pos <= |s| && s[pos..] == text + after
    requires after == [] || HexValue(after[0]) < 0
    ensures HexAt(s, pos) == (n, pos + |text|)
  {
    PlainText(n, 16, width, precision, signed, f, text);
    HexRead(s, pos, n, text, after);
  }
}
