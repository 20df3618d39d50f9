/** Byte-addressed memory with 32-bit little-endian words, as an i686 sees it. */
module PhysicalMemory {

  type Byte = b: int | 0 <= b < 0x100

  type Word = w: int | 0 <= w < 0x1_0000_0000

  /** The number whose little-endian base-256 digits are `bs`. */
  function LittleEndian(bs: seq<Byte>): nat {
    if bs == [] then 0 else bs[0] as int + 0x100 * LittleEndian(bs[1..])
  }

  lemma LittleEndian4(bs: seq<Byte>)
    requires |bs| == 4
    ensures LittleEndian(bs) ==
            bs[0] as int + 0x100 * bs[1] as int + 0x1_0000 * bs[2] as int + 0x100_0000 * bs[3] as int
    ensures LittleEndian(bs) < 0x1_0000_0000
  {
    assert bs[1..][1..] == bs[2..];
    assert bs[2..][1..] == bs[3..];
    assert bs[3..][1..] == [];
    assert LittleEndian(bs[3..]) == bs[3] as int;
    assert LittleEndian(bs[2..]) == bs[2] as int + 0x100 * LittleEndian(bs[3..]);
    assert LittleEndian(bs[1..]) == bs[1] as int + 0x100 * LittleEndian(bs[2..]);
  }

  /** The four bytes of a word, least significant first. */
  function WordBytes(w: Word): (bs: seq<Byte>)
    ensures |bs| == 4
  {
    [w % 0x100, w / 0x100 % 0x100, w / 0x1_0000 % 0x100, w / 0x100_0000]
  }

  lemma WordRoundTrip(w: Word)
    ensures LittleEndian(WordBytes(w)) == w
  {
    LittleEndian4(WordBytes(w));
    HighDigits(w);
    HighDigits(w / 0x100);
    assert w / 0x100 / 0x100 == w / 0x1_0000;
  }

  lemma HighDigits(n: nat)
    ensures n == n / 0x100 * 0x100 + n % 0x100
    ensures n / 0x1_0000 == n / 0x100 / 0x100
    ensures n / 0x1_0000 == n / 0x100_0000 * 0x100 + n / 0x1_0000 % 0x100
  {
  }

  /** The value of a byte read through a signed `char`. */
  function SignedChar(b: Byte): int {
    if b < 0x80 then b else b - 0x100
  }

  /** The byte a `char` variable holds after an `int` was assigned to it. */
  function ToChar(n: int): Byte {
    n % 0x100
  }

  /** `words` maps every address of `m` to the little-endian word that starts there. */
  ghost predicate Mirrors(words: int -> int, m: seq<Byte>) {
    forall a {:trigger m[a..a + 4]} :: 0 <= a && a + 4 <= |m| ==> words(a) == LittleEndian(m[a..a + 4])
  }

  /** A word changes only if one of its bytes does. */
  lemma WordKept(words: int -> int, m: seq<Byte>, words': int -> int, m': seq<Byte>, a: int)
    requires Mirrors(words, m) && Mirrors(words', m') && 0 <= a && a + 4 <= |m| == |m'|
    requires forall i :: a <= i < a + 4 ==> m[i] == m'[i]
    ensures words(a) == words'(a)
  {
    assert m[a..a + 4] == m'[a..a + 4];
  }

  class Ram {
    const bytes: array<Byte>
    ghost var words: int -> int

    ghost predicate Valid()
      reads this, bytes
    {
      Mirrors(words, bytes[..])
    }

    constructor (content: array<Byte>)
      ensures Valid() && bytes == content
    {
      bytes := content;
      new;
      ghost var m := bytes[..];
      words := (a: int) => if 0 <= a && a + 4 <= |m| then LittleEndian(m[a..a + 4]) else 0;
    }

    /** The word at `a`, most significant byte last. */
    method LoadWord(a: nat) returns (w: Word)
      requires Valid() && a + 4 <= bytes.Length
      ensures w == words(a)
    {
      LittleEndian4(bytes[..][a..a + 4]);
      w := bytes[a] as int + 0x100 * bytes[a + 1] as int + 0x1_0000 * bytes[a + 2] as int
         + 0x100_0000 * bytes[a + 3] as int;
    }

    /** Loading the word again gives `w`; no other byte, and no word clear of it, changes. */
    method StoreWord(a: nat, w: Word)
      requires Valid() && a + 4 <= bytes.Length
      modifies `words, bytes
      ensures Valid() && words(a) == w
      ensures forall b :: b + 4 <= a || a + 4 <= b ==> words(b) == old(words)(b)
      ensures forall i :: 0 <= i < bytes.Length && !(a <= i < a + 4) ==> bytes[i] == old(bytes[i])
    {
      ghost var before := bytes[..];
      bytes[a] := w % 0x100;
      bytes[a + 1] := w / 0x100 % 0x100;
      bytes[a + 2] := w / 0x1_0000 % 0x100;
      bytes[a + 3] := w / 0x100_0000;
      assert bytes[..][a..a + 4] == WordBytes(w);
      WordRoundTrip(w);
      words := Refreshed(words, before, bytes[..], a, 4);
    }

    method StoreByte(a: nat, v: Byte)
      requires Valid() && a < bytes.Length
      modifies `words, bytes
      ensures Valid() && bytes[a] == v
      ensures forall b :: b + 4 <= a || a < b ==> words(b) == old(words)(b)
      ensures forall i :: 0 <= i < bytes.Length && i != a ==> bytes[i] == old(bytes[i])
    {
      ghost var before := bytes[..];
      bytes[a] := v;
      words := Refreshed(words, before, bytes[..], a, 1);
    }
  }

  /** The words after the `n` bytes at `a` changed. */
  ghost function Refreshed(words: int -> int, m: seq<Byte>, m': seq<Byte>, a: int, n: int): (words': int -> int)
    requires Mirrors(words, m) && |m| == |m'|
    requires forall i :: 0 <= i < |m| && !(a <= i < a + n) ==> m[i] == m'[i]
    ensures Mirrors(words', m')
    ensures forall b :: b + 4 <= a || a + n <= b ==> words'(b) == words(b)
  {
    assert forall b {:trigger m'[b..b + 4]} :: 0 <= b && b + 4 <= |m| && (b + 4 <= a || a + n <= b) ==>
      m[b..b + 4] == m'[b..b + 4];
    (b: int) =>
      if 0 <= b && b + 4 <= |m'| && !(b + 4 <= a || a + n <= b) then LittleEndian(m'[b..b + 4]) else words(b)
  }
}
