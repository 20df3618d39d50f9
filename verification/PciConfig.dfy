/** The PCI configuration space behind its address and data ports. */
module PciConfig {
  import opened Arithmetic
  import opened PhysicalMemory
  import opened PciTree

  // ----- bit operations on unsigned numbers -----

  function BitOr(x: nat, y: nat): nat
    decreases x + y
  {
    if x == 0 then y
    else if y == 0 then x
    else 2 * BitOr(x / 2, y / 2) + if x % 2 == 1 || y % 2 == 1 then 1 else 0
  }

  function BitAnd(x: nat, y: nat): nat
    decreases x + y
  {
    if x == 0 || y == 0 then 0
    else 2 * BitAnd(x / 2, y / 2) + if x % 2 == 1 && y % 2 == 1 then 1 else 0
  }

  function Pow2(k: nat): nat {
    if k == 0 then 1 else 2 * Pow2(k - 1)
  }

  function ShiftLeft(x: nat, k: nat): nat {
    x * Pow2(k)
  }

  /** Joining a shifted number with one that fits below it adds them up. */
  lemma {:induction false} OrApart(x: nat, k: nat, y: nat)
    requires y < Pow2(k)
    ensures BitOr(ShiftLeft(x, k), y) == ShiftLeft(x, k) + y
  {
    if k > 0 {
      var h := ShiftLeft(x, k - 1);
      OrApart(x, k - 1, y / 2);
      OrDoubled(h, y);
      ShiftStep(x, k);
    }
  }

  lemma {:induction false} ShiftStep(x: nat, k: nat)
    requires k > 0
    ensures ShiftLeft(x, k) == 2 * ShiftLeft(x, k - 1)
  {
    var m := Pow2(k - 1);
    assert x * (2 * m) == 2 * (x * m);
  }

  lemma {:induction false} OrDoubled(h: nat, y: nat)
    requires BitOr(h, y / 2) == h + y / 2
    ensures BitOr(2 * h, y) == 2 * h + y
  {
    assert 2 * h / 2 == h && 2 * h % 2 == 0;
  }

  lemma {:induction false} OrSwapped(x: nat, y: nat)
    ensures BitOr(x, y) == BitOr(y, x)
    decreases x + y
  {
    if x != 0 && y != 0 {
      OrSwapped(x / 2, y / 2);
    }
  }

  lemma {:induction false} AndOnes(x: nat, k: nat)
    requires x < Pow2(k)
    ensures BitAnd(x, Pow2(k) - 1) == x
  {
    if x != 0 {
      AndOnes(x / 2, k - 1);
    }
  }

  lemma {:induction false} AndMask(offset: nat)
    requires offset < 0x100
    ensures BitAnd(offset, 0xFC) == 4 * (offset / 4) == offset - offset % 4
  {
    AndOnes(offset / 4, 6);
    assert Pow2(6) - 1 == 0x3F && offset / 2 / 2 == offset / 4;
    if offset / 2 != 0 {
      assert BitAnd(offset / 2, 0x7E) == 2 * BitAnd(offset / 2 / 2, 0x3F);
      assert BitAnd(offset, 0xFC) == 2 * BitAnd(offset / 2, 0x7E);
    } else if offset != 0 {
      assert BitAnd(offset, 0xFC) == 2 * BitAnd(0, 0x7E);
    }
  }

  // ----- the configuration space -----

  /** The configuration address of section 3.2.2.3.2 of the PCI Local Bus Specification 3.0. */
  function ConfigAddress(bus: nat, device: nat, func: nat, offset: nat): nat {
    BitOr(BitOr(BitOr(BitOr(ShiftLeft(bus, 16), ShiftLeft(device, 11)), ShiftLeft(func, 8)), BitAnd(offset, 0xFC)), 0x8000_0000)
  }

  lemma Powers()
    ensures Pow2(8) == 0x100 && Pow2(11) == 0x800 && Pow2(16) == 0x1_0000 && Pow2(31) == 0x8000_0000
  {
    assert Pow2(2) == 4;
    PowerSum(2, 2);
    PowerSum(4, 4);
    PowerSum(8, 8);
    PowerSum(8, 2);
    PowerSum(10, 1);
    PowerSum(16, 11);
    PowerSum(27, 4);
  }

  lemma {:induction false} PowerSum(j: nat, k: nat)
    ensures Pow2(j + k) == Pow2(j) * Pow2(k)
  {
    if k > 0 {
      PowerSum(j, k - 1);
    }
  }

  lemma ShiftValues(x: nat)
    ensures ShiftLeft(x, 8) == 0x100 * x && ShiftLeft(x, 11) == 0x800 * x && ShiftLeft(x, 16) == 0x1_0000 * x
  {
    Powers();
  }

  lemma {:induction false} JoinDevice(bus: nat, device: nat)
    requires device < 0x20
    ensures BitOr(ShiftLeft(bus, 16), ShiftLeft(device, 11)) == ShiftLeft(0x20 * bus + device, 11)
  {
    Powers();
    ShiftValues(bus);
    ShiftValues(device);
    ShiftValues(0x20 * bus + device);
    OrApart(bus, 16, 0x800 * device);
  }

  lemma {:induction false} JoinFields(bus: nat, device: nat, func: nat)
    requires device < 0x20 && func < 8
    ensures BitOr(BitOr(ShiftLeft(bus, 16), ShiftLeft(device, 11)), ShiftLeft(func, 8))
            == ShiftLeft(0x100 * bus + 8 * device + func, 8)
  {
    JoinDevice(bus, device);
    Powers();
    ShiftValues(func);
    ShiftValues(0x20 * bus + device);
    ShiftValues(0x100 * bus + 8 * device + func);
    OrApart(0x20 * bus + device, 11, 0x100 * func);
  }

  /** Joining with a single bit above the others. */
  lemma {:induction false} JoinTop(k: nat, x: nat)
    requires x < Pow2(k)
    ensures BitOr(x, Pow2(k)) == Pow2(k) + x
  {
    OrSwapped(x, Pow2(k));
    assert ShiftLeft(1, k) == Pow2(k);
    OrApart(1, k, x);
  }

  /** The fields do not overlap, so joining them adds them up. */
  lemma {:induction false} FieldsAddUp(bus: nat, device: nat, func: nat, offset: nat)
    requires bus < 0x100 && device < 0x20 && func < 8 && offset < 0x100
    ensures ConfigAddress(bus, device, func, offset)
            == 0x8000_0000 + 0x1_0000 * bus + 0x800 * device + 0x100 * func + 4 * (offset / 4) < TWO_32
  {
    JoinFields(bus, device, func);
    AndMask(offset);
    var high, low := 0x100 * bus + 8 * device + func, 4 * (offset / 4);
    ShiftValues(high);
    Powers();
    OrApart(high, 8, low);
    JoinTop(31, ShiftLeft(high, 8) + low);
  }

  /** Different registers have different addresses. */
  lemma AddressDetermines(bus: nat, device: nat, func: nat, offset: nat, bus': nat, device': nat, func': nat, offset': nat)
    requires bus < 0x100 && device < 0x20 && func < 8 && offset < 0x100
    requires bus' < 0x100 && device' < 0x20 && func' < 8 && offset' < 0x100
    ensures ConfigAddress(bus, device, func, offset) == ConfigAddress(bus', device', func', offset')
            <==> bus == bus' && device == device' && func == func' && offset / 4 == offset' / 4
  {
    FieldsAddUp(bus, device, func, offset);
    FieldsAddUp(bus', device', func', offset');
    var (o, o') := (offset / 4, offset' / 4);
    FieldsDetermine(bus, 0x200 * device + 0x40 * func + o, bus', 0x200 * device' + 0x40 * func' + o', 0x4000);
    FieldsDetermine(device, 0x40 * func + o, device', 0x40 * func' + o', 0x200);
    FieldsDetermine(func, o, func', o', 0x40);
  }

  lemma FieldsDetermine(high: nat, low: nat, high': nat, low': nat, size: nat)
    requires low < size && low' < size && size in {0x4000, 0x200, 0x40}
    ensures size * high + low == size * high' + low' <==> high == high' && low == low'
  {
  }

  /** An arithmetic shift to the right by `n` bytes. */
  function ShiftRight(x: int, n: nat): int {
    if n == 0 then x else if n == 1 then x / 0x100 else if n == 2 then x / 0x1_0000 else x / 0x100_0000
  }

  /** The value of a signed variable that is assigned a word. */
  function AsSigned(w: Word): int {
    if w < 0x8000_0000 then w else w - TWO_32
  }

  /** What reading a register returns: the double word of its address, shifted as a signed number. */
  function Register(ports: nat -> Word, bus: nat, device: nat, func: nat, offset: nat): Word
    requires bus < 0x100 && device < 0x20 && func < 8 && offset < 0x100
  {
    ShiftRight(AsSigned(ports(ConfigAddress(bus, device, func, offset))), offset % 4) % TWO_32
  }

  /** The low bytes of a register are those of the double word from its offset on, in spite of the
      sign: as many as are left there. */
  lemma RegisterBytes(ports: nat -> Word, bus: nat, device: nat, func: nat, offset: nat)
    requires bus < 0x100 && device < 0x20 && func < 8 && offset < 0x100
    ensures var dword := ports(ConfigAddress(bus, device, func, offset));
            && Register(ports, bus, device, func, offset) % 0x100 == ShiftRight(dword, offset % 4) % 0x100
            && (offset % 4 <= 2 ==> Register(ports, bus, device, func, offset) % 0x1_0000 == ShiftRight(dword, offset % 4) % 0x1_0000)
            && (offset % 4 == 0 ==> Register(ports, bus, device, func, offset) == dword)
  {
    SignedBytes(ports(ConfigAddress(bus, device, func, offset)), offset % 4);
  }

  lemma SignedBytes(w: Word, n: nat)
    requires n < 4
    ensures ShiftRight(AsSigned(w), n) % TWO_32 % 0x100 == ShiftRight(w, n) % 0x100
    ensures n <= 2 ==> ShiftRight(AsSigned(w), n) % TWO_32 % 0x1_0000 == ShiftRight(w, n) % 0x1_0000
    ensures n == 0 ==> ShiftRight(AsSigned(w), n) % TWO_32 == w
  {
    var x, y := ShiftRight(AsSigned(w), n), ShiftRight(w, n);
    LowBytes(x);
    BytesShifted(w, n);
    assert n == 0 ==> x % TWO_32 == w;
  }

  /** Shifting a negative number gives the unsigned result less a power of 2 above its low bytes. */
  lemma ShiftedSigned(w: Word, n: nat)
    requires n < 4
    ensures AsSigned(w) == w || ShiftRight(AsSigned(w), n) == ShiftRight(w, n) -
              if n == 0 then 0x1_0000 * 0x1_0000 else if n == 1 then 0x1_0000 * 0x100 else if n == 2 then 0x1_0000 else 0x100
  {
  }

  lemma SameLowBytes(x: int, y: int, k: int)
    requires x == y - 0x100 * k
    ensures x % 0x100 == y % 0x100
  {
  }

  lemma SameLowHalf(x: int, y: int, k: int)
    requires x == y - 0x1_0000 * k
    ensures x % 0x1_0000 == y % 0x1_0000
  {
  }

  lemma BytesShifted(w: Word, n: nat)
    requires n < 4
    ensures ShiftRight(AsSigned(w), n) % 0x100 == ShiftRight(w, n) % 0x100
    ensures n <= 2 ==> ShiftRight(AsSigned(w), n) % 0x1_0000 == ShiftRight(w, n) % 0x1_0000
  {
    ShiftedSigned(w, n);
    if AsSigned(w) != w {
      var k := if n == 0 then 0x1_0000 else if n == 1 then 0x100 else 1;
      SameLowBytes(ShiftRight(AsSigned(w), n), ShiftRight(w, n), if n == 3 then 1 else 0x100 * k);
      if n <= 2 {
        SameLowHalf(ShiftRight(AsSigned(w), n), ShiftRight(w, n), k);
      }
    }
  }

  lemma LowBytes(x: int)
    ensures x % TWO_32 % 0x100 == x % 0x100 && x % TWO_32 % 0x1_0000 == x % 0x1_0000
  {
    var q, r := x / TWO_32, x % TWO_32;
    assert x == r + 0x1_0000 * (0x1_0000 * q);
    assert x == r + 0x100 * (0x100_0000 * q);
  }

  /** `reg` are the registers that the configuration ports give access to. */
  ghost predicate Serves(ports: nat -> Word, reg: Registers) {
    forall bus: nat, device: nat, func: nat, offset: nat {:trigger Register(ports, bus, device, func, offset)} ::
      bus < 0x100 && device < 0x20 && func < 8 && offset < 0x100 ==>
        reg(bus, device, func, offset) == Register(ports, bus, device, func, offset)
  }

  function RegistersOf(ports: nat -> Word): Registers {
    (bus, device, func, offset) =>
      if bus < 0x100 && device < 0x20 && func < 8 && offset < 0x100 then Register(ports, bus, device, func, offset) else 0
  }

  lemma PortsServe(ports: nat -> Word)
    ensures Serves(ports, RegistersOf(ports))
  {
  }
}
