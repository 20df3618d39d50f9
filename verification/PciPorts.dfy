/** What a scan lists, in terms of the words that the configuration ports return. */
module PciPorts {
  import opened Arithmetic
  import opened PhysicalMemory
  import opened PciTree
  import opened PciConfig

  /** Where the words of a function begin. */
  function Header(bus: nat, device: nat, func: nat): nat {
    0x8000_0000 + 0x1_0000 * bus + 0x800 * device + 0x100 * func
  }

  /** The vendor, in the low half of the first word, is not all ones. */
  predicate Answers(ports: nat -> Word, bus: nat, device: nat, func: nat) {
    ports(Header(bus, device, func)) % 0x1_0000 != 0xFFFF
  }

  /** The header type, byte 2 of the word at 0xC of function 0, has its high bit set. */
  predicate HasSeveral(ports: nat -> Word, bus: nat, device: nat) {
    ports(Header(bus, device, 0) + 0xC) / 0x1_0000 % 0x100 >= 0x80
  }

  /** A function that answers, with the class and subclass of the two high bytes of the word at 8. */
  predicate Found(ports: nat -> Word, x: Function) {
    && x.device < 32 && x.func < 8 && Answers(ports, x.bus, x.device, 0)
    && (x.func > 0 ==> HasSeveral(ports, x.bus, x.device) && Answers(ports, x.bus, x.device, x.func))
    && x.classCode == ports(Header(x.bus, x.device, x.func) + 8) / 0x100_0000
    && x.subclassCode == ports(Header(x.bus, x.device, x.func) + 8) / 0x1_0000 % 0x100
  }

  /** The function is a bridge from one bus to another. */
  predicate Bridges(ports: nat -> Word, x: Function) {
    ports(Header(x.bus, x.device, x.func) + 8) / 0x1_0000 == 0x0604
  }

  /** Byte `k` of the word at 0x18. Byte 1 is the number of the bus directly behind the bridge, and byte
      2 that of the last bus behind it. */
  function BusNumber(ports: nat -> Word, x: Function, k: nat): nat {
    ShiftRight(ports(Header(x.bus, x.device, x.func) + 0x18), k) % 0x100
  }

  /** A path of bridges leads from a bus to a function, going on with the bus number in byte `k`. */
  predicate LeadsVia(ports: nat -> Word, k: nat, bus: nat, path: seq<Function>, y: Function)
    decreases |path|
  {
    if path == [] then Found(ports, y) && y.bus == bus
    else
      && Found(ports, path[0]) && path[0].bus == bus && Bridges(ports, path[0])
      && LeadsVia(ports, k, BusNumber(ports, path[0], k), path[1..], y)
  }

  ghost predicate Listed(ports: nat -> Word, k: nat, y: Function) {
    exists path :: LeadsVia(ports, k, 0, path, y)
  }

  // ----- the registers are the words of the ports -----

  lemma {:induction false} ByteAt(ports: nat -> Word, reg: Registers, bus: nat, device: nat, func: nat, offset: nat)
    requires Serves(ports, reg) && bus < 0x100 && device < 0x20 && func < 8 && offset < 0x100
    ensures var w := ports(Header(bus, device, func) + 4 * (offset / 4));
            && reg(bus, device, func, offset) % 0x100 == ShiftRight(w, offset % 4) % 0x100
            && (offset % 4 == 0 ==> reg(bus, device, func, offset) == w)
  {
    FieldsAddUp(bus, device, func, offset);
    RegisterBytes(ports, bus, device, func, offset);
  }

  lemma {:induction false} ByteRead(ports: nat -> Word, reg: Registers, bus: nat, device: nat, func: nat, word: nat, k: nat)
    requires Serves(ports, reg) && bus < 0x100 && device < 0x20 && func < 8 && word in {0, 8, 0xC, 0x18} && k < 4
    ensures reg(bus, device, func, word + k) % 0x100 == ShiftRight(ports(Header(bus, device, func) + word), k) % 0x100
    ensures k == 0 ==> reg(bus, device, func, word) == ports(Header(bus, device, func) + word)
  {
    assert 4 * ((word + k) / 4) == word && (word + k) % 4 == k;
    ByteAt(ports, reg, bus, device, func, word + k);
  }

  lemma {:induction false} PresentAnswers(ports: nat -> Word, reg: Registers, bus: nat, device: nat, func: nat)
    requires Serves(ports, reg) && bus < 0x100 && device < 32 && func < 8
    ensures Present(reg, bus, device, func) <==> Answers(ports, bus, device, func)
  {
    ByteRead(ports, reg, bus, device, func, 0, 0);
  }

  lemma {:induction false} SeveralFound(ports: nat -> Word, reg: Registers, bus: nat, device: nat)
    requires Serves(ports, reg) && bus < 0x100 && device < 32
    ensures MultiFunction(reg, bus, device) <==> HasSeveral(ports, bus, device)
  {
    ByteRead(ports, reg, bus, device, 0, 0xC, 2);
  }

  lemma {:induction false} ClassFound(ports: nat -> Word, reg: Registers, bus: nat, device: nat, func: nat)
    requires Serves(ports, reg) && bus < 0x100 && device < 32 && func < 8
    ensures var (x, w) := (At(reg, bus, device, func), ports(Header(bus, device, func) + 8));
            && x == Function(bus, device, func, w / 0x100_0000, w / 0x1_0000 % 0x100)
            && (IsBridge(x) <==> w / 0x1_0000 == 0x0604)
  {
    ByteRead(ports, reg, bus, device, func, 8, 3);
    ByteRead(ports, reg, bus, device, func, 8, 2);
    HighHalf(ports(Header(bus, device, func) + 8));
  }

  lemma HighHalf(w: Word)
    ensures w / 0x1_0000 == 0x0604 <==> w / 0x100_0000 == 6 && w / 0x1_0000 % 0x100 == 4
    ensures w / 0x100_0000 % 0x100 == w / 0x100_0000
  {
  }

  /** Meeting a function is finding it. */
  lemma {:induction false} MetFound(ports: nat -> Word, reg: Registers, x: Function)
    requires Serves(ports, reg) && x.bus < 0x100
    ensures Met(reg, x) <==> Found(ports, x)
    ensures Found(ports, x) ==> (IsBridge(x) <==> Bridges(ports, x)) && Secondary(reg, x) == BusNumber(ports, x, 2)
  {
    if x.device < 32 && x.func < 8 {
      PresentAnswers(ports, reg, x.bus, x.device, 0);
      PresentAnswers(ports, reg, x.bus, x.device, x.func);
      SeveralFound(ports, reg, x.bus, x.device);
      ClassFound(ports, reg, x.bus, x.device, x.func);
      ByteRead(ports, reg, x.bus, x.device, x.func, 0x18, 2);
    }
  }

  lemma {:induction false} LeadsFound(ports: nat -> Word, reg: Registers, bus: nat, path: seq<Function>, y: Function)
    requires Serves(ports, reg) && bus < 0x100
    ensures Leads(reg, bus, path, y) <==> LeadsVia(ports, 2, bus, path, y)
    decreases |path|
  {
    if path == [] {
      if y.bus == bus {
        MetFound(ports, reg, y);
      }
    } else if path[0].bus == bus {
      MetFound(ports, reg, path[0]);
      if Found(ports, path[0]) && IsBridge(path[0]) {
        LeadsFound(ports, reg, BusNumber(ports, path[0], 2), path[1..], y);
      }
    }
  }

  /** What can be reached over the registers is what can be reached over the ports. */
  lemma ReachableListed(ports: nat -> Word, reg: Registers, y: Function)
    requires Serves(ports, reg)
    ensures Reachable(reg, 0, y) <==> Listed(ports, 2, y)
  {
    if Reachable(reg, 0, y) {
      var path :| Leads(reg, 0, path, y);
      LeadsFound(ports, reg, 0, path, y);
    }
    if Listed(ports, 2, y) {
      var path :| LeadsVia(ports, 2, 0, path, y);
      LeadsFound(ports, reg, 0, path, y);
    }
  }

  // ----- the bus directly behind a bridge -----

  /** A path ends with a bridge to the bus of the function. */
  lemma {:induction false} LeadsLast(ports: nat -> Word, k: nat, bus: nat, path: seq<Function>, x: Function, y: Function)
    ensures LeadsVia(ports, k, bus, path + [x], y) <==>
            LeadsVia(ports, k, bus, path, x) && Bridges(ports, x) && Found(ports, y) && y.bus == BusNumber(ports, x, k)
    decreases |path|
  {
    if path == [] {
      assert [] + [x] == [x] && [x][1..] == [];
    } else {
      assert (path + [x])[1..] == path[1..] + [x];
      LeadsLast(ports, k, BusNumber(ports, path[0], k), path[1..], x, y);
    }
  }

  ghost predicate Vacant(ports: nat -> Word, bus: nat) {
    forall y :: Found(ports, y) ==> y.bus != bus
  }

  /** The bus number taken for every bridge that is listed is that of the bus directly behind it, unless
      there is nothing on either. */
  ghost predicate BusesAgree(ports: nat -> Word) {
    forall x {:trigger Bridges(ports, x)} :: Listed(ports, 2, x) && Bridges(ports, x) ==>
      || BusNumber(ports, x, 1) == BusNumber(ports, x, 2)
      || (Vacant(ports, BusNumber(ports, x, 1)) && Vacant(ports, BusNumber(ports, x, 2)))
  }

  /** Byte 2 leads along the same paths as byte 1. */
  ghost predicate SamePaths(ports: nat -> Word) {
    forall path, y :: LeadsVia(ports, 2, 0, path, y) <==> LeadsVia(ports, 1, 0, path, y)
  }

  /** The scan takes byte 2 for the number of the bus behind a bridge. It follows the paths that byte 1
      gives, and no others, exactly when the two agree for every bridge it lists that has anything on
      either bus. */
  lemma SecondaryExactlyWhen(ports: nat -> Word)
    ensures SamePaths(ports) <==> BusesAgree(ports)
  {
    if BusesAgree(ports) {
      forall path, y
        ensures LeadsVia(ports, 2, 0, path, y) <==> LeadsVia(ports, 1, 0, path, y)
      {
        AgreeAlong(ports, path, y);
      }
    }
    if SamePaths(ports) {
      forall x {:trigger Bridges(ports, x)} | Listed(ports, 2, x) && Bridges(ports, x) && BusNumber(ports, x, 1) != BusNumber(ports, x, 2)
        ensures Vacant(ports, BusNumber(ports, x, 1)) && Vacant(ports, BusNumber(ports, x, 2))
      {
        BothVacant(ports, x);
      }
    }
  }

  lemma BothVacant(ports: nat -> Word, x: Function)
    requires SamePaths(ports) && Listed(ports, 2, x) && Bridges(ports, x) && BusNumber(ports, x, 1) != BusNumber(ports, x, 2)
    ensures Vacant(ports, BusNumber(ports, x, 1)) && Vacant(ports, BusNumber(ports, x, 2))
  {
    var path :| LeadsVia(ports, 2, 0, path, x);
    forall y
      ensures Found(ports, y) ==> y.bus != BusNumber(ports, x, 1) && y.bus != BusNumber(ports, x, 2)
    {
      LeadsLast(ports, 1, 0, path, x, y);
      LeadsLast(ports, 2, 0, path, x, y);
    }
  }

  lemma {:induction false} AgreeAlong(ports: nat -> Word, path: seq<Function>, y: Function)
    requires BusesAgree(ports)
    ensures LeadsVia(ports, 2, 0, path, y) <==> LeadsVia(ports, 1, 0, path, y)
    decreases |path|
  {
    if path != [] {
      var (front, x) := (path[..|path| - 1], path[|path| - 1]);
      assert path == front + [x];
      AgreeAlong(ports, front, x);
      LeadsLast(ports, 1, 0, front, x, y);
      LeadsLast(ports, 2, 0, front, x, y);
      if Bridges(ports, x) && LeadsVia(ports, 2, 0, front, x) {
        assert Listed(ports, 2, x);
      }
    }
  }

  /** A bridge to bus 1 with another bus behind that: bus 1 has a function, and the scan goes to bus 2. */
  const NESTED: nat -> Word :=
    a => if a == 0x8000_0800 then 0x1234_8086
         else if a == 0x8000_0808 then 0x0604_0000
         else if a == 0x8000_0818 then 0x0002_0100
         else if a == 0x8001_0000 then 0x1234_8086
         else 0xFFFF_FFFF

  lemma NotBehind(z: Function)
    requires Bridges(NESTED, z)
    ensures BusNumber(NESTED, z, 2) == 2
  {
    assert Header(z.bus, z.device, z.func) == 0x8000_0800;
  }

  lemma BusMissed()
    ensures var y := Function(1, 0, 0, 0xFF, 0xFF); Listed(NESTED, 1, y) && !Listed(NESTED, 2, y)
  {
    var (x, y) := (Function(0, 1, 0, 6, 4), Function(1, 0, 0, 0xFF, 0xFF));
    assert LeadsVia(NESTED, 1, 1, [x][1..], y);
    assert LeadsVia(NESTED, 1, 0, [x], y);
    forall path
      ensures !LeadsVia(NESTED, 2, 0, path, y)
    {
      if path != [] {
        var (front, z) := (path[..|path| - 1], path[|path| - 1]);
        assert path == front + [z];
        LeadsLast(NESTED, 2, 0, front, z, y);
        if Bridges(NESTED, z) {
          NotBehind(z);
        }
      }
    }
  }
}
