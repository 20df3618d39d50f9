/** The scan that lists every function found in the PCI configuration space. */
module Pci {
  import opened Arithmetic
  import opened LinkedList
  import opened PhysicalMemory
  import opened PciTree
  import opened PciConfig
  import opened PciPorts

  function Reversed(s: seq<Function>): (r: seq<Function>)
    ensures |r| == |s|
  {
    if s == [] then [] else Reversed(s[1..]) + [s[0]]
  }

  lemma {:induction false} ReversedJoin(a: seq<Function>, b: seq<Function>)
    ensures Reversed(a + b) == Reversed(b) + Reversed(a)
  {
    if a == [] {
      assert a + b == b;
    } else {
      assert (a + b)[1..] == a[1..] + b;
      ReversedJoin(a[1..], b);
    }
  }

  lemma {:induction false} ReversedMembers(s: seq<Function>, y: Function)
    ensures y in Reversed(s) <==> y in s
  {
    if s != [] {
      ReversedMembers(s[1..], y);
      assert s == [s[0]] + s[1..];
    }
  }

  /** Listing `first` takes it off the front of what is still to be listed. */
  lemma ListFirst(first: seq<Function>, rest: seq<Function>, listed: seq<Function>)
    ensures Reversed(first + rest) + listed == Reversed(rest) + (Reversed(first) + listed)
  {
    ReversedJoin(first, rest);
  }

  lemma ListOne(x: Function, behind: seq<Function>, listed: seq<Function>)
    ensures [x] + (Reversed(behind) + listed) == Reversed(behind + [x]) + listed
  {
    ReversedJoin(behind, [x]);
  }

  class Scanner {
    /** What the data port returns for an address. */
    const ports: nat -> Word
    const devices: List<Function>

    constructor (ports: nat -> Word, devices: List<Function>)
      ensures this.ports == ports && this.devices == devices
    {
      this.ports, this.devices := ports, devices;
    }

    /** Reads a register; whatever the sign of the double word, the low byte, half word or whole that is
        asked for is right. */
    method ReadRegister(bus: nat, device: nat, func: nat, offset: nat, ghost c: Space) returns (value: Word)
      requires bus < BUSES && device < DEVICES && func < FUNCTIONS && offset < 0x100 && Serves(ports, c.reg)
      ensures value == c.reg(bus, device, func, offset)
      ensures var dword := ports(0x8000_0000 + 0x1_0000 * bus + 0x800 * device + 0x100 * func + 4 * (offset / 4));
              && value % 0x100 == ShiftRight(dword, offset % 4) % 0x100
              && (offset % 4 <= 2 ==> value % 0x1_0000 == ShiftRight(dword, offset % 4) % 0x1_0000)
              && (offset % 4 == 0 ==> value == dword)
    {
      var temp := AsSigned(ports(ConfigAddress(bus, device, func, offset)));
      value := ShiftRight(temp, offset % 4) % TWO_32;
      assert value == Register(ports, bus, device, func, offset);
      FieldsAddUp(bus, device, func, offset);
      RegisterBytes(ports, bus, device, func, offset);
    }

    /** Lists a function, after everything behind it if it is a bridge. */
    method CheckFunction(bus: nat, device: nat, func: nat, ghost c: Space)
      requires bus < BUSES && device < DEVICES && func < FUNCTIONS && Serves(ports, c.reg) && devices.Valid()
      requires c.Valid() && bus in c.ends && Met(c.reg, At(c.reg, bus, device, func))
      modifies devices
      ensures devices.Valid() && fresh(set n | n in devices.nodes && n !in old(devices.nodes))
      ensures devices.values == Reversed(FunctionTrail(c, At(c.reg, bus, device, func))) + old(devices.values)
      decreases c.depth(bus), 0
    {
      var classCode := ReadRegister(bus, device, func, 0xB, c);
      var subclassCode := ReadRegister(bus, device, func, 0xA, c);
      var newDev := Function(bus, device, func, classCode % 0x100, subclassCode % 0x100);
      ghost var behind, listed := [], devices.values;
      if newDev.classCode == 0x6 && newDev.subclassCode == 0x4 {
        var bus2 := ReadRegister(bus, device, func, 0x1A, c);
        assert Met(c.reg, newDev) && bus2 % 0x100 == Secondary(c.reg, newDev);
        behind := BusTrail(c, bus2 % 0x100, 0);
        ScanBus(bus2 % 0x100, c);
      }
      ListOne(newDev, behind, listed);
      var _ := devices.AddHead(newDev, true);
    }

    /** Lists one more function of a device, if it is there. */
    method ScanFunction(bus: nat, device: nat, func: nat, ghost c: Space)
      requires bus < BUSES && device < DEVICES && Serves(ports, c.reg) && devices.Valid() && c.Valid() && bus in c.ends
      requires Present(c.reg, bus, device, 0) && MultiFunction(c.reg, bus, device) && 1 <= func < FUNCTIONS
      modifies devices
      ensures devices.Valid() && fresh(set n | n in devices.nodes && n !in old(devices.nodes))
      ensures Reversed(FunctionsTrail(c, bus, device, func + 1)) + devices.values
              == Reversed(FunctionsTrail(c, bus, device, func)) + old(devices.values)
      decreases c.depth(bus), 1
    {
      FunctionsNext(c, bus, device, func);
      var vendorId := ReadRegister(bus, device, func, 0x0, c);
      if vendorId % 0x1_0000 != 0xFFFF {
        ListFirst(FunctionTrail(c, At(c.reg, bus, device, func)), FunctionsTrail(c, bus, device, func + 1), devices.values);
        CheckFunction(bus, device, func, c);
      }
    }

    /** Lists functions 1 to 7 of a device that has several. */
    method ScanFunctions(bus: nat, device: nat, ghost c: Space)
      requires bus < BUSES && device < DEVICES && Serves(ports, c.reg) && devices.Valid() && c.Valid() && bus in c.ends
      requires Present(c.reg, bus, device, 0) && MultiFunction(c.reg, bus, device)
      modifies devices
      ensures devices.Valid() && fresh(set n | n in devices.nodes && n !in old(devices.nodes))
      ensures devices.values == Reversed(FunctionsTrail(c, bus, device, 1)) + old(devices.values)
      decreases c.depth(bus), 2
    {
      ghost var all := Reversed(FunctionsTrail(c, bus, device, 1)) + devices.values;
      var func := 1;
      while func < 8
        invariant 1 <= func <= 8 && devices.Valid() && fresh(set n | n in devices.nodes && n !in old(devices.nodes))
        invariant Reversed(FunctionsTrail(c, bus, device, func)) + devices.values == all
      {
        ScanFunction(bus, device, func, c);
        func := func + 1;
      }
    }

    method ScanDevice(bus: nat, device: nat, ghost c: Space)
      requires bus < BUSES && device < DEVICES && Serves(ports, c.reg) && devices.Valid() && c.Valid() && bus in c.ends
      modifies devices
      ensures devices.Valid() && fresh(set n | n in devices.nodes && n !in old(devices.nodes))
      ensures devices.values == Reversed(DeviceTrail(c, bus, device)) + old(devices.values)
      decreases c.depth(bus), 3
    {
      ghost var listed := devices.values;
      var vendorId := ReadRegister(bus, device, 0, 0x0, c);
      if vendorId % 0x1_0000 == 0xFFFF {
        return;
      }
      DeviceTrailIs(c, bus, device);
      CheckFunction(bus, device, 0, c);
      var headerType := ReadRegister(bus, device, 0, 0xE, c);
      if headerType % 0x100 >= 0x80 {
        ListFirst(FunctionTrail(c, At(c.reg, bus, device, 0)), FunctionsTrail(c, bus, device, 1), listed);
        ScanFunctions(bus, device, c);
      }
    }

    /** Lists every function on a bus and behind its bridges. */
    method ScanBus(bus: nat, ghost c: Space)
      requires bus < BUSES && Serves(ports, c.reg) && devices.Valid() && c.Valid() && bus in c.ends
      modifies devices
      ensures devices.Valid() && fresh(set n | n in devices.nodes && n !in old(devices.nodes))
      ensures devices.values == Reversed(BusTrail(c, bus, 0)) + old(devices.values)
      decreases c.depth(bus), 4
    {
      ghost var listed := devices.values;
      var device := 0;
      while device < 32
        invariant device <= 32 && devices.Valid() && fresh(set n | n in devices.nodes && n !in old(devices.nodes))
        invariant Reversed(BusTrail(c, bus, device)) + devices.values == Reversed(BusTrail(c, bus, 0)) + listed
      {
        ListFirst(DeviceTrail(c, bus, device), BusTrail(c, bus, device + 1), devices.values);
        ScanDevice(bus, device, c);
        device := device + 1;
      }
    }

    /** The scan of a machine that has just started: everything reachable from bus 0, if no path of
        bridges from there leads into a circle. */
    method Initialize(ghost c: Space)
      requires devices.Valid() && devices.values == [] && c == SpaceOf(RegistersOf(ports)) && !Circular(c.reg, 0)
      modifies devices
      ensures devices.Valid() && c.Valid() && 0 in c.ends && devices.values == Reversed(BusTrail(c, 0, 0))
      ensures forall y :: y in devices.values <==> Listed(ports, 2, y)
    {
      SpaceValid(c.reg);
      EndsExactlyWhen(c.reg, 0);
      PortsServe(ports);
      ScanBus(0, c);
      forall y
        ensures y in devices.values <==> Listed(ports, 2, y)
      {
        assert devices.values == Reversed(BusTrail(c, 0, 0)) + [];
        ReversedMembers(BusTrail(c, 0, 0), y);
        ReachableExactly(c, 0, y);
        ReachableListed(ports, c.reg, y);
      }
    }
  }
}
