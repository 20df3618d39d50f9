/** The functions on a PCI bus and behind its bridges, in the order in which a scan meets them. */
module PciTree {
  import opened PhysicalMemory

  const BUSES: nat := 256
  const DEVICES: nat := 32
  const FUNCTIONS: nat := 8

  /** A function, with what the kernel keeps of it. */
  datatype Function = Function(bus: nat, device: nat, func: nat, classCode: nat, subclassCode: nat)

  /** Reads of the configuration space: bus, device, function and register offset. */
  type Registers = (nat, nat, nat, nat) -> Word

  function Vendor(reg: Registers, bus: nat, device: nat, func: nat): nat {
    reg(bus, device, func, 0x0) % 0x1_0000
  }

  predicate Present(reg: Registers, bus: nat, device: nat, func: nat) {
    Vendor(reg, bus, device, func) != 0xFFFF
  }

  function HeaderType(reg: Registers, bus: nat, device: nat): Byte {
    reg(bus, device, 0, 0xE) % 0x100
  }

  predicate MultiFunction(reg: Registers, bus: nat, device: nat) {
    HeaderType(reg, bus, device) >= 0x80
  }

  function At(reg: Registers, bus: nat, device: nat, func: nat): (x: Function)
    ensures x.bus == bus && x.device == device && x.func == func
  {
    Function(bus, device, func, reg(bus, device, func, 0xB) % 0x100, reg(bus, device, func, 0xA) % 0x100)
  }

  predicate IsBridge(x: Function) {
    x.classCode == 0x6 && x.subclassCode == 0x4
  }

  function Secondary(reg: Registers, x: Function): (bus: nat)
    ensures bus < BUSES
  {
    reg(x.bus, x.device, x.func, 0x1A) % 0x100
  }

  /** The function can be met on a scan of its bus: function 0 must be present, and any other only
      counts if the device has several. */
  predicate Met(reg: Registers, x: Function) {
    && x.device < DEVICES && x.func < FUNCTIONS && x == At(reg, x.bus, x.device, x.func)
    && Present(reg, x.bus, x.device, 0)
    && (x.func > 0 ==> MultiFunction(reg, x.bus, x.device) && Present(reg, x.bus, x.device, x.func))
  }

  // ----- paths of bridges -----

  /** A path of bridges leads from a bus to a function. */
  ghost predicate Leads(reg: Registers, bus: nat, path: seq<Function>, y: Function)
    decreases |path|
  {
    if path == [] then Met(reg, y) && y.bus == bus
    else Met(reg, path[0]) && path[0].bus == bus && IsBridge(path[0]) && Leads(reg, Secondary(reg, path[0]), path[1..], y)
  }

  ghost predicate Reachable(reg: Registers, bus: nat, y: Function) {
    exists path :: Leads(reg, bus, path, y)
  }

  /** There is something on the bus. */
  ghost predicate Occupied(reg: Registers, bus: nat) {
    exists y :: Met(reg, y) && y.bus == bus
  }

  // ----- when the scan ends -----

  /** The scan of a bus goes no more than `d` levels deep. */
  ghost predicate EndsWithin(reg: Registers, bus: nat, d: nat)
    decreases d
  {
    forall x: Function {:trigger Secondary(reg, x)} ::
      Met(reg, x) && x.bus == bus && IsBridge(x) ==> d > 0 && EndsWithin(reg, Secondary(reg, x), d - 1)
  }

  /** The scan of a bus, which calls itself for the bus behind every bridge, ends. */
  ghost predicate Ends(reg: Registers, bus: nat) {
    exists d: nat :: EndsWithin(reg, bus, d)
  }

  lemma {:induction false} EndsLater(reg: Registers, bus: nat, d: nat, e: nat)
    requires EndsWithin(reg, bus, d) && d <= e
    ensures EndsWithin(reg, bus, e)
    decreases d
  {
    forall x: Function {:trigger Secondary(reg, x)} | Met(reg, x) && x.bus == bus && IsBridge(x)
      ensures e > 0 && EndsWithin(reg, Secondary(reg, x), e - 1)
    {
      EndsLater(reg, Secondary(reg, x), d - 1, e - 1);
    }
  }

  ghost function Least(reg: Registers, bus: nat, d: nat): (e: nat)
    requires EndsWithin(reg, bus, d)
    ensures EndsWithin(reg, bus, e) && (e > 0 ==> !EndsWithin(reg, bus, e - 1))
  {
    if d == 0 || !EndsWithin(reg, bus, d - 1) then d else Least(reg, bus, d - 1)
  }

  /** How many levels deep the scan of a bus goes. */
  ghost function Depth(reg: Registers, bus: nat): nat
    requires Ends(reg, bus)
  {
    var d: nat :| EndsWithin(reg, bus, d);
    Least(reg, bus, d)
  }

  lemma {:induction false} DepthLeast(reg: Registers, bus: nat)
    requires Ends(reg, bus)
    ensures EndsWithin(reg, bus, Depth(reg, bus))
    ensures Depth(reg, bus) > 0 ==> !EndsWithin(reg, bus, Depth(reg, bus) - 1)
  {
  }

  lemma DepthFalls(reg: Registers, x: Function)
    requires Ends(reg, x.bus) && Met(reg, x) && IsBridge(x)
    ensures Ends(reg, Secondary(reg, x)) && Depth(reg, Secondary(reg, x)) < Depth(reg, x.bus)
  {
    var d, bus := Depth(reg, x.bus), Secondary(reg, x);
    DepthLeast(reg, x.bus);
    assert EndsWithin(reg, bus, d - 1);
    DepthLeast(reg, bus);
    if Depth(reg, bus) >= d {
      EndsLater(reg, bus, d - 1, Depth(reg, bus) - 1);
    }
  }

  /** A path of bridges leads to a bridge from which a path of bridges leads back to it. */
  ghost predicate Circular(reg: Registers, bus: nat) {
    exists path, x, back :: Leads(reg, bus, path, x) && IsBridge(x) && Leads(reg, Secondary(reg, x), back, x)
  }

  lemma {:induction false} EndsAlong(reg: Registers, bus: nat, path: seq<Function>, y: Function)
    requires Ends(reg, bus) && Leads(reg, bus, path, y)
    ensures Ends(reg, y.bus) && Depth(reg, y.bus) <= Depth(reg, bus)
    decreases |path|
  {
    if path != [] {
      DepthFalls(reg, path[0]);
      EndsAlong(reg, Secondary(reg, path[0]), path[1..], y);
    }
  }

  /** A scan that goes deeper than `d` levels has a chain of bridges of that length to go down. */
  lemma {:induction false} Chain(reg: Registers, bus: nat, d: nat) returns (xs: seq<Function>)
    requires !EndsWithin(reg, bus, d) && bus < BUSES
    ensures |xs| == d + 1 && Linked(reg, xs) && xs[0].bus == bus
    decreases d
  {
    var x :| Met(reg, x) && x.bus == bus && IsBridge(x) && !(d > 0 && EndsWithin(reg, Secondary(reg, x), d - 1));
    xs := [x];
    if d > 0 {
      var rest := Chain(reg, Secondary(reg, x), d - 1);
      xs := [x] + rest;
    }
  }

  /** Every bridge leads to the bus of the next one. */
  ghost predicate Linked(reg: Registers, xs: seq<Function>) {
    && (forall i :: 0 <= i < |xs| ==> Met(reg, xs[i]) && IsBridge(xs[i]) && xs[i].bus < BUSES)
    && (forall i :: 0 <= i < |xs| - 1 ==> xs[i + 1].bus == Secondary(reg, xs[i]))
  }

  lemma {:induction false} LinkedLeads(reg: Registers, xs: seq<Function>, bus: nat, y: Function)
    requires Linked(reg, xs) && Met(reg, y) && bus == (if xs == [] then y.bus else xs[0].bus)
    requires xs != [] ==> y.bus == Secondary(reg, xs[|xs| - 1])
    ensures Leads(reg, bus, xs, y)
  {
    if xs != [] {
      LinkedLeads(reg, xs[1..], Secondary(reg, xs[0]), y);
    }
  }

  /** There are no more than n different numbers below n. */
  lemma {:induction false} Pigeonhole(s: seq<nat>, n: nat) returns (i: nat, j: nat)
    requires |s| > n && forall k :: 0 <= k < |s| ==> s[k] < n
    ensures i < j < |s| && s[i] == s[j]
    decreases n
  {
    var last := s[|s| - 1];
    i, j := 0, |s| - 1;
    while i < j && s[i] != last
      invariant 0 <= i <= j && forall k :: 0 <= k < i ==> s[k] != last
    {
      i := i + 1;
    }
    if i == j {
      var t := seq(j, k requires 0 <= k < j => if s[k] > last then s[k] - 1 else s[k]);
      i, j := Pigeonhole(t, n - 1);
    }
  }

  lemma {:induction false} CircleEndless(reg: Registers, bus: nat, path: seq<Function>, x: Function, back: seq<Function>)
    requires Leads(reg, bus, path, x) && IsBridge(x) && Leads(reg, Secondary(reg, x), back, x)
    ensures !Ends(reg, bus)
  {
    if Ends(reg, bus) {
      EndsAlong(reg, bus, path, x);
      LeadsMet(reg, bus, path, x);
      DepthFalls(reg, x);
      EndsAlong(reg, Secondary(reg, x), back, x);
    }
  }

  lemma {:induction false} LinkedPart(reg: Registers, xs: seq<Function>, i: nat, j: nat)
    requires Linked(reg, xs) && i <= j <= |xs|
    ensures Linked(reg, xs[i..j])
  {
    var ys := xs[i..j];
    assert forall k :: 0 <= k < |ys| ==> ys[k] == xs[i + k];
  }

  lemma {:induction false} ChainCircular(reg: Registers, xs: seq<Function>, i: nat, j: nat)
    requires Linked(reg, xs) && i < j < |xs| && xs[i].bus == xs[j].bus
    ensures Circular(reg, xs[0].bus)
  {
    var x := xs[i];
    LinkedPart(reg, xs, 0, i);
    LinkedPart(reg, xs, i + 1, j);
    assert xs[0..i] == xs[..i];
    LinkedLeads(reg, xs[..i], xs[0].bus, x);
    LinkedLeads(reg, xs[i + 1..j], Secondary(reg, x), x);
  }

  lemma {:induction false} EndlessCircular(reg: Registers, bus: nat, n: nat)
    requires bus < BUSES <= n && !EndsWithin(reg, bus, n)
    ensures Circular(reg, bus)
  {
    var xs := Chain(reg, bus, n);
    var numbers := seq(|xs|, k requires 0 <= k < |xs| => xs[k].bus);
    var i, j := Pigeonhole(numbers, n);
    assert xs[i].bus == numbers[i] == numbers[j] == xs[j].bus;
    ChainCircular(reg, xs, i, j);
  }

  /** The scan of a bus ends exactly when no path of bridges from it leads into a circle. */
  lemma {:induction false} EndsExactlyWhen(reg: Registers, bus: nat)
    requires bus < BUSES
    ensures Ends(reg, bus) <==> !Circular(reg, bus)
  {
    if Circular(reg, bus) {
      var path, x, back :| Leads(reg, bus, path, x) && IsBridge(x) && Leads(reg, Secondary(reg, x), back, x);
      CircleEndless(reg, bus, path, x, back);
    }
    if !Ends(reg, bus) {
      var n: nat :| n >= BUSES;
      EndlessCircular(reg, bus, n);
    }
  }

  lemma {:induction false} LeadsMet(reg: Registers, bus: nat, path: seq<Function>, y: Function)
    requires Leads(reg, bus, path, y)
    ensures Met(reg, y)
    decreases |path|
  {
    if path != [] {
      LeadsMet(reg, Secondary(reg, path[0]), path[1..], y);
    }
  }

  /** It ends in particular if every bridge leads to a bus with a higher number. */
  lemma {:induction false} RisingEnds(reg: Registers, bus: nat)
    requires bus < BUSES
    requires forall x: Function {:trigger Secondary(reg, x)} ::
               Met(reg, x) && x.bus < BUSES && IsBridge(x) ==> x.bus < Secondary(reg, x)
    ensures EndsWithin(reg, bus, BUSES - bus)
    decreases BUSES - bus
  {
    forall x: Function {:trigger Secondary(reg, x)} | Met(reg, x) && x.bus == bus && IsBridge(x)
      ensures EndsWithin(reg, Secondary(reg, x), BUSES - bus - 1)
    {
      RisingEnds(reg, Secondary(reg, x));
      EndsLater(reg, Secondary(reg, x), BUSES - Secondary(reg, x), BUSES - bus - 1);
    }
  }

  /** A configuration space with buses whose scan ends, and how deep the scan of each goes. */
  datatype Space = Space(reg: Registers, ends: iset<nat>, depth: nat -> nat) {
    /** Every bridge on such a bus leads to another one, whose scan does not go as deep. */
    ghost predicate Valid() {
      forall x: Function {:trigger Secondary(reg, x)} ::
        Met(reg, x) && x.bus in ends && x.bus < BUSES && IsBridge(x) ==>
          Secondary(reg, x) in ends && depth(Secondary(reg, x)) < depth(x.bus)
    }
  }

  /** All buses whose scan ends. */
  ghost function SpaceOf(reg: Registers): Space {
    Space(reg, iset bus: nat | Ends(reg, bus), (bus: nat) => if Ends(reg, bus) then Depth(reg, bus) else 0)
  }

  lemma {:induction false} SpaceValid(reg: Registers)
    ensures SpaceOf(reg).Valid()
  {
    var c := SpaceOf(reg);
    forall x: Function {:trigger Secondary(reg, x)} | Met(reg, x) && x.bus in c.ends && x.bus < BUSES && IsBridge(x)
      ensures Secondary(reg, x) in c.ends && c.depth(Secondary(reg, x)) < c.depth(x.bus)
    {
      DepthFalls(reg, x);
    }
  }

  // ----- the order of the scan: what is behind a bridge comes before the bridge -----

  ghost function FunctionTrail(c: Space, x: Function): seq<Function>
    requires c.Valid() && x.bus in c.ends && Met(c.reg, x) && x.bus < BUSES
    decreases c.depth(x.bus), 0
  {
    (if IsBridge(x) then BusTrail(c, Secondary(c.reg, x), 0) else []) + [x]
  }

  /** Functions `func` and up of a device with several. */
  ghost function FunctionsTrail(c: Space, bus: nat, device: nat, func: nat): seq<Function>
    requires c.Valid() && bus in c.ends && bus < BUSES && device < DEVICES && 1 <= func <= FUNCTIONS
    requires Present(c.reg, bus, device, 0) && MultiFunction(c.reg, bus, device)
    decreases c.depth(bus), 1, FUNCTIONS - func
  {
    if func == FUNCTIONS then []
    else (if Present(c.reg, bus, device, func) then FunctionTrail(c, At(c.reg, bus, device, func)) else [])
         + FunctionsTrail(c, bus, device, func + 1)
  }

  ghost function DeviceTrail(c: Space, bus: nat, device: nat): seq<Function>
    requires c.Valid() && bus in c.ends && bus < BUSES && device < DEVICES
    decreases c.depth(bus), 2
  {
    if !Present(c.reg, bus, device, 0) then []
    else FunctionTrail(c, At(c.reg, bus, device, 0))
         + if MultiFunction(c.reg, bus, device) then FunctionsTrail(c, bus, device, 1) else []
  }

  /** Devices `device` and up of a bus. */
  ghost function BusTrail(c: Space, bus: nat, device: nat): seq<Function>
    requires c.Valid() && bus in c.ends && bus < BUSES && device <= DEVICES
    decreases c.depth(bus), 3, DEVICES - device
  {
    if device == DEVICES then [] else DeviceTrail(c, bus, device) + BusTrail(c, bus, device + 1)
  }

  lemma FunctionsNext(c: Space, bus: nat, device: nat, func: nat)
    requires c.Valid() && bus in c.ends && bus < BUSES && device < DEVICES && 1 <= func < FUNCTIONS
    requires Present(c.reg, bus, device, 0) && MultiFunction(c.reg, bus, device)
    ensures var rest := FunctionsTrail(c, bus, device, func + 1);
            FunctionsTrail(c, bus, device, func)
            == if Present(c.reg, bus, device, func) then FunctionTrail(c, At(c.reg, bus, device, func)) + rest else rest
  {
  }

  lemma DeviceTrailIs(c: Space, bus: nat, device: nat)
    requires c.Valid() && bus in c.ends && bus < BUSES && device < DEVICES && Present(c.reg, bus, device, 0)
    ensures var first := FunctionTrail(c, At(c.reg, bus, device, 0));
            DeviceTrail(c, bus, device)
            == if MultiFunction(c.reg, bus, device) then first + FunctionsTrail(c, bus, device, 1) else first
  {
  }

  // ----- exactly the reachable functions -----

  lemma {:induction false} FunctionsMembers(c: Space, bus: nat, device: nat, func: nat, y: Function) returns (x: Function)
    requires c.Valid() && bus in c.ends && bus < BUSES && device < DEVICES && 1 <= func <= FUNCTIONS
    requires Present(c.reg, bus, device, 0) && MultiFunction(c.reg, bus, device)
    requires y in FunctionsTrail(c, bus, device, func)
    ensures Met(c.reg, x) && x.bus == bus && x.device == device && x.func >= func && y in FunctionTrail(c, x)
    decreases FUNCTIONS - func
  {
    x := At(c.reg, bus, device, func);
    if !(Present(c.reg, bus, device, func) && y in FunctionTrail(c, x)) {
      x := FunctionsMembers(c, bus, device, func + 1, y);
    }
  }

  lemma DeviceMembers(c: Space, bus: nat, device: nat, y: Function) returns (x: Function)
    requires c.Valid() && bus in c.ends && bus < BUSES && device < DEVICES && y in DeviceTrail(c, bus, device)
    ensures Met(c.reg, x) && x.bus == bus && x.device == device && y in FunctionTrail(c, x)
  {
    x := At(c.reg, bus, device, 0);
    if y !in FunctionTrail(c, x) {
      x := FunctionsMembers(c, bus, device, 1, y);
    }
  }

  /** What is met from a bus on is met from one of its functions on. */
  lemma {:induction false} BusMembers(c: Space, bus: nat, device: nat, y: Function) returns (x: Function)
    requires c.Valid() && bus in c.ends && bus < BUSES && device <= DEVICES && y in BusTrail(c, bus, device)
    ensures Met(c.reg, x) && x.bus == bus && x.device >= device && y in FunctionTrail(c, x)
    ensures IsBridge(x) ==> Secondary(c.reg, x) in c.ends && c.depth(Secondary(c.reg, x)) < c.depth(bus)
    decreases DEVICES - device
  {
    if y in DeviceTrail(c, bus, device) {
      x := DeviceMembers(c, bus, device, y);
    } else {
      x := BusMembers(c, bus, device + 1, y);
    }
    if IsBridge(x) {
    }
  }

  lemma {:induction false} InFunctions(c: Space, bus: nat, device: nat, func: nat, x: Function, y: Function)
    requires c.Valid() && bus in c.ends && bus < BUSES && device < DEVICES && 1 <= func <= FUNCTIONS
    requires Present(c.reg, bus, device, 0) && MultiFunction(c.reg, bus, device)
    requires Met(c.reg, x) && x.bus == bus && x.device == device && func <= x.func && y in FunctionTrail(c, x)
    ensures y in FunctionsTrail(c, bus, device, func)
    decreases FUNCTIONS - func
  {
    var first, rest := [], FunctionsTrail(c, bus, device, func + 1);
    if func < x.func {
      InFunctions(c, bus, device, func + 1, x, y);
      if Present(c.reg, bus, device, func) {
        first := FunctionTrail(c, At(c.reg, bus, device, func));
      }
    } else {
      first := FunctionTrail(c, x);
    }
    FunctionsNext(c, bus, device, func);
    assert FunctionsTrail(c, bus, device, func) == first + rest;
  }

  lemma {:induction false} InBus(c: Space, bus: nat, device: nat, x: Function, y: Function)
    requires c.Valid() && bus in c.ends && bus < BUSES && device <= x.device
    requires Met(c.reg, x) && x.bus == bus && y in FunctionTrail(c, x)
    ensures y in BusTrail(c, bus, device)
    decreases DEVICES - device
  {
    if device < x.device {
      InBus(c, bus, device + 1, x, y);
    } else if x.func > 0 {
      InFunctions(c, bus, device, 1, x, y);
    }
  }

  lemma {:induction false} PathTo(c: Space, bus: nat, y: Function) returns (path: seq<Function>)
    requires c.Valid() && bus in c.ends && bus < BUSES && y in BusTrail(c, bus, 0)
    ensures Leads(c.reg, bus, path, y)
    decreases c.depth(bus)
  {
    var x := BusMembers(c, bus, 0, y);
    if y == x {
      path := [];
    } else {
      var rest := PathTo(c, Secondary(c.reg, x), y);
      path := [x] + rest;
      assert path[1..] == rest;
    }
  }

  lemma {:induction false} AlongPath(c: Space, bus: nat, path: seq<Function>, y: Function)
    requires c.Valid() && bus in c.ends && bus < BUSES && Leads(c.reg, bus, path, y)
    ensures y in BusTrail(c, bus, 0)
    decreases |path|
  {
    if path == [] {
      InBus(c, bus, 0, y, y);
    } else {
      AlongPath(c, Secondary(c.reg, path[0]), path[1..], y);
      InBus(c, bus, 0, path[0], y);
    }
  }

  /** A scan meets exactly the functions to which a path of bridges leads. */
  lemma ReachableExactly(c: Space, bus: nat, y: Function)
    requires c.Valid() && bus in c.ends && bus < BUSES
    ensures y in BusTrail(c, bus, 0) <==> Reachable(c.reg, bus, y)
  {
    if y in BusTrail(c, bus, 0) {
      var path := PathTo(c, bus, y);
    }
    if Reachable(c.reg, bus, y) {
      var path :| Leads(c.reg, bus, path, y);
      AlongPath(c, bus, path, y);
    }
  }

  // ----- each once -----

  lemma {:induction false} NoDeeper(c: Space, bus: nat, y: Function)
    requires c.Valid() && bus in c.ends && bus < BUSES && y in BusTrail(c, bus, 0)
    ensures Met(c.reg, y) && y.bus < BUSES && y.bus in c.ends && c.depth(y.bus) <= c.depth(bus)
    ensures y.bus != bus ==> c.depth(y.bus) < c.depth(bus)
    decreases c.depth(bus)
  {
    var x := BusMembers(c, bus, 0, y);
    if y != x {
      NoDeeper(c, Secondary(c.reg, x), y);
    }
  }

  /** The bridge behind which a function further down was met. */
  lemma {:induction false} Parent(c: Space, bus: nat, y: Function) returns (z: Function)
    requires c.Valid() && bus in c.ends && bus < BUSES && y in BusTrail(c, bus, 0) && y.bus != bus
    ensures z in BusTrail(c, bus, 0) && Met(c.reg, z) && IsBridge(z) && Secondary(c.reg, z) == y.bus && z.bus < BUSES
    ensures y.bus in c.ends && z.bus in c.ends && c.depth(y.bus) < c.depth(z.bus) <= c.depth(bus)
    decreases c.depth(bus)
  {
    var x := BusMembers(c, bus, 0, y);
    if y.bus == Secondary(c.reg, x) {
      z := x;
    } else {
      z := Parent(c, Secondary(c.reg, x), y);
    }
    InBus(c, bus, 0, x, z);
    NoDeeper(c, bus, z);
  }

  predicate Within(s: seq<Function>, t: seq<Function>) {
    forall y :: y in s ==> y in t
  }

  lemma OccupiedTrail(c: Space, bus: nat)
    requires c.Valid() && bus in c.ends && bus < BUSES
    ensures BusTrail(c, bus, 0) != [] <==> Occupied(c.reg, bus)
  {
    if BusTrail(c, bus, 0) != [] {
      var x := BusMembers(c, bus, 0, BusTrail(c, bus, 0)[0]);
    }
    if y :| Met(c.reg, y) && y.bus == bus {
      InBus(c, bus, 0, y, y);
    }
  }

  /** No bus on which there is anything lies behind two bridges of `t`. */
  ghost predicate OneParent(c: Space, t: seq<Function>)
  {
    forall p, q {:trigger p in t, q in t} ::
      (&& p in t && q in t && IsBridge(p) && IsBridge(q)
       && Secondary(c.reg, p) == Secondary(c.reg, q) && Occupied(c.reg, Secondary(c.reg, p))) ==> p == q
  }

  /** What is on the bus behind `p` is not met behind another function of the bus of `p`. */
  lemma BehindSibling(c: Space, t: seq<Function>, p: Function, q: Function, y: Function)
    requires c.Valid() && p.bus in c.ends && OneParent(c, t) && Met(c.reg, p) && Met(c.reg, q) && p != q && p.bus == q.bus < BUSES
    requires p in t && q in t && IsBridge(p) && IsBridge(q)
    requires Secondary(c.reg, q) in c.ends && Within(BusTrail(c, Secondary(c.reg, q), 0), t)
    requires y.bus == Secondary(c.reg, p) && Occupied(c.reg, y.bus)
    ensures y !in BusTrail(c, Secondary(c.reg, q), 0)
  {
    if y in BusTrail(c, Secondary(c.reg, q), 0) && y.bus != Secondary(c.reg, q) {
      var z := Parent(c, Secondary(c.reg, q), y);
    }
  }

  /** Then different functions of one bus have nothing behind them in common. */
  lemma {:induction false} Apart(c: Space, t: seq<Function>, p: Function, q: Function, y: Function)
    requires c.Valid() && p.bus in c.ends && OneParent(c, t) && Met(c.reg, p) && Met(c.reg, q) && p != q && p.bus == q.bus < BUSES
    requires Within(FunctionTrail(c, p), t) && Within(FunctionTrail(c, q), t)
    ensures !(y in FunctionTrail(c, p) && y in FunctionTrail(c, q))
    decreases if c.depth(y.bus) < c.depth(p.bus) then c.depth(p.bus) - c.depth(y.bus) else 0
  {
    if y in FunctionTrail(c, p) && y in FunctionTrail(c, q) {
      if y == p {
        NoDeeper(c, Secondary(c.reg, q), y);
      } else if y == q {
        NoDeeper(c, Secondary(c.reg, p), y);
      } else {
        NoDeeper(c, Secondary(c.reg, p), y);
        InBus(c, y.bus, 0, y, y);
        if y.bus == Secondary(c.reg, p) {
          BehindSibling(c, t, p, q, y);
        } else if y.bus == Secondary(c.reg, q) {
          BehindSibling(c, t, q, p, y);
        } else {
          var z := Parent(c, Secondary(c.reg, p), y);
          var z' := Parent(c, Secondary(c.reg, q), y);
          assert z in t && z' in t;
          Apart(c, t, p, q, z);
        }
      }
    }
  }

  predicate NoDuplicates(s: seq<Function>) {
    s == [] || (s[0] !in s[1..] && NoDuplicates(s[1..]))
  }

  lemma {:induction false} NoDuplicatesIn(a: seq<Function>, b: seq<Function>)
    ensures NoDuplicates(a + b) <==> NoDuplicates(a) && NoDuplicates(b) && forall x :: x in a ==> x !in b
  {
    if a == [] {
      assert a + b == b;
    } else {
      NoDuplicatesIn(a[1..], b);
      assert (a + b)[1..] == a[1..] + b && a == [a[0]] + a[1..];
    }
  }

  lemma {:induction false} FunctionOnce(c: Space, t: seq<Function>, x: Function)
    requires c.Valid() && x.bus in c.ends && OneParent(c, t) && Met(c.reg, x) && x.bus < BUSES && Within(FunctionTrail(c, x), t)
    ensures NoDuplicates(FunctionTrail(c, x))
    decreases c.depth(x.bus), 0
  {
    if IsBridge(x) {
      var behind := BusTrail(c, Secondary(c.reg, x), 0);
      BusOnce(c, t, Secondary(c.reg, x), 0);
      if x in behind {
        NoDeeper(c, Secondary(c.reg, x), x);
      }
      NoDuplicatesIn(behind, [x]);
    } else {
      assert FunctionTrail(c, x) == [x];
    }
  }

  /** A function has nothing in common with those behind it on its device. */
  lemma {:induction false} FunctionsApart(c: Space, t: seq<Function>, bus: nat, device: nat, func: nat, x: Function)
    requires c.Valid() && bus in c.ends && OneParent(c, t) && bus < BUSES && device < DEVICES && 1 <= func <= FUNCTIONS
    requires Present(c.reg, bus, device, 0) && MultiFunction(c.reg, bus, device) && Within(FunctionsTrail(c, bus, device, func), t)
    requires Met(c.reg, x) && x.bus == bus && x.device == device && x.func < func && Within(FunctionTrail(c, x), t)
    ensures forall y :: y in FunctionTrail(c, x) ==> y !in FunctionsTrail(c, bus, device, func)
  {
    forall y | y in FunctionTrail(c, x) ensures y !in FunctionsTrail(c, bus, device, func) {
      if y in FunctionsTrail(c, bus, device, func) {
        var z := FunctionsMembers(c, bus, device, func, y);
        AllWithin(c, t, bus, device, func, z);
        Apart(c, t, x, z, y);
      }
    }
  }

  /** One more function of a device, met once itself and having nothing in common with those behind it. */
  lemma {:induction false} OneMoreOnce(c: Space, t: seq<Function>, bus: nat, device: nat, func: nat)
    requires c.Valid() && bus in c.ends && OneParent(c, t) && bus < BUSES && device < DEVICES && 1 <= func < FUNCTIONS
    requires Present(c.reg, bus, device, 0) && MultiFunction(c.reg, bus, device) && Present(c.reg, bus, device, func)
    requires Within(FunctionsTrail(c, bus, device, func), t) && NoDuplicates(FunctionsTrail(c, bus, device, func + 1))
    requires NoDuplicates(FunctionTrail(c, At(c.reg, bus, device, func)))
    ensures NoDuplicates(FunctionsTrail(c, bus, device, func))
  {
    var x, rest := At(c.reg, bus, device, func), FunctionsTrail(c, bus, device, func + 1);
    FunctionsApart(c, t, bus, device, func + 1, x);
    NoDuplicatesIn(FunctionTrail(c, x), rest);
  }

  lemma {:induction false} FunctionsOnce(c: Space, t: seq<Function>, bus: nat, device: nat, func: nat)
    requires c.Valid() && bus in c.ends && OneParent(c, t) && bus < BUSES && device < DEVICES && 1 <= func <= FUNCTIONS
    requires Present(c.reg, bus, device, 0) && MultiFunction(c.reg, bus, device) && Within(FunctionsTrail(c, bus, device, func), t)
    ensures NoDuplicates(FunctionsTrail(c, bus, device, func))
    decreases c.depth(bus), 1, FUNCTIONS - func
  {
    if func < FUNCTIONS {
      FunctionsOnce(c, t, bus, device, func + 1);
      if Present(c.reg, bus, device, func) {
        FunctionOnce(c, t, At(c.reg, bus, device, func));
        OneMoreOnce(c, t, bus, device, func);
      } else {
        assert FunctionsTrail(c, bus, device, func) == FunctionsTrail(c, bus, device, func + 1);
      }
    }
  }

  lemma AllWithin(c: Space, t: seq<Function>, bus: nat, device: nat, func: nat, z: Function)
    requires c.Valid() && bus in c.ends && bus < BUSES && device < DEVICES && 1 <= func <= FUNCTIONS && func <= z.func
    requires Present(c.reg, bus, device, 0) && MultiFunction(c.reg, bus, device) && Within(FunctionsTrail(c, bus, device, func), t)
    requires Met(c.reg, z) && z.bus == bus && z.device == device
    ensures Within(FunctionTrail(c, z), t)
  {
    forall y | y in FunctionTrail(c, z) ensures y in t {
      InFunctions(c, bus, device, func, z, y);
    }
  }

  lemma {:induction false} DeviceOnce(c: Space, t: seq<Function>, bus: nat, device: nat)
    requires c.Valid() && bus in c.ends && OneParent(c, t) && bus < BUSES && device < DEVICES && Within(DeviceTrail(c, bus, device), t)
    ensures NoDuplicates(DeviceTrail(c, bus, device))
    decreases c.depth(bus), 2
  {
    if Present(c.reg, bus, device, 0) {
      var x := At(c.reg, bus, device, 0);
      FunctionOnce(c, t, x);
      if MultiFunction(c.reg, bus, device) {
        var rest := FunctionsTrail(c, bus, device, 1);
        FunctionsOnce(c, t, bus, device, 1);
        FunctionsApart(c, t, bus, device, 1, x);
        NoDuplicatesIn(FunctionTrail(c, x), rest);
      } else {
        assert DeviceTrail(c, bus, device) == FunctionTrail(c, x);
      }
    }
  }

  /** A device has nothing in common with those behind it on its bus. */
  lemma {:induction false} DevicesApart(c: Space, t: seq<Function>, bus: nat, device: nat, y: Function)
    requires c.Valid() && bus in c.ends && OneParent(c, t) && bus < BUSES && device < DEVICES && y in DeviceTrail(c, bus, device)
    requires Within(DeviceTrail(c, bus, device), t) && Within(BusTrail(c, bus, device + 1), t)
    ensures y !in BusTrail(c, bus, device + 1)
  {
    if y in BusTrail(c, bus, device + 1) {
      var x := DeviceMembers(c, bus, device, y);
      var z := BusMembers(c, bus, device + 1, y);
      WithinDevice(c, t, x);
      WithinBus(c, t, bus, device + 1, z);
      Apart(c, t, x, z, y);
    }
  }

  lemma WithinDevice(c: Space, t: seq<Function>, x: Function)
    requires c.Valid() && x.bus in c.ends && Met(c.reg, x) && x.bus < BUSES && Within(DeviceTrail(c, x.bus, x.device), t)
    ensures Within(FunctionTrail(c, x), t)
  {
    forall w | w in FunctionTrail(c, x) ensures w in t {
      InDevice(c, x, w);
    }
  }

  lemma WithinBus(c: Space, t: seq<Function>, bus: nat, device: nat, z: Function)
    requires c.Valid() && bus in c.ends && bus < BUSES && device <= z.device && Met(c.reg, z) && z.bus == bus
    requires Within(BusTrail(c, bus, device), t)
    ensures Within(FunctionTrail(c, z), t)
  {
    forall w | w in FunctionTrail(c, z) ensures w in t {
      InBus(c, bus, device, z, w);
    }
  }

  /** Within a scan in which no occupied bus lies behind two bridges, everything is met once. */
  lemma {:induction false} BusOnce(c: Space, t: seq<Function>, bus: nat, device: nat)
    requires c.Valid() && bus in c.ends && OneParent(c, t) && bus < BUSES && device <= DEVICES && Within(BusTrail(c, bus, device), t)
    ensures NoDuplicates(BusTrail(c, bus, device))
    decreases c.depth(bus), 3, DEVICES - device
  {
    if device < DEVICES {
      var first, rest := DeviceTrail(c, bus, device), BusTrail(c, bus, device + 1);
      DeviceOnce(c, t, bus, device);
      BusOnce(c, t, bus, device + 1);
      forall y | y in first ensures y !in rest {
        DevicesApart(c, t, bus, device, y);
      }
      NoDuplicatesIn(first, rest);
    }
  }

  lemma InDevice(c: Space, x: Function, y: Function)
    requires c.Valid() && x.bus in c.ends && Met(c.reg, x) && x.bus < BUSES && y in FunctionTrail(c, x)
    ensures y in DeviceTrail(c, x.bus, x.device)
  {
    if x.func > 0 {
      InFunctions(c, x.bus, x.device, 1, x, y);
    }
  }

  // ----- and twice behind two bridges -----

  lemma {:induction false} FunctionsTwice(c: Space, bus: nat, device: nat, func: nat, p: Function, q: Function, y: Function)
    requires c.Valid() && bus in c.ends && bus < BUSES && device < DEVICES
    requires 1 <= func <= p.func < q.func && Met(c.reg, p) && Met(c.reg, q)
    requires p.bus == q.bus == bus && p.device == q.device == device && y in FunctionTrail(c, p) && y in FunctionTrail(c, q)
    ensures !NoDuplicates(FunctionsTrail(c, bus, device, func))
    decreases p.func - func
  {
    var rest := FunctionsTrail(c, bus, device, func + 1);
    FunctionsNext(c, bus, device, func);
    if func == p.func {
      InFunctions(c, bus, device, func + 1, q, y);
      TwiceJoined(FunctionTrail(c, p), rest, y);
    } else {
      FunctionsTwice(c, bus, device, func + 1, p, q, y);
      NoDuplicatesIn(if Present(c.reg, bus, device, func) then FunctionTrail(c, At(c.reg, bus, device, func)) else [], rest);
    }
  }

  lemma TwiceJoined(a: seq<Function>, b: seq<Function>, y: Function)
    requires y in a && y in b
    ensures !NoDuplicates(a + b)
  {
    NoDuplicatesIn(a, b);
  }

  lemma DeviceTwice(c: Space, p: Function, q: Function, y: Function)
    requires c.Valid() && p.bus in c.ends && p.bus == q.bus < BUSES
    requires p.device == q.device && p.func < q.func && Met(c.reg, p) && Met(c.reg, q)
    requires y in FunctionTrail(c, p) && y in FunctionTrail(c, q)
    ensures !NoDuplicates(DeviceTrail(c, p.bus, p.device))
  {
    var x, rest := At(c.reg, p.bus, p.device, 0), FunctionsTrail(c, p.bus, p.device, 1);
    NoDuplicatesIn(FunctionTrail(c, x), rest);
    if p.func == 0 {
      InFunctions(c, p.bus, p.device, 1, q, y);
    } else {
      FunctionsTwice(c, p.bus, p.device, 1, p, q, y);
    }
  }

  /** `p` is scanned before `q`. */
  predicate ScannedBefore(p: Function, q: Function) {
    p.device < q.device || (p.device == q.device && p.func < q.func)
  }

  lemma {:induction false} BusTwice(c: Space, bus: nat, device: nat, p: Function, q: Function, y: Function)
    requires c.Valid() && p.bus in c.ends && p.bus == q.bus == bus < BUSES
    requires device <= p.device && ScannedBefore(p, q) && Met(c.reg, p) && Met(c.reg, q)
    requires y in FunctionTrail(c, p) && y in FunctionTrail(c, q)
    ensures !NoDuplicates(BusTrail(c, bus, device))
    decreases p.device - device
  {
    NoDuplicatesIn(DeviceTrail(c, bus, device), BusTrail(c, bus, device + 1));
    if device < p.device {
      BusTwice(c, bus, device + 1, p, q, y);
    } else if p.device == q.device {
      DeviceTwice(c, p, q, y);
    } else {
      InDevice(c, p, y);
      InBus(c, bus, device + 1, q, y);
    }
  }

  lemma InFront(a: seq<Function>, b: seq<Function>, c: seq<Function>, d: seq<Function>)
    ensures a + (b + c + d) == a + b + c + d
  {
  }

  /** What is met behind a function is a stretch of what is met on its bus. */
  lemma {:induction false} FunctionsPart(c: Space, bus: nat, device: nat, func: nat, x: Function)
    returns (before: seq<Function>, after: seq<Function>)
    requires c.Valid() && bus in c.ends && bus < BUSES && device < DEVICES
    requires 1 <= func <= x.func && Met(c.reg, x) && x.bus == bus && x.device == device
    ensures FunctionsTrail(c, bus, device, func) == before + FunctionTrail(c, x) + after
    decreases x.func - func
  {
    if func < x.func {
      before, after := FunctionsPart(c, bus, device, func + 1, x);
      var first := if Present(c.reg, bus, device, func) then FunctionTrail(c, At(c.reg, bus, device, func)) else [];
      InFront(first, before, FunctionTrail(c, x), after);
      before := first + before;
    } else {
      before, after := [], FunctionsTrail(c, bus, device, func + 1);
    }
  }

  lemma DevicePart(c: Space, x: Function) returns (before: seq<Function>, after: seq<Function>)
    requires c.Valid() && x.bus in c.ends && Met(c.reg, x) && x.bus < BUSES
    ensures DeviceTrail(c, x.bus, x.device) == before + FunctionTrail(c, x) + after
  {
    if x.func > 0 {
      before, after := FunctionsPart(c, x.bus, x.device, 1, x);
      InFront(FunctionTrail(c, At(c.reg, x.bus, x.device, 0)), before, FunctionTrail(c, x), after);
      before := FunctionTrail(c, At(c.reg, x.bus, x.device, 0)) + before;
    } else {
      before, after := [], if MultiFunction(c.reg, x.bus, x.device) then FunctionsTrail(c, x.bus, x.device, 1) else [];
    }
  }

  lemma {:induction false} BusPart(c: Space, bus: nat, device: nat, x: Function)
    returns (before: seq<Function>, after: seq<Function>)
    requires c.Valid() && bus in c.ends && bus < BUSES && device <= x.device && Met(c.reg, x) && x.bus == bus
    ensures BusTrail(c, bus, device) == before + FunctionTrail(c, x) + after
    decreases x.device - device
  {
    if device < x.device {
      before, after := BusPart(c, bus, device + 1, x);
      InFront(DeviceTrail(c, bus, device), before, FunctionTrail(c, x), after);
      before := DeviceTrail(c, bus, device) + before;
    } else {
      before, after := DevicePart(c, x);
      after := after + BusTrail(c, bus, device + 1);
    }
  }

  lemma BusKeeps(c: Space, bus: nat, x: Function)
    requires c.Valid() && bus in c.ends && bus < BUSES && Met(c.reg, x) && x.bus == bus && NoDuplicates(BusTrail(c, bus, 0))
    ensures NoDuplicates(FunctionTrail(c, x))
  {
    var before, after := BusPart(c, bus, 0, x);
    NoDuplicatesIn(before + FunctionTrail(c, x), after);
    NoDuplicatesIn(before, FunctionTrail(c, x));
  }

  /** `y` comes before `p`. */
  ghost predicate Precedes(s: seq<Function>, y: Function, p: Function) {
    exists i, j :: 0 <= i < j < |s| && s[i] == y && s[j] == p
  }

  lemma PrecedesWithin(before: seq<Function>, s: seq<Function>, after: seq<Function>, y: Function, p: Function)
    requires Precedes(s, y, p)
    ensures Precedes(before + s + after, y, p)
  {
    var i, j :| 0 <= i < j < |s| && s[i] == y && s[j] == p;
    var t := before + s + after;
    assert t[|before| + i] == y && t[|before| + j] == p;
  }

  lemma LastPreceded(s: seq<Function>, y: Function, p: Function)
    requires y in s
    ensures Precedes(s + [p], y, p)
  {
    var i :| 0 <= i < |s| && s[i] == y;
    assert (s + [p])[i] == y && (s + [p])[|s|] == p;
  }

  lemma PrecedesOnBus(c: Space, bus: nat, x: Function, y: Function, p: Function)
    requires c.Valid() && bus in c.ends && bus < BUSES && Met(c.reg, x) && x.bus == bus && Precedes(FunctionTrail(c, x), y, p)
    ensures Precedes(BusTrail(c, bus, 0), y, p)
  {
    var before, after := BusPart(c, bus, 0, x);
    PrecedesWithin(before, FunctionTrail(c, x), after, y, p);
  }

  /** Everything behind a bridge is met before the bridge itself. */
  lemma {:induction false} BehindFirst(c: Space, bus: nat, p: Function, y: Function)
    requires c.Valid() && bus in c.ends && bus < BUSES && p in BusTrail(c, bus, 0) && IsBridge(p)
    requires Secondary(c.reg, p) in c.ends && y in BusTrail(c, Secondary(c.reg, p), 0)
    ensures Precedes(BusTrail(c, bus, 0), y, p)
    decreases c.depth(bus)
  {
    NoDeeper(c, bus, p);
    var x := BusMembers(c, bus, 0, p);
    if x == p {
      LastPreceded(BusTrail(c, Secondary(c.reg, p), 0), y, p);
    } else {
      var behind := BusTrail(c, Secondary(c.reg, x), 0);
      BehindFirst(c, Secondary(c.reg, x), p, y);
      PrecedesWithin([], behind, [x], y, p);
      assert [] + behind == behind;
    }
    PrecedesOnBus(c, bus, x, y, p);
  }

  /** Two bridges to one occupied bus make the scan meet what is there twice. */
  lemma {:induction false} SharedTwice(c: Space, bus: nat, p: Function, q: Function)
    requires c.Valid() && bus in c.ends && bus < BUSES && p in BusTrail(c, bus, 0) && q in BusTrail(c, bus, 0) && p != q
    requires IsBridge(p) && IsBridge(q) && Secondary(c.reg, p) == Secondary(c.reg, q) && Occupied(c.reg, Secondary(c.reg, p))
    ensures !NoDuplicates(BusTrail(c, bus, 0))
    decreases c.depth(bus)
  {
    var f := BusMembers(c, bus, 0, p);
    var g := BusMembers(c, bus, 0, q);
    NoDeeper(c, bus, p);
    NoDeeper(c, bus, q);
    OccupiedTrail(c, Secondary(c.reg, p));
    var y := BusTrail(c, Secondary(c.reg, p), 0)[0];
    if f == g {
      assert p != f && q != f by {
        if p == f { NoDeeper(c, Secondary(c.reg, f), q); }
        if q == f { NoDeeper(c, Secondary(c.reg, f), p); }
      }
      var behind := BusTrail(c, Secondary(c.reg, f), 0);
      SharedTwice(c, Secondary(c.reg, f), p, q);
      NoDuplicatesIn(behind, [f]);
      if NoDuplicates(BusTrail(c, bus, 0)) {
        BusKeeps(c, bus, f);
      }
    } else {
      Behind(c, f, p, y);
      Behind(c, g, q, y);
      if ScannedBefore(f, g) {
        BusTwice(c, bus, 0, f, g, y);
      } else {
        BusTwice(c, bus, 0, g, f, y);
      }
    }
  }

  /** What is behind a bridge that is behind `f` is behind `f`. */
  lemma {:induction false} Behind(c: Space, f: Function, p: Function, y: Function)
    requires c.Valid() && f.bus in c.ends && Met(c.reg, f) && f.bus < BUSES
    requires p in FunctionTrail(c, f) && IsBridge(p) && Met(c.reg, p) && p.bus < BUSES
    requires Secondary(c.reg, p) in c.ends && y in BusTrail(c, Secondary(c.reg, p), 0)
    ensures y in FunctionTrail(c, f)
    decreases c.depth(f.bus)
  {
    if p != f {
      var x := BusMembers(c, Secondary(c.reg, f), 0, p);
      Behind(c, x, p, y);
      InBus(c, Secondary(c.reg, f), 0, x, y);
    }
  }

  /** A scan meets every function at most once exactly when no occupied bus lies behind two of the
      bridges it meets. */
  lemma OnceExactlyWhen(c: Space, bus: nat)
    requires c.Valid() && bus in c.ends && bus < BUSES
    ensures NoDuplicates(BusTrail(c, bus, 0)) <==> OneParent(c, BusTrail(c, bus, 0))
  {
    var t := BusTrail(c, bus, 0);
    if OneParent(c, t) {
      BusOnce(c, t, bus, 0);
    }
    forall p, q | p in t && q in t && p != q && IsBridge(p) && IsBridge(q) && Secondary(c.reg, p) == Secondary(c.reg, q)
                  && Occupied(c.reg, Secondary(c.reg, p))
      ensures !NoDuplicates(t)
    {
      SharedTwice(c, bus, p, q);
    }
  }
}
