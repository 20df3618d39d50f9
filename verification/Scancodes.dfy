/** The multi-byte scancode decoder of the keyboard driver, for scan code set 2. */
module Scancodes {
  import opened PhysicalMemory

  const KEYCODE_PRINTSCR: Byte := 0x0D
  const KEYCODE_SCLLK: Byte := 0x0E
  const KEYCODE_NUMLOCK: Byte := 0x32
  const KEYCODE_CAPS: Byte := 0x60
  const KEYCODE_LSHIFT: Byte := 0x80
  const KEYCODE_RSHIFT: Byte := 0x8B
  const KEYCODE_LCTRL: Byte := 0xA0
  const KEYCODE_LGUI: Byte := 0xA1
  const KEYCODE_LALT: Byte := 0xA2
  const KEYCODE_RALT: Byte := 0xA4
  const KEYCODE_RGUI: Byte := 0xA5
  const KEYCODE_RCTRL: Byte := 0xA6
  const KEYCODE_FN: Byte := 0xA7
  const KEYCODE_PAUSE: Byte := 0xD6

  const PAUSE: seq<Byte> := [0xE1, 0x14, 0x77, 0xE1, 0xF0, 0x14, 0xF0, 0x77]

  const BUFFER_BYTES: int := 8

  /** The table of one-byte scancodes, up to 26. */
  function KeycodeTo26(b: Byte): Byte {
    match b
    case 0x01 => 0x09
    case 0x03 => 0x05
    case 0x04 => 0x03
    case 0x05 => 0x01
    case 0x06 => 0x02
    case 0x07 => 0x0C
    case 0x09 => 0x0A
    case 0x0A => 0x08
    case 0x0B => 0x06
    case 0x0C => 0x04
    case 0x0D => 0x40
    case 0x0E => 0x20
    case 0x11 => 0xA2
    case 0x12 => 0x80
    case 0x14 => 0xA0
    case 0x15 => 0x41
    case 0x16 => 0x21
    case 0x1A => 0x81
    case 0x1B => 0x62
    case 0x1C => 0x61
    case 0x1D => 0x42
    case 0x1E => 0x22
    case 0x21 => 0x83
    case 0x22 => 0x82
    case 0x23 => 0x63
    case 0x24 => 0x43
    case 0x25 => 0x24
    case 0x26 => 0x23
    case _ => 0
  }

  /** The table from 27 to 45. */
  function KeycodeTo45(b: Byte): Byte {
    match b
    case 0x29 => 0xA3
    case 0x2A => 0x84
    case 0x2B => 0x64
    case 0x2C => 0x45
    case 0x2D => 0x44
    case 0x2E => 0x25
    case 0x31 => 0x86
    case 0x32 => 0x85
    case 0x33 => 0x66
    case 0x34 => 0x65
    case 0x35 => 0x46
    case 0x36 => 0x26
    case 0x3A => 0x87
    case 0x3B => 0x67
    case 0x3C => 0x47
    case 0x3D => 0x27
    case 0x3E => 0x28
    case 0x41 => 0x88
    case 0x42 => 0x68
    case 0x43 => 0x48
    case 0x44 => 0x49
    case 0x45 => 0x2A
    case _ => 0
  }

  /** The table from 46 to 66. */
  function KeycodeTo66(b: Byte): Byte {
    match b
    case 0x46 => 0x29
    case 0x49 => 0x89
    case 0x4A => 0x8A
    case 0x4B => 0x69
    case 0x4C => 0x6A
    case 0x4D => 0x4A
    case 0x4E => 0x2B
    case 0x52 => 0x6B
    case 0x54 => 0x4B
    case 0x55 => 0x2C
    case 0x58 => 0x60
    case 0x59 => 0x8B
    case 0x5A => 0x6C
    case 0x5B => 0x4C
    case 0x5D => 0x4D
    case 0x66 => 0x2D
    case _ => 0
  }

  /** The table from 67 on. */
  function KeycodeTo83(b: Byte): Byte {
    match b
    case 0x69 => 0x91
    case 0x6B => 0x71
    case 0x6C => 0x51
    case 0x70 => 0xB2
    case 0x71 => 0xB3
    case 0x72 => 0x92
    case 0x73 => 0x72
    case 0x74 => 0x51
    case 0x75 => 0x52
    case 0x76 => 0x00
    case 0x77 => 0x32
    case 0x78 => 0x0B
    case 0x79 => 0x74
    case 0x7A => 0x93
    case 0x7B => 0x54
    case 0x7C => 0x34
    case 0x7D => 0x53
    case 0x7E => 0x0E
    case 0x83 => 0x07
    case _ => 0
  }

  /** The keycode of a one-byte scancode of set 2; gaps in the table read as 0. */
  function PlainKeycode(b: Byte): Byte {
    if b <= 0x26 then KeycodeTo26(b) else if b <= 0x45 then KeycodeTo45(b) else if b <= 0x66 then KeycodeTo66(b) else KeycodeTo83(b)
  }

  /** The keycode of a scancode that follows the prefix E0. */
  function ExtendedKeycode(b: Byte): Byte {
    match b
    case 0x10 => 0xC0
    case 0x11 => 0xA4
    case 0x14 => 0xA6
    case 0x15 => 0xC7
    case 0x18 => 0xC1
    case 0x1F => 0xA1
    case 0x20 => 0xC2
    case 0x21 => 0xCC
    case 0x23 => 0xCD
    case 0x27 => 0xA5
    case 0x28 => 0xC3
    case 0x2B => 0xCF
    case 0x2F => 0xD2
    case 0x30 => 0xC4
    case 0x32 => 0xCE
    case 0x34 => 0xC8
    case 0x37 => 0xD3
    case 0x38 => 0xC5
    case 0x3A => 0xC6
    case 0x3B => 0xCA
    case 0x3F => 0xD4
    case 0x40 => 0xD0
    case 0x48 => 0xD1
    case 0x4A => 0x33
    case 0x4D => 0xC9
    case 0x50 => 0xCB
    case 0x54 => 0xB4
    case 0x5E => 0xD5
    case 0x69 => 0x4F
    case 0x6B => 0xE0
    case 0x6C => 0x2F
    case 0x70 => 0x2E
    case 0x71 => 0x4E
    case 0x72 => 0xE4
    case 0x73 => 0xE2
    case 0x74 => 0xE3
    case 0x7A => 0x50
    case 0x7D => 0x30
    case _ => 0
  }

  datatype Modifiers = Modifiers(shift: bool, alt: bool, control: bool, function_: bool, gui: bool)

  datatype Toggles = Toggles(capsLock: bool, numLock: bool, scrollLock: bool)

  datatype Keys = Keys(modifiers: Modifiers, toggles: Toggles)

  datatype KeypressEvent = KeypressEvent(code: Byte, released: bool, keys: Keys)

  /** The bytes of an unfinished scancode, the modifier state and the events queued so far. */
  datatype Decoder = Decoder(bytes: seq<Byte>, keys: Keys, events: seq<KeypressEvent>)

  /** The bytes so far are the beginning of the Pause sequence. */
  predicate PausePrefix(bs: seq<Byte>) {
    forall i :: 0 <= i < |bs| ==> i < |PAUSE| && bs[i] == PAUSE[i]
  }

  /** More bytes of the same scancode are to come. */
  predicate Continues(bs: seq<Byte>)
    requires bs != []
  {
    var last := bs[|bs| - 1];
    || last == 0xE0 || last == 0xE1 || last == 0xF0
    || (|bs| == 2 && bs[0] == 0xE0 && last == 0x12)
    || (|bs| == 3 && bs[0] == 0xE0 && last == 0x7C)
    || PausePrefix(bs)
  }

  function KeycodeOf(bs: seq<Byte>): Byte {
    if |bs| == 1 then if bs[0] <= 0x83 then PlainKeycode(bs[0]) else 0
    else if |bs| == 2 && bs[0] == 0xF0 then if bs[1] <= 0x83 then PlainKeycode(bs[1]) else 0
    else if |bs| == 2 && bs[0] == 0xE0 then if bs[1] <= 0x7D then ExtendedKeycode(bs[1]) else 0
    else if |bs| == 3 && bs[0] == 0xE0 && bs[1] == 0xF0 then if bs[2] <= 0x7D then ExtendedKeycode(bs[2]) else 0
    else if |bs| == 4 then if bs == [0xE0, 0x12, 0xE0, 0x7C] then KEYCODE_PRINTSCR else 0
    else if |bs| == 6 then if bs == [0xE1, 0xF0, 0x7C, 0xE1, 0xF0, 0x12] then KEYCODE_PRINTSCR else 0
    else if |bs| == 8 then KEYCODE_PAUSE
    else 0
  }

  predicate ReleasedIn(bs: seq<Byte>) {
    (|bs| > 1 && bs[0] == 0xF0) || (|bs| > 2 && bs[1] == 0xF0)
  }

  /** The modifiers and toggles after a key event. */
  function UpdateKeys(k: Keys, code: Byte, released: bool): Keys {
    if code == KEYCODE_LSHIFT || code == KEYCODE_RSHIFT then k.(modifiers := k.modifiers.(shift := !released))
    else if code == KEYCODE_LALT || code == KEYCODE_RALT then k.(modifiers := k.modifiers.(alt := !released))
    else if code == KEYCODE_LCTRL || code == KEYCODE_RCTRL then k.(modifiers := k.modifiers.(control := !released))
    else if code == KEYCODE_FN then k.(modifiers := k.modifiers.(function_ := !released))
    else if code == KEYCODE_LGUI || code == KEYCODE_RGUI then k.(modifiers := k.modifiers.(gui := !released))
    else if released then k
    else if code == KEYCODE_CAPS then k.(toggles := k.toggles.(capsLock := !k.toggles.capsLock))
    else if code == KEYCODE_NUMLOCK then k.(toggles := k.toggles.(numLock := !k.toggles.numLock))
    else if code == KEYCODE_SCLLK then k.(toggles := k.toggles.(scrollLock := !k.toggles.scrollLock))
    else k
  }

  /** One scancode byte. */
  function Press(d: Decoder, b: Byte): Decoder {
    var bs := d.bytes + [b];
    if Continues(bs) then d.(bytes := bs) else Emit(d, KeycodeOf(bs), ReleasedIn(bs))
  }

  /** A finished scancode: the key state is updated and an event queued. */
  function Emit(d: Decoder, code: Byte, released: bool): Decoder {
    var keys := UpdateKeys(d.keys, code, released);
    Decoder([], keys, d.events + [KeypressEvent(code, released, keys)])
  }

  function PressAll(d: Decoder, bs: seq<Byte>): Decoder
    decreases bs
  {
    if bs == [] then d else PressAll(Press(d, bs[0]), bs[1..])
  }

  // ----- whole scancodes -----

  /** A key going down or up, with or without the E0 prefix, or Print Screen going down. */
  datatype Code = Make(x: Byte) | Break(x: Byte) | ExtMake(x: Byte) | ExtBreak(x: Byte) | PrintScreen

  function Encode(c: Code): seq<Byte> {
    match c
    case Make(x) => [x]
    case Break(x) => [0xF0, x]
    case ExtMake(x) => [0xE0, x]
    case ExtBreak(x) => [0xE0, 0xF0, x]
    case PrintScreen => [0xE0, 0x12, 0xE0, 0x7C]
  }

  function KeyOf(c: Code): Byte {
    match c
    case Make(x) => PlainKeycode(x)
    case Break(x) => PlainKeycode(x)
    case ExtMake(x) => ExtendedKeycode(x)
    case ExtBreak(x) => ExtendedKeycode(x)
    case PrintScreen => KEYCODE_PRINTSCR
  }

  predicate Releases(c: Code) {
    c.Break? || c.ExtBreak?
  }

  /** The key's byte is no prefix byte and does not start one of the longer sequences. */
  predicate Distinct(c: Code) {
    match c
    case Make(x) => x != 0xE0 && x != 0xE1 && x != 0xF0
    case Break(x) => x != 0xE0 && x != 0xE1 && x != 0xF0
    case ExtMake(x) => x != 0xE0 && x != 0xE1 && x != 0xF0 && x != 0x12
    case ExtBreak(x) => x != 0xE0 && x != 0xE1 && x != 0xF0 && x != 0x7C
    case PrintScreen => true
  }

  function EncodeAll(cs: seq<Code>): seq<Byte> {
    if cs == [] then [] else Encode(cs[0]) + EncodeAll(cs[1..])
  }

  lemma {:induction false} PressAllConcat(d: Decoder, xs: seq<Byte>, ys: seq<Byte>)
    ensures PressAll(d, xs + ys) == PressAll(PressAll(d, xs), ys)
    decreases |xs|
  {
    if xs == [] {
      assert xs + ys == ys;
    } else {
      assert (xs + ys)[1..] == xs[1..] + ys;
      PressAllConcat(Press(d, xs[0]), xs[1..], ys);
    }
  }

  lemma PressTwo(d: Decoder, x: Byte, y: Byte)
    ensures PressAll(d, [x]) == Press(d, x)
    ensures PressAll(d, [x, y]) == Press(Press(d, x), y)
  {
    assert [x][1..] == [] && [x, y][1..] == [y] && [y][1..] == [];
    assert PressAll(Press(d, x), [y]) == Press(Press(d, x), y);
  }

  lemma PressMore(d: Decoder, x: Byte, y: Byte, z: Byte, w: Byte)
    ensures PressAll(d, [x, y, z]) == Press(Press(Press(d, x), y), z)
    ensures PressAll(d, [x, y, z, w]) == Press(Press(Press(Press(d, x), y), z), w)
  {
    assert [x, y] + [z] == [x, y, z] && [x, y] + [z, w] == [x, y, z, w];
    PressAllConcat(d, [x, y], [z]);
    PressAllConcat(d, [x, y], [z, w]);
    PressTwo(d, x, y);
    PressTwo(PressAll(d, [x, y]), z, w);
  }

  /** A whole scancode read from an empty buffer gives exactly one event with the right key. */
  lemma {:induction false} CodeDecoded(d: Decoder, c: Code)
    requires d.bytes == [] && Distinct(c)
    ensures PressAll(d, Encode(c)) == Emit(d, KeyOf(c), Releases(c))
  {
    match c
    case Make(x) => MakeDecoded(d, x);
    case Break(x) => BreakDecoded(d, x);
    case ExtMake(x) => ExtMakeDecoded(d, x);
    case ExtBreak(x) => ExtBreakDecoded(d, x);
    case PrintScreen => PrintScreenDecoded(d);
  }

  lemma NotPause(bs: seq<Byte>)
    requires bs != [] && bs[0] != 0xE1
    ensures !PausePrefix(bs)
  {
    assert bs[0] != PAUSE[0];
  }

  /** The last byte of a scancode, when the bytes before it are `bs`. */
  lemma LastPress(d: Decoder, bs: seq<Byte>, b: Byte, code: Byte, released: bool)
    requires d.bytes == bs && !Continues(bs + [b])
    requires KeycodeOf(bs + [b]) == code && ReleasedIn(bs + [b]) == released
    ensures Press(d, b) == Emit(d.(bytes := []), code, released)
  {
  }

  lemma PlainBeyond(x: Byte)
    ensures x > 0x83 ==> PlainKeycode(x) == 0
    ensures x > 0x7D ==> ExtendedKeycode(x) == 0
  {
  }

  lemma MakeDecoded(d: Decoder, x: Byte)
    requires d.bytes == [] && Distinct(Make(x))
    ensures PressAll(d, [x]) == Emit(d, PlainKeycode(x), false)
  {
    PressTwo(d, x, 0);
    NotPause([x]);
    PlainBeyond(x);
    assert [] + [x] == [x];
    LastPress(d, [], x, PlainKeycode(x), false);
  }

  lemma BreakDecoded(d: Decoder, x: Byte)
    requires d.bytes == [] && Distinct(Break(x))
    ensures PressAll(d, [0xF0, x]) == Emit(d, PlainKeycode(x), true)
  {
    PressTwo(d, 0xF0, x);
    NotPause([0xF0, x]);
    PlainBeyond(x);
    assert [] + [0xF0] == [0xF0] && [0xF0] + [x] == [0xF0, x];
    LastPress(Press(d, 0xF0), [0xF0], x, PlainKeycode(x), true);
  }

  lemma ExtMakeDecoded(d: Decoder, x: Byte)
    requires d.bytes == [] && Distinct(ExtMake(x))
    ensures PressAll(d, [0xE0, x]) == Emit(d, ExtendedKeycode(x), false)
  {
    PressTwo(d, 0xE0, x);
    NotPause([0xE0, x]);
    PlainBeyond(x);
    assert [] + [0xE0] == [0xE0] && [0xE0] + [x] == [0xE0, x];
    LastPress(Press(d, 0xE0), [0xE0], x, ExtendedKeycode(x), false);
  }

  lemma ExtBreakDecoded(d: Decoder, x: Byte)
    requires d.bytes == [] && Distinct(ExtBreak(x))
    ensures PressAll(d, [0xE0, 0xF0, x]) == Emit(d, ExtendedKeycode(x), true)
  {
    PressMore(d, 0xE0, 0xF0, x, 0);
    NotPause([0xE0, 0xF0, x]);
    PlainBeyond(x);
    assert [] + [0xE0] == [0xE0] && [0xE0] + [0xF0] == [0xE0, 0xF0] && [0xE0, 0xF0] + [x] == [0xE0, 0xF0, x];
    LastPress(Press(Press(d, 0xE0), 0xF0), [0xE0, 0xF0], x, ExtendedKeycode(x), true);
  }

  lemma PrintScreenDecoded(d: Decoder)
    requires d.bytes == []
    ensures PressAll(d, [0xE0, 0x12, 0xE0, 0x7C]) == Emit(d, KEYCODE_PRINTSCR, false)
  {
    PressMore(d, 0xE0, 0x12, 0xE0, 0x7C);
    NotPause([0xE0, 0x12, 0xE0, 0x7C]);
    ThreeBuffered(d);
    assert [0xE0, 0x12, 0xE0] + [0x7C] == [0xE0, 0x12, 0xE0, 0x7C];
    LastPress(Press(Press(Press(d, 0xE0), 0x12), 0xE0), [0xE0, 0x12, 0xE0], 0x7C, KEYCODE_PRINTSCR, false);
  }

  lemma {:induction false} ThreeBuffered(d: Decoder)
    requires d.bytes == []
    ensures Press(Press(Press(d, 0xE0), 0x12), 0xE0) == d.(bytes := [0xE0, 0x12, 0xE0])
  {
    var d1 := d.(bytes := [0xE0]);
    var d2 := d.(bytes := [0xE0, 0x12]);
    assert [] + [0xE0] == [0xE0] && [0xE0] + [0x12] == [0xE0, 0x12] && [0xE0, 0x12] + [0xE0] == [0xE0, 0x12, 0xE0];
    assert Press(d, 0xE0) == d1;
    assert Press(d1, 0x12) == d2;
  }

  /** The buffer as a display of its bytes, one longer. */
  lemma Buffered(d: Decoder, b: Byte, bs: seq<Byte>)
    requires d.bytes == bs && |bs| <= 3
    ensures |bs| == 0 ==> d.bytes + [b] == [b]
    ensures |bs| == 1 ==> d.bytes + [b] == [bs[0], b]
    ensures |bs| == 2 ==> d.bytes + [b] == [bs[0], bs[1], b]
    ensures |bs| == 3 ==> d.bytes + [b] == [bs[0], bs[1], bs[2], b]
  {
  }

  /** The condition cannot be weakened: any other scancode leaves the decoder waiting for more. */
  lemma DecodedExactlyWhen(d: Decoder, c: Code)
    requires d.bytes == []
    ensures PressAll(d, Encode(c)).bytes == [] <==> Distinct(c)
  {
    if Distinct(c) {
      CodeDecoded(d, c);
    } else {
      match c
      case Make(x) =>
        PressTwo(d, x, 0);
      case Break(x) =>
        PressTwo(d, 0xF0, x);
      case ExtMake(x) =>
        PressTwo(d, 0xE0, x);
        Buffered(d, 0xE0, []);
        Buffered(Press(d, 0xE0), x, [0xE0]);
      case ExtBreak(x) =>
        PressMore(d, 0xE0, 0xF0, x, 0);
        Buffered(d, 0xE0, []);
        Buffered(Press(d, 0xE0), 0xF0, [0xE0]);
        Buffered(Press(Press(d, 0xE0), 0xF0), x, [0xE0, 0xF0]);
    }
  }

  /** The key state after some scancodes, and the events they cause. */
  function KeysAfter(k: Keys, cs: seq<Code>): Keys {
    if cs == [] then k
    else var c := cs[|cs| - 1]; UpdateKeys(KeysAfter(k, cs[..|cs| - 1]), KeyOf(c), Releases(c))
  }

  function EventsOf(k: Keys, cs: seq<Code>): (es: seq<KeypressEvent>)
    ensures |es| == |cs|
  {
    if cs == [] then []
    else
      var c := cs[|cs| - 1];
      EventsOf(k, cs[..|cs| - 1]) + [KeypressEvent(KeyOf(c), Releases(c), KeysAfter(k, cs))]
  }

  lemma {:induction false} EncodeAllAppend(cs: seq<Code>, c: Code)
    ensures EncodeAll(cs + [c]) == EncodeAll(cs) + Encode(c)
  {
    if cs == [] {
      assert [] + [c] == [c] && [c][1..] == [];
      assert EncodeAll([c]) == Encode(c) + [];
    } else {
      assert (cs + [c])[1..] == cs[1..] + [c];
      EncodeAllAppend(cs[1..], c);
    }
  }

  /** Any concatenation of whole scancodes is decoded to one event each, with the right key and
      direction, and leaves nothing behind. */
  lemma {:induction false} StreamDecoded(d: Decoder, cs: seq<Code>)
    requires d.bytes == [] && forall i :: 0 <= i < |cs| ==> Distinct(cs[i])
    ensures PressAll(d, EncodeAll(cs)) == Decoder([], KeysAfter(d.keys, cs), d.events + EventsOf(d.keys, cs))
  {
    if cs == [] {
      assert d.events + [] == d.events;
    } else {
      var (cs', c) := (cs[..|cs| - 1], cs[|cs| - 1]);
      assert cs' + [c] == cs;
      StreamDecoded(d, cs');
      EncodeAllAppend(cs', c);
      PressAllConcat(d, EncodeAll(cs'), Encode(c));
      CodeDecoded(PressAll(d, EncodeAll(cs')), c);
    }
  }

  // ----- room in the buffer -----

  /** Every byte finds room in the buffer. */
  predicate Fits(d: Decoder, bs: seq<Byte>)
    decreases |bs|
  {
    bs == [] || (|d.bytes| < BUFFER_BYTES && Fits(Press(d, bs[0]), bs[1..]))
  }

  lemma {:induction false} ShortFits(d: Decoder, bs: seq<Byte>)
    requires |d.bytes| + |bs| <= BUFFER_BYTES
    ensures Fits(d, bs)
    decreases |bs|
  {
    if bs != [] {
      ShortFits(Press(d, bs[0]), bs[1..]);
    }
  }

  lemma {:induction false} PressNext(d: Decoder, bs: seq<Byte>, j: nat)
    requires j < |bs|
    ensures PressAll(d, bs[..j + 1]) == Press(PressAll(d, bs[..j]), bs[j])
  {
    assert bs[..j + 1] == bs[..j] + [bs[j]];
    PressAllConcat(d, bs[..j], [bs[j]]);
    assert [bs[j]][1..] == [];
  }

  lemma {:induction false} FitsEverywhere(d: Decoder, bs: seq<Byte>)
    ensures Fits(d, bs) <==> forall j :: 0 <= j < |bs| ==> |PressAll(d, bs[..j]).bytes| < BUFFER_BYTES
    decreases |bs|
  {
    if bs != [] {
      var e, rest := Press(d, bs[0]), bs[1..];
      FitsEverywhere(e, rest);
      assert bs[..0] == [] && PressAll(d, bs[..0]) == d;
      forall j | 0 <= j < |rest| ensures PressAll(d, bs[..j + 1]) == PressAll(e, rest[..j]) {
        assert bs[..j + 1][0] == bs[0] && bs[..j + 1][1..] == rest[..j];
      }
      if forall j :: 0 <= j < |bs| ==> |PressAll(d, bs[..j]).bytes| < BUFFER_BYTES {
        forall j | 0 <= j < |rest| ensures |PressAll(e, rest[..j]).bytes| < BUFFER_BYTES {
          assert |PressAll(d, bs[..j + 1]).bytes| < BUFFER_BYTES;
        }
      }
      if Fits(d, bs) {
        forall j | 0 <= j < |bs| ensures |PressAll(d, bs[..j]).bytes| < BUFFER_BYTES {
          assert j > 0 ==> |PressAll(e, rest[..j - 1]).bytes| < BUFFER_BYTES;
        }
      }
    }
  }

  /** Bytes that are waiting for more after each of them. */
  predicate Open(bs: seq<Byte>) {
    forall k :: 0 < k <= |bs| ==> Continues(bs[..k])
  }

  /** After the first j bytes the buffer holds `c`, all of it read since it was last empty, and open. */
  predicate Holds(d: Decoder, bs: seq<Byte>, j: nat, c: seq<Byte>) {
    && |c| <= j <= |bs| && c == bs[j - |c|..j] && Open(c)
    && PressAll(d, bs[..j]).bytes == c && PressAll(d, bs[..j - |c|]).bytes == []
  }

  /** What is in the buffer was read since it was last empty, and kept the decoder waiting. */
  lemma {:induction false} BufferIs(d: Decoder, bs: seq<Byte>, j: nat)
    requires d.bytes == [] && j <= |bs|
    ensures Holds(d, bs, j, PressAll(d, bs[..j]).bytes)
  {
    if j == 0 {
      assert bs[..0] == [];
    } else {
      BufferIs(d, bs, j - 1);
      BufferNext(d, bs, j - 1, PressAll(d, bs[..j - 1]).bytes);
    }
  }

  lemma {:induction false} BufferNext(d: Decoder, bs: seq<Byte>, j: nat, c: seq<Byte>)
    requires j < |bs| && Holds(d, bs, j, c)
    ensures Holds(d, bs, j + 1, PressAll(d, bs[..j + 1]).bytes)
  {
    PressNext(d, bs, j);
    var more := c + [bs[j]];
    if Continues(more) {
      OpenMore(c, bs[j]);
      assert bs[j - |c|..j + 1] == more && j + 1 - |more| == j - |c|;
    } else {
      assert bs[j + 1..j + 1] == [];
    }
  }

  lemma {:induction false} OpenMore(c: seq<Byte>, b: Byte)
    requires Open(c) && Continues(c + [b])
    ensures Open(c + [b])
  {
    var more := c + [b];
    forall k | 0 < k <= |more| ensures Continues(more[..k]) {
      assert if k <= |c| then more[..k] == c[..k] else more[..k] == more;
    }
  }

  lemma {:induction false} OpenBuffered(d: Decoder, w: seq<Byte>, k: nat)
    requires d.bytes == [] && Open(w) && k <= |w|
    ensures PressAll(d, w[..k]).bytes == w[..k]
  {
    if k > 0 {
      OpenBuffered(d, w, k - 1);
      PressNext(d, w, k - 1);
      assert w[..k - 1] + [w[k - 1]] == w[..k];
    }
  }

  /** The k-th byte ends no scancode: it is a prefix byte, or 12 second or 7C third behind E0, or all
      bytes up to it are the beginning of the Pause sequence. */
  predicate EndsNothing(w: seq<Byte>, k: nat)
    requires k < |w|
  {
    || w[k] == 0xE0 || w[k] == 0xE1 || w[k] == 0xF0
    || (k == 1 && w[0] == 0xE0 && w[1] == 0x12) || (k == 2 && w[0] == 0xE0 && w[2] == 0x7C)
    || w[..k + 1] <= PAUSE
  }

  predicate NeverEnds(w: seq<Byte>) {
    |w| == BUFFER_BYTES && forall k :: 0 <= k < |w| ==> EndsNothing(w, k)
  }

  lemma {:induction false} NothingEnded(w: seq<Byte>, k: nat)
    requires k < |w| == BUFFER_BYTES
    ensures EndsNothing(w, k) <==> Continues(w[..k + 1])
  {
    var p := w[..k + 1];
    if PausePrefix(p) {
      assert p == PAUSE[..k + 1];
    }
  }

  lemma {:induction false} NeverEndsOpen(w: seq<Byte>)
    requires |w| == BUFFER_BYTES
    ensures NeverEnds(w) <==> Open(w)
  {
    forall k | 0 < k <= |w| ensures Continues(w[..k]) <==> EndsNothing(w, k - 1) {
      NothingEnded(w, k - 1);
    }
    forall k | 0 <= k < |w| ensures EndsNothing(w, k) <==> Continues(w[..k + 1]) {
      NothingEnded(w, k);
    }
    if Open(w) {
      forall k | 0 <= k < |w| ensures EndsNothing(w, k) {
        assert Continues(w[..k + 1]);
      }
    }
  }

  /** The buffer overflows exactly when, from a point where it is empty, eight bytes come that end no
      scancode, and another byte after them. */
  lemma FitsExactlyWhen(d: Decoder, bs: seq<Byte>)
    requires d.bytes == []
    ensures Fits(d, bs) <==>
            !exists i :: 0 <= i && i + BUFFER_BYTES < |bs| && PressAll(d, bs[..i]).bytes == [] && NeverEnds(bs[i..i + BUFFER_BYTES])
  {
    FitsEverywhere(d, bs);
    forall j | 0 <= j < |bs| && |PressAll(d, bs[..j]).bytes| >= BUFFER_BYTES
      ensures exists i :: 0 <= i && i + BUFFER_BYTES < |bs| && PressAll(d, bs[..i]).bytes == [] && NeverEnds(bs[i..i + BUFFER_BYTES])
    {
      WindowAt(d, bs, j);
    }
    forall i | 0 <= i && i + BUFFER_BYTES < |bs| && PressAll(d, bs[..i]).bytes == [] && NeverEnds(bs[i..i + BUFFER_BYTES])
      ensures |PressAll(d, bs[..i + BUFFER_BYTES]).bytes| >= BUFFER_BYTES
    {
      var w := bs[i..i + BUFFER_BYTES];
      NeverEndsOpen(w);
      OpenBuffered(PressAll(d, bs[..i]), w, BUFFER_BYTES);
      assert bs[..i + BUFFER_BYTES] == bs[..i] + w && w[..BUFFER_BYTES] == w;
      PressAllConcat(d, bs[..i], w);
    }
  }

  lemma {:induction false} WindowAt(d: Decoder, bs: seq<Byte>, j: nat)
    requires d.bytes == [] && j < |bs| && |PressAll(d, bs[..j]).bytes| >= BUFFER_BYTES
    ensures exists i :: 0 <= i && i + BUFFER_BYTES < |bs| && PressAll(d, bs[..i]).bytes == [] && NeverEnds(bs[i..i + BUFFER_BYTES])
  {
    BufferIs(d, bs, j);
    var c := PressAll(d, bs[..j]).bytes;
    var i := j - |c|;
    var w := bs[i..i + BUFFER_BYTES];
    assert w == c[..BUFFER_BYTES];
    forall k | 0 < k <= |w| ensures Continues(w[..k]) {
      assert w[..k] == c[..k];
    }
    NeverEndsOpen(w);
  }

  /** The Pause key is such a case: its eight bytes fill the buffer, and the next byte finds no room. */
  lemma {:induction false} PauseOverflows(d: Decoder, b: Byte)
    requires d.bytes == []
    ensures Fits(d, PAUSE) && !Fits(d, PAUSE + [b])
  {
    ShortFits(d, PAUSE);
    FitsExactlyWhen(d, PAUSE + [b]);
    assert (PAUSE + [b])[0..0 + BUFFER_BYTES] == PAUSE && (PAUSE + [b])[..0] == [];
  }

  // ----- the reader -----

  class ScancodeReader {
    const scancodeBytes: array<Byte>
    var scancodeByteCount: int
    var keys: Keys
    var listening: bool
    /** Events handed to the event queue. */
    ghost var events: seq<KeypressEvent>

    ghost predicate Valid()
      reads this
    {
      scancodeBytes.Length == BUFFER_BYTES && 0 <= scancodeByteCount <= BUFFER_BYTES
    }

    ghost function View(): Decoder
      requires Valid()
      reads this, scancodeBytes
    {
      Decoder(scancodeBytes[..scancodeByteCount], keys, events)
    }

    constructor ()
      ensures Valid() && fresh(scancodeBytes) && !listening
      ensures View() == Decoder([], Keys(Modifiers(false, false, false, false, false), Toggles(false, false, false)), [])
    {
      scancodeBytes := new Byte[BUFFER_BYTES](_ => 0);
      scancodeByteCount := 0;
      keys := Keys(Modifiers(false, false, false, false, false), Toggles(false, false, false));
      listening := false;
      events := [];
    }

    method RegisterHandler()
      requires Valid()
      modifies `listening
      ensures Valid() && listening && View() == old(View())
    {
      listening := true;
    }

    method MatchesPause() returns (matches: bool)
      requires Valid()
      ensures matches <==> PausePrefix(scancodeBytes[..scancodeByteCount])
    {
      ghost var bs := scancodeBytes[..scancodeByteCount];
      matches := true;
      var i := 0;
      while i < scancodeByteCount
        invariant 0 <= i <= scancodeByteCount
        invariant matches <==> PausePrefix(bs[..i])
      {
        matches := matches && scancodeBytes[i] == PAUSE[i];
        assert bs[..i + 1] == bs[..i] + [bs[i]];
        i := i + 1;
      }
      assert bs[..i] == bs;
    }

    /** Takes one scancode byte; events are dropped until a handler is registered. */
    method OnKeyPressed(scancode: Byte)
      requires Valid() && scancodeByteCount < BUFFER_BYTES
      modifies this, scancodeBytes
      ensures Valid() && listening == old(listening)
      ensures View() == Press(old(View()), scancode).(events := if listening then Press(old(View()), scancode).events else old(events))
    {
      scancodeBytes[scancodeByteCount] := scancode;
      ghost var bs := old(View()).bytes + [scancode];
      scancodeByteCount := scancodeByteCount + 1;
      assert scancodeBytes[..scancodeByteCount] == bs;

      var pauseScancode := MatchesPause();
      var continueScan := scancode == 0xE0 || scancode == 0xE1 || scancode == 0xF0
        || (scancodeByteCount == 2 && scancodeBytes[0] == 0xE0 && scancode == 0x12)
        || (scancodeByteCount == 3 && scancodeBytes[0] == 0xE0 && scancode == 0x7C)
        || pauseScancode;

      if !continueScan {
        var keycode := KeycodeOf(scancodeBytes[..scancodeByteCount]);
        var released := (scancodeByteCount > 1 && scancodeBytes[0] == 0xF0)
          || (scancodeByteCount > 2 && scancodeBytes[1] == 0xF0);
        keys := UpdateKeys(keys, keycode, released);
        scancodeByteCount := 0;
        if listening {
          events := events + [KeypressEvent(keycode, released, keys)];
        }
      }
    }

    /** Takes bytes that find room in the buffer. */
    method OnKeysPressed(bs: seq<Byte>)
      requires Valid() && listening && Fits(View(), bs)
      modifies this, scancodeBytes
      ensures Valid() && listening && View() == PressAll(old(View()), bs)
    {
      var i := 0;
      while i < |bs|
        invariant 0 <= i <= |bs| && Valid() && listening && Fits(View(), bs[i..])
        invariant PressAll(View(), bs[i..]) == PressAll(old(View()), bs)
      {
        ghost var d := View();
        OnKeyPressed(bs[i]);
        assert bs[i..][0] == bs[i] && bs[i..][1..] == bs[i + 1..];
        i := i + 1;
      }
    }

    /** Whole scancodes, one after the other, never get near the end of the buffer. */
    method OnScancodes(cs: seq<Code>)
      requires Valid() && listening && scancodeByteCount == 0 && forall i :: 0 <= i < |cs| ==> Distinct(cs[i])
      modifies this, scancodeBytes
      ensures Valid() && scancodeByteCount == 0
      ensures View() == Decoder([], KeysAfter(old(keys), cs), old(events) + EventsOf(old(keys), cs))
    {
      ghost var d := View();
      var i := 0;
      while i < |cs|
        invariant 0 <= i <= |cs| && Valid() && listening
        invariant View() == PressAll(d, EncodeAll(cs[..i]))
        invariant View().bytes == []
      {
        CodeDecoded(View(), cs[i]);
        assert cs[..i + 1] == cs[..i] + [cs[i]];
        EncodeAllAppend(cs[..i], cs[i]);
        PressAllConcat(d, EncodeAll(cs[..i]), Encode(cs[i]));
        ShortFits(View(), Encode(cs[i]));
        OnKeysPressed(Encode(cs[i]));
        i := i + 1;
      }
      assert cs[..i] == cs;
      StreamDecoded(d, cs);
    }
  }
}
