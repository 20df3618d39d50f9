/** Which key a scancode of set 2 stands for, and what the modifier and lock keys do over any stream of them. */
module ScancodeKeys {
  import opened PhysicalMemory
  import opened Scancodes

  // ----- modifiers -----

  datatype Modifier = Shift | Alt | Control | Gui

  function Held(k: Keys, m: Modifier): bool {
    match m
    case Shift => k.modifiers.shift
    case Alt => k.modifiers.alt
    case Control => k.modifiers.control
    case Gui => k.modifiers.gui
  }

  /** The scancodes of the modifier's left and right keys, going down or up. */
  predicate ModifierKey(m: Modifier, c: Code) {
    match m
    case Shift => c in {Make(0x12), Break(0x12), Make(0x59), Break(0x59)}
    case Alt => c in {Make(0x11), Break(0x11), ExtMake(0x11), ExtBreak(0x11)}
    case Control => c in {Make(0x14), Break(0x14), ExtMake(0x14), ExtBreak(0x14)}
    case Gui => c in {ExtMake(0x1F), ExtBreak(0x1F), ExtMake(0x27), ExtBreak(0x27)}
  }

  lemma {:induction false} ModifierStep(m: Modifier, k: Keys, c: Code)
    ensures Held(UpdateKeys(k, KeyOf(c), Releases(c)), m) == if ModifierKey(m, c) then !Releases(c) else Held(k, m)
  {
    ModifierCodes(m, c);
  }

  function Keycodes(m: Modifier): set<Byte> {
    match m
    case Shift => {KEYCODE_LSHIFT, KEYCODE_RSHIFT}
    case Alt => {KEYCODE_LALT, KEYCODE_RALT}
    case Control => {KEYCODE_LCTRL, KEYCODE_RCTRL}
    case Gui => {KEYCODE_LGUI, KEYCODE_RGUI}
  }

  lemma {:induction false} PlainModifier(x: Byte)
    ensures PlainKeycode(x) in {KEYCODE_LSHIFT, KEYCODE_RSHIFT} <==> x in {0x12, 0x59}
    ensures PlainKeycode(x) in {KEYCODE_LALT, KEYCODE_RALT} <==> x == 0x11
    ensures PlainKeycode(x) in {KEYCODE_LCTRL, KEYCODE_RCTRL} <==> x == 0x14
    ensures PlainKeycode(x) !in {KEYCODE_LGUI, KEYCODE_RGUI}
  {
  }

  lemma {:induction false} ExtendedModifier(x: Byte)
    ensures ExtendedKeycode(x) !in {KEYCODE_LSHIFT, KEYCODE_RSHIFT}
    ensures ExtendedKeycode(x) in {KEYCODE_LALT, KEYCODE_RALT} <==> x == 0x11
    ensures ExtendedKeycode(x) in {KEYCODE_LCTRL, KEYCODE_RCTRL} <==> x == 0x14
    ensures ExtendedKeycode(x) in {KEYCODE_LGUI, KEYCODE_RGUI} <==> x in {0x1F, 0x27}
  {
  }

  lemma {:induction false} ModifierCodes(m: Modifier, c: Code)
    ensures ModifierKey(m, c) <==> KeyOf(c) in Keycodes(m)
  {
    match c
    case Make(x) => PlainModifier(x);
    case Break(x) => PlainModifier(x);
    case ExtMake(x) => ExtendedModifier(x);
    case ExtBreak(x) => ExtendedModifier(x);
    case PrintScreen =>
  }

  /** A modifier is on exactly when the last event of one of its keys was a press; without such an event
      it is what it was. */
  lemma {:induction false} ModifierFollowsLast(m: Modifier, k: Keys, cs: seq<Code>, n: nat)
    requires n <= |cs| && forall i :: n <= i < |cs| ==> !ModifierKey(m, cs[i])
    requires n > 0 ==> ModifierKey(m, cs[n - 1])
    ensures Held(KeysAfter(k, cs), m) == if n > 0 then !Releases(cs[n - 1]) else Held(k, m)
    decreases |cs|
  {
    if cs != [] {
      var front := cs[..|cs| - 1];
      ModifierStep(m, KeysAfter(k, front), cs[|cs| - 1]);
      if n < |cs| {
        assert n > 0 ==> front[n - 1] == cs[n - 1];
        ModifierFollowsLast(m, k, front, n);
      }
    }
  }

  /** No scancode stands for the function key, so its modifier never changes. */
  lemma {:induction false} FunctionNeverChanges(k: Keys, cs: seq<Code>)
    ensures KeysAfter(k, cs).modifiers.function_ == k.modifiers.function_
  {
    if cs != [] {
      FunctionNeverChanges(k, cs[..|cs| - 1]);
      NoFunctionKey(cs[|cs| - 1]);
    }
  }

  lemma NoFunctionKey(c: Code)
    ensures KeyOf(c) != KEYCODE_FN
  {
  }

  // ----- locks -----

  datatype Lock = CapsLock | NumLock | ScrollLock

  function On(k: Keys, l: Lock): bool {
    match l
    case CapsLock => k.toggles.capsLock
    case NumLock => k.toggles.numLock
    case ScrollLock => k.toggles.scrollLock
  }

  /** What the lock's key sends when it goes down. */
  function LockPress(l: Lock): Code {
    match l
    case CapsLock => Make(0x58)
    case NumLock => Make(0x77)
    case ScrollLock => Make(0x7E)
  }

  function Presses(l: Lock, cs: seq<Code>): nat {
    if cs == [] then 0 else Presses(l, cs[..|cs| - 1]) + if cs[|cs| - 1] == LockPress(l) then 1 else 0
  }

  function Keycode(l: Lock): Byte {
    match l
    case CapsLock => KEYCODE_CAPS
    case NumLock => KEYCODE_NUMLOCK
    case ScrollLock => KEYCODE_SCLLK
  }

  lemma {:induction false} LockCode(l: Lock, c: Code)
    ensures KeyOf(c) == Keycode(l) && !Releases(c) <==> c == LockPress(l)
  {
  }

  lemma {:induction false} LockStep(l: Lock, k: Keys, c: Code)
    ensures On(UpdateKeys(k, KeyOf(c), Releases(c)), l) == if c == LockPress(l) then !On(k, l) else On(k, l)
  {
    LockCode(l, c);
  }

  /** A lock is the parity of the presses of its key. */
  lemma {:induction false} LockIsParity(l: Lock, k: Keys, cs: seq<Code>)
    ensures On(KeysAfter(k, cs), l) == (On(k, l) == (Presses(l, cs) % 2 == 0))
  {
    if cs != [] {
      LockIsParity(l, k, cs[..|cs| - 1]);
      LockStep(l, KeysAfter(k, cs[..|cs| - 1]), cs[|cs| - 1]);
    }
  }

  // ----- the layout -----

  /** The keycodes number the keys of a row from left to right: F1 to F12; backtick, 1 to 0, minus, equal
      and backspace; Tab, Q to P, the brackets and backslash; Caps Lock, A to L, semicolon, quote and
      Enter; the left shift key, Z to M, comma, period, slash and the right shift key. */
  lemma {:induction false} RowsNumbered()
    ensures PlainKeycode(0x05) == 0x01 && PlainKeycode(0x06) == 0x02 && PlainKeycode(0x04) == 0x03 && PlainKeycode(0x0C) == 0x04
    ensures PlainKeycode(0x03) == 0x05 && PlainKeycode(0x0B) == 0x06 && PlainKeycode(0x83) == 0x07 && PlainKeycode(0x0A) == 0x08
    ensures PlainKeycode(0x01) == 0x09 && PlainKeycode(0x09) == 0x0A && PlainKeycode(0x78) == 0x0B && PlainKeycode(0x07) == 0x0C
    ensures PlainKeycode(0x0E) == 0x20 && PlainKeycode(0x16) == 0x21 && PlainKeycode(0x1E) == 0x22 && PlainKeycode(0x26) == 0x23
    ensures PlainKeycode(0x25) == 0x24 && PlainKeycode(0x2E) == 0x25 && PlainKeycode(0x36) == 0x26 && PlainKeycode(0x3D) == 0x27
    ensures PlainKeycode(0x3E) == 0x28 && PlainKeycode(0x46) == 0x29 && PlainKeycode(0x45) == 0x2A && PlainKeycode(0x4E) == 0x2B
    ensures PlainKeycode(0x55) == 0x2C && PlainKeycode(0x66) == 0x2D
    ensures PlainKeycode(0x0D) == 0x40 && PlainKeycode(0x15) == 0x41 && PlainKeycode(0x1D) == 0x42 && PlainKeycode(0x24) == 0x43
    ensures PlainKeycode(0x2D) == 0x44 && PlainKeycode(0x2C) == 0x45 && PlainKeycode(0x35) == 0x46 && PlainKeycode(0x3C) == 0x47
    ensures PlainKeycode(0x43) == 0x48 && PlainKeycode(0x44) == 0x49 && PlainKeycode(0x4D) == 0x4A && PlainKeycode(0x54) == 0x4B
    ensures PlainKeycode(0x5B) == 0x4C && PlainKeycode(0x5D) == 0x4D
    ensures PlainKeycode(0x58) == 0x60 && PlainKeycode(0x1C) == 0x61 && PlainKeycode(0x1B) == 0x62 && PlainKeycode(0x23) == 0x63
    ensures PlainKeycode(0x2B) == 0x64 && PlainKeycode(0x34) == 0x65 && PlainKeycode(0x33) == 0x66 && PlainKeycode(0x3B) == 0x67
    ensures PlainKeycode(0x42) == 0x68 && PlainKeycode(0x4B) == 0x69 && PlainKeycode(0x4C) == 0x6A && PlainKeycode(0x52) == 0x6B
    ensures PlainKeycode(0x5A) == 0x6C
    ensures PlainKeycode(0x12) == 0x80 && PlainKeycode(0x1A) == 0x81 && PlainKeycode(0x22) == 0x82 && PlainKeycode(0x21) == 0x83
    ensures PlainKeycode(0x2A) == 0x84 && PlainKeycode(0x32) == 0x85 && PlainKeycode(0x31) == 0x86 && PlainKeycode(0x3A) == 0x87
    ensures PlainKeycode(0x41) == 0x88 && PlainKeycode(0x49) == 0x89 && PlainKeycode(0x4A) == 0x8A && PlainKeycode(0x59) == 0x8B
  {
  }

  /** So they do in the rows of the keypad, except for its 6. */
  lemma {:induction false} KeypadNumbered()
    ensures PlainKeycode(0x6C) == 0x51 && PlainKeycode(0x75) == 0x52 && PlainKeycode(0x7D) == 0x53 && PlainKeycode(0x7B) == 0x54
    ensures PlainKeycode(0x6B) == 0x71 && PlainKeycode(0x73) == 0x72
    ensures PlainKeycode(0x69) == 0x91 && PlainKeycode(0x72) == 0x92 && PlainKeycode(0x7A) == 0x93
    ensures PlainKeycode(0x70) == 0xB2 && PlainKeycode(0x71) == 0xB3
  {
  }

  /** Control, the left GUI key, Alt, the space bar and the keys to the right of it. */
  lemma {:induction false} BottomRowNumbered(i: nat)
    requires i < 7
    ensures KeyOf([Make(0x14), ExtMake(0x1F), Make(0x11), Make(0x29), ExtMake(0x11), ExtMake(0x27), ExtMake(0x14)][i]) == 0xA0 + i
  {
  }

  predicate Goes(c: Code) {
    c.Make? || c.ExtMake?
  }

  /** Two keys that have keycodes other than that of Escape have the same one exactly when they are the
      same key, or 6 and 7 on the keypad: 6 is given the keycode of 7. */
  lemma {:induction false} KeysDistinctExactlyWhen(c: Code, d: Code)
    requires Goes(c) && Goes(d) && KeyOf(c) != 0
    ensures KeyOf(c) == KeyOf(d) <==> c == d || (c in {Make(0x6C), Make(0x74)} && d in {Make(0x6C), Make(0x74)})
  {
    if c.Make? && d.Make? {
      PlainDistinct(c.x, d.x);
    } else if c.ExtMake? && d.ExtMake? {
      ExtendedDistinct(c.x, d.x);
    } else if c.Make? {
      PlainNotExtended(c.x, d.x);
    } else {
      PlainNotExtended(d.x, c.x);
    }
  }

  predicate PadSix(x: Byte, y: Byte) {
    x in {0x6C, 0x74} && y in {0x6C, 0x74}
  }

  lemma {:induction false} PlainDistinct(x: Byte, y: Byte)
    requires PlainKeycode(x) != 0
    ensures PlainKeycode(x) == PlainKeycode(y) <==> x == y || PadSix(x, y)
  {
    if x <= 0x26 {
      DistinctTo26(x, y);
    } else if x <= 0x45 {
      DistinctTo45(x, y);
    } else {
      DistinctFrom46(x, y);
    }
  }

  lemma {:induction false} DistinctTo26(x: Byte, y: Byte)
    requires x <= 0x26 && KeycodeTo26(x) != 0
    ensures KeycodeTo26(x) == PlainKeycode(y) <==> x == y
  {
  }

  lemma {:induction false} DistinctTo45(x: Byte, y: Byte)
    requires 0x26 < x <= 0x45 && KeycodeTo45(x) != 0
    ensures KeycodeTo45(x) == PlainKeycode(y) <==> x == y
  {
  }

  lemma {:induction false} DistinctFrom46(x: Byte, y: Byte)
    requires x > 0x45 && PlainKeycode(x) != 0
    ensures PlainKeycode(x) == PlainKeycode(y) <==> x == y || PadSix(x, y)
  {
  }

  lemma {:induction false} ExtendedDistinct(x: Byte, y: Byte)
    requires ExtendedKeycode(x) != 0
    ensures ExtendedKeycode(x) == ExtendedKeycode(y) <==> x == y
  {
  }

  lemma {:induction false} PlainNotExtended(x: Byte, y: Byte)
    ensures PlainKeycode(x) == ExtendedKeycode(y) ==> PlainKeycode(x) == 0
  {
  }

  /** A scancode without a key is taken for Escape. */
  lemma UnknownIsEscape(d: Decoder, x: Byte)
    requires d.bytes == [] && 0x83 < x < 0xE0
    ensures KeyOf(Make(0x76)) == 0 && Press(d, x) == Emit(d, KeyOf(Make(0x76)), false)
  {
    CodeDecoded(d, Make(x));
    PressTwo(d, x, 0);
    PlainBeyond(x);
  }
}
