/** The keyboard driver: modifier flags, LEDs, and the ring buffer shared by the interrupt handler and its reader. */
module Keyboard {
  import opened Words

  const SIZE := 256

  /** The bits of keyboard_state.flags. */
  datatype Flags = Flags(shift: bool, ctrl: bool, alt: bool, capsLock: bool, numLock: bool, scrollLock: bool)

  /** The bits of keyboard_state.led_state. */
  datatype Leds = Leds(scrollLock: bool, numLock: bool, capsLock: bool)

  const NO_FLAGS := Flags(false, false, false, false, false, false)

  const PREFIX: byte := 0xE0

  predicate IsShift(key: byte) {
    key == 0x2A || key == 0x36
  }

  predicate IsLock(key: byte) {
    key == 0x3A || key == 0x45 || key == 0x46
  }

  /** Keys that only move flags: shift, control, alt and the locks. */
  predicate IsModifier(key: byte) {
    IsShift(key) || key == 0x1D || key == 0x38 || IsLock(key)
  }

  /** A byte from the keyboard that is neither a prefix, a release nor a modifier: it goes to the buffer. */
  predicate IsMake(data: byte) {
    data < 128 && !IsModifier(data)
  }

  /** A press sets the flag of shift, control or alt and toggles that of a lock; a release only clears the former. */
  function MoveFlag(flags: Flags, key: byte, released: bool): Flags
    requires IsModifier(key)
  {
    if IsShift(key) then flags.(shift := !released)
    else if key == 0x1D then flags.(ctrl := !released)
    else if key == 0x38 then flags.(alt := !released)
    else if released then flags
    else if key == 0x3A then flags.(capsLock := !flags.capsLock)
    else if key == 0x45 then flags.(numLock := !flags.numLock)
    else flags.(scrollLock := !flags.scrollLock)
  }

  /** The flags after one byte from the keyboard. */
  function FlagsAfter(flags: Flags, data: byte): Flags {
    if data == PREFIX || !IsModifier(data % 128) then flags else MoveFlag(flags, data % 128, data >= 128)
  }

  function FlagsAfterAll(flags: Flags, s: seq<byte>): Flags {
    if s == [] then flags else FlagsAfter(FlagsAfterAll(flags, s[..|s| - 1]), s[|s| - 1])
  }

  function LedsOf(flags: Flags): Leds {
    Leds(flags.scrollLock, flags.numLock, flags.capsLock)
  }

  /** The make codes among the bytes of s that find fewer than 256 codes in a buffer that holds `count` before s. */
  function Accepted(count: nat, s: seq<byte>): (r: seq<byte>)
    ensures forall i :: 0 <= i < |r| ==> IsMake(r[i])
    decreases |s|
  {
    if s == [] then []
    else if IsMake(s[0]) && count < SIZE then [s[0]] + Accepted(count + 1, s[1..])
    else Accepted(count, s[1..])
  }

  // ----- decoding

  /** The first 58 entries of the unshifted table, row by row; all others are 0. */
  function Plain(code: byte): byte
    requires code < 58
  {
    if code < 15 then [0, 27, 49, 50, 51, 52, 53, 54, 55, 56, 57, 48, 45, 61, 8][code]
    else if code < 29 then [9, 113, 119, 101, 114, 116, 121, 117, 105, 111, 112, 91, 93, 10][code - 15]
    else if code < 42 then [0, 97, 115, 100, 102, 103, 104, 106, 107, 108, 59, 39, 96][code - 29]
    else [0, 92, 122, 120, 99, 118, 98, 110, 109, 44, 46, 47, 0, 42, 0, 32][code - 42]
  }

  /** The first 58 entries of the shifted table. */
  function Shifted(code: byte): byte
    requires code < 58
  {
    if code < 15 then [0, 27, 33, 64, 35, 36, 37, 94, 38, 42, 40, 41, 95, 43, 8][code]
    else if code < 29 then [9, 81, 87, 69, 82, 84, 89, 85, 73, 79, 80, 123, 125, 10][code - 15]
    else if code < 42 then [0, 65, 83, 68, 70, 71, 72, 74, 75, 76, 58, 34, 126][code - 29]
    else [0, 124, 90, 88, 67, 86, 66, 78, 77, 60, 62, 63, 0, 42, 0, 32][code - 42]
  }

  /** scancode_to_ascii: the tables are zero from entry 58 on. */
  function ToAscii(code: byte, shift: bool): byte {
    if code >= 58 then 0 else if shift then Shifted(code) else Plain(code)
  }

  function Decode(code: byte, shift: bool, caps: bool): byte {
    var c := ToAscii(code, shift);
    if 97 <= c <= 122 && caps then c - 97 + 65
    else if 65 <= c <= 90 && caps && !shift then c - 65 + 97
    else c
  }

  /** The 26 letter keys: both tables hold the same letter, and caps lock acts like shift without undoing it. */
  lemma LetterCase(code: byte, shift: bool, caps: bool)
    requires 97 <= ToAscii(code, false) <= 122
    ensures Decode(code, shift, caps) == ToAscii(code, false) - (if shift || caps then 32 else 0)
  {
    SomeCode(code);
  }

  lemma SomeCode(code: byte)
    requires code < 58
    ensures !(65 <= Plain(code) <= 90) && !(97 <= Shifted(code) <= 122)
    ensures if 97 <= Plain(code) <= 122 then Shifted(code) == Plain(code) - 32 else !(65 <= Shifted(code) <= 90)
  {
    if code < 15 {
      assert code == 0 || code == 1 || code == 2 || code == 3 || code == 4 || code == 5 || code == 6 || code == 7
        || code == 8 || code == 9 || code == 10 || code == 11 || code == 12 || code == 13 || code == 14;
    } else if code < 29 {
      assert code == 15 || code == 16 || code == 17 || code == 18 || code == 19 || code == 20 || code == 21
        || code == 22 || code == 23 || code == 24 || code == 25 || code == 26 || code == 27 || code == 28;
    } else if code < 42 {
      assert code == 29 || code == 30 || code == 31 || code == 32 || code == 33 || code == 34 || code == 35
        || code == 36 || code == 37 || code == 38 || code == 39 || code == 40 || code == 41;
    } else {
      assert code == 42 || code == 43 || code == 44 || code == 45 || code == 46 || code == 47 || code == 48
        || code == 49 || code == 50 || code == 51 || code == 52 || code == 53 || code == 54 || code == 55
        || code == 56 || code == 57;
    }
  }

  /** Every other key ignores caps lock; in particular the branch for upper-case letters is never taken. */
  lemma OthersIgnoreCaps(code: byte, shift: bool, caps: bool)
    requires !(97 <= ToAscii(code, false) <= 122)
    ensures Decode(code, shift, caps) == ToAscii(code, shift)
  {
    if code < 58 {
      SomeCode(code);
    }
  }

  /** The characters of a key, without and with shift. */
  predicate Key(code: byte, plain: char, shifted: char) {
    ToAscii(code, false) as char == plain && ToAscii(code, true) as char == shifted
  }

  lemma TopRow(i: byte)
    requires i < 12
    ensures Key(2 + i, "1234567890-="[i], "!@#$%^&*()_+"[i])
  {
  }

  lemma SecondRow(i: byte)
    requires i < 12
    ensures Key(16 + i, "qwertyuiop[]"[i], "QWERTYUIOP{}"[i])
  {
  }

  lemma ThirdRow(i: byte)
    requires i < 12
    ensures Key(30 + i, "asdfghjkl;'`"[i], "ASDFGHJKL:\"~"[i])
  {
  }

  lemma BottomRow(i: byte)
    requires i < 11
    ensures Key(43 + i, "\\zxcvbnm,./"[i], "|ZXCVBNM<>?"[i])
  {
  }

  /** The four rows of a US keyboard. */
  lemma Rows(i: byte)
    requires i < 12
    ensures Key(2 + i, "1234567890-="[i], "!@#$%^&*()_+"[i])
    ensures Key(16 + i, "qwertyuiop[]"[i], "QWERTYUIOP{}"[i])
    ensures Key(30 + i, "asdfghjkl;'`"[i], "ASDFGHJKL:\"~"[i])
    ensures i < 11 ==> Key(43 + i, "\\zxcvbnm,./"[i], "|ZXCVBNM<>?"[i])
  {
    hide Key;
    TopRow(i);
    SecondRow(i);
    ThirdRow(i);
    if i < 11 {
      BottomRow(i);
    }
  }

  /** The keys beside the rows have no shifted character, and most codes no character at all. */
  lemma OtherKeys(code: byte, shift: bool)
    requires !(2 <= code < 14 || 16 <= code < 28 || 30 <= code < 42 || 43 <= code < 54)
    ensures ToAscii(code, shift) ==
      if code == 1 then 27 else if code == 14 then 8 else if code == 15 then 9 else if code == 28 then 10
      else if code == 55 then 42 else if code == 57 then 32 else 0
  {
  }

  // ----- modifiers

  datatype Held = ShiftKeys | CtrlKey | AltKey

  predicate Concerns(h: Held, key: byte) {
    match h
    case ShiftKeys => IsShift(key)
    case CtrlKey => key == 0x1D
    case AltKey => key == 0x38
  }

  function HeldBit(flags: Flags, h: Held): bool {
    match h
    case ShiftKeys => flags.shift
    case CtrlKey => flags.ctrl
    case AltKey => flags.alt
  }

  /** s[k] is a press of the key, and no later byte concerns it. */
  ghost predicate LastPress(h: Held, s: seq<byte>, k: nat) {
    k < |s| && s[k] < 128 && Concerns(h, s[k]) && forall j :: k < j < |s| ==> s[j] == PREFIX || !Concerns(h, s[j] % 128)
  }

  ghost predicate LastIsPress(h: Held, s: seq<byte>) {
    exists k :: LastPress(h, s, k)
  }

  /** SHIFT, CTRL and ALT are set exactly when the last byte that concerns such a key is a press. */
  lemma {:induction false} HeldFlag(h: Held, s: seq<byte>)
    ensures HeldBit(FlagsAfterAll(NO_FLAGS, s), h) <==> LastIsPress(h, s)
  {
    if s != [] {
      var t, d := s[..|s| - 1], s[|s| - 1];
      HeldFlag(h, t);
      HeldStep(h, FlagsAfterAll(NO_FLAGS, t), d);
      LastPressStep(h, t, d);
      assert s == t + [d];
    }
  }

  lemma LastPressStep(h: Held, t: seq<byte>, d: byte)
    ensures LastIsPress(h, t + [d]) <==> if d != PREFIX && Concerns(h, d % 128) then d < 128 else LastIsPress(h, t)
  {
    hide Concerns;
    var s := t + [d];
    if d != PREFIX && Concerns(h, d % 128) {
      if d < 128 {
        assert LastPress(h, s, |t|);
      }
      assert forall k :: LastPress(h, s, k) ==> k == |t| && d < 128 by {
        assert s[|t|] == d;
      }
    } else {
      if k: nat :| LastPress(h, t, k) {
        assert LastPress(h, s, k);
      }
      if k: nat :| LastPress(h, s, k) {
        assert s[|t|] == d && s[k] == t[k];
        assert forall j :: 0 <= j < |t| ==> t[j] == s[j];
        assert LastPress(h, t, k);
      }
    }
  }

  lemma HeldStep(h: Held, flags: Flags, d: byte)
    ensures HeldBit(FlagsAfter(flags, d), h) ==
      if d != PREFIX && Concerns(h, d % 128) then d < 128 else HeldBit(flags, h)
  {
  }

  datatype Lock = CapsLock | NumLock | ScrollLock

  function LockCode(l: Lock): byte {
    match l
    case CapsLock => 0x3A
    case NumLock => 0x45
    case ScrollLock => 0x46
  }

  function LockBit(flags: Flags, l: Lock): bool {
    match l
    case CapsLock => flags.capsLock
    case NumLock => flags.numLock
    case ScrollLock => flags.scrollLock
  }

  function Presses(l: Lock, s: seq<byte>): nat {
    if s == [] then 0 else Presses(l, s[..|s| - 1]) + (if s[|s| - 1] == LockCode(l) then 1 else 0)
  }

  /** A lock is set exactly after an odd number of presses of its key, whatever else was typed. */
  lemma {:induction false} LockFlag(l: Lock, s: seq<byte>)
    ensures LockBit(FlagsAfterAll(NO_FLAGS, s), l) <==> Presses(l, s) % 2 == 1
  {
    if s != [] {
      var t, d := s[..|s| - 1], s[|s| - 1];
      LockFlag(l, t);
      LockStep(l, FlagsAfterAll(NO_FLAGS, t), d);
    }
  }

  lemma LockStep(l: Lock, flags: Flags, d: byte)
    ensures LockBit(FlagsAfter(flags, d), l) == (LockBit(flags, l) != (d == LockCode(l)))
  {
  }

  lemma {:induction false} FlagsConcat(flags: Flags, s: seq<byte>, t: seq<byte>)
    ensures FlagsAfterAll(flags, s + t) == FlagsAfterAll(FlagsAfterAll(flags, s), t)
  {
    if t == [] {
      assert s + t == s;
    } else {
      assert (s + t)[..|s + t| - 1] == s + t[..|t| - 1];
      FlagsConcat(flags, s, t[..|t| - 1]);
    }
  }

  /** All make codes among the bytes of s. */
  function Makes(s: seq<byte>): (r: seq<byte>)
    decreases |s|
  {
    if s == [] then [] else (if IsMake(s[0]) then [s[0]] else []) + Makes(s[1..])
  }

  /** Nothing but lack of room drops a code: the first codes that fit are accepted, and only later ones dropped. */
  lemma {:induction false} AcceptedIsPrefix(count: nat, s: seq<byte>)
    requires count <= SIZE
    ensures var room := SIZE - count;
      Accepted(count, s) == if |Makes(s)| <= room then Makes(s) else Makes(s)[..room]
    decreases |s|
  {
    if s != [] {
      if IsMake(s[0]) && count < SIZE {
        AcceptedIsPrefix(count + 1, s[1..]);
      } else {
        AcceptedIsPrefix(count, s[1..]);
        assert [] + Makes(s[1..]) == Makes(s[1..]);
      }
    }
  }

  /**
   A byte from the keyboard reaches the buffer exactly when there is room for it, it is a press, and its key moves no
   flag, whatever the flags are.
   */
  lemma BufferedExactly(count: nat, data: byte)
    ensures Accepted(count, [data]) ==
      if count < 256 && data < 128 && (forall f: Flags :: FlagsAfter(f, data) == f) then [data] else []
  {
    var f := NO_FLAGS;
    if IsModifier(data) {
      assert FlagsAfter(f, data) != f;
    }
  }

  /** The LEDs: each shines exactly after an odd number of presses of its key. */
  lemma LedsFollowLocks(s: seq<byte>)
    ensures var leds := LedsOf(FlagsAfterAll(NO_FLAGS, s));
      && (leds.capsLock <==> multiset(s)[0x3A] % 2 == 1)
      && (leds.numLock <==> multiset(s)[0x45] % 2 == 1)
      && (leds.scrollLock <==> multiset(s)[0x46] % 2 == 1)
  {
    LockFlag(CapsLock, s);
    LockFlag(NumLock, s);
    LockFlag(ScrollLock, s);
    PressesCounted(CapsLock, s);
    PressesCounted(NumLock, s);
    PressesCounted(ScrollLock, s);
  }

  lemma {:induction false} PressesCounted(l: Lock, s: seq<byte>)
    ensures Presses(l, s) == multiset(s)[LockCode(l)]
  {
    if s != [] {
      PressesCounted(l, s[..|s| - 1]);
      assert s == s[..|s| - 1] + [s[|s| - 1]];
    }
  }

  /** The bytes that move the other flags, as the keyboard sends them. */
  lemma RawBytes(flags: Flags, data: byte)
    ensures var r := FlagsAfter(flags, data);
      && r.shift == (if data in [0x2A, 0x36] then true else if data in [0xAA, 0xB6] then false else flags.shift)
      && r.ctrl == (if data == 0x1D then true else if data == 0x9D then false else flags.ctrl)
      && r.alt == (if data == 0x38 then true else if data == 0xB8 then false else flags.alt)
  {
    assert data < 128 ==> data % 128 == data;
    assert data >= 128 ==> data % 128 == data - 128;
  }

  lemma AcceptedOne(count: nat, data: byte)
    ensures Accepted(count, [data]) == if IsMake(data) && count < SIZE then [data] else []
  {
  }

  lemma {:induction false} AcceptedConcat(count: nat, s: seq<byte>, t: seq<byte>)
    ensures Accepted(count, s + t) == Accepted(count, s) + Accepted(count + |Accepted(count, s)|, t)
    decreases |s|
  {
    if s == [] {
      assert s + t == t;
    } else {
      assert (s + t)[1..] == s[1..] + t;
      AcceptedConcat(if IsMake(s[0]) && count < SIZE then count + 1 else count, s[1..], t);
    }
  }
}
