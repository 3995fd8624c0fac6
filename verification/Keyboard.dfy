/** The keyboard interrupt, which turns scan codes into characters, and the one-slot mailbox through which they
    reach the reader, in every interleaving of interrupts with the reader's single loads and stores. */
module Keyboard {
  import opened Bytes

  // ---------- scan codes ----------

  const NUM_CHAR_HANDLE := 58
  const PR_CONVER := 0x80
  const CTRL := 0x1D
  const SHIFT_LEFT := 0x2A
  const SHIFT_RIGHT := 0x36
  const ALT := 0x38
  const CAPS := 0x3A
  const BACKSPACE_KEY := 0x0E
  const KEY_L := 0x26
  const KEY_ENTER := 0x1C

  /** The key table: plain and shifted character, 0 for none. */
  function Scan2Ascii(scancode: byte): (byte, byte) {
    match scancode
    case 0 => (0, 0) case 1 => (27, 27) case 2 => (49, 33) case 3 => (50, 64)
    case 4 => (51, 35) case 5 => (52, 36) case 6 => (53, 37) case 7 => (54, 94)
    case 8 => (55, 38) case 9 => (56, 42) case 10 => (57, 40) case 11 => (48, 41)
    case 12 => (45, 95) case 13 => (61, 43) case 14 => (8, 8) case 15 => (9, 9)
    case 16 => (113, 81) case 17 => (119, 87) case 18 => (101, 69) case 19 => (114, 82)
    case 20 => (116, 84) case 21 => (121, 89) case 22 => (117, 85) case 23 => (105, 73)
    case 24 => (111, 79) case 25 => (112, 80) case 26 => (91, 123) case 27 => (93, 125)
    case 28 => (13, 13) case 29 => (0, 0) case 30 => (97, 65) case 31 => (115, 83)
    case 32 => (100, 68) case 33 => (102, 70) case 34 => (103, 71) case 35 => (104, 72)
    case 36 => (106, 74) case 37 => (107, 75) case 38 => (108, 76) case 39 => (59, 58)
    case 40 => (39, 34) case 41 => (96, 126) case 42 => (0, 0) case 43 => (92, 124)
    case 44 => (122, 90) case 45 => (120, 88) case 46 => (99, 67) case 47 => (118, 86)
    case 48 => (98, 66) case 49 => (110, 78) case 50 => (109, 77) case 51 => (44, 60)
    case 52 => (46, 62) case 53 => (47, 63) case 54 => (0, 0) case 55 => (0, 0)
    case 56 => (0, 0) case 57 => (32, 32)
    case _ => (0, 0)
  }

  predicate Lower(c: byte) {
    97 <= c <= 122
  }

  predicate Upper(c: byte) {
    65 <= c <= 90
  }

  function SwapCase(c: byte): byte {
    if Lower(c) then c - 0x20 else if Upper(c) then c + 0x20 else c
  }

  datatype Modifiers = Modifiers(ctrl: bool, shift: bool, alt: bool, caps: bool)

  /** The character of an ordinary key, 0 for none. */
  function Character(m: Modifiers, scancode: byte): byte {
    if m.alt && scancode != BACKSPACE_KEY then 0
    else if scancode >= NUM_CHAR_HANDLE then 0
    else if m.ctrl && scancode == KEY_L then FORM_FEED
    else if m.ctrl && scancode != BACKSPACE_KEY && scancode != KEY_ENTER then 0
    else
      var pair := Scan2Ascii(scancode);
      var plain := if m.shift then pair.1 else pair.0;
      if m.caps then SwapCase(plain) else plain
  }

  /** What a scan code means: the new modifier state and the character to push, 0 for none. */
  function KeyEvent(m: Modifiers, scancode: byte): (Modifiers, byte) {
    if scancode == CTRL then (m.(ctrl := true), 0)
    else if scancode == CTRL + PR_CONVER then (m.(ctrl := false), 0)
    else if scancode == SHIFT_LEFT || scancode == SHIFT_RIGHT then (m.(shift := true), 0)
    else if scancode == SHIFT_LEFT + PR_CONVER || scancode == SHIFT_RIGHT + PR_CONVER then (m.(shift := false), 0)
    else if scancode == ALT then (m.(alt := true), 0)
    else if scancode == ALT + PR_CONVER then (m.(alt := false), 0)
    else if scancode == CAPS then (m.(caps := !m.caps), 0)
    else if scancode == CAPS + PR_CONVER then (m, 0)
    else (m, Character(m, scancode))
  }

  lemma TableIsAscii(scancode: byte)
    ensures Scan2Ascii(scancode).0 < PR_CONVER && Scan2Ascii(scancode).1 < PR_CONVER
    ensures Lower(Scan2Ascii(scancode).0) ==> Scan2Ascii(scancode).1 == Scan2Ascii(scancode).0 - 0x20
    ensures Lower(Scan2Ascii(scancode).0) ||
            (!Lower(Scan2Ascii(scancode).1) && !Upper(Scan2Ascii(scancode).1) && !Upper(Scan2Ascii(scancode).0))
  {
  }

  /** The keys from `first` on carry these characters, plain and shifted. */
  ghost predicate RowIs(first: byte, plain: string, shifted: string) {
    && |plain| == |shifted| && first + |plain| <= 255
    && forall i: nat :: i < |plain| ==> KeyIs(first + i, plain[i], shifted[i])
  }

  predicate KeyIs(scancode: byte, plain: char, shifted: char) {
    Scan2Ascii(scancode) == (plain as int, shifted as int)
  }

  lemma DigitsLeft()
    ensures RowIs(2, "123456", "!@#$%^")
  {
    assert KeyIs(2, '1', '!') && KeyIs(3, '2', '@') && KeyIs(4, '3', '#');
    assert KeyIs(5, '4', '$') && KeyIs(6, '5', '%') && KeyIs(7, '6', '^');
    var plain, shifted := "123456", "!@#$%^";
    forall i: nat | i < 6
      ensures KeyIs(2 + i, plain[i], shifted[i])
    {
      assert i in {0, 1, 2, 3, 4, 5};
    }
  }

  lemma DigitsRight()
    ensures RowIs(8, "7890-=", "&*()_+")
  {
    assert KeyIs(8, '7', '&') && KeyIs(9, '8', '*') && KeyIs(10, '9', '(');
    assert KeyIs(11, '0', ')') && KeyIs(12, '-', '_') && KeyIs(13, '=', '+');
    var plain, shifted := "7890-=", "&*()_+";
    forall i: nat | i < 6
      ensures KeyIs(8 + i, plain[i], shifted[i])
    {
      assert i in {0, 1, 2, 3, 4, 5};
    }
  }

  lemma TopLeft()
    ensures RowIs(16, "qwerty", "QWERTY")
  {
    assert KeyIs(16, 'q', 'Q') && KeyIs(17, 'w', 'W') && KeyIs(18, 'e', 'E');
    assert KeyIs(19, 'r', 'R') && KeyIs(20, 't', 'T') && KeyIs(21, 'y', 'Y');
    var plain, shifted := "qwerty", "QWERTY";
    forall i: nat | i < 6
      ensures KeyIs(16 + i, plain[i], shifted[i])
    {
      assert i in {0, 1, 2, 3, 4, 5};
    }
  }

  lemma TopRight()
    ensures RowIs(22, "uiop[]", "UIOP{}")
  {
    assert KeyIs(22, 'u', 'U') && KeyIs(23, 'i', 'I') && KeyIs(24, 'o', 'O');
    assert KeyIs(25, 'p', 'P') && KeyIs(26, '[', '{') && KeyIs(27, ']', '}');
    var plain, shifted := "uiop[]", "UIOP{}";
    forall i: nat | i < 6
      ensures KeyIs(22 + i, plain[i], shifted[i])
    {
      assert i in {0, 1, 2, 3, 4, 5};
    }
  }

  lemma HomeLeft()
    ensures RowIs(30, "asdfgh", "ASDFGH")
  {
    assert KeyIs(30, 'a', 'A') && KeyIs(31, 's', 'S') && KeyIs(32, 'd', 'D');
    assert KeyIs(33, 'f', 'F') && KeyIs(34, 'g', 'G') && KeyIs(35, 'h', 'H');
    var plain, shifted := "asdfgh", "ASDFGH";
    forall i: nat | i < 6
      ensures KeyIs(30 + i, plain[i], shifted[i])
    {
      assert i in {0, 1, 2, 3, 4, 5};
    }
  }

  lemma HomeRight()
    ensures RowIs(36, "jkl;'`", "JKL:\"~")
  {
    assert KeyIs(36, 'j', 'J') && KeyIs(37, 'k', 'K') && KeyIs(38, 'l', 'L');
    assert KeyIs(39, ';', ':') && KeyIs(40, '\'', '\"') && KeyIs(41, '`', '~');
    var plain, shifted := "jkl;'`", "JKL:\"~";
    forall i: nat | i < 6
      ensures KeyIs(36 + i, plain[i], shifted[i])
    {
      assert i in {0, 1, 2, 3, 4, 5};
    }
  }

  lemma BottomLeft()
    ensures RowIs(43, "\\zxcvb", "|ZXCVB")
  {
    assert KeyIs(43, '\\', '|') && KeyIs(44, 'z', 'Z') && KeyIs(45, 'x', 'X');
    assert KeyIs(46, 'c', 'C') && KeyIs(47, 'v', 'V') && KeyIs(48, 'b', 'B');
    var plain, shifted := "\\zxcvb", "|ZXCVB";
    forall i: nat | i < 6
      ensures KeyIs(43 + i, plain[i], shifted[i])
    {
      assert i in {0, 1, 2, 3, 4, 5};
    }
  }

  lemma BottomRight()
    ensures RowIs(49, "nm,./", "NM<>?")
  {
    assert KeyIs(49, 'n', 'N') && KeyIs(50, 'm', 'M') && KeyIs(51, ',', '<');
    assert KeyIs(52, '.', '>') && KeyIs(53, '/', '?');
    var plain, shifted := "nm,./", "NM<>?";
    forall i: nat | i < 5
      ensures KeyIs(49 + i, plain[i], shifted[i])
    {
      assert i in {0, 1, 2, 3, 4};
    }
  }

  /** The key table, row by row as the keys lie, and the other keys. */
  lemma TableRows()
    ensures RowIs(2, "123456", "!@#$%^")
    ensures RowIs(8, "7890-=", "&*()_+")
    ensures RowIs(16, "qwerty", "QWERTY")
    ensures RowIs(22, "uiop[]", "UIOP{}")
    ensures RowIs(30, "asdfgh", "ASDFGH")
    ensures RowIs(36, "jkl;'`", "JKL:\"~")
    ensures RowIs(43, "\\zxcvb", "|ZXCVB")
    ensures RowIs(49, "nm,./", "NM<>?")
    ensures KeyIs(57, ' ', ' ')
    ensures Scan2Ascii(1) == (27, 27) && Scan2Ascii(14) == (8, 8) && Scan2Ascii(15) == (9, 9)
    ensures Scan2Ascii(28) == (13, 13)
    ensures forall code: byte :: code in {0, 29, 42, 54, 55, 56} || code >= 58 ==> Scan2Ascii(code) == (0, 0)
  {
    DigitsLeft();
    DigitsRight();
    TopLeft();
    TopRight();
    HomeLeft();
    HomeRight();
    BottomLeft();
    BottomRight();
  }

  /** The modifier keys push nothing; control, shift and alt last from press to release, caps lock from press to
      press. No other key changes a modifier. */
  lemma ModifierKeys(m: Modifiers, scancode: byte)
    ensures scancode in {0x1D, 0x9D} ==> KeyEvent(m, scancode) == (m.(ctrl := scancode < 0x80), 0)
    ensures scancode in {0x2A, 0x36, 0xAA, 0xB6} ==> KeyEvent(m, scancode) == (m.(shift := scancode < 0x80), 0)
    ensures scancode in {0x38, 0xB8} ==> KeyEvent(m, scancode) == (m.(alt := scancode < 0x80), 0)
    ensures scancode == 0x3A ==> KeyEvent(m, scancode) == (m.(caps := !m.caps), 0)
    ensures scancode == 0xBA ==> KeyEvent(m, scancode) == (m, 0)
    ensures scancode !in {0x1D, 0x9D, 0x2A, 0x36, 0xAA, 0xB6, 0x38, 0xB8, 0x3A, 0xBA} ==>
              KeyEvent(m, scancode).0 == m && (scancode > 0x3A ==> KeyEvent(m, scancode).1 == 0)
  {
  }

  /** With alt held down only backspace pushes anything. */
  lemma AltKeys(m: Modifiers, scancode: byte)
    requires m.alt
    ensures KeyEvent(m, scancode).1 == if scancode == 14 then 8 else 0
  {
  }

  /** Whatever is pushed is a character that the reader does not discard. */
  lemma PushedIsAscii(m: Modifiers, scancode: byte)
    ensures KeyEvent(m, scancode).1 < PR_CONVER
  {
    TableIsAscii(scancode);
  }

  /** A letter comes out in upper case exactly when one of shift and caps lock is on but not both; no other key
      is affected by caps lock. */
  lemma LetterCase(m: Modifiers, scancode: byte)
    requires !m.ctrl && !m.alt && scancode < NUM_CHAR_HANDLE
    requires KeyEvent(m, scancode).0 == m
    requires scancode !in {CTRL, SHIFT_LEFT, SHIFT_RIGHT, ALT}
    ensures var letter := Scan2Ascii(scancode).0;
            KeyEvent(m, scancode).1 ==
            if Lower(letter) then (if m.shift != m.caps then letter - 0x20 else letter)
            else if m.shift then Scan2Ascii(scancode).1 else letter
  {
  }

  /** With control held down only three keys push anything, backspace, enter and L, and with alt held down as well
      only backspace does. */
  lemma ControlKeys(m: Modifiers, scancode: byte)
    requires m.ctrl && KeyEvent(m, scancode).0 == m
    requires scancode !in {CTRL, SHIFT_LEFT, SHIFT_RIGHT, ALT}
    ensures KeyEvent(m, scancode).1 ==
            if scancode == BACKSPACE_KEY then BACKSPACE
            else if m.alt then 0
            else if scancode == KEY_ENTER then RETURN
            else if scancode == KEY_L then FORM_FEED
            else 0
  {
  }

  /** The handler's static state. */
  class Driver {
    var ctrlStat: byte
    var shiftStat: byte
    var altStat: byte
    var capsStat: byte
    var pushedKey: u16

    constructor ()
      ensures Held() == Modifiers(false, false, false, false) && pushedKey == 0
    {
      ctrlStat, shiftStat, altStat, capsStat, pushedKey := 0, 0, 0, 0, 0;
    }

    function Held(): Modifiers
      reads this
    {
      Modifiers(ctrlStat != 0, shiftStat != 0, altStat != 0, capsStat != 0)
    }

    /** The character of a key that is no modifier, 0 for none. */
    method OrdinaryKey(scancode: byte) returns (keycode: byte)
      ensures keycode == Character(Held(), scancode)
    {
      keycode := 0;
      if altStat != 0 {
        if scancode == BACKSPACE_KEY {
          keycode := BACKSPACE;
        } else {
          return 0;
        }
      }
      if scancode < NUM_CHAR_HANDLE {
        var control := false;
        if ctrlStat != 0 {
          if scancode == BACKSPACE_KEY {
            keycode := BACKSPACE;
          } else if scancode == KEY_ENTER {
            keycode := NEWLINE;
          } else if scancode == KEY_L {
            keycode := Scan2Ascii(scancode).0;
            if 97 <= keycode <= 122 {
              keycode := keycode - 97 + 1;
              control := true;
            }
          } else {
            return 0;
          }
        }
        if !control {
          keycode := if shiftStat != 0 then Scan2Ascii(scancode).1 else Scan2Ascii(scancode).0;
          if capsStat != 0 {
            if 97 <= keycode <= 122 {
              keycode := keycode - 0x20;
            } else if 65 <= keycode <= 90 {
              keycode := keycode + 0x20;
            }
          }
        }
      }
    }

    method HandleCharpress(scancode: byte)
      modifies this
      ensures Held() == KeyEvent(old(Held()), scancode).0
      ensures pushedKey as int == if KeyEvent(old(Held()), scancode).1 != 0
                                  then KeyEvent(old(Held()), scancode).1 else old(pushedKey)
    {
      var keycode: byte := 0;
      if scancode == CTRL {
        ctrlStat := 1;
      } else if scancode == CTRL + PR_CONVER {
        ctrlStat := 0;
      } else if scancode == SHIFT_LEFT || scancode == SHIFT_RIGHT {
        shiftStat := 1;
      } else if scancode == SHIFT_LEFT + PR_CONVER || scancode == SHIFT_RIGHT + PR_CONVER {
        shiftStat := 0;
      } else if scancode == ALT {
        altStat := 1;
      } else if scancode == ALT + PR_CONVER {
        altStat := 0;
      } else if scancode == CAPS {
        capsStat := if capsStat != 0 then 0 else 1;
      } else if scancode != CAPS + PR_CONVER {
        keycode := OrdinaryKey(scancode);
      }
      if keycode != 0 {
        pushedKey := keycode;
      }
    }
  }

  // ---------- the mailbox ----------

  /** Where the reader is: about to test the mailbox for a key, about to test the key's range, about to fetch it,
      about to empty the mailbox with the key in hand, or about to discard the key. */
  datatype Pc = Waiting | Testing | Fetching | Emptying(key: byte) | Discarding

  datatype State = State(pushedKey: u16, modifiers: Modifiers, pc: Pc, delivered: seq<byte>)

  datatype Event = Interrupt(scancode: byte) | ReaderStep

  const BOOT := State(0, Modifiers(false, false, false, false), Waiting, [])

  function Read(s: State): State {
    match s.pc
    case Waiting => if s.pushedKey == 0 then s else s.(pc := Testing)
    case Testing => s.(pc := if s.pushedKey < PR_CONVER then Fetching else Discarding)
    case Fetching => s.(pc := Emptying(s.pushedKey % 0x100))
    case Emptying(key) => s.(pushedKey := 0, pc := Waiting, delivered := s.delivered + [key])
    case Discarding => s.(pushedKey := 0, pc := Waiting)
  }

  function Next(s: State, e: Event): State {
    match e
    case Interrupt(scancode) =>
      var (m, key) := KeyEvent(s.modifiers, scancode);
      s.(modifiers := m, pushedKey := if key != 0 then key else s.pushedKey)
    case ReaderStep => Read(s)
  }

  /** The state after a sequence of events, in the order in which they happen. */
  function Run(events: seq<Event>): State {
    if events == [] then BOOT else Next(Run(events[..|events| - 1]), events[|events| - 1])
  }

  /** The character that an event pushes, if any. */
  function PushOf(s: State, e: Event): seq<byte> {
    match e
    case Interrupt(scancode) =>
      var key := KeyEvent(s.modifiers, scancode).1;
      if key != 0 then [key] else []
    case ReaderStep => []
  }

  /** All characters pushed in a run. */
  function Pushed(events: seq<Event>): seq<byte> {
    if events == [] then []
    else
      var before := events[..|events| - 1];
      Pushed(before) + PushOf(Run(before), events[|events| - 1])
  }

  /** A key is on its way: in the mailbox or in the reader's hand. */
  predicate Busy(s: State) {
    s.pushedKey != 0 || s.pc.Emptying?
  }

  /** How many keys were pushed while another one was on its way. */
  function Collisions(events: seq<Event>): nat {
    if events == [] then 0
    else
      var before := events[..|events| - 1];
      Collisions(before) +
      if Busy(Run(before)) && PushOf(Run(before), events[|events| - 1]) != [] then 1 else 0
  }

  /** A fetch takes the newest key. */
  ghost function OriginsNext(s: State, e: Event, pushed: seq<byte>, origins: seq<nat>): seq<nat> {
    if e.ReaderStep? && s.pc.Fetching? && pushed != [] then origins + [|pushed| - 1] else origins
  }

  /** For every key delivered or in the reader's hand, its position among the keys pushed. */
  ghost function Origins(events: seq<Event>): seq<nat> {
    if events == [] then []
    else
      var before := events[..|events| - 1];
      OriginsNext(Run(before), events[|events| - 1], Pushed(before), Origins(before))
  }

  function InHand(s: State): seq<byte> {
    s.delivered + if s.pc.Emptying? then [s.pc.key] else []
  }

  ghost predicate Picks(keys: seq<byte>, origins: seq<nat>, pushed: seq<byte>) {
    && |keys| == |origins|
    && (forall i :: 0 <= i < |keys| ==> origins[i] < |pushed| && keys[i] == pushed[origins[i]])
    && (forall i, j :: 0 <= i < j < |origins| ==> origins[i] < origins[j])
  }

  /** What holds in every state: the mailbox holds the newest key or nothing, and that key has not been fetched
      yet unless the reader is just about to empty the mailbox. */
  ghost predicate Inv(s: State, pushed: seq<byte>, origins: seq<nat>) {
    && s.pc != Discarding
    && (s.pc == Testing || s.pc == Fetching ==> s.pushedKey != 0)
    && (s.pushedKey != 0 ==> pushed != [] && s.pushedKey == pushed[|pushed| - 1] < PR_CONVER)
    && (s.pc.Emptying? ==> s.pushedKey != 0)
    && (s.pushedKey != 0 && !s.pc.Emptying? && origins != [] ==> origins[|origins| - 1] < |pushed| - 1)
    && Picks(InHand(s), origins, pushed)
  }

  lemma InterruptInv(s: State, scancode: byte, pushed: seq<byte>, origins: seq<nat>)
    requires Inv(s, pushed, origins)
    ensures Inv(Next(s, Interrupt(scancode)), pushed + PushOf(s, Interrupt(scancode)), origins)
  {
  }

  lemma ReadInv(s: State, pushed: seq<byte>, origins: seq<nat>)
    requires Inv(s, pushed, origins)
    ensures Inv(Read(s), pushed, OriginsNext(s, ReaderStep, pushed, origins))
  {
    if s.pc.Emptying? {
      assert InHand(Read(s)) == InHand(s);
    }
  }

  lemma {:induction false} RunInv(events: seq<Event>)
    ensures Inv(Run(events), Pushed(events), Origins(events))
    decreases |events|
  {
    if events != [] {
      var before, e := events[..|events| - 1], events[|events| - 1];
      RunInv(before);
      match e {
        case Interrupt(scancode) => InterruptInv(Run(before), scancode, Pushed(before), Origins(before));
        case ReaderStep =>
          ReadInv(Run(before), Pushed(before), Origins(before));
          assert Pushed(before) + [] == Pushed(before);
      }
    }
  }

  /** In every interleaving the delivered keys are a subsequence of the pushed ones: in order, none twice. */
  lemma DeliveredIsSubsequence(events: seq<Event>)
    ensures |Run(events).delivered| <= |Origins(events)|
    ensures Picks(Run(events).delivered, Origins(events)[..|Run(events).delivered|], Pushed(events))
  {
    RunInv(events);
  }

  /** The reader never meets a key that it has to discard. */
  lemma NeverDiscards(events: seq<Event>)
    ensures Run(events).pc != Discarding
    ensures forall i :: 0 <= i < |Run(events).delivered| ==> 1 <= Run(events).delivered[i] < PR_CONVER
  {
    RunInv(events);
    PushedRange(events);
  }

  lemma {:induction false} PushedRange(events: seq<Event>)
    ensures forall i :: 0 <= i < |Pushed(events)| ==> 1 <= Pushed(events)[i] < PR_CONVER
    decreases |events|
  {
    if events != [] {
      PushedRange(events[..|events| - 1]);
      var s := Run(events[..|events| - 1]);
      if events[|events| - 1].Interrupt? {
        PushedIsAscii(s.modifiers, events[|events| - 1].scancode);
      }
    }
  }

  /** Every pushed key is delivered, on its way, or was lost in a collision. */
  lemma {:induction false} KeysConserved(events: seq<Event>)
    ensures |Pushed(events)| ==
            |Run(events).delivered| + Collisions(events) + if Busy(Run(events)) then 1 else 0
    decreases |events|
  {
    if events != [] {
      KeysConserved(events[..|events| - 1]);
      RunInv(events[..|events| - 1]);
    }
  }

  /** When the reader is idle, everything typed has arrived exactly if no key was pushed while another one was on
      its way. */
  lemma NothingLostIff(events: seq<Event>)
    requires !Busy(Run(events))
    ensures Run(events).delivered == Pushed(events) <==> Collisions(events) == 0
  {
    KeysConserved(events);
    RunInv(events);
    if Collisions(events) == 0 {
      FullPick(Run(events).delivered, Origins(events), Pushed(events));
    }
  }

  const READ_ONCE: seq<Event> := [ReaderStep, ReaderStep, ReaderStep, ReaderStep]

  /** A key on its way is delivered by the reader's next four steps if no interrupt comes between them. */
  lemma DeliveredWithinFour(events: seq<Event>)
    ensures var s, s' := Run(events), Run(events + READ_ONCE);
            && !Busy(s')
            && (!Busy(s) ==> s' == s)
            && (Busy(s) ==>
                  s'.delivered == s.delivered + [if s.pc.Emptying? then s.pc.key else s.pushedKey as int % 0x100])
  {
    RunInv(events);
    FourReads(events);
    FourSteps(Run(events), Pushed(events), Origins(events));
  }

  lemma FourReads(events: seq<Event>)
    ensures Run(events + READ_ONCE) == Read(Read(Read(Read(Run(events)))))
  {
    RunLast(events, ReaderStep);
    RunLast(events + [ReaderStep], ReaderStep);
    RunLast(events + [ReaderStep] + [ReaderStep], ReaderStep);
    RunLast(events + [ReaderStep] + [ReaderStep] + [ReaderStep], ReaderStep);
    assert events + READ_ONCE == events + [ReaderStep] + [ReaderStep] + [ReaderStep] + [ReaderStep];
  }

  lemma RunLast(events: seq<Event>, e: Event)
    ensures Run(events + [e]) == Next(Run(events), e)
  {
    assert (events + [e])[..|events|] == events;
  }

  lemma FourSteps(s: State, pushed: seq<byte>, origins: seq<nat>)
    requires Inv(s, pushed, origins)
    ensures var s' := Read(Read(Read(Read(s))));
            && !Busy(s')
            && (!Busy(s) ==> s' == s)
            && (Busy(s) ==>
                  s'.delivered == s.delivered + [if s.pc.Emptying? then s.pc.key else s.pushedKey as int % 0x100])
  {
  }

  /** A strictly increasing choice of as many positions as there are is the identity. */
  lemma FullPick(keys: seq<byte>, origins: seq<nat>, pushed: seq<byte>)
    requires Picks(keys, origins, pushed) && |keys| == |pushed|
    ensures keys == pushed
  {
    forall i | 0 <= i < |keys|
      ensures keys[i] == pushed[i]
    {
      PickAtLeast(origins, i);
      PickAtMost(origins, |pushed|, i);
    }
  }

  lemma {:induction false} PickAtLeast(origins: seq<nat>, i: nat)
    requires i < |origins| && forall a, b :: 0 <= a < b < |origins| ==> origins[a] < origins[b]
    ensures origins[i] >= i
  {
    if i > 0 {
      PickAtLeast(origins, i - 1);
      assert origins[i - 1] < origins[i];
    }
  }

  lemma {:induction false} PickAtMost(origins: seq<nat>, n: nat, i: nat)
    requires i < |origins| == n && forall a, b :: 0 <= a < b < n ==> origins[a] < origins[b]
    requires forall a :: 0 <= a < n ==> origins[a] < n
    ensures origins[i] <= i
    decreases n - i
  {
    if i < n - 1 {
      PickAtMost(origins, n, i + 1);
      assert origins[i] < origins[i + 1];
    }
  }
}
