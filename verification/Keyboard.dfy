/** kernel/arch/x86/keyboard.c: scan code decoding and the 64-character queue. */
module Keyboard {
  import opened Words
  import opened Strings

  const CAPACITY: nat := 64

  // ----- decoding -----

  function LetterForScancode(code: byte): char {
    match code
    case 0x1E => 'a' case 0x30 => 'b' case 0x2E => 'c' case 0x20 => 'd' case 0x12 => 'e'
    case 0x21 => 'f' case 0x22 => 'g' case 0x23 => 'h' case 0x17 => 'i' case 0x24 => 'j'
    case 0x25 => 'k' case 0x26 => 'l' case 0x32 => 'm' case 0x31 => 'n' case 0x18 => 'o'
    case 0x19 => 'p' case 0x10 => 'q' case 0x13 => 'r' case 0x1F => 's' case 0x14 => 't'
    case 0x16 => 'u' case 0x2F => 'v' case 0x11 => 'w' case 0x2D => 'x' case 0x15 => 'y'
    case 0x2C => 'z'
    case _ => '\0'
  }

  const DIGITS := "1234567890"
  const SHIFTED_DIGITS := "!@#$%^&*()"

  function DigitForScancode(code: byte, shifted: bool): char {
    if code < 0x02 || code > 0x0B then '\0'
    else if shifted then SHIFTED_DIGITS[code - 0x02] else DIGITS[code - 0x02]
  }

  /** The character of a key press, '\0' for none. */
  function Decode(code: byte, shifted: bool, caps: bool): char {
    var letter := LetterForScancode(code);
    if letter != '\0' then
      if shifted != caps && 'a' <= letter <= 'z' then letter - 'a' + 'A' else letter
    else if DigitForScancode(code, shifted) != '\0' then DigitForScancode(code, shifted)
    else if code == 0x1C then '\n'
    else if code == 0x0E then BACKSPACE
    else if code == 0x39 then ' '
    else '\0'
  }

  // The letter rows of a QWERTY keyboard, and the scan codes they start at.
  const TOP_ROW := "qwertyuiop"       // 0x10
  const HOME_ROW := "asdfghjkl"       // 0x1E
  const BOTTOM_ROW := "zxcvbnm"       // 0x2C

  /** The letter keys, row by row from left to right. */
  lemma LettersLieInRows(code: byte)
    ensures LetterForScancode(code) ==
            if 0x10 <= code < 0x1A then TOP_ROW[code - 0x10]
            else if 0x1E <= code < 0x27 then HOME_ROW[code - 0x1E]
            else if 0x2C <= code < 0x33 then BOTTOM_ROW[code - 0x2C]
            else '\0'
  {
  }

  /** Every lower-case letter has exactly one key. */
  lemma EveryLetterHasOneKey(c: char) returns (code: byte)
    requires 'a' <= c <= 'z'
    ensures LetterForScancode(code) == c && forall k: byte :: LetterForScancode(k) == c ==> k == code
  {
    code :=
      match c
      case 'q' => 0x10 case 'w' => 0x11 case 'e' => 0x12 case 'r' => 0x13 case 't' => 0x14
      case 'y' => 0x15 case 'u' => 0x16 case 'i' => 0x17 case 'o' => 0x18 case 'p' => 0x19
      case 'a' => 0x1E case 's' => 0x1F case 'd' => 0x20 case 'f' => 0x21 case 'g' => 0x22
      case 'h' => 0x23 case 'j' => 0x24 case 'k' => 0x25 case 'l' => 0x26
      case 'z' => 0x2C case 'x' => 0x2D case 'c' => 0x2E case 'v' => 0x2F case 'b' => 0x30
      case 'n' => 0x31 case _ => 0x32;
  }

  /** A letter is upper case exactly when shift or caps lock applies but not both; the other keys
      ignore caps lock. */
  lemma ShiftAndCapsCancel(code: byte, shifted: bool, caps: bool)
    ensures Decode(code, shifted, caps) == Decode(code, !shifted, !caps) || LetterForScancode(code) == '\0'
    ensures LetterForScancode(code) != '\0' ==>
            if shifted == caps then 'a' <= Decode(code, shifted, caps) <= 'z'
            else 'A' <= Decode(code, shifted, caps) <= 'Z'
    ensures LetterForScancode(code) == '\0' ==> Decode(code, shifted, caps) == Decode(code, shifted, !caps)
  {
  }

  /** No key press yields a character other than a printable one, newline and backspace. */
  lemma DecodedIsTypeable(code: byte, shifted: bool, caps: bool)
    ensures var c := Decode(code, shifted, caps); c == '\0' || ' ' <= c <= '~' || c == '\n' || c == '\U{0008}'
  {
  }

  /** The keys that are not letters. */
  lemma OtherKeys(code: byte, shifted: bool, caps: bool)
    requires LetterForScancode(code) == '\0'
    ensures Decode(code, shifted, caps) ==
            if 0x02 <= code <= 0x0B then (if shifted then "!@#$%^&*()" else "1234567890")[code - 0x02]
            else if code == 0x1C then '\n' else if code == 0x0E then '\U{0008}' else if code == 0x39 then ' '
            else '\0'
  {
  }

  /** Bytes that enqueue nothing: the prefix and what follows it, releases and modifier keys. */
  predicate IsControl(pending: bool, scancode: byte) {
    pending || scancode == 0xE0 || scancode >= 0x80 || scancode in {0x2A, 0x36, 0x3A}
  }

  /** A shift flag after a byte: its own key's press sets it, its release clears it. */
  function ShiftAfter(held: bool, pending: bool, scancode: byte, key: byte): bool {
    if !pending && scancode % 0x80 == key then scancode < 0x80 else held
  }

  /** Left shift is 0x2A pressed and 0xAA released, right shift 0x36 and 0xB6; after the prefix
      neither code means a shift key. */
  lemma ShiftKeys(held: bool, pending: bool, scancode: byte)
    ensures ShiftAfter(held, pending, scancode, 0x2A)
            == if pending then held else scancode == 0x2A || (held && scancode != 0xAA)
    ensures ShiftAfter(held, pending, scancode, 0x36)
            == if pending then held else scancode == 0x36 || (held && scancode != 0xB6)
  {
  }

  // ----- sequence numbers -----

  lemma DropMultiple(x: nat, k: nat)
    ensures (CAPACITY * k + x) % CAPACITY == x % CAPACITY
  {
  }

  /** 64 divides 2^32, so the slot of a wrapped sequence number is the slot of the true one. */
  lemma WrappedSlot(n: nat)
    ensures (n % WORD_LIMIT) % CAPACITY == n % CAPACITY
  {
    var q, r := n / WORD_LIMIT, n % WORD_LIMIT;
    assert n == CAPACITY * (0x400_0000 * q) + r;
    DropMultiple(r, 0x400_0000 * q);
  }

  lemma SlotsDiffer(i: nat, j: nat)
    requires i < j < i + CAPACITY
    ensures i % CAPACITY != j % CAPACITY
  {
  }

  // ----- the queue and the decoder in place -----

  class Keys {
    const queue: array<char>
    var writeSequence: word
    var readSequence: word
    var dropped: word
    var leftShift: bool
    var rightShift: bool
    var capsLock: bool
    var extendedPending: bool
    ghost var accepted: seq<char>     // every character ever enqueued since keyboard_init
    ghost var popped: nat             // how many of them have been taken out

    ghost predicate Valid() reads this, queue {
      && queue.Length == CAPACITY
      && popped <= |accepted| <= popped + CAPACITY
      && writeSequence == |accepted| % WORD_LIMIT
      && readSequence == popped % WORD_LIMIT
      && forall i :: popped <= i < |accepted| ==> queue[i % CAPACITY] == accepted[i]
    }

    constructor ()
      ensures Valid() && accepted == [] && popped == 0
    {
      queue := new char[CAPACITY];
      writeSequence, readSequence, dropped := 0, 0, 0;
      leftShift, rightShift, capsLock, extendedPending := false, false, false, false;
      accepted, popped := [], 0;
    }

    method Init()
      requires Valid()
      modifies this
      ensures Valid() && accepted == [] && popped == 0 && dropped == 0
      ensures !leftShift && !rightShift && !capsLock && !extendedPending
    {
      writeSequence, readSequence, dropped := 0, 0, 0;
      leftShift, rightShift, capsLock, extendedPending := false, false, false, false;
      accepted, popped := [], 0;
    }

    /** Enqueue unless 64 characters are unread. */
    method QueuePush(c: char) returns (ok: bool)
      requires Valid()
      modifies this`writeSequence, this`dropped, this`accepted, queue
      ensures Valid()
      ensures ok <==> old(|accepted|) - popped < CAPACITY
      ensures accepted == if ok then old(accepted) + [c] else old(accepted)
      ensures dropped == if ok then old(dropped) else Add32(old(dropped), 1)
    {
      var write, read := writeSequence, readSequence;
      WrappedDifference(|accepted|, popped);
      if Sub32(write, read) >= CAPACITY {
        dropped := Add32(dropped, 1);
        return false;
      }
      WrappedSlot(|accepted|);
      WrappedSuccessor(|accepted|);
      forall i | popped <= i < |accepted| ensures i % CAPACITY != |accepted| % CAPACITY {
        SlotsDiffer(i, |accepted|);
      }
      queue[write % CAPACITY] := c;
      writeSequence := Add32(write, 1);
      accepted := accepted + [c];
      return true;
    }

    /** Characters come out in the order they went in; false, with the caller's character untouched,
        exactly when none is waiting. */
    method PopChar(buffer: char) returns (ok: bool, c: char)
      requires Valid()
      modifies this`readSequence, this`popped
      ensures Valid()
      ensures ok <==> old(popped) < |accepted|
      ensures ok ==> c == accepted[old(popped)] && popped == old(popped) + 1
      ensures !ok ==> c == buffer && popped == old(popped)
    {
      c := buffer;
      var read, write := readSequence, writeSequence;
      EmptyIffEqual(|accepted|, popped);
      if read == write {
        return false, c;
      }
      WrappedSlot(popped);
      WrappedSuccessor(popped);
      c := queue[read % CAPACITY];
      readSequence := Add32(read, 1);
      popped := popped + 1;
      return true, c;
    }

    /** One Set 1 scan code byte: at most one character is enqueued. */
    method FeedScancode(scancode: byte) returns (ok: bool)
      requires Valid()
      modifies this, queue
      ensures Valid() && popped == old(popped)
      ensures var key := if IsControl(old(extendedPending), scancode) then '\0'
                         else Decode(scancode, old(leftShift) || old(rightShift), old(capsLock));
              && (ok <==> key != '\0' && old(|accepted|) - popped < CAPACITY)
              && accepted == (if ok then old(accepted) + [key] else old(accepted))
              && dropped == (if key != '\0' && !ok then Add32(old(dropped), 1) else old(dropped))
      ensures extendedPending <==> scancode == 0xE0
      ensures leftShift == ShiftAfter(old(leftShift), old(extendedPending), scancode, 0x2A)
      ensures rightShift == ShiftAfter(old(rightShift), old(extendedPending), scancode, 0x36)
      ensures capsLock == if !old(extendedPending) && scancode == 0x3A then !old(capsLock) else old(capsLock)
    {
      var control := TrackModifiers(scancode);
      if control {
        return false;
      }
      var character := Decode(scancode, leftShift || rightShift, capsLock);
      if character == '\0' {
        return false;
      }
      ok := QueuePush(character);
    }

    /** The prefix, the shift and caps lock keys, and releases: they change the modifiers only. */
    method TrackModifiers(scancode: byte) returns (control: bool)
      modifies this`leftShift, this`rightShift, this`capsLock, this`extendedPending
      ensures control <==> IsControl(old(extendedPending), scancode)
      ensures extendedPending <==> scancode == 0xE0
      ensures leftShift == ShiftAfter(old(leftShift), old(extendedPending), scancode, 0x2A)
      ensures rightShift == ShiftAfter(old(rightShift), old(extendedPending), scancode, 0x36)
      ensures capsLock == if !old(extendedPending) && scancode == 0x3A then !old(capsLock) else old(capsLock)
    {
      if scancode == 0xE0 {
        extendedPending := true;
        return true;
      }
      if extendedPending {
        extendedPending := false;
        return true;
      }
      var released, code := scancode >= 0x80, scancode % 0x80;
      if code == 0x2A {
        leftShift := !released;
        return true;
      }
      if code == 0x36 {
        rightShift := !released;
        return true;
      }
      if released {
        return true;
      }
      if code == 0x3A {
        capsLock := !capsLock;
        return true;
      }
      return false;
    }
  }
}
