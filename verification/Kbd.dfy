/** The keyboard driver: scancode translation and a 256-slot ring written by the interrupt
    handler and read by kbd_getchar. */
module Kbd {
  import opened Words

  const BUFFER_SIZE := 256
  const LEFT_SHIFT := 0x2A
  const RIGHT_SHIFT := 0x36
  const CTRL := 0x1D

  /** The ASCII code of each key press, 0 for keys without one. */
  const SCANCODES: seq<schar> :=
    [0, 27, 49, 50, 51, 52, 53, 54, 55, 56, 57, 48, 45, 61, 8, 9]
    + [113, 119, 101, 114, 116, 121, 117, 105, 111, 112, 91, 93, 10, 0, 97, 115]
    + [100, 102, 103, 104, 106, 107, 108, 59, 39, 96, 0, 92, 122, 120, 99, 118]
    + [98, 110, 109, 44, 46, 47, 0, 42, 0, 32, 0, 0, 0, 0, 0, 0]
    + [0, 0, 0, 0, 0, 0, 0, 55, 56, 57, 45, 52, 53, 54, 43, 49]
    + [50, 51, 48, 46, 0, 0, 0, 0, 0, 0, 0, 0, 0, 0, 0, 0]
    + [0, 0, 0, 0, 0, 0, 0, 0, 0, 0, 0, 0, 0, 0, 0, 0]
    + [0, 0, 0, 0, 0, 0, 0, 0, 0, 0, 0, 0, 0, 0, 0, 0]

  datatype Ring = Ring(buffer: seq<schar>, head: nat, tail: nat, shift: bool, ctrl: bool)

  predicate WellFormed(r: Ring) {
    |r.buffer| == BUFFER_SIZE && r.head < BUFFER_SIZE && r.tail < BUFFER_SIZE
  }

  function Next(i: nat): nat {
    (i + 1) % BUFFER_SIZE
  }

  // ---------------------------------------------------------------- the handler

  function Ascii(scancode: byte): schar
    requires scancode < 128
  {
    SCANCODES[scancode]
  }

  /** The character of a key press, if it has one. */
  function Decode(scancode: byte, shift: bool): Option<schar>
    requires scancode < 128
  {
    var ch := Ascii(scancode);
    if ch == 0 then None
    else if shift && 97 <= ch <= 122 then Some(ch - 97 + 65)
    else Some(ch)
  }

  /** kbd_handle_special_key */
  function Special(r: Ring, scancode: byte): Ring {
    r.(shift := r.shift || scancode == LEFT_SHIFT || scancode == RIGHT_SHIFT, ctrl := r.ctrl || scancode == CTRL)
  }

  function Release(r: Ring, scancode: byte): Ring {
    r.(shift := r.shift && scancode != LEFT_SHIFT && scancode != RIGHT_SHIFT, ctrl := r.ctrl && scancode != CTRL)
  }

  /** The character that interrupt `scancode` offers to the ring. */
  function Typed(r: Ring, scancode: byte): Option<schar> {
    if scancode >= 128 then None else Decode(scancode, Special(r, scancode).shift)
  }

  /** Store a character, unless the slot after it is the head. */
  function Offer(r: Ring, ch: schar): Ring
    requires WellFormed(r)
  {
    if Next(r.tail) == r.head then r else r.(buffer := r.buffer[r.tail := ch], tail := Next(r.tail))
  }

  /** kbd_interrupt_handler */
  function Handle(r: Ring, scancode: byte): (r': Ring)
    requires WellFormed(r)
    ensures WellFormed(r')
  {
    if scancode >= 128 then Release(r, scancode - 128)
    else
      match Typed(r, scancode)
      case None => Special(r, scancode)
      case Some(ch) => Offer(Special(r, scancode), ch)
  }

  // ---------------------------------------------------------------- the keyboard layout

  /** Key `scancode` is one of a row that starts at `first` and has these characters on it. */
  predicate OnRow(scancode: nat, first: nat, row: string) {
    first <= scancode < first + |row|
  }

  function Code(c: char): int {
    c as int
  }

  /** The character on a letter key, without and with shift. */
  function Letter(scancode: nat, shift: bool): Option<char> {
    if OnRow(scancode, 0x10, "qwertyuiop") then Some((if shift then "QWERTYUIOP" else "qwertyuiop")[scancode - 0x10])
    else if OnRow(scancode, 0x1E, "asdfghjkl") then Some((if shift then "ASDFGHJKL" else "asdfghjkl")[scancode - 0x1E])
    else if OnRow(scancode, 0x2C, "zxcvbnm") then Some((if shift then "ZXCVBNM" else "zxcvbnm")[scancode - 0x2C])
    else None
  }

  /** The character on any other key of the main block, on which shift has no effect. */
  function Sign(scancode: nat): Option<char> {
    if OnRow(scancode, 0x02, "1234567890-=") then Some("1234567890-="[scancode - 0x02])
    else if OnRow(scancode, 0x1A, "[]\n") then Some("[]\n"[scancode - 0x1A])
    else if OnRow(scancode, 0x27, ";'`") then Some(";'`"[scancode - 0x27])
    else if scancode == 0x2B then Some('\\')
    else if OnRow(scancode, 0x33, ",./") then Some(",./"[scancode - 0x33])
    else if scancode == 0x37 then Some('*')
    else if scancode == 0x39 then Some(' ')
    else None
  }

  /** The character on a key of the keypad. */
  function Keypad(scancode: nat): Option<char> {
    if OnRow(scancode, 0x47, "789-456+1230.") then Some("789-456+1230."[scancode - 0x47]) else None
  }

  /** The codes of escape, backspace and tab. */
  function Control(scancode: nat): Option<int> {
    if scancode == 0x01 then Some(27) else if scancode == 0x0E then Some(8) else if scancode == 0x0F then Some(9) else None
  }

  /** The code that a key press types, read off the keyboard. */
  function KeyCode(scancode: nat, shift: bool): Option<int> {
    if Letter(scancode, shift).Some? then Some(Code(Letter(scancode, shift).value))
    else if Sign(scancode).Some? then Some(Code(Sign(scancode).value))
    else if Keypad(scancode).Some? then Some(Code(Keypad(scancode).value))
    else Control(scancode)
  }

  lemma TopRow(scancode: byte)
    requires OnRow(scancode, 0x02, "1234567890-=")
    ensures Ascii(scancode) == Code("1234567890-="[scancode - 0x02])
    ensures !(97 <= Ascii(scancode) <= 122) && Ascii(scancode) != 0
  {
  }

  lemma UpperRow(scancode: byte)
    requires OnRow(scancode, 0x10, "qwertyuiop")
    ensures Ascii(scancode) == Code("qwertyuiop"[scancode - 0x10])
    ensures 97 <= Ascii(scancode) <= 122 && Code("QWERTYUIOP"[scancode - 0x10]) == Ascii(scancode) - 32
  {
  }

  lemma Brackets(scancode: byte)
    requires OnRow(scancode, 0x1A, "[]\n")
    ensures Ascii(scancode) == Code("[]\n"[scancode - 0x1A])
    ensures !(97 <= Ascii(scancode) <= 122) && Ascii(scancode) != 0
  {
  }

  lemma HomeRow(scancode: byte)
    requires OnRow(scancode, 0x1E, "asdfghjkl")
    ensures Ascii(scancode) == Code("asdfghjkl"[scancode - 0x1E])
    ensures 97 <= Ascii(scancode) <= 122 && Code("ASDFGHJKL"[scancode - 0x1E]) == Ascii(scancode) - 32
  {
  }

  lemma Quotes(scancode: byte)
    requires OnRow(scancode, 0x27, ";'`")
    ensures Ascii(scancode) == Code(";'`"[scancode - 0x27])
    ensures !(97 <= Ascii(scancode) <= 122) && Ascii(scancode) != 0
  {
  }

  lemma LowerRow(scancode: byte)
    requires OnRow(scancode, 0x2C, "zxcvbnm")
    ensures Ascii(scancode) == Code("zxcvbnm"[scancode - 0x2C])
    ensures 97 <= Ascii(scancode) <= 122 && Code("ZXCVBNM"[scancode - 0x2C]) == Ascii(scancode) - 32
  {
  }

  lemma Stops(scancode: byte)
    requires OnRow(scancode, 0x33, ",./")
    ensures Ascii(scancode) == Code(",./"[scancode - 0x33])
    ensures !(97 <= Ascii(scancode) <= 122) && Ascii(scancode) != 0
  {
  }

  lemma KeypadRows(scancode: byte)
    requires OnRow(scancode, 0x47, "789-456+1230.")
    ensures Ascii(scancode) == Code("789-456+1230."[scancode - 0x47])
    ensures !(97 <= Ascii(scancode) <= 122) && Ascii(scancode) != 0
  {
  }

  lemma SingleKeys()
    ensures Ascii(0x01) == 27 && Ascii(0x0E) == 8 && Ascii(0x0F) == 9
    ensures Ascii(0x2B) == Code('\\') && Ascii(0x37) == Code('*') && Ascii(0x39) == Code(' ')
  {
  }

  lemma SilentKeys(scancode: byte)
    requires scancode in {0x00, 0x1D, 0x2A, 0x36, 0x38} || 0x3A <= scancode < 0x47 || 0x54 <= scancode < 0x80
    ensures Ascii(scancode) == 0
  {
  }

  /** The translation table together with the shift rule types what is on the keys: letters in
      lower case, or in upper case with shift, and everything else without regard to shift. */
  lemma DecodeIsKeyCode(scancode: byte, shift: bool)
    requires scancode < 128
    ensures KeyCode(scancode, shift) == match Decode(scancode, shift) case None => None case Some(ch) => Some(ch as int)
  {
    SingleKeys();
    if OnRow(scancode, 0x02, "1234567890-=") {
      TopRow(scancode);
    } else if OnRow(scancode, 0x10, "qwertyuiop") {
      UpperRow(scancode);
    } else if OnRow(scancode, 0x1A, "[]\n") {
      Brackets(scancode);
    } else if OnRow(scancode, 0x1E, "asdfghjkl") {
      HomeRow(scancode);
    } else if OnRow(scancode, 0x27, ";'`") {
      Quotes(scancode);
    } else if OnRow(scancode, 0x2C, "zxcvbnm") {
      LowerRow(scancode);
    } else if OnRow(scancode, 0x33, ",./") {
      Stops(scancode);
    } else if OnRow(scancode, 0x47, "789-456+1230.") {
      KeypadRows(scancode);
    } else if scancode !in {0x01, 0x0E, 0x0F, 0x2B, 0x37, 0x39} {
      SilentKeys(scancode);
    }
  }

  /** A shift key types nothing, so what a key types depends on the shift flag before it. */
  lemma TypedIsKeyCode(r: Ring, scancode: byte)
    requires scancode < 128
    ensures (match Typed(r, scancode) case None => None case Some(ch) => Some(ch as int)) == KeyCode(scancode, r.shift)
  {
    DecodeIsKeyCode(scancode, Special(r, scancode).shift);
    if scancode == LEFT_SHIFT || scancode == RIGHT_SHIFT { DecodeIsKeyCode(scancode, r.shift); }
  }

  // ---------------------------------------------------------------- the ring as a queue

  /** How many characters are waiting. */
  function Waiting(r: Ring): nat
    requires WellFormed(r)
  {
    if r.head <= r.tail then r.tail - r.head else r.tail + BUFFER_SIZE - r.head
  }

  /** The slot of the `i`-th waiting character. */
  function Slot(head: nat, i: nat): nat {
    if head + i < BUFFER_SIZE then head + i else head + i - BUFFER_SIZE
  }

  /** The characters waiting in the ring, oldest first. */
  function Pending(r: Ring): (q: seq<schar>)
    requires WellFormed(r)
    ensures |q| == Waiting(r) && forall i :: 0 <= i < |q| ==> q[i] == r.buffer[Slot(r.head, i)]
  {
    seq(Waiting(r), i requires 0 <= i < Waiting(r) => r.buffer[Slot(r.head, i)])
  }

  /** A key is dropped exactly when 255 characters are waiting; otherwise it joins the queue. */
  lemma OfferIsEnqueue(r: Ring, ch: schar)
    requires WellFormed(r)
    ensures WellFormed(Offer(r, ch)) && |Pending(r)| <= BUFFER_SIZE - 1
    ensures Pending(Offer(r, ch)) == if |Pending(r)| == BUFFER_SIZE - 1 then Pending(r) else Pending(r) + [ch]
  {
  }

  /** Reading the head slot and advancing takes the oldest character off the queue. */
  lemma AdvanceIsDequeue(r: Ring)
    requires WellFormed(r) && r.head != r.tail
    ensures Pending(r) != [] && r.buffer[r.head] == Pending(r)[0]
    ensures WellFormed(r.(head := Next(r.head))) && Pending(r.(head := Next(r.head))) == Pending(r)[1..]
  {
  }

  /** kbd_getchar */
  function Get(r: Ring): (Ring, schar)
    requires WellFormed(r)
  {
    if r.head == r.tail then (r, 0) else (r.(head := Next(r.head)), r.buffer[r.head])
  }

  /** kbd_getchar takes the oldest character, or reports 0 when there is none. */
  lemma GetIsDequeue(r: Ring)
    requires WellFormed(r)
    ensures WellFormed(Get(r).0)
    ensures Pending(r) == [] ==> Get(r) == (r, 0)
    ensures Pending(r) != [] ==> Get(r).1 == Pending(r)[0] && Pending(Get(r).0) == Pending(r)[1..]
  {
    if r.head != r.tail { AdvanceIsDequeue(r); }
  }

  lemma EmptyIsNoPending(r: Ring)
    requires WellFormed(r)
    ensures r.head == r.tail <==> Pending(r) == []
  {
  }

  /** An interrupt offers its character to the queue and nothing else. */
  lemma HandleIsEnqueue(r: Ring, scancode: byte)
    requires WellFormed(r)
    ensures Pending(Handle(r, scancode)) ==
      match Typed(r, scancode)
      case None => Pending(r)
      case Some(ch) => if |Pending(r)| == BUFFER_SIZE - 1 then Pending(r) else Pending(r) + [ch]
  {
    if Typed(r, scancode).Some? { OfferIsEnqueue(Special(r, scancode), Typed(r, scancode).value); }
  }

  lemma TypedIsNotZero(r: Ring, scancode: byte)
    ensures Typed(r, scancode) != Some(0)
  {
  }

  lemma ConcatAssociates(a: seq<schar>, b: seq<schar>, c: seq<schar>)
    ensures (a + b) + c == a + (b + c)
  {
  }

  lemma FirstToBack(a: seq<schar>, b: seq<schar>)
    requires b != []
    ensures a + b == (a + [b[0]]) + b[1..] && b[0] in a + b
  {
  }

  // ---------------------------------------------------------------- polling

  /** The ring after a sequence of interrupts with no reader. */
  function HandleAll(r: Ring, scancodes: seq<byte>): (r': Ring)
    requires WellFormed(r)
    ensures WellFormed(r')
  {
    if scancodes == [] then r
    else Handle(HandleAll(r, scancodes[..|scancodes| - 1]), scancodes[|scancodes| - 1])
  }

  lemma HandleAllSnoc(r: Ring, scancodes: seq<byte>, scancode: byte)
    requires WellFormed(r)
    ensures HandleAll(r, scancodes + [scancode]) == Handle(HandleAll(r, scancodes), scancode)
  {
    assert (scancodes + [scancode])[..|scancodes|] == scancodes;
  }

  /** The keyboard is polled with kbd_getchar over and over; `arrivals[i]` are the interrupts
      that come in before poll `i`. */
  function AfterPolls(r: Ring, arrivals: seq<seq<byte>>): (r': Ring)
    requires WellFormed(r)
    ensures WellFormed(r')
  {
    if arrivals == [] then r
    else
      var before := HandleAll(AfterPolls(r, arrivals[..|arrivals| - 1]), arrivals[|arrivals| - 1]);
      GetIsDequeue(before);
      Get(before).0
  }

  /** The characters that these polls yield. */
  function Polled(r: Ring, arrivals: seq<seq<byte>>): seq<schar>
    requires WellFormed(r)
  {
    if arrivals == [] then []
    else
      var front := arrivals[..|arrivals| - 1];
      var ch := Get(HandleAll(AfterPolls(r, front), arrivals[|arrivals| - 1])).1;
      Polled(r, front) + (if ch == 0 then [] else [ch])
  }

  lemma PollSnoc(r: Ring, arrivals: seq<seq<byte>>, scancodes: seq<byte>)
    requires WellFormed(r)
    ensures var (r', ch) := Get(HandleAll(AfterPolls(r, arrivals), scancodes));
      && AfterPolls(r, arrivals + [scancodes]) == r'
      && Polled(r, arrivals + [scancodes]) == Polled(r, arrivals) + (if ch == 0 then [] else [ch])
  {
    assert (arrivals + [scancodes])[..|arrivals|] == arrivals;
  }

  /** Polls made in two parts yield the characters of the first part and then those of the second. */
  ghost predicate InParts(r: Ring, a: seq<seq<byte>>, b: seq<seq<byte>>)
    requires WellFormed(r)
  {
    && AfterPolls(r, a + b) == AfterPolls(AfterPolls(r, a), b)
    && Polled(r, a + b) == Polled(r, a) + Polled(AfterPolls(r, a), b)
  }

  lemma NoPollMore(r: Ring, a: seq<seq<byte>>)
    requires WellFormed(r)
    ensures InParts(r, a, [])
  {
    assert a + [] == a;
    assert Polled(r, a) + [] == Polled(r, a);
  }

  lemma OnePollMore(r: Ring, a: seq<seq<byte>>, b: seq<seq<byte>>)
    requires WellFormed(r) && b != [] && InParts(r, a, b[..|b| - 1])
    ensures InParts(r, a, b)
  {
    var front, last := b[..|b| - 1], b[|b| - 1];
    assert (a + b)[..|a + b| - 1] == a + front && (a + b)[|a + b| - 1] == last;
    var r0, r1 := AfterPolls(r, a), AfterPolls(r, a + front);
    var got := Get(HandleAll(r1, last)).1;
    ConcatAssociates(Polled(r, a), Polled(r0, front), if got == 0 then [] else [got]);
  }

  lemma {:induction false} PollsInParts(r: Ring, a: seq<seq<byte>>, b: seq<seq<byte>>)
    requires WellFormed(r)
    ensures InParts(r, a, b)
    decreases |b|
  {
    if b == [] {
      NoPollMore(r, a);
    } else {
      PollsInParts(r, a, b[..|b| - 1]);
      OnePollMore(r, a, b);
    }
  }

  /** More polls yield more characters after those of the earlier ones. */
  lemma {:induction false} PollsGrow(r: Ring, arrivals: seq<seq<byte>>, n: nat)
    requires WellFormed(r) && n <= |arrivals|
    ensures Polled(r, arrivals[..n]) <= Polled(r, arrivals)
    decreases |arrivals|
  {
    if n == |arrivals| {
      assert arrivals[..n] == arrivals;
    } else {
      var front := arrivals[..|arrivals| - 1];
      assert front[..n] == arrivals[..n];
      PollsGrow(r, front, n);
      assert Polled(r, front) <= Polled(r, arrivals);
    }
  }

  // ---------------------------------------------------------------- the driver

  /** The typed character, if any, has joined the record unless 255 were waiting. */
  predicate Accepts(before: seq<schar>, after: seq<schar>, waiting: nat, typed: Option<schar>) {
    match typed
    case None => after == before
    case Some(ch) => after == if waiting == 255 then before else before + [ch]
  }

  class Keyboard {
    const buffer: array<schar>
    var head: u32
    var tail: u32
    var shiftPressed: bool
    var ctrlPressed: bool
    /** All characters ever stored, and all ever returned by GetChar. */
    ghost var accepted: seq<schar>
    ghost var delivered: seq<schar>

    ghost function State(): Ring
      reads this, buffer
    {
      Ring(buffer[..], head, tail, shiftPressed, ctrlPressed)
    }

    ghost predicate Valid()
      reads this, buffer
    {
      WellFormed(State()) && accepted == delivered + Pending(State()) && 0 !in accepted
    }

    /** kbd_init */
    constructor (buffer: array<schar>)
      requires buffer.Length == BUFFER_SIZE
      ensures this.buffer == buffer && Valid() && accepted == [] && delivered == []
      ensures State() == Ring(buffer[..], 0, 0, false, false)
    {
      this.buffer := buffer;
      head, tail := 0, 0;
      shiftPressed, ctrlPressed := false, false;
      accepted, delivered := [], [];
    }

    method HandleSpecialKey(scancode: byte)
      modifies this`shiftPressed, this`ctrlPressed
      ensures State() == Special(old(State()), scancode)
    {
      if scancode == LEFT_SHIFT || scancode == RIGHT_SHIFT {
        shiftPressed := true;
      }
      if scancode == CTRL {
        ctrlPressed := true;
      }
    }

    /** The tail end of the handler: add `ch` to the buffer if there is room. */
    method Store(ch: schar)
      requires Valid() && ch != 0
      modifies this`tail, this`accepted, buffer
      ensures Valid() && State() == Offer(old(State()), ch)
      ensures delivered == old(delivered)
      ensures accepted == if |old(Pending(State()))| == BUFFER_SIZE - 1 then old(accepted) else old(accepted) + [ch]
    {
      ghost var r0 := State();
      OfferIsEnqueue(r0, ch);
      ConcatAssociates(delivered, Pending(r0), [ch]);
      var next := (tail + 1) % BUFFER_SIZE;
      if next != head {
        buffer[tail] := ch;
        tail := next;
        accepted := accepted + [ch];
      }
      assert State() == Offer(r0, ch);
    }

    /** The part of the handler for a key press. */
    method Press(scancode: byte)
      requires Valid() && scancode < 0x80
      modifies this`tail, this`shiftPressed, this`ctrlPressed, this`accepted, buffer
      ensures Valid() && State() == Handle(old(State()), scancode)
      ensures delivered == old(delivered)
      ensures Accepts(old(accepted), accepted, |old(Pending(State()))|, Typed(old(State()), scancode))
    {
      HandleSpecialKey(scancode);
      assert Pending(State()) == old(Pending(State()));
      var ch := Ascii(scancode);
      if ch != 0 {
        if shiftPressed {
          if ch >= 97 && ch <= 122 {
            ch := ch - 97 + 65;
          }
        }
        Store(ch);
      }
    }

    /** kbd_interrupt_handler.  The character accepted is the one on the key, see KeyCode. */
    method Interrupt(scancode: byte)
      requires Valid()
      modifies this`tail, this`shiftPressed, this`ctrlPressed, this`accepted, buffer
      ensures Valid() && State() == Handle(old(State()), scancode)
      ensures delivered == old(delivered)
      ensures Accepts(old(accepted), accepted, |old(Pending(State()))|, Typed(old(State()), scancode))
      ensures (match Typed(old(State()), scancode) case None => None case Some(ch) => Some(ch as int)) ==
              if scancode >= 0x80 then None else KeyCode(scancode, old(shiftPressed))
    {
      if scancode >= 0x80 {
        var code := scancode - 0x80;
        if code == LEFT_SHIFT || code == RIGHT_SHIFT {
          shiftPressed := false;
        }
        if code == CTRL {
          ctrlPressed := false;
        }
        assert Pending(State()) == old(Pending(State()));
      } else {
        TypedIsKeyCode(State(), scancode);
        Press(scancode);
      }
    }

    method GetChar() returns (ch: schar)
      requires Valid()
      modifies this`head, this`delivered
      ensures Valid() && (State(), ch) == Get(old(State()))
      ensures delivered == if ch == 0 then old(delivered) else old(delivered) + [ch]
    {
      ghost var r0 := State();
      GetIsDequeue(r0);
      if head == tail {
        return 0;
      }
      FirstToBack(delivered, Pending(r0));
      ch := buffer[head];
      head := (head + 1) % BUFFER_SIZE;
      delivered := delivered + [ch];
      assert State() == Get(r0).0;
    }

    method CharAvailable() returns (available: bool)
      requires Valid()
      ensures available <==> Pending(State()) != []
    {
      EmptyIsNoPending(State());
      available := head != tail;
    }
  }
}
