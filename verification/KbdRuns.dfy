/** kbd_getchar interrupted: its test, its read and its advance are separate steps, and the
    interrupt handler may run between any two of them. */
module KbdRuns {
  import opened Words
  import opened Kbd

  /** Where the reader is inside kbd_getchar. */
  datatype Reader = Outside | Tested | Loaded(ch: schar)

  /** `typed` collects every character that key presses produced, `accepted` those stored in
      the ring, `delivered` those returned to the caller. */
  datatype Sys = Sys(ring: Ring, reader: Reader, typed: seq<schar>, accepted: seq<schar>, delivered: seq<schar>)

  datatype Step = Interrupt(scancode: byte) | Test | Load | Advance

  predicate Enabled(s: Sys, step: Step) {
    match step
    case Interrupt(_) => true
    case Test => s.reader == Outside
    case Load => s.reader == Tested
    case Advance => s.reader.Loaded?
  }

  /** One step.  A Test that finds the ring empty makes kbd_getchar return 0. */
  function Do(s: Sys, step: Step): Sys
    requires WellFormed(s.ring) && Enabled(s, step)
  {
    match step
    case Interrupt(scancode) =>
      var r := Handle(s.ring, scancode);
      s.(ring := r,
         typed := s.typed + (if Typed(s.ring, scancode).Some? then [Typed(s.ring, scancode).value] else []),
         accepted := s.accepted + (if r.tail != s.ring.tail then [r.buffer[s.ring.tail]] else []))
    case Test => if s.ring.head == s.ring.tail then s else s.(reader := Tested)
    case Load => s.(reader := Loaded(s.ring.buffer[s.ring.head]))
    case Advance =>
      s.(ring := s.ring.(head := Next(s.ring.head)), reader := Outside, delivered := s.delivered + [s.reader.ch])
  }

  ghost predicate Run(trace: seq<Sys>, steps: seq<Step>) {
    && |trace| == |steps| + 1
    && WellFormed(trace[0].ring) && trace[0].ring.head == trace[0].ring.tail
    && trace[0].reader == Outside
    && trace[0].typed == [] && trace[0].accepted == [] && trace[0].delivered == []
    && forall i :: 0 <= i < |steps| ==> StepAt(trace, steps, i)
  }

  /** Outside well-formed rings nothing is said; RunInvariant shows that these never occur. */
  ghost predicate StepAt(trace: seq<Sys>, steps: seq<Step>, i: nat)
    requires |trace| == |steps| + 1 && i < |steps|
  {
    Enabled(trace[i], steps[i]) && (WellFormed(trace[i].ring) ==> trace[i + 1] == Do(trace[i], steps[i]))
  }

  ghost predicate Inv(s: Sys) {
    && WellFormed(s.ring)
    && s.accepted == s.delivered + Pending(s.ring)
    && 0 !in s.accepted
    && (s.reader != Outside ==> Pending(s.ring) != [])
    && (s.reader.Loaded? ==> s.reader.ch == Pending(s.ring)[0])
  }

  /** What an interrupt does to the two records. */
  lemma InterruptEffect(s: Sys, scancode: byte)
    requires Inv(s)
    ensures var s' := Do(s, Interrupt(scancode));
      && Inv(s')
      && (match Typed(s.ring, scancode)
          case None => s'.typed == s.typed && s'.accepted == s.accepted
          case Some(ch) =>
            && s'.typed == s.typed + [ch]
            && s'.accepted == if |s.accepted| - |s.delivered| == BUFFER_SIZE - 1 then s.accepted else s.accepted + [ch])
  {
    HandleIsEnqueue(s.ring, scancode);
    TypedIsNotZero(s.ring, scancode);
    match Typed(s.ring, scancode) {
      case None =>
      case Some(ch) =>
        OfferIsEnqueue(Special(s.ring, scancode), ch);
        ConcatAssociates(s.delivered, Pending(s.ring), [ch]);
        FullIsNoRoom(Special(s.ring, scancode));
    }
  }

  lemma FullIsNoRoom(r: Ring)
    requires WellFormed(r)
    ensures Next(r.tail) == r.head <==> |Pending(r)| == BUFFER_SIZE - 1
  {
  }

  lemma StepKeepsInv(s: Sys, step: Step)
    requires Inv(s) && Enabled(s, step)
    ensures Inv(Do(s, step))
  {
    match step
    case Interrupt(scancode) => InterruptEffect(s, scancode);
    case Test => EmptyIsNoPending(s.ring);
    case Load => EmptyIsNoPending(s.ring); AdvanceIsDequeue(s.ring);
    case Advance => EmptyIsNoPending(s.ring); AdvanceIsDequeue(s.ring); FirstToBack(s.delivered, Pending(s.ring));
  }

  lemma {:induction false} RunInvariant(trace: seq<Sys>, steps: seq<Step>, i: nat)
    requires Run(trace, steps) && i < |trace|
    ensures Inv(trace[i])
  {
    if i == 0 {
      EmptyIsNoPending(trace[0].ring);
    } else {
      RunInvariant(trace, steps, i - 1);
      assert StepAt(trace, steps, i - 1);
      StepKeepsInv(trace[i - 1], steps[i - 1]);
    }
  }

  /** In every interleaving the delivered characters are a prefix of the accepted ones, at most
      255 behind. */
  lemma RunIsFifo(trace: seq<Sys>, steps: seq<Step>, i: nat)
    requires Run(trace, steps) && i < |trace|
    ensures trace[i].delivered <= trace[i].accepted
    ensures |trace[i].accepted| - |trace[i].delivered| <= 255
  {
    RunInvariant(trace, steps, i);
  }

  /** In every interleaving a typed key is dropped exactly when 255 characters are pending. */
  lemma RunDropsExactly(trace: seq<Sys>, steps: seq<Step>, i: nat, ch: schar)
    requires Run(trace, steps) && i < |steps| && trace[i + 1].typed == trace[i].typed + [ch]
    ensures trace[i + 1].accepted ==
            if |trace[i].accepted| - |trace[i].delivered| == 255 then trace[i].accepted
            else trace[i].accepted + [ch]
  {
    RunInvariant(trace, steps, i);
    assert StepAt(trace, steps, i);
    assert (trace[i].typed + [ch])[|trace[i].typed|] == ch;
    if steps[i].Interrupt? { InterruptEffect(trace[i], steps[i].scancode); }
  }

  /** In every interleaving kbd_getchar gives 0 exactly when nothing was pending at its test,
      and then nothing changes; a character it delivers is never 0 and is the oldest pending. */
  lemma RunZeroMeansEmpty(trace: seq<Sys>, steps: seq<Step>, i: nat)
    requires Run(trace, steps) && i < |steps|
    ensures steps[i] == Test ==> (trace[i + 1] == trace[i] <==> trace[i].accepted == trace[i].delivered)
    ensures steps[i] == Advance ==>
      && |trace[i].delivered| < |trace[i].accepted|
      && trace[i + 1].delivered == trace[i].delivered + [trace[i].accepted[|trace[i].delivered|]]
      && trace[i].accepted[|trace[i].delivered|] != 0
  {
    RunInvariant(trace, steps, i);
    assert StepAt(trace, steps, i);
    EmptyIsNoPending(trace[i].ring);
  }

  /** If the reader keeps up, every typed character is accepted, in order. */
  lemma {:induction false} RunLosesNothing(trace: seq<Sys>, steps: seq<Step>, i: nat)
    requires Run(trace, steps) && i < |trace|
    requires forall k :: 0 <= k < i ==> |trace[k].accepted| - |trace[k].delivered| < 255
    ensures trace[i].accepted == trace[i].typed
  {
    if i == 0 {
    } else {
      RunLosesNothing(trace, steps, i - 1);
      RunInvariant(trace, steps, i - 1);
      assert StepAt(trace, steps, i - 1);
      if steps[i - 1].Interrupt? { InterruptEffect(trace[i - 1], steps[i - 1].scancode); }
    }
  }

  /** Without an interrupt in between, the three steps are kbd_getchar. */
  lemma StepsAreGet(s: Sys)
    requires Inv(s) && s.reader == Outside
    ensures
      var s1 := Do(s, Test);
      if s1.reader == Outside then s1 == s && Get(s.ring) == (s.ring, 0)
      else
        var s3 := Do(Do(s1, Load), Advance);
        s3.reader == Outside && Get(s.ring) == (s3.ring, s3.delivered[|s.delivered|])
  {
  }

  /** Interrupts one after the other, wherever the reader is. */
  function Interrupts(s: Sys, scancodes: seq<byte>): (s': Sys)
    requires WellFormed(s.ring)
    ensures WellFormed(s'.ring)
  {
    if scancodes == [] then s
    else Do(Interrupts(s, scancodes[..|scancodes| - 1]), Interrupt(scancodes[|scancodes| - 1]))
  }

  lemma {:induction false} InterruptsInParts(s: Sys, a: seq<byte>, b: seq<byte>)
    requires WellFormed(s.ring)
    ensures Interrupts(s, a + b) == Interrupts(Interrupts(s, a), b)
    decreases |b|
  {
    if b == [] {
      assert a + b == a;
    } else {
      var front := b[..|b| - 1];
      InterruptsInParts(s, a, front);
      assert (a + b)[..|a + b| - 1] == a + front;
    }
  }

  /** An interrupt does not depend on where the reader is, and does not move it. */
  lemma {:induction false} InterruptsIgnoreReader(s: Sys, reader: Reader, scancodes: seq<byte>)
    requires WellFormed(s.ring)
    ensures Interrupts(s.(reader := reader), scancodes) == Interrupts(s, scancodes).(reader := reader)
  {
    if scancodes == [] {
    } else {
      InterruptsIgnoreReader(s, reader, scancodes[..|scancodes| - 1]);
    }
  }

  /** The ring is not empty, and its oldest character is `ch`, in slot `head`. */
  predicate FrontIs(r: Ring, head: nat, ch: schar) {
    WellFormed(r) && r.head == head && r.tail != head && r.buffer[head] == ch
  }

  lemma HandleKeepsFront(r: Ring, scancode: byte)
    requires WellFormed(r) && r.head != r.tail
    ensures FrontIs(Handle(r, scancode), r.head, r.buffer[r.head])
  {
  }

  /** Interrupts leave the oldest character where it is. */
  lemma {:induction false} InterruptsKeepFront(s: Sys, scancodes: seq<byte>, ch: schar)
    requires FrontIs(s.ring, s.ring.head, ch)
    ensures FrontIs(Interrupts(s, scancodes).ring, s.ring.head, ch)
    ensures Interrupts(s, scancodes).delivered == s.delivered
  {
    if scancodes == [] {
    } else {
      var front := scancodes[..|scancodes| - 1];
      InterruptsKeepFront(s, front, ch);
      HandleKeepsFront(Interrupts(s, front).ring, scancodes[|scancodes| - 1]);
    }
  }

  lemma AdvanceIsGet(s: Sys, ch: schar)
    requires FrontIs(s.ring, s.ring.head, ch) && s.reader == Outside
    ensures Do(s.(reader := Loaded(ch)), Advance) == s.(ring := Get(s.ring).0, delivered := s.delivered + [Get(s.ring).1])
  {
  }

  /** A kbd_getchar that finds a character is atomic: with the interrupts `a` between its test and
      its read and `b` between its read and its advance, it does what the uninterrupted call does
      after all of these interrupts. */
  lemma InterruptedGet(s: Sys, a: seq<byte>, b: seq<byte>)
    requires Inv(s) && s.reader == Outside && s.ring.head != s.ring.tail
    ensures
      var s2 := Interrupts(Do(s, Test), a);
      s2.reader == Tested &&
      var s4 := Interrupts(Do(s2, Load), b);
      s4.reader.Loaded? &&
      var all := Interrupts(s, a + b);
      Do(s4, Advance) == all.(ring := Get(all.ring).0, delivered := all.delivered + [Get(all.ring).1])
  {
    var ch := s.ring.buffer[s.ring.head];
    var t, all := Interrupts(s, a), Interrupts(s, a + b);
    InterruptsKeepFront(s, a, ch);
    InterruptsKeepFront(t, b, ch);
    InterruptsInParts(s, a, b);
    var s2 := Interrupts(Do(s, Test), a);
    assert s2 == t.(reader := Tested) by { InterruptsIgnoreReader(s, Tested, a); }
    assert Do(s2, Load) == t.(reader := Loaded(ch));
    var s4 := Interrupts(Do(s2, Load), b);
    assert s4 == all.(reader := Loaded(ch)) by { InterruptsIgnoreReader(t, Loaded(ch), b); }
    assert all.reader == Outside by { InterruptsIgnoreReader(s, Outside, a + b); }
    AdvanceIsGet(all, ch);
  }

  // ---------------------------------------------------------------- modifier keys

  /** Interrupt `i` presses one of `keys`, and no later one releases one of them. */
  predicate HeldSince(scancodes: seq<byte>, keys: set<byte>, i: int) {
    0 <= i < |scancodes| && scancodes[i] in keys && forall j :: i < j < |scancodes| ==> !Releases(scancodes[j], keys)
  }

  predicate Releases(scancode: byte, keys: set<byte>) {
    scancode >= 128 && scancode - 128 in keys
  }

  lemma HeldAfterOneMore(scancodes: seq<byte>, keys: set<byte>)
    requires scancodes != [] && forall k :: k in keys ==> k < 128
    ensures var (front, last) := (scancodes[..|scancodes| - 1], scancodes[|scancodes| - 1]);
      (exists i :: HeldSince(scancodes, keys, i)) <==>
        last in keys || (!Releases(last, keys) && exists i :: HeldSince(front, keys, i))
  {
    var front, last := scancodes[..|scancodes| - 1], scancodes[|scancodes| - 1];
    if last in keys {
      assert HeldSince(scancodes, keys, |scancodes| - 1);
    } else if !Releases(last, keys) && exists i :: HeldSince(front, keys, i) {
      var i :| HeldSince(front, keys, i);
      assert HeldSince(scancodes, keys, i);
    } else if exists i :: HeldSince(scancodes, keys, i) {
      var i :| HeldSince(scancodes, keys, i);
      assert HeldSince(front, keys, i);
    }
  }

  /** Shift counts as held exactly when some press of either shift key has not been followed by
      a release of either one, and likewise for the one control key: letting go of one shift key
      ends shift although the other is still down. */
  lemma {:induction false} ModifiersExact(r: Ring, scancodes: seq<byte>)
    requires WellFormed(r) && !r.shift && !r.ctrl
    ensures HandleAll(r, scancodes).shift <==> exists i :: HeldSince(scancodes, {0x2A, 0x36}, i)
    ensures HandleAll(r, scancodes).ctrl <==> exists i :: HeldSince(scancodes, {0x1D}, i)
  {
    if scancodes == [] {
    } else {
      ModifiersExact(r, scancodes[..|scancodes| - 1]);
      HeldAfterOneMore(scancodes, {0x2A, 0x36});
      HeldAfterOneMore(scancodes, {0x1D});
    }
  }

  /** Both shift keys go down and the left one comes up: shift is off with the right key still
      down. */
  lemma OneShiftUp(r: Ring)
    requires WellFormed(r)
    ensures !HandleAll(r, [0x2A, 0x36, 0xAA]).shift
    ensures HeldSince([0x2A, 0x36, 0xAA], {0x36}, 1)
  {
    var both: seq<byte> := [0x2A, 0x36];
    HandleAllSnoc(r, both, 0xAA);
    assert both + [0xAA] == [0x2A, 0x36, 0xAA];
  }

  /** Key `key` is physically down: it has been pressed and not released since. */
  ghost predicate Down(scancodes: seq<byte>, key: byte) {
    exists i :: HeldSince(scancodes, {key}, i)
  }

  /** What the flag should say. */
  ghost predicate ShiftRight(r: Ring, scancodes: seq<byte>)
    requires WellFormed(r)
  {
    HandleAll(r, scancodes).shift <==> Down(scancodes, LEFT_SHIFT) || Down(scancodes, RIGHT_SHIFT)
  }

  /** Interrupt `j` releases one shift key while the other one is down. */
  ghost predicate LosesShift(scancodes: seq<byte>, j: nat)
    requires j < |scancodes|
  {
    || (scancodes[j] == LEFT_SHIFT + 128 && Down(scancodes[..j], RIGHT_SHIFT))
    || (scancodes[j] == RIGHT_SHIFT + 128 && Down(scancodes[..j], LEFT_SHIFT))
  }

  lemma DownAfterOneMore(scancodes: seq<byte>, last: byte, key: byte)
    requires key < 128
    ensures Down(scancodes + [last], key) <==> last == key || (last != key + 128 && Down(scancodes, key))
  {
    var all := scancodes + [last];
    assert all[..|all| - 1] == scancodes;
    HeldAfterOneMore(all, {key});
  }

  /** From a right flag one more interrupt leads to a right flag, unless it loses shift; then the
      flag is wrong whatever it was before. */
  lemma ShiftAfterOneMore(r: Ring, scancodes: seq<byte>, last: byte)
    requires WellFormed(r)
    ensures LosesShift(scancodes + [last], |scancodes|) ==> !ShiftRight(r, scancodes + [last])
    ensures !LosesShift(scancodes + [last], |scancodes|) && ShiftRight(r, scancodes) ==> ShiftRight(r, scancodes + [last])
  {
    assert (scancodes + [last])[..|scancodes|] == scancodes;
    HandleAllSnoc(r, scancodes, last);
    DownAfterOneMore(scancodes, last, LEFT_SHIFT);
    DownAfterOneMore(scancodes, last, RIGHT_SHIFT);
  }

  lemma {:induction false} ShiftRightUpTo(r: Ring, scancodes: seq<byte>, n: nat)
    requires WellFormed(r) && !r.shift && n <= |scancodes|
    requires forall j :: 0 <= j < n ==> !LosesShift(scancodes, j)
    ensures ShiftRight(r, scancodes[..n])
  {
    if n == 0 {
    } else {
      ShiftRightUpTo(r, scancodes, n - 1);
      LosesShiftInPrefix(scancodes, n - 1);
      ShiftAfterOneMore(r, scancodes[..n - 1], scancodes[n - 1]);
    }
  }

  lemma LosesShiftInPrefix(scancodes: seq<byte>, j: nat)
    requires j < |scancodes|
    ensures scancodes[..j + 1] == scancodes[..j] + [scancodes[j]]
    ensures LosesShift(scancodes[..j] + [scancodes[j]], j) <==> LosesShift(scancodes, j)
  {
    assert (scancodes[..j] + [scancodes[j]])[..j] == scancodes[..j];
  }

  /** The shift flag agrees with the keys at all times if and only if neither shift key is ever
      released while the other one is down. */
  lemma ShiftIsRightExactly(r: Ring, scancodes: seq<byte>)
    requires WellFormed(r) && !r.shift
    ensures (forall n :: 0 <= n <= |scancodes| ==> ShiftRight(r, scancodes[..n])) <==>
            (forall j :: 0 <= j < |scancodes| ==> !LosesShift(scancodes, j))
  {
    if j :| 0 <= j < |scancodes| && LosesShift(scancodes, j) {
      LosesShiftInPrefix(scancodes, j);
      ShiftAfterOneMore(r, scancodes[..j], scancodes[j]);
      assert !ShiftRight(r, scancodes[..j + 1]);
    } else {
      forall n | 0 <= n <= |scancodes| ensures ShiftRight(r, scancodes[..n]) { ShiftRightUpTo(r, scancodes, n); }
    }
  }
}
