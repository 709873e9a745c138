/** The shell's line editor and tokenizer. */
module Shell {
  import opened Words
  import opened Kbd
  import opened Vga

  const MAX_CMD_LEN := 256
  const MAX_ARGS := 16
  const BACKSPACE: schar := 8
  const TAB: schar := 9
  const LINE_FEED: schar := 10
  const CARRIAGE_RETURN: schar := 13
  const SPACE: schar := 32
  const WHITE_ON_BLACK: byte := 0x0F

  // ---------------------------------------------------------------- line editing

  predicate EndsLine(ch: schar) {
    ch == LINE_FEED || ch == CARRIAGE_RETURN
  }

  /** The text after one key. */
  function Edit(text: seq<schar>, ch: schar): seq<schar> {
    if ch != BACKSPACE then text + [ch] else if text == [] then [] else text[..|text| - 1]
  }

  /** What one key sends to the screen. */
  function Echo(text: seq<schar>, ch: schar): seq<schar> {
    if ch != BACKSPACE then [ch] else if text == [] then [] else [BACKSPACE, SPACE, BACKSPACE]
  }

  /** The text after a sequence of keys. */
  function Edited(keys: seq<schar>): seq<schar> {
    if keys == [] then [] else Edit(Edited(keys[..|keys| - 1]), keys[|keys| - 1])
  }

  function Echoed(keys: seq<schar>): seq<schar> {
    if keys == [] then []
    else Echoed(keys[..|keys| - 1]) + Echo(Edited(keys[..|keys| - 1]), keys[|keys| - 1])
  }

  /** A line whose keys so far are `keys` is over: Enter was pressed, or the buffer is full. */
  predicate Over(keys: seq<schar>, maxLen: nat) {
    (keys != [] && EndsLine(keys[|keys| - 1])) || |Edited(keys)| + 1 >= maxLen
  }

  /** The keys of one whole line: it is over with the last key and not before. */
  predicate IsLine(keys: seq<schar>, maxLen: nat) {
    Over(keys, maxLen) && StillOpen(keys, |keys|, maxLen)
  }

  /** The line is not over after any fewer than `n` keys. */
  predicate StillOpen(keys: seq<schar>, n: nat, maxLen: nat)
    requires n <= |keys|
  {
    forall k :: 0 <= k < n ==> OpenAt(keys, k, maxLen)
  }

  predicate OpenAt(keys: seq<schar>, k: nat, maxLen: nat)
    requires k <= |keys|
  {
    !Over(keys[..k], maxLen)
  }

  /** The keys that make up the text: all but a final Enter. */
  function Body(keys: seq<schar>): seq<schar> {
    if keys != [] && EndsLine(keys[|keys| - 1]) then keys[..|keys| - 1] else keys
  }

  lemma EditedSnoc(keys: seq<schar>, ch: schar)
    ensures Edited(keys + [ch]) == Edit(Edited(keys), ch)
    ensures Echoed(keys + [ch]) == Echoed(keys) + Echo(Edited(keys), ch)
  {
  }

  lemma StillOpenSnoc(keys: seq<schar>, ch: schar, maxLen: nat)
    requires StillOpen(keys, |keys|, maxLen) && !Over(keys, maxLen)
    ensures StillOpen(keys + [ch], |keys| + 1, maxLen)
  {
    forall k | 0 <= k < |keys| + 1 ensures OpenAt(keys + [ch], k, maxLen) {
      assert (keys + [ch])[..k] == keys[..k];
      if k < |keys| { assert OpenAt(keys, k, maxLen); } else { assert keys[..k] == keys; }
    }
  }

  lemma BodySnoc(keys: seq<schar>, ch: schar)
    requires EndsLine(ch)
    ensures Body(keys + [ch]) == keys
  {
  }

  lemma ThreeAppends(s: seq<schar>, a: schar, b: schar, c: schar)
    ensures s + [a] + [b] + [c] == s + [a, b, c]
  {
  }

  // ---------------------------------------------------------------- lines in a key stream

  /** Some prefix of the stream is a whole line. */
  ghost predicate HasLine(stream: seq<schar>, maxLen: nat) {
    exists k :: 0 <= k <= |stream| && LineEnds(stream, k, maxLen)
  }

  ghost predicate LineEnds(stream: seq<schar>, k: nat, maxLen: nat)
    requires k <= |stream|
  {
    IsLine(stream[..k], maxLen)
  }

  /** These are the keys of a line that is still being typed. */
  ghost predicate StillTyping(keys: seq<schar>, maxLen: nat) {
    StillOpen(keys, |keys|, maxLen) && !Over(keys, maxLen)
  }

  lemma OpenAtPrefix(stream: seq<schar>, maxLen: nat, i: nat, j: nat)
    requires i <= j <= |stream|
    ensures OpenAt(stream[..j], i, maxLen) <==> !Over(stream[..i], maxLen)
  {
    assert stream[..j][..i] == stream[..i];
  }

  lemma TypingHasNoLine(keys: seq<schar>, maxLen: nat)
    requires StillTyping(keys, maxLen)
    ensures !HasLine(keys, maxLen)
  {
    forall k | 0 <= k <= |keys| ensures !LineEnds(keys, k, maxLen) {
      if k < |keys| { assert OpenAt(keys, k, maxLen); } else { assert keys[..k] == keys; }
    }
  }

  lemma LineInPrefix(line: seq<schar>, stream: seq<schar>, maxLen: nat)
    requires IsLine(line, maxLen) && line <= stream
    ensures HasLine(stream, maxLen)
  {
    assert stream[..|line|] == line;
    assert LineEnds(stream, |line|, maxLen);
  }

  // ---------------------------------------------------------------- the editor's loop

  /** The keyboard at one moment. */
  datatype Mark = Mark(ring: Ring, delivered: seq<schar>)

  ghost function Now(kbd: Keyboard): (m: Mark)
    requires kbd.Valid()
    reads kbd, kbd.buffer
    ensures WellFormed(m.ring)
  {
    Mark(kbd.State(), kbd.delivered)
  }

  /** The characters yielded by polls made since `start`, and the keyboard after them. */
  function Yield(start: Mark, arrivals: seq<seq<byte>>): seq<schar>
    requires WellFormed(start.ring)
  {
    Polled(start.ring, arrivals)
  }

  function After(start: Mark, arrivals: seq<seq<byte>>): Mark
    requires WellFormed(start.ring)
  {
    Mark(AfterPolls(start.ring, arrivals), start.delivered + Yield(start, arrivals))
  }

  /** Since `start` the keyboard has been polled once after each of `arrivals`, which yielded `keys`. */
  ghost predicate Took(kbd: Keyboard, start: Mark, arrivals: seq<seq<byte>>, keys: seq<schar>)
    reads kbd, kbd.buffer
  {
    && kbd.Valid() && WellFormed(start.ring)
    && Now(kbd) == After(start, arrivals) && keys == Yield(start, arrivals)
  }

  /** The interrupts `scancodes` arrive, then the keyboard is polled once. */
  method Poll(kbd: Keyboard, scancodes: seq<byte>, ghost start: Mark, ghost past: seq<seq<byte>>, ghost keys: seq<schar>)
    returns (ch: schar)
    requires Took(kbd, start, past, keys)
    modifies kbd, kbd.buffer
    ensures Took(kbd, start, past + [scancodes], if ch == 0 then keys else keys + [ch])
  {
    ghost var r0 := kbd.State();
    for i := 0 to |scancodes|
      invariant kbd.Valid() && kbd.State() == HandleAll(r0, scancodes[..i])
      invariant kbd.delivered == start.delivered + keys
    {
      HandleAllSnoc(r0, scancodes[..i], scancodes[i]);
      assert scancodes[..i] + [scancodes[i]] == scancodes[..i + 1];
      kbd.Interrupt(scancodes[i]);
    }
    assert scancodes[..|scancodes|] == scancodes;
    ch := kbd.GetChar();
    PollSnoc(start.ring, past, scancodes);
    ConcatAssociates(start.delivered, keys, [ch]);
  }

  /** The console shows `echoed`, printed on top of `screen`. */
  ghost predicate Printed(console: Console, screen: Screen, echoed: seq<schar>)
    reads console, console.buffer
  {
    console.Valid() && InRange(screen) && console.State() == PutAll(screen, echoed, 0x0F)
  }

  method EchoChar(console: Console, ch: schar, ghost screen: Screen, ghost echoed: seq<schar>)
    requires Printed(console, screen, echoed)
    modifies console, console.buffer
    ensures Printed(console, screen, echoed + [ch])
  {
    assert (echoed + [ch])[..|echoed|] == echoed;
    console.PutChar(ch, WHITE_ON_BLACK);
  }

  /** Backspace with something to erase: three cells are printed. */
  method EchoErasure(console: Console, ghost screen: Screen, ghost echoed: seq<schar>)
    requires Printed(console, screen, echoed)
    modifies console, console.buffer
    ensures Printed(console, screen, echoed + [BACKSPACE, SPACE, BACKSPACE])
  {
    EchoChar(console, BACKSPACE, screen, echoed);
    EchoChar(console, SPACE, screen, echoed + [BACKSPACE]);
    EchoChar(console, BACKSPACE, screen, echoed + [BACKSPACE] + [SPACE]);
    ThreeAppends(echoed, BACKSPACE, SPACE, BACKSPACE);
  }

  /** The part of shell_read_line that handles a key other than Enter. */
  method ApplyKey(console: Console, buffer: array<schar>, n: nat, ch: schar,
                  ghost before: seq<schar>, ghost screen: Screen) returns (n': nat)
    requires n < buffer.Length && buffer[..n] == Edited(before) && buffer as object != console.buffer
    requires Printed(console, screen, Echoed(before))
    modifies console, console.buffer, buffer
    ensures n' <= n + 1 && buffer[..n'] == Edited(before + [ch])
    ensures Printed(console, screen, Echoed(before + [ch]))
  {
    EditedSnoc(before, ch);
    ghost var text := buffer[..n];
    if ch == BACKSPACE {
      if n > 0 {
        n' := n - 1;
        assert buffer[..n'] == text[..|text| - 1];
        EchoErasure(console, screen, Echoed(before));
      } else {
        n' := n;
        assert Echoed(before) + [] == Echoed(before);
      }
    } else {
      buffer[n] := ch;
      n' := n + 1;
      assert buffer[..n'] == text + [ch];
      EchoChar(console, ch, screen, Echoed(before));
    }
  }

  /** Between two polls: `keys` have been taken, the line has been open all along, and the
      buffer and the screen hold what was typed so far. */
  ghost predicate Editing(console: Console, buffer: array<schar>, n: int, keys: seq<schar>, screen: Screen, maxLen: nat)
    reads console, console.buffer, buffer
  {
    && StillOpen(keys, |keys|, maxLen) && (keys != [] ==> !EndsLine(keys[|keys| - 1]))
    && 0 <= n <= buffer.Length && buffer[..n] == Edited(keys)
    && Printed(console, screen, Echoed(keys))
  }

  /** At the end: `keys` are one whole line, and the buffer holds its text, NUL-terminated. */
  ghost predicate Finished(console: Console, buffer: array<schar>, n: int, keys: seq<schar>, screen: Screen, maxLen: nat)
    reads console, console.buffer, buffer
  {
    && IsLine(keys, maxLen)
    && 0 <= n < maxLen <= buffer.Length && buffer[..n] == Edited(Body(keys)) && buffer[n] == 0
    && Printed(console, screen, Echoed(Body(keys)))
  }

  /** Enter: the line is over. */
  method Terminate(console: Console, buffer: array<schar>, n: nat, ch: schar,
                   ghost keys: seq<schar>, ghost screen: Screen, ghost maxLen: nat)
    requires n + 1 < maxLen <= buffer.Length && EndsLine(ch) && buffer as object != console.buffer
    requires Editing(console, buffer, n, keys, screen, maxLen)
    modifies buffer
    ensures Finished(console, buffer, n, keys + [ch], screen, maxLen)
  {
    StillOpenSnoc(keys, ch, maxLen);
    BodySnoc(keys, ch);
    buffer[n] := 0;
  }

  /** A key other than Enter was taken: the line goes on. */
  method GoOn(console: Console, buffer: array<schar>, n: nat, ch: schar,
              ghost keys: seq<schar>, ghost screen: Screen, ghost maxLen: nat) returns (n': nat)
    requires n + 1 < maxLen <= buffer.Length && !EndsLine(ch) && buffer as object != console.buffer
    requires Editing(console, buffer, n, keys, screen, maxLen)
    modifies console, console.buffer, buffer
    ensures n' < maxLen && Editing(console, buffer, n', keys + [ch], screen, maxLen)
  {
    StillOpenSnoc(keys, ch, maxLen);
    n' := ApplyKey(console, buffer, n, ch, keys, screen);
  }

  /** One round of the loop in shell_read_line; `over` tells whether it returned. */
  method Round(kbd: Keyboard, console: Console, buffer: array<schar>, n: nat, maxLen: u32, scancodes: seq<byte>,
               ghost start: Mark, ghost past: seq<seq<byte>>, ghost keys: seq<schar>, ghost screen: Screen)
    returns (n': nat, over: bool, ghost keys': seq<schar>)
    requires n + 1 < maxLen <= buffer.Length
    requires buffer != kbd.buffer && buffer as object != console.buffer && kbd.buffer as object != console.buffer
    requires Took(kbd, start, past, keys) && Editing(console, buffer, n, keys, screen, maxLen)
    modifies kbd, kbd.buffer, console, console.buffer, buffer
    ensures Took(kbd, start, past + [scancodes], keys')
    ensures if over then Finished(console, buffer, n', keys', screen, maxLen)
            else n' < maxLen && Editing(console, buffer, n', keys', screen, maxLen)
  {
    var ch := Poll(kbd, scancodes, start, past, keys);
    if ch == 0 {
      return n, false, keys;
    }
    if ch == LINE_FEED || ch == CARRIAGE_RETURN {
      Terminate(console, buffer, n, ch, keys, screen, maxLen);
      return n, true, keys + [ch];
    }
    n' := GoOn(console, buffer, n, ch, keys, screen, maxLen);
    return n', false, keys + [ch];
  }

  /** Before the last of these polls there was no whole line. */
  ghost predicate NoneBefore(r: Ring, arrivals: seq<seq<byte>>, polls: nat, maxLen: nat)
    requires WellFormed(r) && polls <= |arrivals|
  {
    polls > 0 ==> !HasLine(Polled(r, arrivals[..polls - 1]), maxLen)
  }

  /** The polls have just yielded one whole line, `keys`. */
  ghost predicate JustRead(r: Ring, arrivals: seq<seq<byte>>, polls: nat, keys: seq<schar>, maxLen: nat)
    requires WellFormed(r) && polls <= |arrivals|
  {
    keys == Polled(r, arrivals[..polls]) && IsLine(keys, maxLen) && NoneBefore(r, arrivals, polls, maxLen)
  }

  lemma JustReadHasLine(r: Ring, arrivals: seq<seq<byte>>, polls: nat, keys: seq<schar>, maxLen: nat)
    requires WellFormed(r) && polls <= |arrivals| && JustRead(r, arrivals, polls, keys, maxLen)
    ensures HasLine(Polled(r, arrivals), maxLen)
  {
    PollsGrow(r, arrivals, polls);
    LineInPrefix(keys, Polled(r, arrivals), maxLen);
  }

  lemma EditingHasNoLine(console: Console, buffer: array<schar>, n: nat, keys: seq<schar>, screen: Screen, maxLen: nat)
    requires Editing(console, buffer, n, keys, screen, maxLen) && n + 1 < maxLen
    ensures StillTyping(keys, maxLen) && !HasLine(keys, maxLen)
  {
    TypingHasNoLine(keys, maxLen);
  }

  /** The buffer is full: the line is over. */
  method Fill(console: Console, buffer: array<schar>, n: nat, ghost keys: seq<schar>, ghost screen: Screen, ghost maxLen: nat)
    requires n + 1 == maxLen <= buffer.Length && buffer as object != console.buffer
    requires Editing(console, buffer, n, keys, screen, maxLen)
    modifies buffer
    ensures Finished(console, buffer, n, keys, screen, maxLen)
  {
    buffer[n] := 0;
  }

  lemma SliceGrows<T>(s: seq<T>, m: nat, front: seq<T>, n: nat)
    requires m < |s| && front == s[..m] && n == m + 1
    ensures s[..n - 1] == front && s[..n] == front + [s[m]]
  {
  }

  /** The loop in shell_read_line: rounds until Enter, until the buffer is full, or until the
      polls run out. */
  method Rounds(kbd: Keyboard, console: Console, buffer: array<schar>, maxLen: u32, arrivals: seq<seq<byte>>)
    returns (n: nat, over: bool, polls: nat, ghost keys: seq<schar>)
    requires 1 <= maxLen <= buffer.Length
    requires kbd.Valid() && console.Valid()
    requires buffer != kbd.buffer && buffer as object != console.buffer && kbd.buffer as object != console.buffer
    modifies kbd, kbd.buffer, console, console.buffer, buffer
    ensures polls <= |arrivals| && Took(kbd, old(Now(kbd)), arrivals[..polls], keys)
    ensures NoneBefore(old(kbd.State()), arrivals, polls, maxLen)
    ensures if over then Finished(console, buffer, n, keys, old(console.State()), maxLen)
            else Editing(console, buffer, n, keys, old(console.State()), maxLen)
    ensures over || n == maxLen - 1 || (n < maxLen - 1 && polls == |arrivals|)
  {
    n, over, polls, keys := 0, false, 0, [];
    ghost var start, screen := Now(kbd), console.State();
    while n < maxLen - 1 && polls < |arrivals|
      invariant 0 <= n < maxLen && 0 <= polls <= |arrivals| && !over
      invariant Took(kbd, start, arrivals[..polls], keys) && Editing(console, buffer, n, keys, screen, maxLen)
      invariant NoneBefore(start.ring, arrivals, polls, maxLen)
      decreases |arrivals| - polls
    {
      EditingHasNoLine(console, buffer, n, keys, screen, maxLen);
      ghost var past, before := arrivals[..polls], polls;
      n, over, keys := Round(kbd, console, buffer, n, maxLen, arrivals[polls], start, past, keys, screen);
      polls := polls + 1;
      SliceGrows(arrivals, before, past, polls);
      if over {
        return;
      }
    }
  }

  /** shell_read_line.  `arrivals[i]` are the keyboard interrupts before poll `i` of the keyboard.
      The call returns at the first poll that completes a line; if the polls yield no whole line
      it is still waiting after the last of them, and the result is None.  `keys` are the
      characters that its `polls` polls took from the keyboard. */
  method ReadLine(kbd: Keyboard, console: Console, buffer: array<schar>, maxLen: u32, arrivals: seq<seq<byte>>)
    returns (len: Option<nat>, polls: nat, ghost keys: seq<schar>)
    requires 1 <= maxLen <= buffer.Length
    requires kbd.Valid() && console.Valid()
    requires buffer != kbd.buffer && buffer as object != console.buffer && kbd.buffer as object != console.buffer
    modifies kbd, kbd.buffer, console, console.buffer, buffer
    ensures polls <= |arrivals| && Took(kbd, old(Now(kbd)), arrivals[..polls], keys)
    ensures len.Some? <==> HasLine(Polled(old(kbd.State()), arrivals), maxLen)
    ensures len.Some? ==> JustRead(old(kbd.State()), arrivals, polls, keys, maxLen)
    ensures len.Some? ==> Finished(console, buffer, len.value, keys, old(console.State()), maxLen)
    ensures len.None? ==> polls == |arrivals| && StillTyping(keys, maxLen)
    ensures len.None? ==> exists n :: 0 <= n < maxLen - 1 && Editing(console, buffer, n, keys, old(console.State()), maxLen)
  {
    ghost var start, screen := Now(kbd), console.State();
    var n, over;
    n, over, polls, keys := Rounds(kbd, console, buffer, maxLen, arrivals);
    if !over {
      if n < maxLen - 1 {
        EditingHasNoLine(console, buffer, n, keys, screen, maxLen);
        assert arrivals[..polls] == arrivals;
        return None, polls, keys;
      }
      Fill(console, buffer, n, keys, screen, maxLen);
    }
    JustReadHasLine(start.ring, arrivals, polls, keys, maxLen);
    len := Some(n);
  }

  // ---------------------------------------------------------------- tokens

  predicate BlankChar(ch: schar) {
    ch == SPACE || ch == TAB
  }

  /** A maximal run of non-blank characters starts at `i`. */
  predicate StartsRun(text: seq<schar>, i: int) {
    0 <= i < |text| && !BlankChar(text[i]) && (i == 0 || BlankChar(text[i - 1]))
  }

  /** Where runs start among the first `n` characters, in order. */
  function Starts(text: seq<schar>, n: nat): seq<nat>
    requires n <= |text|
  {
    if n == 0 then [] else Starts(text, n - 1) + (if StartsRun(text, n - 1) then [n - 1] else [])
  }

  /** `Starts` lists exactly the starts of runs. */
  lemma {:induction false} StartsExact(text: seq<schar>, n: nat, i: nat)
    requires n <= |text|
    ensures i in Starts(text, n) <==> i < n && StartsRun(text, i)
  {
    if n == 0 {
    } else {
      StartsExact(text, n - 1, i);
    }
  }

  /** `Starts` is in increasing order. */
  lemma {:induction false} StartsIncrease(text: seq<schar>, n: nat, j: nat, k: nat)
    requires n <= |text| && j < k < |Starts(text, n)|
    ensures Starts(text, n)[j] < Starts(text, n)[k] < n
  {
    var front := Starts(text, n - 1);
    if k < |front| {
      StartsIncrease(text, n - 1, j, k);
    } else {
      assert front[j] in front;
      StartsExact(text, n - 1, front[j]);
    }
  }

  lemma {:induction false} StartsGrow(text: seq<schar>, m: nat, n: nat)
    requires m <= n <= |text|
    ensures Starts(text, m) <= Starts(text, n)
    decreases n
  {
    if m == n {
    } else {
      StartsGrow(text, m, n - 1);
    }
  }

  /** shell_parse_args on a command line of at most 255 characters.  An argument is represented
      by its offset in the line.  The call succeeds exactly when there are at most 15 runs; in
      every case it stores the starts of the runs it counted. */
  method ParseArgs(cmdline: seq<schar>, argv: array<nat>) returns (argc: nat, status: int)
    requires 0 in cmdline && |CString(cmdline)| < MAX_CMD_LEN && argv.Length == MAX_ARGS
    modifies argv
    ensures var starts := Starts(CString(cmdline), |CString(cmdline)|);
      && argc == (if |starts| < 16 then |starts| else 16)
      && status == (if |starts| < 16 then 0 else -1)
      && argv[..argc] == starts[..argc] && argv[argc..] == old(argv[..])[argc..]
  {
    ghost var text := CString(cmdline);
    CStringIsPrefix(cmdline);
    var buffer := new schar[MAX_CMD_LEN];
    var bufIdx, argIdx, inArg, pos := 0, 0, false, 0;
    while cmdline[pos] != 0 && argIdx < MAX_ARGS
      invariant 0 <= pos <= |text| && 0 <= bufIdx <= pos && 0 <= argIdx <= MAX_ARGS
      invariant inArg <==> pos > 0 && !BlankChar(text[pos - 1])
      invariant inArg ==> argIdx < MAX_ARGS && bufIdx > 0 && argv[argIdx] == pos - bufIdx
      invariant !inArg ==> bufIdx == 0
      invariant argv[..argIdx] + (if inArg then [pos - bufIdx] else []) == Starts(text, pos)
      invariant forall k :: argIdx + (if inArg then 1 else 0) <= k < MAX_ARGS ==> argv[k] == old(argv[k])
      decreases |text| - pos
    {
      if cmdline[pos] == SPACE || cmdline[pos] == TAB {
        if inArg {
          buffer[bufIdx] := 0;
          bufIdx := bufIdx + 1;
          argv[argIdx] := pos - bufIdx + 1;
          argIdx := argIdx + 1;
          inArg := false;
          bufIdx := 0;
        }
      } else {
        if !inArg {
          inArg := true;
          argv[argIdx] := pos;
        }
        buffer[bufIdx] := cmdline[pos];
        bufIdx := bufIdx + 1;
      }
      pos := pos + 1;
    }
    StartsGrow(text, pos, |text|);
    if inArg {
      buffer[bufIdx] := 0;
      bufIdx := bufIdx + 1;
      argIdx := argIdx + 1;
    }
    argc := argIdx;
    status := if argIdx >= MAX_ARGS then -1 else 0;
  }
}
