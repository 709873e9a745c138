/** What the line editor keeps of a key stream, and how successive lines split it. */
module ShellRuns {
  import opened Words
  import opened Kbd
  import opened Vga
  import opened Shell

  // ---------------------------------------------------------------- backspace

  lemma LastApart(a: seq<schar>, b: seq<schar>)
    requires b != []
    ensures a + b == (a + b[..|b| - 1]) + [b[|b| - 1]]
  {
  }

  lemma {:induction false} EditedExtends(a: seq<schar>, a': seq<schar>, b: seq<schar>)
    requires Edited(a) == Edited(a')
    ensures Edited(a + b) == Edited(a' + b)
  {
    if b == [] {
      assert a + b == a && a' + b == a';
    } else {
      var front, last := b[..|b| - 1], b[|b| - 1];
      EditedExtends(a, a', front);
      EditedSnoc(a + front, last);
      EditedSnoc(a' + front, last);
      LastApart(a, b);
      LastApart(a', b);
    }
  }

  /** A key followed by backspace leaves no trace, wherever it occurs; a backspace on an empty
      line does nothing; other keys are kept in order.  Together these determine the text. */
  lemma EraseCancels(a: seq<schar>, ch: schar, b: seq<schar>)
    requires ch != BACKSPACE
    ensures Edited(a + [ch, BACKSPACE] + b) == Edited(a + b)
  {
    EditedSnoc(a, ch);
    EditedSnoc(a + [ch], BACKSPACE);
    assert a + [ch, BACKSPACE] == a + [ch] + [BACKSPACE];
    EditedExtends(a + [ch, BACKSPACE], a, b);
  }

  lemma EraseOnEmpty(b: seq<schar>)
    ensures Edited([BACKSPACE] + b) == Edited(b)
  {
    EditedSnoc([], BACKSPACE);
    assert [] + [BACKSPACE] == [BACKSPACE];
    EditedExtends([BACKSPACE], [], b);
    assert [] + b == b;
  }

  lemma {:induction false} PlainKeysKept(keys: seq<schar>)
    requires BACKSPACE !in keys
    ensures Edited(keys) == keys
  {
    if keys == [] {
    } else {
      PlainKeysKept(keys[..|keys| - 1]);
    }
  }

  /** How many backspaces found something to erase. */
  function Erasures(keys: seq<schar>): nat {
    if keys == [] then 0
    else
      var front := keys[..|keys| - 1];
      Erasures(front) + (if keys[|keys| - 1] == BACKSPACE && Edited(front) != [] then 1 else 0)
  }

  /** The console has no backspace, so an erasure prints three cells and removes none: what is
      echoed is the text if and only if nothing was ever erased. */
  lemma {:induction false} EchoIsText(keys: seq<schar>)
    ensures |Echoed(keys)| == |Edited(keys)| + 4 * Erasures(keys)
    ensures Echoed(keys) == Edited(keys) <==> Erasures(keys) == 0
  {
    if keys == [] {
    } else {
      EchoIsText(keys[..|keys| - 1]);
    }
  }

  /** What each key does: 10 and 13 end the line, 8 takes the last character away and prints
      backspace, space, backspace if there is one, and every other key is added and printed. */
  lemma KeyRoles(text: seq<schar>, ch: schar)
    ensures EndsLine(ch) <==> ch == 10 || ch == 13
    ensures ch == 8 && text == [] ==> Edit(text, ch) == [] && Echo(text, ch) == []
    ensures ch == 8 && text != [] ==> Edit(text, ch) == text[..|text| - 1] && Echo(text, ch) == [8, 32, 8]
    ensures ch != 8 ==> Edit(text, ch) == text + [ch] && Echo(text, ch) == [ch]
    ensures BlankChar(ch) <==> ch == 32 || ch == 9
  {
  }

  predicate Plain(keys: seq<schar>) {
    8 !in keys && 10 !in keys && 13 !in keys
  }

  /** After `k` plain keys the line is open exactly while there is room for one more. */
  lemma PlainKeyOpen(keys: seq<schar>, all: seq<schar>, maxLen: nat, k: nat)
    requires Plain(keys) && keys <= all && k <= |keys|
    ensures OpenAt(all, k, maxLen) <==> k + 1 < maxLen
  {
    assert all[..k] == keys[..k];
    PlainKeysKept(keys[..k]);
  }

  lemma PlainKeysOpen(keys: seq<schar>, all: seq<schar>, maxLen: nat, n: nat)
    requires Plain(keys) && keys <= all && n <= |keys| + 1 && n <= |all|
    ensures StillOpen(all, n, maxLen) <==> n == 0 || n < maxLen
  {
    forall k | 0 <= k < n ensures OpenAt(all, k, maxLen) <==> k + 1 < maxLen {
      PlainKeyOpen(keys, all, maxLen, k);
    }
    if n > 0 && n >= maxLen { assert !OpenAt(all, n - 1, maxLen); }
  }

  /** Plain keys without Enter are a whole line exactly when they leave room for the NUL only. */
  lemma FullLine(keys: seq<schar>, maxLen: nat)
    requires Plain(keys) && maxLen >= 1
    ensures IsLine(keys, maxLen) <==> |keys| + 1 == maxLen
  {
    PlainKeysKept(keys);
    PlainKeysOpen(keys, keys, maxLen, |keys|);
    assert Over(keys, maxLen) <==> |keys| + 1 >= maxLen;
  }

  /** Plain keys with Enter are one exactly when they leave more room than that. */
  lemma EnteredLine(keys: seq<schar>, enter: schar, maxLen: nat)
    requires Plain(keys) && (enter == 10 || enter == 13) && maxLen >= 1
    ensures IsLine(keys + [enter], maxLen) <==> |keys| + 1 < maxLen
    ensures Edited(Body(keys + [enter])) == keys
  {
    PlainKeysKept(keys);
    BodySnoc(keys, enter);
    PlainKeysOpen(keys, keys + [enter], maxLen, |keys| + 1);
    assert Over(keys + [enter], maxLen);
  }

  // ---------------------------------------------------------------- splitting a key stream

  /** At most one prefix of a key stream is a line. */
  lemma LinePrefixUnique(stream: seq<schar>, maxLen: nat, i: nat, j: nat)
    requires i <= j <= |stream| && IsLine(stream[..i], maxLen) && IsLine(stream[..j], maxLen)
    ensures i == j
  {
    OpenAtPrefix(stream, maxLen, i, j);
  }

  function Flat(lines: seq<seq<schar>>): seq<schar> {
    if lines == [] then [] else lines[0] + Flat(lines[1..])
  }

  ghost predicate AllLines(lines: seq<seq<schar>>, maxLen: nat) {
    forall i :: 0 <= i < |lines| ==> LineAt(lines, i, maxLen)
  }

  ghost predicate LineAt(lines: seq<seq<schar>>, i: nat, maxLen: nat)
    requires i < |lines|
  {
    IsLine(lines[i], maxLen)
  }

  /** The stream is the keys of these lines, in order, and of a line still being typed. */
  ghost predicate Splits(stream: seq<schar>, lines: seq<seq<schar>>, rest: seq<schar>, maxLen: nat) {
    stream == Flat(lines) + rest && AllLines(lines, maxLen) && StillTyping(rest, maxLen)
  }

  lemma NoLineHere(keys: seq<schar>, maxLen: nat, i: nat)
    requires StillTyping(keys, maxLen) && i <= |keys|
    ensures !IsLine(keys[..i], maxLen)
  {
    TypingHasNoLine(keys, maxLen);
    assert !LineEnds(keys, i, maxLen);
  }

  /** Successive calls split the keyboard stream in exactly one way: nothing is lost, repeated
      or moved from one line to another. */
  lemma {:induction false} SplitUnique(stream: seq<schar>, maxLen: nat,
                     a: seq<seq<schar>>, arest: seq<schar>, b: seq<seq<schar>>, brest: seq<schar>)
    requires Splits(stream, a, arest, maxLen) && Splits(stream, b, brest, maxLen)
    ensures a == b && arest == brest
    decreases |a|
  {
    if a == [] {
      assert stream == arest;
      if b != [] { FirstLineAndRest(b, maxLen); HeadIsPrefix(b, brest); NoLineHere(stream, maxLen, |b[0]|); }
    } else {
      FirstLineAndRest(a, maxLen);
      HeadIsPrefix(a, arest);
      if b == [] {
        assert stream == brest;
        NoLineHere(stream, maxLen, |a[0]|);
      } else {
        FirstLineAndRest(b, maxLen);
        HeadIsPrefix(b, brest);
        if |a[0]| <= |b[0]| { LinePrefixUnique(stream, maxLen, |a[0]|, |b[0]|); }
        else { LinePrefixUnique(stream, maxLen, |b[0]|, |a[0]|); }
        SplitUnique(stream[|a[0]|..], maxLen, a[1..], arest, b[1..], brest);
        assert a == [a[0]] + a[1..] && b == [b[0]] + b[1..];
      }
    }
  }

  lemma FirstLineAndRest(lines: seq<seq<schar>>, maxLen: nat)
    requires lines != []
    ensures AllLines(lines, maxLen) <==> IsLine(lines[0], maxLen) && AllLines(lines[1..], maxLen)
  {
    if IsLine(lines[0], maxLen) && AllLines(lines[1..], maxLen) {
      forall i | 0 <= i < |lines| ensures LineAt(lines, i, maxLen) {
        if i > 0 { assert LineAt(lines[1..], i - 1, maxLen); }
      }
    } else if AllLines(lines, maxLen) {
      assert LineAt(lines, 0, maxLen);
      forall i | 0 <= i < |lines| - 1 ensures LineAt(lines[1..], i, maxLen) {
        assert LineAt(lines, i + 1, maxLen);
      }
    }
  }

  lemma HeadIsPrefix(lines: seq<seq<schar>>, rest: seq<schar>)
    requires lines != []
    ensures var stream := Flat(lines) + rest;
      |lines[0]| <= |stream| && stream[..|lines[0]|] == lines[0] && stream[|lines[0]|..] == Flat(lines[1..]) + rest
  {
    PrefixOf(lines[0], Flat(lines[1..]), rest);
  }

  lemma PrefixOf(a: seq<schar>, b: seq<schar>, c: seq<schar>)
    ensures ((a + b) + c)[..|a|] == a && ((a + b) + c)[|a|..] == b + c
  {
  }

  /** Every key stream splits into lines, for any buffer that can hold a character. */
  lemma {:induction false} SplitExists(stream: seq<schar>, maxLen: nat) returns (lines: seq<seq<schar>>, rest: seq<schar>)
    requires maxLen >= 2
    ensures Splits(stream, lines, rest, maxLen)
    decreases |stream|
  {
    var n := FirstLine(stream, maxLen, 0);
    if n.None? {
      lines, rest := [], stream;
      assert stream[..|stream|] == stream;
    } else {
      var tail, more := SplitExists(stream[n.value..], maxLen);
      lines, rest := [stream[..n.value]] + tail, more;
      assert lines[1..] == tail;
      FirstLineAndRest(lines, maxLen);
      assert stream == stream[..n.value] + stream[n.value..];
    }
  }

  lemma PrefixStillOpen(stream: seq<schar>, maxLen: nat, k: nat)
    requires k <= |stream| && StillOpen(stream, k, maxLen)
    ensures StillOpen(stream[..k], k, maxLen)
  {
    forall i | 0 <= i < k ensures OpenAt(stream[..k], i, maxLen) {
      assert OpenAt(stream, i, maxLen);
      OpenAtPrefix(stream, maxLen, i, k);
    }
  }

  /** The length of the first line of the stream, not shorter than `k`. */
  ghost function FirstLine(stream: seq<schar>, maxLen: nat, k: nat): (r: Option<nat>)
    requires maxLen >= 2 && k <= |stream| && StillOpen(stream, k, maxLen)
    ensures r.Some? ==> 0 < r.value <= |stream| && IsLine(stream[..r.value], maxLen)
    ensures r.None? ==> StillTyping(stream, maxLen)
    decreases |stream| - k
  {
    assert stream[..|stream|] == stream;
    if Over(stream[..k], maxLen) then
      PrefixStillOpen(stream, maxLen, k);
      Some(k)
    else if k == |stream| then None
    else
      assert OpenAt(stream, k, maxLen);
      FirstLine(stream, maxLen, k + 1)
  }

  // ---------------------------------------------------------------- the command loop

  const PROMPT: seq<schar> := [110, 105, 109, 98, 117, 64, 108, 111, 99, 97, 108, 104, 111, 115, 116] + [58, 126, 36, 32, 0]
  const GREEN_ON_BLACK: byte := 0x02

  /** The command lines that shell_run passes on to shell_execute: the texts of these lines,
      without the empty ones. */
  function Commands(lines: seq<seq<schar>>): seq<seq<schar>> {
    if lines == [] then []
    else
      var text := Edited(Body(lines[|lines| - 1]));
      Commands(lines[..|lines| - 1]) + (if text == [] then [] else [text])
  }

  lemma {:induction false} FlatSnoc(lines: seq<seq<schar>>, line: seq<schar>)
    ensures Flat(lines + [line]) == Flat(lines) + line
  {
    if lines == [] {
      assert lines + [line] == [line];
      assert Flat([line]) == line + Flat([]);
    } else {
      FlatSnoc(lines[1..], line);
      assert (lines + [line])[1..] == lines[1..] + [line];
      ConcatAssociates(lines[0], Flat(lines[1..]), line);
    }
  }

  lemma OneLineMore(lines: seq<seq<schar>>, line: seq<schar>)
    requires AllLines(lines, MAX_CMD_LEN) && IsLine(line, MAX_CMD_LEN)
    ensures AllLines(lines + [line], MAX_CMD_LEN)
    ensures var text := Edited(Body(line));
      Commands(lines + [line]) == if text == [] then Commands(lines) else Commands(lines) + [text]
  {
    var all := lines + [line];
    assert all[..|all| - 1] == lines && all[|all| - 1] == line;
    forall i | 0 <= i < |all| ensures LineAt(all, i, MAX_CMD_LEN) {
      if i < |lines| { assert LineAt(lines, i, MAX_CMD_LEN); }
    }
  }

  /** The keys taken since `start` are exactly those of `lines`, whose texts were passed on. */
  ghost predicate HaveRead(kbd: Keyboard, start: Mark, arrivals: seq<seq<byte>>,
                           lines: seq<seq<schar>>, commands: seq<seq<schar>>)
    reads kbd, kbd.buffer
  {
    Took(kbd, start, arrivals, Flat(lines)) && AllLines(lines, MAX_CMD_LEN) && commands == Commands(lines)
  }

  lemma TwoSlices<T>(s: seq<T>, m: nat, n: nat)
    requires m + n <= |s|
    ensures s[..m] + s[m..][..n] == s[..m + n]
  {
  }

  /** Two stretches of polls, one after the other. */
  lemma TookBoth(kbd: Keyboard, start: Mark, middle: Mark, a: seq<seq<byte>>, b: seq<seq<byte>>, both: seq<seq<byte>>,
                 before: seq<schar>, keys: seq<schar>, stream: seq<schar>)
    requires WellFormed(start.ring) && before == Polled(start.ring, a) && both == a + b && stream == before + keys
    requires middle == Mark(AfterPolls(start.ring, a), start.delivered + before) && Took(kbd, middle, b, keys)
    ensures Took(kbd, start, both, stream)
  {
    PollsInParts(start.ring, a, b);
    ConcatAssociates(start.delivered, before, keys);
  }

  lemma TookAll(kbd: Keyboard, start: Mark, arrivals: seq<seq<byte>>, polls: nat, keys: seq<schar>)
    requires polls == |arrivals| && Took(kbd, start, arrivals[..polls], keys)
    ensures Took(kbd, start, arrivals, keys)
  {
    assert arrivals[..polls] == arrivals;
  }

  /** Printing leaves the keyboard alone. */
  method Say(kbd: Keyboard, console: Console, text: seq<schar>, color: byte)
    requires kbd.Valid() && console.Valid() && kbd.buffer as object != console.buffer && 0 in text
    modifies console, console.buffer
    ensures kbd.Valid() && Now(kbd) == old(Now(kbd))
    ensures console.Valid() && console.State() == PutAll(old(console.State()), CString(text), color)
  {
    console.PutString(Some(text), color);
  }

  lemma PromptWord(i: nat)
    requires i < 15
    ensures PROMPT[i] == Code("nimbu@localhost"[i]) && PROMPT[i] != 0
  {
  }

  /** The prompt is "nimbu@localhost:~$ ". */
  lemma PromptText(i: nat)
    requires i < 15
    ensures var text := CString(PROMPT);
      && |text| == 19 && text[i] == Code("nimbu@localhost"[i])
      && text[15] == Code(':') && text[16] == Code('~') && text[17] == Code('$') && text[18] == Code(' ')
  {
    CStringIsPrefix(PROMPT);
    var n := |CString(PROMPT)|;
    if n < 15 { PromptWord(n); }
    assert PROMPT[15] == 58 && PROMPT[16] == 126 && PROMPT[17] == 36 && PROMPT[18] == 32 && PROMPT[19] == 0;
    assert n == 19;
    PromptWord(i);
    assert forall k :: 0 <= k < n ==> CString(PROMPT)[k] == PROMPT[k];
  }

  /** The screen after one round: prompt in green, echo in white, and a newline. */
  ghost function RoundShown(screen: Screen, keys: seq<schar>): Screen
    requires InRange(screen)
  {
    Put(PutAll(PutAll(screen, CString(PROMPT), 0x02), Echoed(Body(keys)), 0x0F), 10, 0x0F)
  }

  lemma NewlineString(screen: Screen, color: byte)
    requires InRange(screen)
    ensures PutAll(screen, CString([LINE_FEED, 0]), color) == Put(screen, LINE_FEED, color)
  {
    assert [LINE_FEED, 0][1..] == [0];
    assert CString([0]) == [];
    assert CString([LINE_FEED, 0]) == [LINE_FEED];
    assert [LINE_FEED][..0] == [];
  }

  /** One round of shell_run, starting at poll `polls`: prompt, line, newline. */
  method Command(kbd: Keyboard, console: Console, cmdline: array<schar>, polls: nat, arrivals: seq<seq<byte>>)
    returns (command: Option<seq<schar>>, more: nat, ghost keys: seq<schar>)
    requires cmdline.Length == MAX_CMD_LEN && kbd.Valid() && console.Valid() && polls <= |arrivals|
    requires cmdline != kbd.buffer && cmdline as object != console.buffer && kbd.buffer as object != console.buffer
    modifies kbd, kbd.buffer, console, console.buffer, cmdline
    ensures console.Valid() && polls + more <= |arrivals|
    ensures Took(kbd, old(Now(kbd)), arrivals[polls..][..more], keys)
    ensures match command
      case None => polls + more == |arrivals| && StillTyping(keys, MAX_CMD_LEN)
      case Some(text) => more > 0 && IsLine(keys, MAX_CMD_LEN) && text == Edited(Body(keys))
    ensures command.Some? ==> console.State() == RoundShown(old(console.State()), keys)
  {
    Say(kbd, console, PROMPT, GREEN_ON_BLACK);
    var len;
    len, more, keys := ReadLine(kbd, console, cmdline, MAX_CMD_LEN, arrivals[polls..]);
    if len.None? {
      return None, more, keys;
    }
    command := Some(cmdline[..len.value]);
    NewlineString(console.State(), WHITE_ON_BLACK);
    Say(kbd, console, [LINE_FEED, 0], WHITE_ON_BLACK);
  }

  /** The same, seen from the start of the session. */
  method NextLine(kbd: Keyboard, console: Console, cmdline: array<schar>, polls: nat, arrivals: seq<seq<byte>>,
                  ghost start: Mark, ghost lines: seq<seq<schar>>)
    returns (command: Option<seq<schar>>, more: nat, ghost keys: seq<schar>)
    requires cmdline.Length == MAX_CMD_LEN && console.Valid() && polls <= |arrivals|
    requires cmdline != kbd.buffer && cmdline as object != console.buffer && kbd.buffer as object != console.buffer
    requires Took(kbd, start, arrivals[..polls], Flat(lines))
    modifies kbd, kbd.buffer, console, console.buffer, cmdline
    ensures console.Valid() && polls + more <= |arrivals|
    ensures Took(kbd, start, arrivals[..polls + more], Flat(lines + [keys]))
    ensures match command
      case None => polls + more == |arrivals| && StillTyping(keys, MAX_CMD_LEN)
      case Some(text) => more > 0 && IsLine(keys, MAX_CMD_LEN) && text == Edited(Body(keys))
  {
    ghost var middle := Now(kbd);
    command, more, keys := Command(kbd, console, cmdline, polls, arrivals);
    TwoSlices(arrivals, polls, more);
    FlatSnoc(lines, keys);
    TookBoth(kbd, start, middle, arrivals[..polls], arrivals[polls..][..more], arrivals[..polls + more],
             Flat(lines), keys, Flat(lines + [keys]));
  }

  /** The text of the line is passed on, unless it is empty. */
  method NextCommand(kbd: Keyboard, console: Console, cmdline: array<schar>, polls: nat, arrivals: seq<seq<byte>>,
                     ghost start: Mark, ghost lines: seq<seq<schar>>, commands: seq<seq<schar>>)
    returns (waiting: bool, polls': nat, commands': seq<seq<schar>>, ghost keys: seq<schar>)
    requires cmdline.Length == MAX_CMD_LEN && console.Valid() && polls <= |arrivals|
    requires cmdline != kbd.buffer && cmdline as object != console.buffer && kbd.buffer as object != console.buffer
    requires HaveRead(kbd, start, arrivals[..polls], lines, commands)
    modifies kbd, kbd.buffer, console, console.buffer, cmdline
    ensures console.Valid() && polls <= polls' <= |arrivals|
    ensures if waiting then polls' == |arrivals| && StillTyping(keys, MAX_CMD_LEN) && commands' == commands
                            && Took(kbd, start, arrivals, Flat(lines) + keys)
            else polls < polls' && HaveRead(kbd, start, arrivals[..polls'], lines + [keys], commands')
  {
    var command, more;
    command, more, keys := NextLine(kbd, console, cmdline, polls, arrivals, start, lines);
    polls' := polls + more;
    assert arrivals[..polls'] == arrivals[..polls + more];
    if command.None? {
      FlatSnoc(lines, keys);
      TookAll(kbd, start, arrivals, polls', Flat(lines + [keys]));
      return true, polls', commands, keys;
    }
    commands' := if command.value == [] then commands else commands + [command.value];
    OneLineMore(lines, keys);
    return false, polls', commands', keys;
  }

  /** shell_run, with the commands themselves left out: the command lines that it passes on, when
      the keyboard is polled once for each of `arrivals`.  They are the edited texts of the lines
      that the key stream splits into, and the keys not in them are those of the line being typed. */
  method Run(kbd: Keyboard, console: Console, cmdline: array<schar>, arrivals: seq<seq<byte>>)
    returns (commands: seq<seq<schar>>, ghost lines: seq<seq<schar>>, ghost rest: seq<schar>)
    requires cmdline.Length == 256 && kbd.Valid() && console.Valid()
    requires cmdline != kbd.buffer && cmdline as object != console.buffer && kbd.buffer as object != console.buffer
    modifies kbd, kbd.buffer, console, console.buffer, cmdline
    ensures Took(kbd, old(Now(kbd)), arrivals, Polled(old(kbd.State()), arrivals))
    ensures Splits(Polled(old(kbd.State()), arrivals), lines, rest, 256)
    ensures commands == Commands(lines)
  {
    var waiting, polls := false, 0;
    commands, lines, rest := [], [], [];
    ghost var start := Now(kbd);
    while true
      invariant console.Valid() && 0 <= polls <= |arrivals|
      invariant HaveRead(kbd, start, arrivals[..polls], lines, commands)
      decreases |arrivals| - polls
    {
      waiting, polls, commands, rest := NextCommand(kbd, console, cmdline, polls, arrivals, start, lines, commands);
      if waiting {
        return;
      }
      lines := lines + [rest];
    }
  }
}
