/** The console as a window on an unbounded history: scrolling only appends a blank row, and
    what has left the window is never written again. */
module Scrollback {
  import opened Words
  import opened Vga

  /** Every row ever shown, and the cursor relative to the last 25 of them. */
  datatype History = History(cells: seq<u16>, x: nat, y: nat)

  predicate Fits(h: History) {
    |h.cells| >= CELLS && |h.cells| % WIDTH == 0 && h.x < WIDTH && h.y < HEIGHT
  }

  function Top(h: History): nat
    requires Fits(h)
  {
    |h.cells| - CELLS
  }

  /** The position of the cursor in the history. */
  function Cursor(h: History): nat
    requires Fits(h)
  {
    Top(h) + h.y * WIDTH + h.x
  }

  function Window(h: History): Screen
    requires Fits(h)
  {
    Screen(h.cells[Top(h)..], h.x, h.y)
  }

  datatype Op = PutOp(ch: schar, color: byte) | StringOp(text: seq<schar>, color: byte)
              | MoveOp(x: byte, y: byte) | ScrollOp | ClearOp

  function ScreenStep(s: Screen, op: Op): (r: Screen)
    requires InRange(s)
    ensures InRange(r)
  {
    match op
    case PutOp(ch, color) => Put(s, ch, color)
    case StringOp(text, color) => PutAll(s, text, color)
    case MoveOp(x, y) => Move(s, x, y)
    case ScrollOp => s.(cells := Scroll(s.cells))
    case ClearOp => Clear()
  }

  function ScreenRun(s: Screen, ops: seq<Op>): (r: Screen)
    requires InRange(s)
    ensures InRange(r)
  {
    if ops == [] then s else ScreenStep(ScreenRun(s, ops[..|ops| - 1]), ops[|ops| - 1])
  }

  // ---------------------------------------------------------------- the history

  function AppendRow(h: History): (r: History)
    requires Fits(h)
    ensures Fits(r)
  {
    h.(cells := h.cells + Blanks(WIDTH))
  }

  function HistoryLine(h: History): (r: History)
    requires Fits(h)
    ensures Fits(r)
  {
    if h.y + 1 < HEIGHT then h.(x := 0, y := h.y + 1) else AppendRow(h).(x := 0)
  }

  function HistoryPut(h: History, ch: schar, color: byte): (r: History)
    requires Fits(h)
    ensures Fits(r)
  {
    if ch == NEWLINE then HistoryLine(h)
    else
      var h' := h.(cells := h.cells[Cursor(h) := Cell(ch, color)]);
      if h.x + 1 < WIDTH then h'.(x := h.x + 1) else HistoryLine(h')
  }

  function HistoryPutAll(h: History, text: seq<schar>, color: byte): (r: History)
    requires Fits(h)
    ensures Fits(r)
  {
    if text == [] then h
    else HistoryPut(HistoryPutAll(h, text[..|text| - 1], color), text[|text| - 1], color)
  }

  function HistoryStep(h: History, op: Op): (r: History)
    requires Fits(h)
    ensures Fits(r)
  {
    match op
    case PutOp(ch, color) => HistoryPut(h, ch, color)
    case StringOp(text, color) => HistoryPutAll(h, text, color)
    case MoveOp(x, y) => var s := Move(Screen(Blanks(CELLS), h.x, h.y), x, y); h.(x := s.x, y := s.y)
    case ScrollOp => AppendRow(h)
    case ClearOp => History(h.cells[..Top(h)] + Blanks(CELLS), 0, 0)
  }

  function HistoryRun(h: History, ops: seq<Op>): (r: History)
    requires Fits(h)
    ensures Fits(r)
  {
    if ops == [] then h else HistoryStep(HistoryRun(h, ops[..|ops| - 1]), ops[|ops| - 1])
  }

  // ---------------------------------------------------------------- the screen is the window

  lemma PutRefines(h: History, ch: schar, color: byte)
    requires Fits(h)
    ensures InRange(Window(h)) && Put(Window(h), ch, color) == Window(HistoryPut(h, ch, color))
  {
  }

  lemma {:induction false} PutAllRefines(h: History, text: seq<schar>, color: byte)
    requires Fits(h)
    ensures InRange(Window(h)) && PutAll(Window(h), text, color) == Window(HistoryPutAll(h, text, color))
  {
    if text == [] {
    } else {
      PutAllRefines(h, text[..|text| - 1], color);
      PutRefines(HistoryPutAll(h, text[..|text| - 1], color), text[|text| - 1], color);
    }
  }

  lemma StepRefines(h: History, op: Op)
    requires Fits(h)
    ensures InRange(Window(h)) && ScreenStep(Window(h), op) == Window(HistoryStep(h, op))
  {
    match op
    case PutOp(ch, color) => PutRefines(h, ch, color);
    case StringOp(text, color) => PutAllRefines(h, text, color);
    case MoveOp(x, y) =>
    case ScrollOp => assert Scroll(Window(h).cells) == Window(AppendRow(h)).cells;
    case ClearOp =>
  }

  /** After any operations the buffer is the last 25 rows of the history, and the cursor stays
      within 80x25; a cleared screen is the window of `Blank()`. */
  lemma {:induction false} RunRefines(h: History, ops: seq<Op>)
    requires Fits(h)
    ensures InRange(Window(h)) && ScreenRun(Window(h), ops) == Window(HistoryRun(h, ops))
  {
    if ops == [] {
    } else {
      RunRefines(h, ops[..|ops| - 1]);
      StepRefines(HistoryRun(h, ops[..|ops| - 1]), ops[|ops| - 1]);
    }
  }

  /** `h'` keeps every row above the window of `h`. */
  predicate KeepsAbove(h: History, h': History)
    requires Fits(h) && Fits(h')
  {
    Top(h) <= Top(h') && forall k :: 0 <= k < Top(h) ==> h'.cells[k] == h.cells[k]
  }

  lemma {:induction false} PutAllKeepsAbove(h: History, text: seq<schar>, color: byte)
    requires Fits(h)
    ensures KeepsAbove(h, HistoryPutAll(h, text, color))
  {
    if text == [] {
    } else {
      PutAllKeepsAbove(h, text[..|text| - 1], color);
    }
  }

  /** Rows that have left the window never change again. */
  lemma {:induction false} RunKeepsAbove(h: History, ops: seq<Op>)
    requires Fits(h)
    ensures KeepsAbove(h, HistoryRun(h, ops))
  {
    if ops == [] {
    } else {
      var h1, op := HistoryRun(h, ops[..|ops| - 1]), ops[|ops| - 1];
      RunKeepsAbove(h, ops[..|ops| - 1]);
      if op.StringOp? { PutAllKeepsAbove(h1, op.text, op.color); }
      assert KeepsAbove(h1, HistoryStep(h1, op));
    }
  }

  // ---------------------------------------------------------------- where typed text ends up

  /** The position after typing `text` from position 0: a newline goes to the next multiple of
      80, any other character takes one cell. */
  function Position(text: seq<schar>): nat {
    if text == [] then 0
    else
      var p := Position(text[..|text| - 1]);
      if text[|text| - 1] == NEWLINE then (p / WIDTH + 1) * WIDTH else p + 1
  }

  lemma {:induction false} PositionIncreases(text: seq<schar>, i: nat)
    requires i < |text|
    ensures Position(text[..i]) < Position(text)
  {
    var front := text[..|text| - 1];
    assert front[..i] == text[..i];
    if i == |front| {
      assert text[..i] == front;
    } else {
      PositionIncreases(front, i);
    }
  }

  function Blank(): History {
    History(Blanks(CELLS), 0, 0)
  }

  /** Character `i` of the text is the one shown at position `p`. */
  predicate ShownAt(text: seq<schar>, i: int, p: nat) {
    0 <= i < |text| && text[i] != NEWLINE && Position(text[..i]) == p
  }

  /** What is at position `p` after typing `text`. */
  ghost predicate LaidOut(text: seq<schar>, color: byte, p: nat, cell: u16) {
    (forall i :: ShownAt(text, i, p) ==> cell == Cell(text[i], color))
    && ((forall i :: !ShownAt(text, i, p)) ==> cell == BLANK)
  }

  /** One character moves the cursor as `Position` says and writes at most the cell under it. */
  lemma PutEffect(h: History, ch: schar, color: byte, p: nat)
    requires Fits(h)
    ensures var h' := HistoryPut(h, ch, color);
      && Cursor(h') == (if ch == NEWLINE then (Cursor(h) / WIDTH + 1) * WIDTH else Cursor(h) + 1)
      && |h.cells| <= |h'.cells|
      && (p < |h'.cells| ==>
            h'.cells[p] == (if ch != NEWLINE && p == Cursor(h) then Cell(ch, color)
                            else if p < |h.cells| then h.cells[p] else BLANK))
  {
  }

  lemma {:induction false} CursorIsPosition(text: seq<schar>, color: byte)
    ensures Cursor(HistoryPutAll(Blank(), text, color)) == Position(text)
  {
    if text == [] {
    } else {
      CursorIsPosition(text[..|text| - 1], color);
      PutEffect(HistoryPutAll(Blank(), text[..|text| - 1], color), text[|text| - 1], color, 0);
    }
  }

  lemma ShownAtLast(text: seq<schar>, i: int, p: nat)
    requires text != []
    ensures var front := text[..|text| - 1];
      ShownAt(text, i, p) <==>
        ShownAt(front, i, p) || (i == |front| && text[i] != NEWLINE && Position(front) == p)
  {
    var front := text[..|text| - 1];
    if 0 <= i <= |front| { assert front[..i] == text[..i]; }
  }

  /** Text printed on a cleared screen is laid out in order: each printable character is in the
      history at its own position, nothing is ever overwritten, and every other cell is blank. */
  lemma {:induction false} TypedText(text: seq<schar>, color: byte, p: nat)
    ensures var h := HistoryPutAll(Blank(), text, color);
      && ((exists i :: ShownAt(text, i, p)) ==> p < |h.cells|)
      && (p < |h.cells| ==> LaidOut(text, color, p, h.cells[p]))
  {
    if text == [] {
    } else {
      var front, ch := text[..|text| - 1], text[|text| - 1];
      var h := HistoryPutAll(Blank(), front, color);
      TypedText(front, color, p);
      CursorIsPosition(front, color);
      PutEffect(h, ch, color, p);
      forall i ensures ShownAt(text, i, p) <==> ShownAt(front, i, p) || (i == |front| && ch != NEWLINE && Position(front) == p) {
        ShownAtLast(text, i, p);
      }
      forall i | ShownAt(front, i, p) ensures p < Cursor(h) { PositionIncreases(front, i); }
      if ch != NEWLINE && Position(front) == p { assert ShownAt(text, |front|, p); }
    }
  }
}
