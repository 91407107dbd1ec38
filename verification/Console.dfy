/** The text console: the pointer, video memory and cursor registers of src/drivers/vga.c, under the
    control characters of putc_c (src/libs/print.c:11-42). */
module Console {
  import opened Words

  const COLS := 80

  /** The 25 rows on display, the 50 rows up to VGA_TEXT_END, and the row after those, which the last
      copy of a scroll reads (vga.c:127-129). */
  const SCREEN := 2000
  const TEXT_END := 4000
  const MEMORY := 4080

  const BACKSPACE: byte := 8
  const TAB: byte := 9
  const NEWLINE: byte := 10
  const RETURN: byte := 13

  datatype Cell = Cell(ascii: byte, color: byte)

  type u16 = x: int | 0 <= x < 0x1_0000

  function Wrap16(x: int): u16 {
    x % 0x1_0000
  }

  /** The pointer is an offset from VGA_TEXT_START. */
  datatype Video = Video(cells: seq<Cell>, pointer: nat, cursor: u16)

  predicate Steady(v: Video) {
    |v.cells| == MEMORY && v.pointer < SCREEN && v.cursor == v.pointer
  }

  /** vga_scroll_down: each of the 50 rows becomes the one after it. */
  function Scrolled(cells: seq<Cell>): (r: seq<Cell>)
    requires |cells| == MEMORY
    ensures |r| == MEMORY
  {
    cells[COLS..] + cells[TEXT_END..]
  }

  function ScrolledBy(cells: seq<Cell>, rows: nat): (r: seq<Cell>)
    requires |cells| == MEMORY
    ensures |r| == MEMORY
    decreases rows
  {
    if rows == 0 then cells else ScrolledBy(Scrolled(cells), rows - 1)
  }

  lemma ScrollOnce(cells: seq<Cell>, rows: nat)
    requires |cells| == MEMORY && rows > 0
    ensures ScrolledBy(cells, rows) == ScrolledBy(Scrolled(cells), rows - 1)
    ensures ScrolledBy(Scrolled(cells), 0) == Scrolled(cells)
  {}

  /** How far vga_pointer_inc moves back or forth: never before the start of the row. */
  function Allowed(pointer: nat, pos: int): int {
    var p := if pointer + pos < 0 then 0 else pos;
    if p <= -(pointer % COLS) then -(pointer % COLS) else p
  }

  /** vga_pointer_inc, on the state: past the last row, whole rows are scrolled in and the pointer
      stays in the last one. */
  function Increased(v: Video, pos: int): (r: Video)
    requires Steady(v)
    ensures Steady(r)
  {
    var to := v.pointer + Allowed(v.pointer, pos);
    if to >= SCREEN then
      var at := SCREEN - COLS + to % COLS;
      Video(ScrolledBy(v.cells, to / COLS - 25 + 1), at, at)
    else v.(pointer := to, cursor := to)
  }

  function Written(v: Video, c: Cell): Video
    requires Steady(v)
  {
    v.(cells := v.cells[v.pointer := c])
  }

  /** putc_c. */
  function Put(v: Video, color: byte, c: byte): (r: Video)
    requires Steady(v)
    ensures Steady(r)
  {
    if c == NEWLINE then
      var down := Increased(v, COLS); Increased(down, -(down.pointer % COLS))
    else if c == RETURN then Increased(v, -(v.pointer % COLS))
    else if c == BACKSPACE then
      if Allowed(v.pointer, -1) == 0 then v else Written(Increased(v, -1), Cell(32, color))
    else if c == TAB then Increased(v, 10 - v.pointer % 10)
    else if c == 0 then v
    else Increased(Written(v, Cell(c, color)), 1)
  }

  // The unbounded list of lines.

  /** Lines that are never erased: what has been written on them, the absolute place of the pointer,
      and the first line on display. */
  datatype Tape = Tape(written: map<nat, Cell>, at: nat, top: nat)

  /** The paper before anything is written: blank for 50 lines, then as the row after VGA_TEXT_END. */
  function Paper(blank: Cell, beyond: seq<Cell>, i: nat): Cell
    requires |beyond| == COLS
  {
    if i < TEXT_END then blank else beyond[i % COLS]
  }

  function On(t: Tape, blank: Cell, beyond: seq<Cell>, i: nat): Cell
    requires |beyond| == COLS
  {
    if i in t.written then t.written[i] else Paper(blank, beyond, i)
  }

  /** Move to an absolute place; the display follows so that the pointer's line is on it. */
  function MovedTo(t: Tape, at: nat): Tape {
    t.(at := at, top := if at / COLS > t.top + 24 then at / COLS - 24 else t.top)
  }

  /** A character on the list of lines. */
  function Typed(t: Tape, color: byte, c: byte): Tape {
    var column := t.at % COLS;
    if c == NEWLINE then MovedTo(t, t.at - column + COLS)
    else if c == RETURN then MovedTo(t, t.at - column)
    else if c == BACKSPACE then
      if column == 0 then t else MovedTo(t.(written := t.written[t.at - 1 := Cell(32, color)]), t.at - 1)
    else if c == TAB then MovedTo(t, t.at + 10 - column % 10)
    else if c == 0 then t
    else MovedTo(t.(written := t.written[t.at := Cell(c, color)]), t.at + 1)
  }

  /** Video memory is the 51 lines of the list from the first one on display. */
  ghost predicate Shows(v: Video, t: Tape, blank: Cell, beyond: seq<Cell>) {
    && |beyond| == COLS && Steady(v)
    && t.at == t.top * COLS + v.pointer
    && (forall i :: i in t.written ==> i < t.top * COLS + SCREEN)
    && (forall i :: 0 <= i < MEMORY ==> v.cells[i] == On(t, blank, beyond, t.top * COLS + i))
  }

  // One character.

  /** Below what is on display nothing has been written, so the paper there is periodic. */
  lemma PaperRepeats(t: Tape, blank: Cell, beyond: seq<Cell>, i: nat)
    requires |beyond| == COLS && i >= TEXT_END && i !in t.written && i + COLS !in t.written
    ensures On(t, blank, beyond, i + COLS) == On(t, blank, beyond, i)
  {}

  lemma ScrollRefines(v: Video, t: Tape, blank: Cell, beyond: seq<Cell>, at: nat)
    requires Shows(v, t, blank, beyond) && at < SCREEN
    ensures Shows(Video(Scrolled(v.cells), at, at), Tape(t.written, t.top * COLS + COLS + at, t.top + 1), blank, beyond)
  {
    var t' := Tape(t.written, t.top * COLS + COLS + at, t.top + 1);
    var from := t.top * COLS;
    forall i | 0 <= i < MEMORY
      ensures Scrolled(v.cells)[i] == On(t', blank, beyond, from + COLS + i)
    {
      if i >= TEXT_END {
        PaperRepeats(t, blank, beyond, from + i);
      } else {
        assert v.cells[i + COLS] == On(t, blank, beyond, from + (i + COLS));
      }
    }
  }

  lemma {:induction false} ScrollsRefine(v: Video, t: Tape, blank: Cell, beyond: seq<Cell>, rows: nat, at: nat)
    requires Shows(v, t, blank, beyond) && at < SCREEN && rows > 0
    ensures Shows(Video(ScrolledBy(v.cells, rows), at, at),
                  Tape(t.written, (t.top + rows) * COLS + at, t.top + rows), blank, beyond)
    decreases rows
  {
    hide Shows, Scrolled;
    ShowsPlace(v, t, blank, beyond);
    ScrollRefines(v, t, blank, beyond, at);
    ScrollOnce(v.cells, rows);
    if rows > 1 {
      ScrollsRefine(Video(Scrolled(v.cells), at, at), Tape(t.written, t.top * COLS + COLS + at, t.top + 1),
                    blank, beyond, rows - 1, at);
    }
  }

  /** A move forth by any distance, or back within the row. */
  lemma MoveRefines(v: Video, t: Tape, blank: Cell, beyond: seq<Cell>, pos: int)
    requires Shows(v, t, blank, beyond) && -(v.pointer % COLS) <= pos
    ensures Allowed(v.pointer, pos) == pos && t.at + pos >= 0
    ensures Shows(Increased(v, pos), MovedTo(t, t.at + pos), blank, beyond)
  {
    var to := v.pointer + pos;
    if to >= SCREEN {
      ScrollsRefine(v, t, blank, beyond, to / COLS - 24, SCREEN - COLS + to % COLS);
    }
    hide Scrolled, ScrolledBy, On;
  }

  /** A move further back goes to the start of the row, or nowhere if it would leave the screen. */
  lemma HeldInRow(v: Video, pos: int)
    requires Steady(v) && pos < -(v.pointer % COLS)
    ensures Increased(v, pos) == if v.pointer + pos < 0 then v else Increased(v, -(v.pointer % COLS))
  {}

  lemma WriteRefines(v: Video, t: Tape, blank: Cell, beyond: seq<Cell>, c: Cell)
    requires Shows(v, t, blank, beyond)
    ensures Shows(Written(v, c), t.(written := t.written[t.at := c]), blank, beyond)
  {}

  lemma ShowsPlace(v: Video, t: Tape, blank: Cell, beyond: seq<Cell>)
    requires Shows(v, t, blank, beyond)
    ensures Steady(v) && t.at == t.top * COLS + v.pointer && t.at % COLS == v.pointer % COLS
  {
    hide On;
  }

  /** A line feed moves down a row and then back to its start. */
  lemma NewlineRefines(v: Video, t: Tape, blank: Cell, beyond: seq<Cell>, color: byte)
    requires Shows(v, t, blank, beyond)
    ensures Shows(Put(v, color, NEWLINE), Typed(t, color, NEWLINE), blank, beyond)
  {
    hide Shows, Increased;
    ShowsPlace(v, t, blank, beyond);
    MoveRefines(v, t, blank, beyond, COLS);
    var down, lower, column := Increased(v, COLS), MovedTo(t, t.at + COLS), t.at % COLS;
    LineBelow(t);
    ShowsPlace(down, lower, blank, beyond);
    MoveRefines(down, lower, blank, beyond, -column);
    hide MovedTo, Steady;
  }

  /** Moving down and then back to the start of the row, or at once. */
  lemma LineBelow(t: Tape)
    ensures var lower, column := MovedTo(t, t.at + COLS), t.at % COLS;
            lower.at % COLS == column && MovedTo(lower, lower.at - column) == MovedTo(t, t.at - column + COLS)
  {}

  /** A backspace blanks the character before the pointer, within the line. */
  lemma BackspaceRefines(v: Video, t: Tape, blank: Cell, beyond: seq<Cell>, color: byte)
    requires Shows(v, t, blank, beyond)
    ensures Shows(Put(v, color, BACKSPACE), Typed(t, color, BACKSPACE), blank, beyond)
  {
    ShowsPlace(v, t, blank, beyond);
    hide Shows, Increased;
    if t.at % COLS > 0 {
      MoveRefines(v, t, blank, beyond, -1);
      WriteRefines(Increased(v, -1), MovedTo(t, t.at - 1), blank, beyond, Cell(32, color));
    }
  }

  lemma PrintRefines(v: Video, t: Tape, blank: Cell, beyond: seq<Cell>, c: Cell)
    requires Shows(v, t, blank, beyond)
    ensures Steady(v) && Steady(Written(v, c))
    ensures Shows(Increased(Written(v, c), 1), MovedTo(t.(written := t.written[t.at := c]), t.at + 1), blank, beyond)
  {
    ShowsPlace(v, t, blank, beyond);
    WriteRefines(v, t, blank, beyond, c);
    hide Shows, Increased;
    var w, u := Written(v, c), t.(written := t.written[t.at := c]);
    ShowsPlace(w, u, blank, beyond);
    MoveRefines(w, u, blank, beyond, 1);
  }

  lemma ReturnRefines(v: Video, t: Tape, blank: Cell, beyond: seq<Cell>, color: byte)
    requires Shows(v, t, blank, beyond)
    ensures Shows(Put(v, color, RETURN), Typed(t, color, RETURN), blank, beyond)
  {
    ShowsPlace(v, t, blank, beyond);
    hide Shows, Increased, MovedTo;
    MoveRefines(v, t, blank, beyond, -(t.at % COLS));
  }

  lemma TabRefines(v: Video, t: Tape, blank: Cell, beyond: seq<Cell>, color: byte)
    requires Shows(v, t, blank, beyond)
    ensures Shows(Put(v, color, TAB), Typed(t, color, TAB), blank, beyond)
  {
    ShowsPlace(v, t, blank, beyond);
    hide Shows, Increased, MovedTo;
    TabStops(v.pointer);
    var d := 10 - v.pointer % 10;
    MoveRefines(v, t, blank, beyond, d);
    assert Typed(t, color, TAB) == MovedTo(t, t.at + d);
    hide Typed, Steady;
  }

  /** Tab stops are at the same places in every row. */
  lemma TabStops(x: nat)
    ensures x % COLS % 10 == x % 10
  {
    var q, r := x / COLS, x % COLS;
    assert x == 10 * (8 * q) + r;
  }

  /** A character on the screen and on the list of lines. */
  lemma PutRefines(v: Video, t: Tape, blank: Cell, beyond: seq<Cell>, color: byte, c: byte)
    requires Shows(v, t, blank, beyond)
    ensures Shows(Put(v, color, c), Typed(t, color, c), blank, beyond)
  {
    match c
    case 8 => BackspaceRefines(v, t, blank, beyond, color);
    case 9 => TabRefines(v, t, blank, beyond, color);
    case 10 => NewlineRefines(v, t, blank, beyond, color);
    case 13 => ReturnRefines(v, t, blank, beyond, color);
    case 0 =>
    case _ =>
      PrintRefines(v, t, blank, beyond, Cell(c, color));
      hide Shows, Increased, MovedTo, Written;
  }

  // Streams of characters.

  datatype Char = Char(color: byte, c: byte)

  function PutAll(v: Video, text: seq<Char>): (r: Video)
    requires Steady(v)
    ensures Steady(r)
    decreases |text|
  {
    if text == [] then v else
      var last := text[|text| - 1];
      Put(PutAll(v, text[..|text| - 1]), last.color, last.c)
  }

  function TypedAll(t: Tape, text: seq<Char>): Tape
    decreases |text|
  {
    if text == [] then t else
      var last := text[|text| - 1];
      Typed(TypedAll(t, text[..|text| - 1]), last.color, last.c)
  }

  const NOTHING := Tape(map[], 0, 0)

  /** vga_clear: everything but the row after VGA_TEXT_END. */
  function Cleared(cells: seq<Cell>, blank: Cell): (v: Video)
    requires |cells| == MEMORY
    ensures Steady(v)
  {
    Video(seq(TEXT_END, _ => blank) + cells[TEXT_END..], 0, 0)
  }

  lemma {:induction false} RunRefines(v: Video, t: Tape, blank: Cell, beyond: seq<Cell>, text: seq<Char>)
    requires Shows(v, t, blank, beyond)
    ensures Steady(v) && Shows(PutAll(v, text), TypedAll(t, text), blank, beyond)
    decreases |text|
  {
    ShowsPlace(v, t, blank, beyond);
    hide Shows, Put, Typed;
    if text != [] {
      var front, last := text[..|text| - 1], text[|text| - 1];
      RunRefines(v, t, blank, beyond, front);
      PutRefines(PutAll(v, front), TypedAll(t, front), blank, beyond, last.color, last.c);
    }
  }

  /** For every stream of characters after vga_clear: the pointer stays on the screen and the cursor
      is where it is, and memory is the window of 51 lines of a list that scrolling only shifts. */
  lemma ConsoleShowsTheTape(cells: seq<Cell>, blank: Cell, text: seq<Char>)
    requires |cells| == MEMORY
    ensures var v := PutAll(Cleared(cells, blank), text);
            Steady(v) && Shows(v, TypedAll(NOTHING, text), blank, cells[TEXT_END..])
  {
    assert Shows(Cleared(cells, blank), NOTHING, blank, cells[TEXT_END..]);
    RunRefines(Cleared(cells, blank), NOTHING, blank, cells[TEXT_END..], text);
    hide Shows, PutAll, Cleared;
  }

  /** The 25 lines on display are those of the list, blank where nothing was written. */
  predicate DisplaysBlankPaper(v: Video, t: Tape, blank: Cell) {
    |v.cells| == MEMORY &&
    forall i :: 0 <= i < SCREEN ==>
      v.cells[i] == if t.top * COLS + i in t.written then t.written[t.top * COLS + i] else blank
  }

  ghost predicate AlwaysDisplaysBlankPaper(cells: seq<Cell>, blank: Cell)
    requires |cells| == MEMORY
  {
    forall text: seq<Char> :: DisplaysBlankPaper(PutAll(Cleared(cells, blank), text), TypedAll(NOTHING, text), blank)
  }

  function LineFeeds(n: nat): seq<Char> {
    if n == 0 then [] else LineFeeds(n - 1) + [Char(7, NEWLINE)]
  }

  lemma {:induction false} AfterLineFeeds(n: nat)
    ensures TypedAll(NOTHING, LineFeeds(n)) == Tape(map[], n * COLS, if n > 24 then n - 24 else 0)
  {
    if n > 0 {
      hide Typed;
      AfterLineFeeds(n - 1);
      assert LineFeeds(n)[..|LineFeeds(n)| - 1] == LineFeeds(n - 1);
      OneLineFeed(n - 1);
    }
  }

  lemma OneLineFeed(n: nat)
    ensures Typed(Tape(map[], n * COLS, if n > 24 then n - 24 else 0), 7, NEWLINE) ==
            Tape(map[], (n + 1) * COLS, if n + 1 > 24 then n + 1 - 24 else 0)
  {
    assert n * COLS % COLS == 0 && (n * COLS + COLS) / COLS == n + 1;
  }

  /** New lines are blank for every stream exactly when the row after VGA_TEXT_END, which vga_clear
      leaves alone, is blank: fifty line feeds show it. */
  lemma BlankPaperExactly(cells: seq<Cell>, blank: Cell)
    requires |cells| == MEMORY
    ensures AlwaysDisplaysBlankPaper(cells, blank) <==> forall i :: TEXT_END <= i < MEMORY ==> cells[i] == blank
  {
    hide AlwaysDisplaysBlankPaper;
    if forall i :: TEXT_END <= i < MEMORY ==> cells[i] == blank {
      BlankBeyond(cells, blank);
    } else {
      var i :| TEXT_END <= i < MEMORY && cells[i] != blank;
      PrintedBeyond(cells, blank, i);
    }
  }

  lemma BlankBeyond(cells: seq<Cell>, blank: Cell)
    requires |cells| == MEMORY && forall i :: TEXT_END <= i < MEMORY ==> cells[i] == blank
    ensures AlwaysDisplaysBlankPaper(cells, blank)
  {
    hide PutAll, TypedAll, Cleared;
    forall text: seq<Char>
      ensures DisplaysBlankPaper(PutAll(Cleared(cells, blank), text), TypedAll(NOTHING, text), blank)
    {
      ConsoleShowsTheTape(cells, blank, text);
    }
  }

  lemma PrintedBeyond(cells: seq<Cell>, blank: Cell, i: nat)
    requires |cells| == MEMORY && TEXT_END <= i < MEMORY && cells[i] != blank
    ensures !AlwaysDisplaysBlankPaper(cells, blank)
  {
    hide PutAll, TypedAll, Cleared;
    var text := LineFeeds(50);
    AfterLineFeeds(50);
    ConsoleShowsTheTape(cells, blank, text);
    hide LineFeeds;
    var v := PutAll(Cleared(cells, blank), text);
    assert v.cells[i - TEXT_END + 1920] == cells[i];
    assert !DisplaysBlankPaper(v, TypedAll(NOTHING, text), blank);
  }

  // The driver.

  class Screen {
    const memory: array<Cell>
    var pointer: nat
    var low: byte
    var high: byte

    /** The memory at VGA_TEXT_START, 51 rows of it, with the pointer where it starts. */
    constructor (memory: array<Cell>)
      requires memory.Length == MEMORY
      ensures this.memory == memory && Valid() && Snapshot() == Video(memory[..], 0, 0)
    {
      this.memory, pointer, low, high := memory, 0, 0, 0;
    }

    /** The cursor is what its two registers say. */
    function Snapshot(): Video
      reads this, memory
    {
      Video(memory[..], pointer, low + 0x100 * high)
    }

    ghost predicate Valid()
      reads this, memory
    {
      Steady(Snapshot())
    }

    method CursorUpdate(pos: u16)
      modifies `low, `high
      ensures low + 0x100 * high == pos
    {
      low := pos % 0x100;
      high := pos / 0x100 % 0x100;
    }

    method CursorGetPosition() returns (pos: u16)
      ensures pos == low + 0x100 * high
    {
      pos := low;
      pos := pos + high * 0x100;
    }

    method CursorInc(pos: int)
      modifies `low, `high
      ensures low + 0x100 * high == Wrap16(old(low + 0x100 * high) + pos)
    {
      var at := CursorGetPosition();
      CursorUpdate(Wrap16(at + pos));
    }

    method PointerSet(address: int)
      modifies this
      ensures if 0 <= address < SCREEN then pointer == address && low + 0x100 * high == address
              else pointer == old(pointer) && low == old(low) && high == old(high)
    {
      if !(-1 < address < SCREEN) {
        return;
      }
      pointer := address;
      CursorUpdate(address);
    }

    /** vga_scroll_down, row by row. */
    method ScrollDown()
      requires memory.Length == MEMORY
      modifies memory
      ensures memory[..] == Scrolled(old(memory[..]))
    {
      ghost var was := memory[..];
      var line := 0;
      while line <= TEXT_END - COLS
        invariant 0 <= line <= TEXT_END && line % COLS == 0
        invariant forall i :: 0 <= i < line ==> memory[i] == was[i + COLS]
        invariant forall i :: line <= i < MEMORY ==> memory[i] == was[i]
      {
        CopyRow(line, line + COLS);
        line := line + COLS;
      }
    }

    /** memcpy of a row to another. */
    method CopyRow(dest: nat, src: nat)
      requires memory.Length == MEMORY && dest + COLS <= src && src + COLS <= MEMORY
      modifies memory
      ensures forall i :: dest <= i < dest + COLS ==> memory[i] == old(memory[i - dest + src])
      ensures forall i :: 0 <= i < MEMORY && !(dest <= i < dest + COLS) ==> memory[i] == old(memory[i])
    {
      var n := 0;
      while n < COLS
        invariant 0 <= n <= COLS
        invariant forall i :: dest <= i < dest + n ==> memory[i] == old(memory[i - dest + src])
        invariant forall i :: 0 <= i < MEMORY && !(dest <= i < dest + n) ==> memory[i] == old(memory[i])
      {
        memory[dest + n] := memory[src + n];
        n := n + 1;
      }
    }

    method PointerInc(pos: int) returns (moved: int)
      requires Valid()
      modifies this, memory
      ensures Valid() && Snapshot() == Increased(old(Snapshot()), pos) && moved == Allowed(old(pointer), pos)
    {
      hide Scrolled, ScrolledBy;
      moved := pos;
      if pointer + moved < 0 {
        moved := 0;
      }
      var mod := pointer % COLS;
      if moved <= -mod {
        moved := -mod;
      }
      if pointer + moved >= SCREEN {
        var quot := (pointer + moved) / COLS - 25;
        mod := (pointer + moved) % COLS;
        ghost var was := memory[..];
        var i := 0;
        while i < quot
          invariant 0 <= i <= quot && memory.Length == MEMORY
          invariant ScrolledBy(memory[..], quot - i + 1) == ScrolledBy(was, quot + 1)
        {
          ScrollOnce(memory[..], quot - i + 1);
          ScrollDown();
          i := i + 1;
        }
        ScrollOnce(memory[..], 1);
        ScrollDown();
        PointerSet(SCREEN - COLS + mod);
        return;
      }
      pointer := pointer + moved;
      CursorInc(moved);
    }

    method Write(color: byte, c: byte)
      requires Valid()
      modifies memory
      ensures Valid() && Snapshot() == Written(old(Snapshot()), Cell(c, color))
    {
      memory[pointer] := Cell(c, color);
    }

    method Newline() returns (moved: int)
      requires Valid()
      modifies this, memory
      ensures Valid() && Snapshot() == Increased(old(Snapshot()), COLS)
    {
      moved := PointerInc(COLS);
    }

    method AllignLeft() returns (moved: int)
      requires Valid()
      modifies this, memory
      ensures Valid() && Snapshot() == Increased(old(Snapshot()), -(old(pointer) % COLS))
              && moved == -(old(pointer) % COLS)
    {
      var mod := pointer % COLS;
      var r := PointerInc(-mod);
      moved := -mod;
    }

    method Tab() returns (moved: int)
      requires Valid()
      modifies this, memory
      ensures Valid() && Snapshot() == Increased(old(Snapshot()), 10 - old(pointer) % 10)
    {
      var tabSize := COLS / 8;
      moved := PointerInc(tabSize - pointer % tabSize);
    }

    /** vga_clear: the pointer walks over all 50 rows and comes back. */
    method Clear(background: byte)
      requires memory.Length == MEMORY
      modifies this, memory
      ensures Valid() && Snapshot() == Cleared(old(memory[..]), Cell(32, background * 16 % 0x100 + 7))
    {
      pointer := 0;
      ghost var blank := Cell(32, background * 16 % 0x100 + 7);
      while pointer < TEXT_END
        invariant pointer <= TEXT_END
        invariant forall i :: 0 <= i < pointer ==> memory[i] == blank
        invariant forall i :: pointer <= i < MEMORY ==> memory[i] == old(memory[i])
      {
        memory[pointer] := Cell(32, background * 16 % 0x100 + 7);
        pointer := pointer + 1;
      }
      PointerSet(0);
    }

    /** putc_c. */
    method Putc(color: byte, c: byte) returns (r: byte)
      requires Valid()
      modifies this, memory
      ensures Valid() && Snapshot() == Put(old(Snapshot()), color, c) && r == c
    {
      hide Increased, Written;
      StaysPut(Snapshot());
      var moved;
      if c == NEWLINE {
        moved := Newline();
        moved := AllignLeft();
      } else if c == RETURN {
        moved := AllignLeft();
      } else if c == BACKSPACE {
        moved := PointerInc(-1);
        if moved != 0 {
          Write(color, 32);
        }
      } else if c == TAB {
        moved := Tab();
      } else if c != 0 {
        Write(color, c);
        moved := PointerInc(1);
      }
      r := c;
    }

    /** puts_c, and how many characters it printed. */
    method Puts(color: byte, text: seq<byte>) returns (count: nat)
      requires Valid() && 0 !in text
      modifies this, memory
      ensures Valid() && count == |text|
      ensures Snapshot() == PutAll(old(Snapshot()), Colored(color, text))
    {
      hide Put;
      count := 0;
      assert text[..0] == [];
      while count < |text|
        invariant count <= |text| && Valid()
        invariant Snapshot() == PutAll(old(Snapshot()), Colored(color, text[..count]))
      {
        ColoredAppend(color, text, count);
        var r := Putc(color, text[count]);
        count := count + 1;
      }
      assert text[..count] == text;
    }
  }

  lemma StaysPut(v: Video)
    requires Steady(v)
    ensures Allowed(v.pointer, -1) == 0 ==> Increased(v, -1) == v
  {}

  function Colored(color: byte, text: seq<byte>): (r: seq<Char>)
    ensures |r| == |text|
  {
    seq(|text|, i requires 0 <= i < |text| => Char(color, text[i]))
  }

  lemma ColoredAppend(color: byte, text: seq<byte>, n: nat)
    requires n < |text|
    ensures var all := Colored(color, text[..n + 1]);
            all[..n] == Colored(color, text[..n]) && all[n] == Char(color, text[n])
  {}
}