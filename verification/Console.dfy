/**
 * The text console of src/scrn.c: an 80x25 screen of 16-bit cells kept as bytes in video memory, the
 * cursor, the current attribute, and the `cursor` counter that kwritef pads by. Port writes (the
 * hardware cursor) are not part of this model; bytes sent to COM1 are collected in `serial`.
 */
module Console {
  import opened Types
  import opened Memory

  const COLS := 80
  const ROWS := 25
  const CELLS := 2000

  const BACKSPACE: u8 := 0x08
  const TAB: u8 := 0x09
  const NEWLINE: u8 := 0x0A
  const RETURN: u8 := 0x0D
  const SPACE: u8 := 0x20

  /** `c | (attrib << 8)` in 16 bits: the low byte of the attribute above the character. */
  function Glyph(c: u8, attrib: u16): u16 {
    c + 0x100 * (attrib % 0x100)
  }

  function Fill(v: u16, n: nat): (r: seq<u16>)
    ensures |r| == n && forall i :: 0 <= i < n ==> r[i] == v
  {
    seq(n, _ => v)
  }

  function Blanks(attrib: u16, n: nat): seq<u16> {
    Fill(Glyph(SPACE, attrib), n)
  }

  /** `(n + 8) & ~7`. */
  function NextTabStop(n: nat): nat {
    (n + 8) / 8 * 8
  }

  // ---- what the screen shows, as a value

  datatype State = State(cells: seq<u16>, csrX: u16, csrY: u16, attrib: u16, cursor: nat, serial: seq<u8>)

  ghost predicate OnScreen(s: State) {
    |s.cells| == CELLS && s.csrX < COLS && s.csrY < ROWS
  }

  function SetColor(s: State, forecolor: u8, backcolor: u8): State {
    s.(attrib := backcolor * 16 + forecolor % 16)
  }

  function Clear(s: State): State {
    s.(cells := Blanks(s.attrib, CELLS), csrX := 0, csrY := 0)
  }

  /** The effect of one character before the line wrap and the scroll. */
  function Type(s: State, c: u8): State
    requires OnScreen(s)
  {
    if c == BACKSPACE then
      s.(csrX := if s.csrX != 0 then s.csrX - 1 else 0, cursor := if s.cursor != 0 then s.cursor - 1 else 0)
    else if c == TAB then
      s.(csrX := NextTabStop(s.csrX), cursor := NextTabStop(s.cursor))
    else if c == RETURN then
      s.(csrX := 0, cursor := 0)
    else if c == NEWLINE then
      s.(csrX := 0, cursor := s.cursor + COLS, csrY := s.csrY + 1)
    else if c >= SPACE then
      s.(cells := s.cells[s.csrY * COLS + s.csrX := Glyph(c, s.attrib)], csrX := s.csrX + 1, cursor := s.cursor + 1)
    else
      s
  }

  function Wrap(s: State): State
    requires s.csrY <= ROWS
  {
    if s.csrX >= COLS then s.(csrX := 0, cursor := s.cursor + COLS, csrY := s.csrY + 1) else s
  }

  /** With the row past the screen, the rows move up until it is the last one, and the row after the moved
      ones is blanked; from two rows past on, further old rows stay below it. */
  function Scroll(s: State): (r: State)
    requires |s.cells| == CELLS && s.csrY < 2 * ROWS
    ensures |r.cells| == CELLS && r.csrY < ROWS && r.csrX == s.csrX
  {
    if s.csrY >= ROWS then
      var kept := CELLS - COLS * (s.csrY - ROWS + 1);
      s.(cells := s.cells[CELLS - kept..] + Blanks(s.attrib, COLS) + s.cells[kept + COLS..], csrY := ROWS - 1)
    else s
  }

  function Put(s: State, c: u8): (r: State)
    requires OnScreen(s)
    ensures OnScreen(r)
  {
    Scroll(Wrap(Type(s, c)))
  }

  /** What a printable character does, in plain cells: the attribute's low byte is in the high half. The cursor
      goes on by one position, and past the last one the rows move up over a blank row. */
  lemma PrintablePut(s: State, c: u8)
    requires OnScreen(s) && 0x20 <= c
    ensures var r, at, glyph := Put(s, c), 80 * s.csrY + s.csrX, c + 0x100 * (s.attrib % 0x100);
      && r.attrib == s.attrib && r.serial == s.serial
      && r.cursor == s.cursor + (if s.csrX == 79 then 81 else 1)
      && r.csrX < 80 && 80 * r.csrY + r.csrX == (if at < 1999 then at + 1 else 1920)
      && r.cells == if at < 1999 then s.cells[at := glyph]
           else s.cells[at := glyph][80..] + Fill(0x20 + 0x100 * (s.attrib % 0x100), 80)
  {
    assert s.cells[1999 := Glyph(c, s.attrib)][CELLS..] == [];
  }

  /** The other characters: backspace, return, tab and newline; the rest do nothing. A tab from column 72 on
      ends the row like a newline does. */
  lemma ControlPut(s: State, c: u8)
    requires OnScreen(s) && c < 0x20
    ensures c == 0x08 ==>
      Put(s, c) == s.(csrX := if s.csrX == 0 then 0 else s.csrX - 1, cursor := if s.cursor == 0 then 0 else s.cursor - 1)
    ensures c == 0x0D ==> Put(s, c) == s.(csrX := 0, cursor := 0)
    ensures c == 0x09 && s.csrX < 72 ==>
      var r := Put(s, c);
      && r == s.(csrX := r.csrX, cursor := r.cursor)
      && s.csrX < r.csrX <= s.csrX + 8 && r.csrX % 8 == 0
      && s.cursor < r.cursor <= s.cursor + 8 && r.cursor % 8 == 0
    ensures c == 0x0A || (c == 0x09 && s.csrX >= 72) ==>
      var r := Put(s, c);
      && r.csrX == 0 && r.attrib == s.attrib && r.serial == s.serial
      && r.csrY == (if s.csrY < 24 then s.csrY + 1 else 24)
      && r.cells == (if s.csrY < 24 then s.cells
           else s.cells[80..] + Fill(0x20 + 0x100 * (s.attrib % 0x100), 80))
      && (c == 0x0A ==> r.cursor == s.cursor + 80)
      && (c == 0x09 ==> s.cursor + 80 < r.cursor <= s.cursor + 88 && r.cursor % 8 == 0)
    ensures c != 0x08 && c != 0x09 && c != 0x0A && c != 0x0D ==> Put(s, c) == s
  {
    assert s.cells[CELLS..] == [];
  }

  // ---- the unbounded terminal the screen stands for

  /** An endless roll of paper, 80 cells a row, with a pen position that may point anywhere on it. */
  datatype Terminal = Terminal(paper: seq<u16>, x: nat, y: nat, attrib: u16)

  /** The pen is on one of the last 25 rows of a roll of whole rows. */
  ghost predicate Rolled(t: Terminal) {
    exists rows: nat :: PenOn(t, rows)
  }

  ghost predicate PenOn(t: Terminal, rows: nat) {
    |t.paper| == COLS * rows && t.x < COLS && t.y < rows <= t.y + ROWS && ROWS <= rows
  }

  function Column(x: nat, c: u8): nat {
    if c == BACKSPACE then if x == 0 then 0 else x - 1
    else if c == TAB then NextTabStop(x)
    else if c == RETURN || c == NEWLINE then 0
    else if c >= SPACE then x + 1
    else x
  }

  /** The paper with the character in the cell under the pen, if it is a printable one. */
  function Inked(t: Terminal, c: u8): seq<u16>
    requires COLS * t.y + t.x < |t.paper|
  {
    if c >= SPACE then t.paper[COLS * t.y + t.x := Glyph(c, t.attrib)] else t.paper
  }

  /** Print at the pen, move it, and feed one blank row in the current attribute when it leaves the paper. */
  function Print(t: Terminal, c: u8): Terminal
    requires COLS * t.y + t.x < |t.paper|
  {
    var paper := Inked(t, c);
    var x := Column(t.x, c);
    var y := if c == NEWLINE || x >= COLS then t.y + 1 else t.y;
    t.(paper := if COLS * y >= |paper| then paper + Blanks(t.attrib, COLS) else paper,
       x := if x >= COLS then 0 else x, y := y)
  }

  datatype Op = PutChar(c: u8) | TextColor(forecolor: u8, backcolor: u8) | ClearScreen

  function Step(s: State, op: Op): (r: State)
    requires OnScreen(s)
    ensures OnScreen(r)
  {
    match op
    case PutChar(c) => Put(s, c)
    case TextColor(f, b) => SetColor(s, f, b)
    case ClearScreen => Clear(s)
  }

  /** On paper nothing is erased: clearing feeds 25 blank rows. */
  function TerminalStep(t: Terminal, op: Op): Terminal
    requires Rolled(t)
  {
    match op
    case PutChar(c) => Print(t, c)
    case TextColor(f, b) => t.(attrib := b * 16 + f % 16)
    case ClearScreen => Terminal(t.paper + Blanks(t.attrib, CELLS), 0, |t.paper| / COLS, t.attrib)
  }

  /** The screen is the last 25 rows of the paper, and the cursor is the pen. */
  ghost predicate Shows(s: State, t: Terminal) {
    OnScreen(s) && Rolled(t) &&
    s.cells == t.paper[|t.paper| - CELLS..] &&
    s.csrX == t.x && COLS * s.csrY == COLS * t.y - (|t.paper| - CELLS) && s.attrib == t.attrib
  }

  /** A glyph written to the visible part of the paper is a glyph written to the screen. */
  lemma GlyphShows(paper: seq<u16>, top: nat, at: nat, g: u16)
    requires top <= |paper| && at < |paper| - top
    ensures paper[top + at := g][top..] == paper[top..][at := g]
  {
  }

  /** Feeding a row moves the visible part down by one row. */
  lemma FeedShows(paper: seq<u16>, row: seq<u16>)
    requires |paper| >= CELLS && |row| == COLS
    ensures var cells := paper[|paper| - CELLS..];
      (paper + row)[|paper + row| - CELLS..] == cells[COLS..] + row + cells[CELLS..]
  {
  }

  /** Typing a character agrees with printing it, up to the line wrap. */
  lemma TypeShows(s: State, t: Terminal, c: u8)
    requires Shows(s, t)
    ensures COLS * t.y + t.x < |t.paper| == |Inked(t, c)|
    ensures var r := Type(s, c);
      && r.cells == Inked(t, c)[|t.paper| - CELLS..]
      && r.csrX == Column(t.x, c) && r.attrib == t.attrib
      && r.csrY == (if c == NEWLINE then s.csrY + 1 else s.csrY)
    ensures Column(t.x, c) <= COLS && (c == NEWLINE ==> Column(t.x, c) == 0)
  {
    hide Glyph, NextTabStop;
    var rows: nat :| PenOn(t, rows);
    TabInRange(t.x);
    GlyphShows(t.paper, |t.paper| - CELLS, COLS * s.csrY + s.csrX, Glyph(c, t.attrib));
  }

  lemma PutShows(s: State, t: Terminal, c: u8)
    requires Shows(s, t)
    ensures Shows(Put(s, c), Print(t, c))
  {
    hide Blanks, Glyph, NextTabStop, Type, Column, Inked;
    var rows: nat :| PenOn(t, rows);
    TypeShows(s, t, c);
    BlankRow(t.attrib);
    FeedShows(Inked(t, c), Blanks(t.attrib, COLS));
    assert PenOn(Print(t, c), if COLS * Print(t, c).y >= |t.paper| then rows + 1 else rows);
  }

  lemma TabInRange(x: nat)
    requires x < COLS
    ensures x < NextTabStop(x) <= COLS
  {
  }

  lemma TabFits(x: u16)
    requires x < COLS
    ensures NextTabStop(x) <= COLS
  {
  }

  lemma BlankRow(attrib: u16)
    ensures |Blanks(attrib, COLS)| == COLS
  {
  }

  lemma StepShows(s: State, t: Terminal, op: Op)
    requires Shows(s, t)
    ensures Shows(Step(s, op), TerminalStep(t, op))
  {
    match op
    case PutChar(c) =>
      PutShows(s, t, c);
    case TextColor(f, b) =>
      var rows: nat :| PenOn(t, rows);
      assert PenOn(TerminalStep(t, op), rows);
    case ClearScreen =>
      var rows: nat :| PenOn(t, rows);
      assert |t.paper| / COLS == rows;
      assert PenOn(TerminalStep(t, op), rows + ROWS);
  }

  function Run(s: State, ops: seq<Op>): (r: State)
    requires OnScreen(s)
    ensures OnScreen(r)
  {
    if ops == [] then s else Step(Run(s, ops[..|ops| - 1]), ops[|ops| - 1])
  }

  ghost function TerminalRun(t: Terminal, ops: seq<Op>): (r: Terminal)
    requires Rolled(t)
    ensures Rolled(r)
  {
    if ops == [] then t
    else
      var t' := TerminalRun(t, ops[..|ops| - 1]);
      TerminalStepRolled(t', ops[|ops| - 1]);
      TerminalStep(t', ops[|ops| - 1])
  }

  lemma TerminalStepRolled(t: Terminal, op: Op)
    requires Rolled(t)
    ensures Rolled(TerminalStep(t, op))
  {
    var rows: nat :| PenOn(t, rows);
    var s := State(t.paper[|t.paper| - CELLS..], t.x, t.y - (rows - ROWS), t.attrib, 0, []);
    StepShows(s, t, op);
  }

  /** Main result: over any run, however long, the screen shows the last 25 rows of the terminal. */
  lemma {:induction false} RunShows(s: State, t: Terminal, ops: seq<Op>)
    requires Shows(s, t)
    ensures Shows(Run(s, ops), TerminalRun(t, ops))
  {
    if ops != [] {
      RunShows(s, t, ops[..|ops| - 1]);
      StepShows(Run(s, ops[..|ops| - 1]), TerminalRun(t, ops[..|ops| - 1]), ops[|ops| - 1]);
    }
  }

  /** After `cls` the screen shows a terminal with 25 fresh rows. */
  lemma ClearShows(s: State)
    ensures Shows(Clear(s), Terminal(Blanks(s.attrib, CELLS), 0, 0, s.attrib))
  {
    assert PenOn(Terminal(Blanks(s.attrib, CELLS), 0, 0, s.attrib), ROWS);
  }

  /** Rows that have left the screen never change again. */
  lemma {:induction false} HistoryIsFixed(t: Terminal, ops: seq<Op>)
    requires Rolled(t)
    ensures |t.paper| <= |TerminalRun(t, ops).paper|
    ensures TerminalRun(t, ops).paper[..|t.paper| - CELLS] == t.paper[..|t.paper| - CELLS]
  {
    if ops != [] {
      HistoryIsFixed(t, ops[..|ops| - 1]);
      var now := TerminalRun(t, ops[..|ops| - 1]);
      var rows: nat :| PenOn(now, rows);
      var next := TerminalStep(now, ops[|ops| - 1]);
      assert next.paper[..|now.paper| - CELLS] == now.paper[..|now.paper| - CELLS];
      assert next.paper[..|t.paper| - CELLS] == next.paper[..|now.paper| - CELLS][..|t.paper| - CELLS];
      assert now.paper[..|t.paper| - CELLS] == now.paper[..|now.paper| - CELLS][..|t.paper| - CELLS];
    }
  }

  function Chars(text: seq<u8>): (ops: seq<Op>)
    ensures |ops| == |text|
  {
    seq(|text|, i requires 0 <= i < |text| => PutChar(text[i]))
  }

  function Pen(t: Terminal): nat {
    COLS * t.y + t.x
  }

  lemma PrintAtPen(t: Terminal, c: u8)
    requires Rolled(t) && c >= SPACE
    ensures var r := Print(t, c);
      && r.attrib == t.attrib && Pen(r) == Pen(t) + 1 && Pen(t) < |t.paper| && Pen(r) <= |r.paper|
      && r.paper[..Pen(t)] == t.paper[..Pen(t)] && r.paper[Pen(t)] == Glyph(c, t.attrib)
  {
    var rows: nat :| PenOn(t, rows);
  }

  /** `b` is `a` with the text added after position `pen`. */
  ghost predicate Typed(a: seq<u16>, b: seq<u16>, pen: nat, text: seq<u8>, attrib: u16)
    requires pen <= |a|
  {
    pen + |text| <= |b| && b[..pen] == a[..pen] &&
    forall i :: 0 <= i < |text| ==> b[pen + i] == Glyph(text[i], attrib)
  }

  lemma TypedNext(a: seq<u16>, b: seq<u16>, c: seq<u16>, pen: nat, text: seq<u8>, attrib: u16)
    requires text != [] && pen <= |a| && Typed(a, b, pen, text[..|text| - 1], attrib)
    requires pen + |text| <= |c| && c[..pen + |text| - 1] == b[..pen + |text| - 1]
    requires c[pen + |text| - 1] == Glyph(text[|text| - 1], attrib)
    ensures Typed(a, c, pen, text, attrib)
  {
    assert c[..pen] == c[..pen + |text| - 1][..pen];
    assert b[..pen] == b[..pen + |text| - 1][..pen];
    forall i | 0 <= i < |text| - 1
      ensures c[pen + i] == Glyph(text[i], attrib)
    {
      assert c[pen + i] == c[..pen + |text| - 1][pen + i] == b[pen + i];
      assert text[i] == text[..|text| - 1][i];
    }
  }

  /** Printable text runs along the paper without a gap, across wraps and scrolls, and disturbs nothing
      in front of it. */
  lemma PrintableTextIsContiguous(t: Terminal, text: seq<u8>)
    requires Rolled(t)
    requires forall i :: 0 <= i < |text| ==> text[i] >= SPACE
    ensures var r, pen := TerminalRun(t, Chars(text)), 80 * t.y + t.x;
      && 80 * r.y + r.x == pen + |text| <= |r.paper| && r.attrib == t.attrib && pen <= |t.paper|
      && r.paper[..pen] == t.paper[..pen]
      && forall i :: pen <= i < pen + |text| ==>
           r.paper[i] % 0x100 == text[i - pen] && r.paper[i] / 0x100 == t.attrib % 0x100
  {
    hide TerminalRun, Chars, Typed, Rolled;
    TextIsTyped(t, text);
    TypedHalves(t.paper, TerminalRun(t, Chars(text)).paper, Pen(t), text, t.attrib);
  }

  lemma TypedHalves(a: seq<u16>, b: seq<u16>, pen: nat, text: seq<u8>, attrib: u16)
    requires pen <= |a| && Typed(a, b, pen, text, attrib)
    ensures pen + |text| <= |b| && b[..pen] == a[..pen]
    ensures forall i :: pen <= i < pen + |text| ==>
      b[i] % 0x100 == text[i - pen] && b[i] / 0x100 == attrib % 0x100
  {
    hide Glyph;
    forall i | pen <= i < pen + |text|
      ensures b[i] % 0x100 == text[i - pen] && b[i] / 0x100 == attrib % 0x100
    {
      assert b[pen + (i - pen)] == Glyph(text[i - pen], attrib);
      GlyphHalves(text[i - pen], attrib);
    }
  }

  lemma GlyphHalves(c: u8, attrib: u16)
    ensures Glyph(c, attrib) % 0x100 == c && Glyph(c, attrib) / 0x100 == attrib % 0x100
  {
  }

  lemma {:induction false} TextIsTyped(t: Terminal, text: seq<u8>)
    requires Rolled(t)
    requires forall i :: 0 <= i < |text| ==> text[i] >= SPACE
    ensures var r := TerminalRun(t, Chars(text));
      && Pen(r) == Pen(t) + |text| && r.attrib == t.attrib && Pen(t) <= |t.paper|
      && Typed(t.paper, r.paper, Pen(t), text, t.attrib)
  {
    hide Print, Typed;
    if text == [] {
      NothingTyped(t);
    } else {
      var most := text[..|text| - 1];
      TextIsTyped(t, most);
      assert Chars(text)[..|text| - 1] == Chars(most);
      var now := TerminalRun(t, Chars(most));
      PrintAtPen(now, text[|text| - 1]);
      TypedNext(t.paper, now.paper, Print(now, text[|text| - 1]).paper, Pen(t), text, t.attrib);
    }
  }

  lemma NothingTyped(t: Terminal)
    requires Rolled(t)
    ensures Pen(t) <= |t.paper| && Typed(t.paper, t.paper, Pen(t), [], t.attrib)
  {
    var rows: nat :| PenOn(t, rows);
  }

  // ---- the code

  function CellAt(bytes: seq<u8>, i: nat): u16
    requires 2 * i + 1 < |bytes|
  {
    (bytes[2 * i] as int) + 0x100 * (bytes[2 * i + 1] as int)
  }

  /** Memory holds each cell as two bytes, low byte first. */
  function CellsOf(bytes: seq<u8>): (cells: seq<u16>)
    requires |bytes| % 2 == 0
    ensures 2 * |cells| == |bytes|
  {
    seq(|bytes| / 2, i requires 0 <= i < |bytes| / 2 => CellAt(bytes, i))
  }

  /** Byte `k` of the memory that holds some cells: characters at even, attributes at odd addresses. */
  function ByteOf(cells: seq<u16>, k: nat): u8
    requires k < 2 * |cells|
  {
    if k % 2 == 0 then cells[k / 2] % 0x100 else cells[k / 2] / 0x100
  }

  lemma BytesOfCells(bytes: seq<u8>)
    requires |bytes| % 2 == 0
    ensures forall k :: 0 <= k < |bytes| ==>
      bytes[k] == if k % 2 == 0 then CellsOf(bytes)[k / 2] % 0x100 else CellsOf(bytes)[k / 2] / 0x100
  {
    forall k | 0 <= k < |bytes|
      ensures bytes[k] == ByteOf(CellsOf(bytes), k)
    {
      HalvesOf(bytes, k / 2);
    }
  }

  lemma HalvesOf(bytes: seq<u8>, i: nat)
    requires 2 * i + 1 < |bytes|
    ensures CellAt(bytes, i) % 0x100 == bytes[2 * i] && CellAt(bytes, i) / 0x100 == bytes[2 * i + 1]
  {
  }

  /** The bytes of cells that moved up by `up`, with `n` equal ones and what lay there behind them. */
  lemma SplicedBytes(before: seq<u8>, after: seq<u8>, cut: nat, up: nat, v: u16, n: nat)
    requires |before| == |after| && |before| % 2 == 0 && 2 * (cut + up) <= |before| && 2 * (cut + n) <= |before|
    requires CellsOf(after) == CellsOf(before)[up..cut + up] + Fill(v, n) + CellsOf(before)[cut + n..]
    ensures forall k :: 0 <= k < 2 * cut ==> after[k] == before[k + 2 * up]
    ensures forall k :: 2 * cut <= k < 2 * (cut + n) ==> after[k] == if k % 2 == 0 then v % 0x100 else v / 0x100
    ensures forall k :: 2 * (cut + n) <= k < |after| ==> after[k] == before[k]
  {
    hide CellsOf, Fill;
    BytesOfCells(before);
    BytesOfCells(after);
  }

  method StoreCell(mem: array<u8>, i: nat, v: u16)
    requires mem.Length % 2 == 0 && 2 * i < mem.Length
    modifies mem
    ensures CellsOf(mem[..]) == CellsOf(old(mem[..]))[i := v]
  {
    mem[2 * i], mem[2 * i + 1] := v % 0x100, v / 0x100;
    assert CellAt(mem[..], i) == v;
    forall j | 0 <= j < mem.Length / 2 && j != i
      ensures CellAt(mem[..], j) == CellAt(old(mem[..]), j)
    {
    }
  }

  /** `kmemsetw(dest, val, count)`, the destination given as the number of its 16-bit word. */
  method KMemSetW(mem: array<u8>, dest: nat, val: u16, count: nat)
    requires mem.Length % 2 == 0 && 2 * (dest + count) <= mem.Length
    modifies mem
    ensures var before := CellsOf(old(mem[..]));
      CellsOf(mem[..]) == before[..dest] + Fill(val, count) + before[dest + count..]
    ensures forall k :: 2 * dest <= k < 2 * (dest + count) ==> mem[k] == if k % 2 == 0 then val % 0x100 else val / 0x100
    ensures mem[..2 * dest] == old(mem[..2 * dest]) && mem[2 * (dest + count)..] == old(mem[2 * (dest + count)..])
  {
    hide CellsOf;
    ghost var before := CellsOf(mem[..]);
    var temp, left := dest, count;
    while left != 0
      invariant 0 <= left <= count && temp == dest + (count - left)
      invariant CellsOf(mem[..]) == before[..dest] + Fill(val, count - left) + before[temp..]
      decreases left
    {
      StoreCell(mem, temp, val);
      temp, left := temp + 1, left - 1;
    }
    SplicedBytes(old(mem[..]), mem[..], dest, 0, val, count);
  }

  /** Moving bytes up by whole rows moves cells up by whole rows. */
  lemma MoveRows(before: seq<u8>, after: seq<u8>, rows: nat)
    requires |before| == 2 * CELLS && rows <= ROWS
    requires IsMove(before, after, 0, 2 * COLS * rows, 2 * (CELLS - COLS * rows))
    ensures var cells := CellsOf(before);
      CellsOf(after) == cells[COLS * rows..] + cells[CELLS - COLS * rows..]
  {
    forall i | 0 <= i < CELLS - COLS * rows
      ensures CellAt(after, i) == CellAt(before, i + COLS * rows)
    {
      assert MoveSource(0, 2 * COLS * rows, 2 * (CELLS - COLS * rows), 2 * i) == 2 * (i + COLS * rows);
      assert MoveSource(0, 2 * COLS * rows, 2 * (CELLS - COLS * rows), 2 * i + 1) == 2 * (i + COLS * rows) + 1;
    }
    forall i | CELLS - COLS * rows <= i < CELLS
      ensures CellAt(after, i) == CellAt(before, i)
    {
    }
  }

  /** The copy and the fill together: the kept cells, the blank row, and what lay below it. */
  lemma RowsScrolled(before: seq<u16>, moved: seq<u16>, after: seq<u16>, up: nat, row: seq<u16>)
    requires |before| == CELLS && COLS <= up <= CELLS && |row| == COLS
    requires moved == before[up..] + before[CELLS - up..]
    requires after == moved[..CELLS - up] + row + moved[CELLS - up + COLS..]
    ensures after == before[up..] + row + before[CELLS - up + COLS..]
  {
  }

  /** The two memory operations of `kscroll`: the rows from `temp` on move up over an overlapping source,
      and one row is blanked behind them. */
  method ScrollRows(textmem: array<u8>, temp: nat, blank: u16)
    requires textmem.Length == 2 * CELLS && 1 <= temp <= ROWS
    modifies textmem
    ensures var before := CellsOf(old(textmem[..]));
      CellsOf(textmem[..]) == before[COLS * temp..] + Fill(blank, COLS) + before[CELLS - COLS * temp + COLS..]
  {
    hide CellsOf, IsMove, IsForwardCopy, Fill;
    KMemCpyB(textmem, 0, 2 * temp * COLS, (ROWS - temp) * COLS * 2);
    ForwardCopyIsMove(old(textmem[..]), textmem[..], 0, 2 * COLS * temp, 2 * (CELLS - COLS * temp));
    MoveRows(old(textmem[..]), textmem[..], temp);
    ghost var moved := CellsOf(textmem[..]);
    KMemSetW(textmem, (ROWS - temp) * COLS, blank, COLS);
    RowsScrolled(CellsOf(old(textmem[..])), moved, CellsOf(textmem[..]), COLS * temp, Fill(blank, COLS));
  }

  lemma CellsDecideBytes(before: seq<u8>, after: seq<u8>)
    requires |before| == |after| && |before| % 2 == 0 && CellsOf(before) == CellsOf(after)
    ensures before == after
  {
    BytesOfCells(before);
    BytesOfCells(after);
  }

  lemma StoredBytes(before: seq<u8>, after: seq<u8>, at: nat, g: u16)
    requires |before| == |after| && |before| % 2 == 0 && 2 * at < |before|
    requires CellsOf(after) == CellsOf(before)[at := g]
    ensures after == before[2 * at := g % 0x100][2 * at + 1 := g / 0x100]
  {
    hide CellsOf;
    BytesOfCells(before);
    BytesOfCells(after);
  }

  /** What a character does to the bytes of video memory. */
  lemma PutBytes(before: seq<u8>, after: seq<u8>, s: State, c: u8)
    requires OnScreen(s) && |before| == |after| == 4000
    requires CellsOf(before) == s.cells && CellsOf(after) == Put(s, c).cells
    ensures var at := 80 * s.csrY + s.csrX;
      0x20 <= c && at < 1999 ==> after == before[2 * at := c][2 * at + 1 := s.attrib % 0x100]
    ensures var at, newRow := 80 * s.csrY + s.csrX, c == 0x0A || (c == 0x09 && s.csrX >= 72);
      (0x20 <= c && at == 1999) || (newRow && s.csrY == 24) ==>
        && (forall k :: 0 <= k < 3838 ==> after[k] == before[k + 160])
        && after[3838] == (if newRow then before[3998] else c)
        && after[3839] == (if newRow then before[3999] else s.attrib % 0x100)
        && (forall k :: 3840 <= k < 4000 ==> after[k] == if k % 2 == 0 then 0x20 else s.attrib % 0x100)
    ensures c < 0x20 && !(s.csrY == 24 && (c == 0x0A || (c == 0x09 && s.csrX >= 72))) ==> after == before
  {
    hide CellsOf, Put, Fill;
    var at, glyph, blank := 80 * s.csrY + s.csrX, c + 0x100 * (s.attrib % 0x100), 0x20 + 0x100 * (s.attrib % 0x100);
    if 0x20 <= c {
      PrintablePut(s, c);
      if at < 1999 {
        StoredBytes(before, after, at, glyph);
      } else {
        var typed := before[3998 := c][3999 := s.attrib % 0x100];
        TypedCells(before, c, s.attrib % 0x100);
        SplicedBytes(typed, after, CELLS - COLS, COLS, blank, COLS);
      }
    } else {
      ControlPut(s, c);
      if s.csrY == 24 && (c == 0x0A || (c == 0x09 && s.csrX >= 72)) {
        SplicedBytes(before, after, CELLS - COLS, COLS, blank, COLS);
      } else {
        CellsDecideBytes(before, after);
      }
    }
  }

  lemma TypedCells(before: seq<u8>, c: u8, attrib: u8)
    requires |before| == 4000
    ensures CellsOf(before[3998 := c][3999 := attrib]) == CellsOf(before)[1999 := c + 0x100 * attrib]
  {
    var after := before[3998 := c][3999 := attrib];
    forall j | 0 <= j < 1999
      ensures CellAt(after, j) == CellAt(before, j)
    {
    }
  }

  datatype Writer = Screen | Serial

  class Device {
    const textmem: array<u8>
    var csrX: u16
    var csrY: u16
    var attrib: u16
    var cursor: nat
    var serial: seq<u8>

    ghost predicate Valid()
      reads this, textmem
    {
      textmem.Length == 2 * CELLS && csrX < COLS && csrY < ROWS
    }

    ghost function View(): (s: State)
      requires textmem.Length == 2 * CELLS
      reads this, textmem
      ensures |s.cells| == CELLS && (Valid() ==> OnScreen(s))
    {
      State(CellsOf(textmem[..]), csrX, csrY, attrib, cursor, serial)
    }

    /** `init_video`, with the attribute and the counters at their static values. */
    constructor (textmem: array<u8>)
      requires textmem.Length == 2 * CELLS
      modifies textmem
      ensures this.textmem == textmem && Valid()
      ensures View() == State(Blanks(0x0F, CELLS), 0, 0, 0x0F, 0, [])
      ensures csrX == 0 && csrY == 0 && attrib == 0x0F && cursor == 0 && serial == []
      ensures forall k :: 0 <= k < 4000 ==> textmem[k] == if k % 2 == 0 then 0x20 else 0x0F
    {
      this.textmem := textmem;
      csrX, csrY, attrib, cursor, serial := 0, 0, 0x0F, 0, [];
      new;
      Cls();
    }

    method Cls()
      requires textmem.Length == 2 * CELLS
      modifies this, textmem
      ensures Valid() && attrib == old(attrib) && cursor == old(cursor) && serial == old(serial)
      ensures View() == State(Blanks(attrib, CELLS), 0, 0, attrib, cursor, serial)
      ensures csrX == 0 && csrY == 0
      ensures forall k :: 0 <= k < 4000 ==> textmem[k] == if k % 2 == 0 then 0x20 else attrib % 0x100
    {
      hide CellsOf;
      var blank := Glyph(SPACE, attrib);
      var i := 0;
      while i < ROWS
        invariant 0 <= i <= ROWS
        invariant CellsOf(textmem[..])[..COLS * i] == Fill(blank, COLS * i)
        invariant attrib == old(attrib) && cursor == old(cursor) && serial == old(serial)
      {
        KMemSetW(textmem, i * COLS, blank, COLS);
        i := i + 1;
      }
      csrX, csrY := 0, 0;
      GlyphHalves(SPACE, attrib);
      SplicedBytes(textmem[..], textmem[..], 0, 0, blank, CELLS);
    }

    method SetTextColor(forecolor: u8, backcolor: u8)
      requires Valid()
      modifies this
      ensures Valid() && View() == SetColor(old(View()), forecolor, backcolor)
      ensures attrib / 16 == backcolor && attrib % 16 == forecolor % 16 && View() == old(View()).(attrib := attrib)
    {
      attrib := backcolor * 16 + forecolor % 16;
    }

    /** `kscroll`, for every row up to 49; above, `(25 - temp)` wraps and the copy leaves video memory. */
    method KScroll()
      requires textmem.Length == 2 * CELLS && csrY < 2 * ROWS
      modifies this, textmem
      ensures View() == Scroll(old(View()))
      ensures csrX == old(csrX) && attrib == old(attrib) && cursor == old(cursor) && serial == old(serial)
      ensures csrY == (if old(csrY) < 25 then old(csrY) else 24)
      ensures old(csrY) < 25 ==> textmem[..] == old(textmem[..])
      ensures old(csrY) >= 25 ==>
        var up := 160 * (old(csrY) - 24);
        && (forall k :: 0 <= k < 4000 - up ==> textmem[k] == old(textmem[..])[k + up])
        && (forall k :: 4000 - up <= k < 4160 - up ==> textmem[k] == if k % 2 == 0 then 0x20 else attrib % 0x100)
        && (forall k :: 4160 - up <= k < 4000 ==> textmem[k] == old(textmem[k]))
    {
      hide CellsOf, Fill;
      var blank := Glyph(SPACE, attrib);
      if csrY >= ROWS {
        var temp := csrY - ROWS + 1;
        ScrollRows(textmem, temp, blank);
        GlyphHalves(SPACE, attrib);
        ghost var before, after := old(textmem[..]), textmem[..];
        SplicedBytes(before, after, CELLS - COLS * temp, COLS * temp, blank, COLS);
        csrY := ROWS - 1;
      }
    }

    method KPutCh(c: u8)
      requires Valid()
      modifies this, textmem
      ensures Valid() && View() == Put(old(View()), c)
      ensures var at := 80 * old(csrY) + old(csrX);
        0x20 <= c && at < 1999 ==>
          textmem[..] == old(textmem[..])[2 * at := c][2 * at + 1 := old(attrib) % 0x100]
      ensures var at, newRow := 80 * old(csrY) + old(csrX), c == 0x0A || (c == 0x09 && old(csrX) >= 72);
        (0x20 <= c && at == 1999) || (newRow && old(csrY) == 24) ==>
          && (forall k :: 0 <= k < 3838 ==> textmem[k] == old(textmem[..])[k + 160])
          && textmem[3838] == (if newRow then old(textmem[3998]) else c)
          && textmem[3839] == (if newRow then old(textmem[3999]) else old(attrib) % 0x100)
          && (forall k :: 3840 <= k < 4000 ==> textmem[k] == if k % 2 == 0 then 0x20 else old(attrib) % 0x100)
      ensures c < 0x20 && !(old(csrY) == 24 && (c == 0x0A || (c == 0x09 && old(csrX) >= 72))) ==>
        textmem[..] == old(textmem[..])
    {
      Display(c);
      PutBytes(old(textmem[..]), textmem[..], old(View()), c);
    }

    /** The body of `kputch`. */
    method Display(c: u8)
      requires Valid()
      modifies this, textmem
      ensures Valid() && View() == Put(old(View()), c)
    {
      hide CellsOf, Scroll, Glyph, NextTabStop;
      TabFits(csrX);
      if c == BACKSPACE {
        if csrX != 0 {
          csrX := csrX - 1;
        }
        if cursor != 0 {
          cursor := cursor - 1;
        }
      } else if c == TAB {
        csrX := NextTabStop(csrX);
        cursor := NextTabStop(cursor);
      } else if c == RETURN {
        csrX := 0;
        cursor := 0;
      } else if c == NEWLINE {
        csrX := 0;
        cursor := cursor + COLS;
        csrY := csrY + 1;
      } else if c >= SPACE {
        StoreCell(textmem, csrY * COLS + csrX, Glyph(c, attrib));
        csrX := csrX + 1;
        cursor := cursor + 1;
      }
      if csrX >= COLS {
        csrX := 0;
        cursor := cursor + COLS;
        csrY := csrY + 1;
      }
      KScroll();
    }

    /** `serial_write_b`: the byte goes out on COM1 and the counter advances. */
    method SerialWriteB(a: u8)
      requires Valid()
      modifies this`cursor, this`serial
      ensures Valid() && View() == Send(old(View()), a)
      ensures serial == old(serial) + [a] && cursor == old(cursor) + 1
    {
      serial := serial + [a];
      cursor := cursor + 1;
    }

    /** A call through an `output_writer` pointer. */
    method Write(w: Writer, c: u8)
      requires Valid()
      modifies this, textmem
      ensures Valid() && View() == Emit(w, old(View()), c)
    {
      match w
      case Screen => KPutCh(c);
      case Serial => SerialWriteB(c);
    }
  }

  function Send(s: State, a: u8): State {
    s.(serial := s.serial + [a], cursor := s.cursor + 1)
  }

  function Emit(w: Writer, s: State, c: u8): (r: State)
    requires OnScreen(s)
    ensures OnScreen(r)
  {
    match w
    case Screen => Put(s, c)
    case Serial => Send(s, c)
  }

  /** The state after a whole text has gone through a writer. */
  function EmitAll(w: Writer, s: State, text: seq<u8>): (r: State)
    requires OnScreen(s)
    ensures OnScreen(r)
  {
    if text == [] then s else Emit(w, EmitAll(w, s, text[..|text| - 1]), text[|text| - 1])
  }

  lemma {:induction false} EmitAppend(w: Writer, s: State, a: seq<u8>, b: seq<u8>)
    requires OnScreen(s)
    ensures EmitAll(w, s, a + b) == EmitAll(w, EmitAll(w, s, a), b)
  {
    if b == [] {
      assert a + b == a;
    } else {
      EmitAppend(w, s, a, b[..|b| - 1]);
      assert (a + b)[..|a + b| - 1] == a + b[..|b| - 1];
    }
  }
}
