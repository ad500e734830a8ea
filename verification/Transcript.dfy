/**
 The console as an unbounded page that never scrolls: cells by row and column, and a cursor that only moves
 down. `Screen` shows its last 25 rows.
 */
module Transcript {
  import opened Words

  const WIDTH := 80
  const HEIGHT := 25

  /** A character and its attribute byte. */
  datatype Cell = Cell(ch: byte, attr: byte)

  const BLANK := Cell(32, 7)

  /** The cells written so far, all others being blank, and the cursor. */
  datatype Page = Page(cells: map<(nat, nat), Cell>, row: nat, col: nat)

  const EMPTY := Page(map[], 0, 0)

  function CellAt(p: Page, row: nat, col: nat): Cell {
    if (row, col) in p.cells then p.cells[(row, col)] else BLANK
  }

  /** The row at the top of the screen. */
  function Top(p: Page): nat {
    if p.row < HEIGHT then 0 else p.row - (HEIGHT - 1)
  }

  ghost predicate Valid(p: Page) {
    p.col < WIDTH && forall k :: k in p.cells ==> k.0 <= p.row && k.1 < WIDTH
  }

  /** The cursor goes to the next row when it has passed the last column. */
  function Wrap(p: Page): Page {
    if p.col >= WIDTH then p.(row := p.row + 1, col := 0) else p
  }

  function Write(p: Page, c: byte): Page {
    p.(cells := p.cells[(p.row, p.col) := Cell(c, 7)], col := p.col + 1)
  }

  /** The cursor goes back one column and the character there becomes a space; its attribute stays. */
  function Erase(p: Page): Page
    requires p.col > 0
  {
    p.(cells := p.cells[(p.row, p.col - 1) := CellAt(p, p.row, p.col - 1).(ch := 32)], col := p.col - 1)
  }

  /** Row and column of a cell number. */
  lemma RowAndColumn(i: nat, y: nat, x: nat)
    requires x < WIDTH
    ensures i == y * WIDTH + x <==> i / WIDTH == y && i % WIDTH == x
  {
  }

  const BS: byte := 8
  const TAB: byte := 9
  const LF: byte := 10
  const CR: byte := 13

  /** putchar */
  function Put(p: Page, c: byte): Page {
    Wrap(
      if c == LF then p.(row := p.row + 1, col := 0)
      else if c == CR then p.(col := 0)
      else if c == TAB then p.(col := (p.col + 8) / 8 * 8)
      else if c == BS then
        if p.col > 0 then Erase(p) else p
      else Write(p, c))
  }

  /** One character of print_message, which knows newline and return only. */
  function Print(p: Page, c: byte): Page {
    Wrap(
      if c == LF then p.(row := p.row + 1, col := 0)
      else if c == CR then p.(col := 0)
      else Write(p, c))
  }

  function PutAll(p: Page, s: seq<byte>): Page
    decreases |s|
  {
    if s == [] then p else PutAll(Put(p, s[0]), s[1..])
  }

  function PrintAll(p: Page, s: seq<byte>): Page
    decreases |s|
  {
    if s == [] then p else PrintAll(Print(p, s[0]), s[1..])
  }

  lemma PutKeepsValid(p: Page, c: byte)
    requires Valid(p)
    ensures Valid(Put(p, c)) && p.row <= Put(p, c).row <= p.row + 1
  {
  }

  lemma {:induction false} PutAllKeepsValid(p: Page, s: seq<byte>)
    requires Valid(p)
    ensures Valid(PutAll(p, s)) && p.row <= PutAll(p, s).row
    decreases |s|
  {
    if s != [] {
      PutKeepsValid(p, s[0]);
      PutAllKeepsValid(Put(p, s[0]), s[1..]);
    }
  }

  lemma {:induction false} PutAllConcat(p: Page, s: seq<byte>, t: seq<byte>)
    ensures PutAll(p, s + t) == PutAll(PutAll(p, s), t)
    decreases |s|
  {
    if s == [] {
      assert s + t == t;
    } else {
      assert (s + t)[1..] == s[1..] + t;
      PutAllConcat(Put(p, s[0]), s[1..], t);
    }
  }

  lemma PutAllStep(p: Page, s: seq<byte>, i: nat)
    requires i < |s|
    ensures PutAll(p, s[..i + 1]) == Put(PutAll(p, s[..i]), s[i])
  {
    assert s[..i + 1] == s[..i] + [s[i]];
    PutAllConcat(p, s[..i], [s[i]]);
    OneCharacter(PutAll(p, s[..i]), s[i]);
  }

  lemma {:induction false} PrintAllStep(p: Page, s: seq<byte>, i: nat)
    requires i < |s|
    ensures PrintAll(p, s[..i + 1]) == Print(PrintAll(p, s[..i]), s[i])
    decreases i
  {
    if i == 0 {
      assert s[..1] == [s[0]] && s[..0] == [];
      OneCharacter(p, s[0]);
    } else {
      assert s[..i + 1][1..] == s[1..][..i] && s[..i][1..] == s[1..][..i - 1];
      PrintAllStep(Print(p, s[0]), s[1..], i - 1);
    }
  }

  /** Cells and cursor counted along the rows, so that a line that wraps is contiguous. */
  function CellNumber(p: Page, n: nat): Cell {
    CellAt(p, n / WIDTH, n % WIDTH)
  }

  function CursorNumber(p: Page): nat {
    p.row * WIDTH + p.col
  }

  predicate Ordinary(c: byte) {
    c != 8 && c != 9 && c != 10 && c != 13
  }

  lemma PutOrdinary(p: Page, c: byte)
    requires Valid(p) && Ordinary(c)
    ensures Valid(Put(p, c)) && CursorNumber(Put(p, c)) == CursorNumber(p) + 1
    ensures forall n: nat :: CellNumber(Put(p, c), n) == if n == CursorNumber(p) then Cell(c, 7) else CellNumber(p, n)
  {
  }

  /** Text without control characters appears from the cursor on, wherever rows end, and the cursor stands behind it. */
  lemma {:induction false} TextAppears(p: Page, s: seq<byte>)
    requires Valid(p) && forall i :: 0 <= i < |s| ==> Ordinary(s[i])
    ensures var q, start := PutAll(p, s), CursorNumber(p);
      && CursorNumber(q) == start + |s|
      && forall n: nat ::
           CellNumber(q, n) == if start <= n < start + |s| then Cell(s[n - start], 7) else CellNumber(p, n)
    decreases |s|
  {
    hide CellNumber, CursorNumber, Put, Valid;
    if s != [] {
      PutOrdinary(p, s[0]);
      TextAppears(Put(p, s[0]), s[1..]);
    }
  }

  /** Newline, return and tab only move the cursor: down to the next row, to the row's start, to the next tab stop. */
  lemma CursorMoves(p: Page)
    requires Valid(p)
    ensures var q := Put(p, 10); q.cells == p.cells && q.row == p.row + 1 && q.col == 0
    ensures var q := Put(p, 13); q.cells == p.cells && q.row == p.row && q.col == 0
    ensures var q := Put(p, 9);
      && q.cells == p.cells && CursorNumber(p) < CursorNumber(q) <= CursorNumber(p) + 8 && CursorNumber(q) % 8 == 0
  {
    assert (p.row * 80 + p.col / 8 * 8 + 8) % 8 == 0;
  }

  /** A backspace goes back one column and leaves a space there; in column 0 it does nothing. */
  lemma BackspaceErases(p: Page, n: nat)
    requires Valid(p)
    ensures p.col == 0 ==> Put(p, 8) == p
    ensures p.col > 0 ==>
      && CursorNumber(Put(p, 8)) == CursorNumber(p) - 1 && Put(p, 8).row == p.row
      && CellNumber(Put(p, 8), n) ==
           if n == CursorNumber(p) - 1 then CellNumber(p, n).(ch := 32) else CellNumber(p, n)
  {
  }

  /** What has scrolled off never changes: a row above the cursor row is final. */
  lemma {:induction false} RowsAboveAreFinal(p: Page, s: seq<byte>, row: nat, col: nat)
    requires row < p.row
    ensures CellAt(PutAll(p, s), row, col) == CellAt(p, row, col)
    decreases |s|
  {
    if s != [] {
      RowsAboveAreFinal(Put(p, s[0]), s[1..], row, col);
    }
  }

  ghost predicate Plain(s: seq<byte>) {
    forall i :: 0 <= i < |s| ==> s[i] != TAB && s[i] != BS
  }

  /** The two printers agree on every string free of tab and backspace. */
  lemma {:induction false} PrintersAgree(p: Page, s: seq<byte>)
    requires Plain(s)
    ensures PrintAll(p, s) == PutAll(p, s)
    decreases |s|
  {
    if s != [] {
      PrintersAgree(Put(p, s[0]), s[1..]);
    }
  }

  lemma OneCharacter(p: Page, c: byte)
    ensures PutAll(p, [c]) == Put(p, c) && PrintAll(p, [c]) == Print(p, c)
  {
  }

  /**
   Character by character the exception is exact: they differ on a backspace always, and on a tab unless it leads to
   the next column and falls on a tab character printed there before.
   */
  lemma PrintersAgreeExactly(p: Page, c: byte)
    requires Valid(p)
    ensures Print(p, c) == Put(p, c) <==>
      c != BS && (c == TAB ==> p.col % 8 == 7 && (p.row, p.col) in p.cells && p.cells[(p.row, p.col)] == Cell(TAB, 7))
  {
    var key, cell := (p.row, p.col), Cell(c, 7);
    if c == TAB {
      assert (p.col + 8) / 8 * 8 == p.col + 1 <==> p.col % 8 == 7;
      assert p.cells[key := cell][key] == cell;
    }
  }

  /** Every cell keeps the light-grey attribute. */
  lemma {:induction false} AttributesStay(p: Page, s: seq<byte>)
    requires forall k :: k in p.cells ==> p.cells[k].attr == 7
    ensures forall k :: k in PutAll(p, s).cells ==> PutAll(p, s).cells[k].attr == 7
    decreases |s|
  {
    if s != [] {
      AttributesStay(Put(p, s[0]), s[1..]);
    }
  }
}
