/** The 80 by 25 screen: video memory, cursor, and in-place scrolling. */
module Screen {
  import opened Words
  import opened CStrings
  import opened Transcript

  const CELLS := 2000

  /** A page one character after its top row was top, before the checks for wrap and scroll. */
  ghost predicate Settles(p: Page, top: nat) {
    && p.col <= WIDTH && (top > 0 ==> top + HEIGHT - 1 <= p.row) && Wrap(p).row <= top + HEIGHT
    && forall k :: k in p.cells ==> k.0 <= p.row && k.0 < top + HEIGHT && k.1 < WIDTH
  }

  class Console {
    const video: array<byte>        // character and attribute of each cell
    var cursorX: nat
    var cursorY: nat
    ghost var page: Page            // everything written since the screen was cleared

    /** Cell i of the screen, counted row by row. */
    ghost function ShownCell(i: nat): Cell
      reads video
      requires video.Length == 2 * CELLS && i < CELLS
    {
      Cell(video[2 * i], video[2 * i + 1])
    }

    /** The screen is the 25 rows of the page from top on, and the cursors are in the same place. */
    ghost predicate ShowsFrom(p: Page, top: nat)
      reads this, video
    {
      && video.Length == 2 * CELLS
      && cursorX == p.col && cursorY + top == p.row
      && forall i :: 0 <= i < CELLS ==> ShownCell(i) == CellAt(p, top + i / WIDTH, i % WIDTH)
    }

    ghost predicate Valid()
      reads this, video
    {
      Transcript.Valid(page) && ShowsFrom(page, Top(page)) && cursorX < WIDTH && cursorY < HEIGHT
    }

    /** clear_screen on whatever the video memory holds. */
    constructor ()
      ensures Valid() && page == EMPTY && fresh(video)
    {
      video := new byte[2 * CELLS];
      cursorX, cursorY := 0, 0;
      page := EMPTY;
      new;
      BlankFrom(0);
    }

    method ClearScreen()
      requires video.Length == 2 * CELLS
      modifies this, video
      ensures Valid() && page == EMPTY
    {
      BlankFrom(0);
      cursorX, cursorY := 0, 0;
      page := EMPTY;
    }

    /** The loop that blanks the cells from number start on. */
    method BlankFrom(start: nat)
      requires video.Length == 2 * CELLS && start <= CELLS
      modifies video
      ensures forall i :: 0 <= i < CELLS ==> ShownCell(i) == if i < start then old(ShownCell(i)) else BLANK
    {
      var i := start;
      while i < CELLS
        invariant start <= i <= CELLS
        invariant forall k :: 0 <= k < CELLS ==>
          ShownCell(k) == if start <= k < i then BLANK else old(ShownCell(k))
      {
        video[i * 2] := 32;
        video[i * 2 + 1] := 7;
        i := i + 1;
      }
    }

    /** Scrolls one row up in place and blanks the last row. */
    method ScrollUp()
      requires video.Length == 2 * CELLS
      modifies this`cursorY, video
      ensures cursorY == HEIGHT - 1
      ensures forall i :: 0 <= i < CELLS ==>
        ShownCell(i) == if i < CELLS - WIDTH then old(ShownCell(i + WIDTH)) else BLANK
    {
      var i := 0;
      while i < (HEIGHT - 1) * WIDTH
        invariant 0 <= i <= CELLS - WIDTH
        invariant forall b :: 0 <= b < 2 * CELLS ==>
          video[b] == if b < 2 * i then old(video[b + 2 * WIDTH]) else old(video[b])
      {
        video[i * 2] := video[(i + WIDTH) * 2];
        video[i * 2 + 1] := video[(i + WIDTH) * 2 + 1];
        i := i + 1;
      }
      BlankFrom((HEIGHT - 1) * WIDTH);
      cursorY := HEIGHT - 1;
    }

    /** Scrolling shows the rows from one further down, as long as the row that comes into view is blank. */
    method ScrollPage(ghost p: Page, ghost top: nat)
      requires ShowsFrom(p, top) && cursorY == HEIGHT
      requires forall k :: k in p.cells ==> k.0 < top + HEIGHT
      modifies this`cursorY, video
      ensures ShowsFrom(p, top + 1) && cursorY == HEIGHT - 1
    {
      ScrollUp();
      forall i | 0 <= i < CELLS
        ensures ShownCell(i) == CellAt(p, top + 1 + i / WIDTH, i % WIDTH)
      {
        if i < CELLS - WIDTH {
          RowAndColumn(i + WIDTH, i / WIDTH + 1, i % WIDTH);
        }
      }
    }

    /** The checks at the end of both printers: wrap to the next row, then scroll if it is below the screen. */
    method Settle(ghost p: Page, ghost top: nat)
      requires ShowsFrom(p, top) && Settles(p, top)
      modifies this, video
      ensures Valid() && page == Wrap(p)
    {
      if cursorX >= WIDTH {
        cursorX := 0;
        cursorY := cursorY + 1;
      }
      page := Wrap(p);
      assert ShowsFrom(page, top);
      if cursorY >= HEIGHT {
        ScrollPage(page, top);
      }
    }

    /** Writes a character, or also its attribute, to cell (x, cursorY), as the page p records it. */
    method WriteCell(x: nat, c: byte, attr: byte, ghost p: Page, ghost top: nat)
      requires x < WIDTH && cursorY < HEIGHT && ShowsFrom(p, top)
      modifies video
      ensures ShowsFrom(p.(cells := p.cells[(p.row, x) := Cell(c, attr)]), top)
    {
      ghost var q := p.(cells := p.cells[(p.row, x) := Cell(c, attr)]);
      var at := cursorY * WIDTH + x;
      video[at * 2] := c;
      video[at * 2 + 1] := attr;
      forall i | 0 <= i < CELLS
        ensures ShownCell(i) == CellAt(q, top + i / WIDTH, i % WIDTH)
      {
        RowAndColumn(i, cursorY, x);
        if i == at {
          assert ShownCell(i) == Cell(c, attr);
        } else {
          assert ShownCell(i) == old(ShownCell(i)) == CellAt(p, top + i / WIDTH, i % WIDTH);
        }
      }
    }

    /** The backspace branch of putchar. */
    method EraseLeft()
      requires Valid() && cursorX > 0
      modifies this`cursorX, video
      ensures ShowsFrom(Erase(page), Top(page)) && Settles(Erase(page), Top(page))
    {
      cursorX := cursorX - 1;
      ghost var p := page.(col := page.col - 1);
      RowAndColumn(cursorY * WIDTH + cursorX, cursorY, cursorX);
      assert ShownCell(cursorY * WIDTH + cursorX) == CellAt(p, p.row, p.col);
      WriteCell(cursorX, 32, video[(cursorY * WIDTH + cursorX) * 2 + 1], p, Top(page));
    }

    method PutChar(c: byte)
      requires Valid()
      modifies this, video
      ensures Valid() && page == Put(old(page), c)
    {
      ghost var p, top := page, Top(page);
      if c == LF {
        cursorX := 0;
        cursorY := cursorY + 1;
        p := p.(row := p.row + 1, col := 0);
      } else if c == CR {
        cursorX := 0;
        p := p.(col := 0);
      } else if c == TAB {
        cursorX := (cursorX + 8) / 8 * 8;
        p := p.(col := (p.col + 8) / 8 * 8);
      } else if c == BS {
        if cursorX > 0 {
          EraseLeft();
          p := Erase(p);
        }
      } else {
        WriteCell(cursorX, c, 7, p, top);
        cursorX := cursorX + 1;
        p := Write(p, c);
      }
      Settle(p, top);
    }

    /** message is a NUL-terminated string. */
    method PrintMessage(message: seq<byte>)
      requires Terminated(message)
      requires Valid()
      modifies this, video
      ensures Valid() && page == PrintAll(old(page), CString(message))
    {
      var i := 0;
      while message[i] != 0
        invariant i <= StrLen(message) && Valid()
        invariant page == PrintAll(old(page), CString(message)[..i])
        decreases |message| - i
      {
        PrintChar(message[i]);
        PrintAllStep(old(page), CString(message), i);
        i := i + 1;
      }
      assert CString(message)[..i] == CString(message);
    }

    /** The body of the loop of print_message. */
    method PrintChar(c: byte)
      requires Valid()
      modifies this, video
      ensures Valid() && page == Print(old(page), c)
    {
      ghost var p, top := page, Top(page);
      if c == LF {
        cursorX := 0;
        cursorY := cursorY + 1;
        p := p.(row := p.row + 1, col := 0);
      } else if c == CR {
        cursorX := 0;
        p := p.(col := 0);
      } else {
        WriteCell(cursorX, c, 7, p, top);
        cursorX := cursorX + 1;
        p := Write(p, c);
      }
      Settle(p, top);
    }

    /** puts: putchar for each character of a NUL-terminated string. */
    method PutString(s: seq<byte>)
      requires Terminated(s)
      requires Valid()
      modifies this, video
      ensures Valid() && page == PutAll(old(page), CString(s))
    {
      var i := 0;
      while s[i] != 0
        invariant i <= StrLen(s) && Valid()
        invariant page == PutAll(old(page), CString(s)[..i])
        decreases |s| - i
      {
        PutChar(s[i]);
        PutAllStep(old(page), CString(s), i);
        i := i + 1;
      }
      assert CString(s)[..i] == CString(s);
    }
  }
}
