/** Line editing as a fold over the typed characters, and what its echo shows. */
module LineEditing {
  import opened Words
  import opened Transcript

  predicate Printable(c: byte) {
    32 <= c <= 126
  }

  predicate Newline(c: byte) {
    c == LF || c == CR
  }

  /** The line after one more character: append, pop, or ignore. */
  function Edit(line: seq<byte>, c: byte): (r: seq<byte>) {
    if c == BS then (if |line| > 0 then line[..|line| - 1] else line)
    else if Printable(c) then line + [c]
    else line
  }

  function EditAll(s: seq<byte>): (r: seq<byte>)
    ensures |r| <= |s| && forall i :: 0 <= i < |r| ==> Printable(r[i])
  {
    if s == [] then [] else Edit(EditAll(s[..|s| - 1]), s[|s| - 1])
  }

  /** What terminal_get_line sends to the screen for one character. */
  function Echo(line: seq<byte>, c: byte): seq<byte> {
    if Newline(c) then [LF]
    else if c == BS then (if |line| > 0 then [BS, 32, BS] else [])
    else if Printable(c) then [c]
    else []
  }

  function EchoAll(s: seq<byte>): seq<byte> {
    if s == [] then [] else EchoAll(s[..|s| - 1]) + Echo(EditAll(s[..|s| - 1]), s[|s| - 1])
  }

  /** What getchar_blocking and gets_simple send to the screen for one character. */
  function SimpleEcho(line: seq<byte>, c: byte): seq<byte> {
    if Newline(c) then [LF]
    else if c == BS then (if |line| > 0 then [BS, BS, 32, BS] else [BS])
    else if Printable(c) then [c]
    else []
  }

  function SimpleEchoAll(s: seq<byte>): seq<byte> {
    if s == [] then [] else SimpleEchoAll(s[..|s| - 1]) + SimpleEcho(EditAll(s[..|s| - 1]), s[|s| - 1])
  }

  /** Reading stops behind a newline, or when the line fills a buffer of this length but for its NUL. */
  predicate Stops(s: seq<byte>, maxLength: int) {
    (s != [] && Newline(s[|s| - 1])) || |EditAll(s)| >= maxLength - 1
  }

  /** input[..used] is the shortest prefix at which reading stops; without one, all of the input is used. */
  ghost predicate ShortestStop(input: seq<byte>, maxLength: int, used: nat, done: bool) {
    && used <= |input|
    && (if done then Stops(input[..used], maxLength) else used == |input| && !Stops(input, maxLength))
    && forall k :: 0 <= k < used ==> !Stops(input[..k], maxLength)
  }

  lemma EditAllStep(s: seq<byte>, k: nat)
    requires k < |s|
    ensures EditAll(s[..k + 1]) == Edit(EditAll(s[..k]), s[k])
    ensures EchoAll(s[..k + 1]) == EchoAll(s[..k]) + Echo(EditAll(s[..k]), s[k])
    ensures SimpleEchoAll(s[..k + 1]) == SimpleEchoAll(s[..k]) + SimpleEcho(EditAll(s[..k]), s[k])
  {
    assert s[..k + 1][..k] == s[..k];
  }

  lemma EditAllSnoc(s: seq<byte>, c: byte)
    ensures EditAll(s + [c]) == Edit(EditAll(s), c)
    ensures EchoAll(s + [c]) == EchoAll(s) + Echo(EditAll(s), c)
  {
  }

  /** Characters that are zero do not count: the line is that of the nonzero input. */
  lemma {:induction false} ZerosIgnored(s: seq<byte>)
    ensures EditAll(s) == EditAll(NonZero(s)) && EchoAll(s) == EchoAll(NonZero(s))
  {
    if s != [] {
      var t, c := s[..|s| - 1], s[|s| - 1];
      ZerosIgnored(t);
      if c == 0 {
        assert EchoAll(t) + [] == EchoAll(t) && NonZero(t) + [] == NonZero(t);
      } else {
        EditAllSnoc(NonZero(t), c);
      }
    }
  }

  function NonZero(s: seq<byte>): seq<byte> {
    if s == [] then [] else NonZero(s[..|s| - 1]) + (if s[|s| - 1] == 0 then [] else [s[|s| - 1]])
  }

  lemma Regroup(a: seq<byte>, b: seq<byte>, c: byte)
    ensures a + (b + [c]) == (a + b) + [c]
  {
  }

  /** What is typed with the keys from space to tilde is on the line, as typed. */
  lemma {:induction false} TypedIsKept(s: seq<byte>, t: seq<byte>)
    requires forall i :: 0 <= i < |t| ==> 32 <= t[i] <= 126
    ensures EditAll(s + t) == EditAll(s) + t
  {
    hide EditAll;
    if t == [] {
      assert s + t == s && EditAll(s) + t == EditAll(s);
    } else {
      var u, c := t[..|t| - 1], t[|t| - 1];
      TypedIsKept(s, u);
      assert t == u + [c];
      Regroup(s, u, c);
      Regroup(EditAll(s), u, c);
      EditAllSnoc(s + u, c);
    }
  }

  function Backspaces(k: nat): seq<byte> {
    if k == 0 then [] else Backspaces(k - 1) + [8]
  }

  /** Backspaces take back the last characters of the line, as many as there are backspaces. */
  lemma {:induction false} BackspacesUndo(s: seq<byte>, k: nat)
    requires k <= |EditAll(s)|
    ensures EditAll(s + Backspaces(k)) == EditAll(s)[..|EditAll(s)| - k]
  {
    hide EditAll;
    if k == 0 {
      assert s + [] == s && EditAll(s)[..|EditAll(s)|] == EditAll(s);
    } else {
      BackspacesUndo(s, k - 1);
      Regroup(s, Backspaces(k - 1), 8);
      EditAllSnoc(s + Backspaces(k - 1), 8);
    }
  }

  /** Any other character leaves the line alone, and so does a backspace on an empty line. */
  lemma OthersIgnored(s: seq<byte>, c: byte)
    requires (c < 32 && c != 8) || c > 126 || (c == 8 && EditAll(s) == [])
    ensures EditAll(s + [c]) == EditAll(s)
  {
    EditAllSnoc(s, c);
  }

  /** Reading goes on while there was no Enter and the line is short of the buffer, and stops with Enter, as it is. */
  lemma EnterEndsLine(s: seq<byte>, enter: byte, rest: seq<byte>, maxLength: int)
    requires forall i :: 0 <= i < |s| ==> s[i] != 10 && s[i] != 13
    requires forall k :: 0 <= k <= |s| ==> |EditAll(s[..k])| < maxLength - 1
    requires enter == 10 || enter == 13
    ensures ShortestStop(s, maxLength, |s|, false)
    ensures var input := s + [enter] + rest;
      ShortestStop(input, maxLength, |s| + 1, true) && EditAll(input[..|s| + 1]) == EditAll(s)
  {
    hide EditAll;
    var input := s + [enter] + rest;
    assert s[..|s|] == s && input[..|s| + 1] == s + [enter];
    assert forall k :: 0 <= k <= |s| ==> input[..k] == s[..k];
    OthersIgnored(s, enter);
  }

  // ----- what the echo shows

  /** Backspace, space, backspace behind column 0 blanks the last cell and steps back to it. */
  lemma RubOut(p: Page)
    requires Transcript.Valid(p) && p.col > 0
    ensures var r := PutAll(p, [BS, 32, BS]);
      && Transcript.Valid(r) && CursorNumber(r) == CursorNumber(p) - 1
      && forall n: nat :: CellNumber(r, n) == if n == CursorNumber(p) - 1 then BLANK else CellNumber(p, n)
  {
    RubOutSteps(p);
    RubOutCells(p);
  }

  lemma RubOutCells(p: Page)
    requires Transcript.Valid(p) && p.col > 0
    ensures var r := Put(Put(Put(p, BS), 32), BS);
      && Transcript.Valid(r) && r.row == p.row && r.col == p.col - 1
      && forall n: nat :: CellNumber(r, n) == if n == CursorNumber(p) - 1 then BLANK else CellNumber(p, n)
  {
  }

  /** In column 0 it only blanks the cell under the cursor: the erased character is on the row above. */
  lemma RubOutAtEdge(p: Page)
    requires Transcript.Valid(p) && p.col == 0
    ensures CursorNumber(PutAll(p, [BS, 32, BS])) == CursorNumber(p)
  {
    RubOutSteps(p);
  }

  lemma RubOutSteps(p: Page)
    ensures PutAll(p, [BS, 32, BS]) == Put(Put(Put(p, BS), 32), BS)
  {
    var s: seq<byte> := [BS, 32, BS];
    assert s == [BS] + [32] + [BS];
    PutAllConcat(p, [BS] + [32], [BS]);
    PutAllConcat(p, [BS], [32]);
    OneCharacter(p, BS);
    OneCharacter(Put(p, BS), 32);
    OneCharacter(Put(Put(p, BS), 32), BS);
  }

  /** The length of the longest line on the way. */
  function Longest(s: seq<byte>): (m: nat)
    ensures m >= |EditAll(s)|
  {
    if s == [] then 0
    else if |EditAll(s)| > Longest(s[..|s| - 1]) then |EditAll(s)| else Longest(s[..|s| - 1])
  }

  /**
   The cells of q are those of p with the line from p's cursor on, blanks where text was erased, and no other change.
   */
  ghost predicate Shows(p: Page, q: Page, line: seq<byte>, longest: nat) {
    forall n: nat ::
      CellNumber(q, n) ==
        if CursorNumber(p) <= n < CursorNumber(p) + |line| then Cell(line[n - CursorNumber(p)], 7)
        else if CursorNumber(p) + |line| <= n < CursorNumber(p) + longest then BLANK
        else CellNumber(p, n)
  }

  /** And the cursor stands behind the line. */
  ghost predicate Displays(p: Page, q: Page, line: seq<byte>, longest: nat) {
    && Transcript.Valid(q) && |line| <= longest && CursorNumber(q) == CursorNumber(p) + |line|
    && Shows(p, q, line, longest)
  }

  /** The character at position k erases one that stands at the end of the row above. */
  predicate PopsAtEdge(p: Page, s: seq<byte>, k: nat)
    requires k < |s|
  {
    s[k] == BS && |EditAll(s[..k])| > 0 && (CursorNumber(p) + |EditAll(s[..k])|) % WIDTH == 0
  }

  ghost predicate NoNewline(s: seq<byte>) {
    forall i :: 0 <= i < |s| ==> !Newline(s[i])
  }

  lemma EchoStep(p: Page, q: Page, line: seq<byte>, longest: nat, c: byte)
    requires Transcript.Valid(p) && Displays(p, q, line, longest) && !Newline(c)
    requires forall i :: 0 <= i < |line| ==> Printable(line[i])
    requires c == BS && |line| > 0 ==> q.col > 0
    ensures var l := Edit(line, c);
      Displays(p, PutAll(q, Echo(line, c)), l, if |l| > longest then |l| else longest)
  {
    hide CellNumber, Put;
    if c == BS && |line| > 0 {
      RubOut(q);
    } else if Printable(c) {
      OneCharacter(q, c);
      PutOrdinary(q, c);
    }
  }

  /**
   The echo agrees with the buffer: as long as no backspace erases across a row boundary, the page shows the
   edited line from the starting cursor on, blanks where text was erased, and is otherwise unchanged.
   */
  lemma {:induction false} EchoShowsLine(p: Page, s: seq<byte>)
    requires Transcript.Valid(p) && NoNewline(s)
    requires forall k :: 0 <= k < |s| ==> !PopsAtEdge(p, s, k)
    ensures Displays(p, PutAll(p, EchoAll(s)), EditAll(s), Longest(s))
  {
    if s != [] {
      var t, c := s[..|s| - 1], s[|s| - 1];
      forall k | 0 <= k < |t|
        ensures !PopsAtEdge(p, t, k)
      {
        assert !PopsAtEdge(p, s, k) && s[..k] == t[..k];
      }
      EchoShowsLine(p, t);
      assert !PopsAtEdge(p, s, |s| - 1);
      var q := PutAll(p, EchoAll(t));
      RowAndColumn(CursorNumber(q), q.row, q.col);
      EchoStep(p, q, EditAll(t), Longest(t), c);
      PutAllConcat(p, EchoAll(t), Echo(EditAll(t), c));
    }
  }

  /** The cursor stands behind the line. */
  ghost predicate CursorAgrees(p: Page, s: seq<byte>) {
    CursorNumber(PutAll(p, EchoAll(s))) == CursorNumber(p) + |EditAll(s)|
  }

  /**
   Exactly then: the cursor stands behind the line at every moment if and only if nothing is erased across a row
   boundary.
   */
  lemma EchoAgreesExactly(p: Page, s: seq<byte>)
    requires Transcript.Valid(p) && NoNewline(s)
    ensures (forall k :: 0 <= k <= |s| ==> CursorAgrees(p, s[..k])) <==>
            (forall k :: 0 <= k < |s| ==> !PopsAtEdge(p, s, k))
  {
    if forall k :: 0 <= k < |s| ==> !PopsAtEdge(p, s, k) {
      forall k | 0 <= k <= |s|
        ensures CursorAgrees(p, s[..k])
      {
        forall j | 0 <= j < k
          ensures !PopsAtEdge(p, s[..k], j)
        {
          assert !PopsAtEdge(p, s, j) && s[..k][..j] == s[..j];
        }
        EchoShowsLine(p, s[..k]);
      }
    } else {
      var k :| 0 <= k < |s| && PopsAtEdge(p, s, k);
      EdgeBreaksCursor(p, s, k);
    }
  }

  lemma EdgeStep(q: Page, line: seq<byte>)
    requires Transcript.Valid(q) && CursorNumber(q) % WIDTH == 0 && |line| > 0
    ensures CursorNumber(PutAll(q, Echo(line, BS))) == CursorNumber(q) && |Edit(line, BS)| == |line| - 1
  {
    RowAndColumn(CursorNumber(q), q.row, q.col);
    RubOutAtEdge(q);
  }

  lemma EdgeBreaksCursor(p: Page, s: seq<byte>, k: nat)
    requires Transcript.Valid(p) && k < |s| && PopsAtEdge(p, s, k)
    ensures !CursorAgrees(p, s[..k]) || !CursorAgrees(p, s[..k + 1])
  {
    hide EditAll, EchoAll, PutAll;
    EditAllStep(s, k);
    var q := PutAll(p, EchoAll(s[..k]));
    PutAllKeepsValid(p, EchoAll(s[..k]));
    PutAllConcat(p, EchoAll(s[..k]), Echo(EditAll(s[..k]), s[k]));
    if CursorAgrees(p, s[..k]) {
      EdgeStep(q, EditAll(s[..k]));
    }
  }

  /** A line that stays within its row is never erased across a boundary, and the cursor never leaves the row. */
  lemma WithinRow(p: Page, s: seq<byte>)
    requires Transcript.Valid(p) && NoNewline(s)
    requires forall k :: 0 <= k <= |s| ==> p.col + |EditAll(s[..k])| < WIDTH
    ensures Displays(p, PutAll(p, EchoAll(s)), EditAll(s), Longest(s))
    ensures PutAll(p, EchoAll(s)).row == p.row
  {
    hide EditAll, EchoAll, PutAll, Shows, Longest;
    forall k | 0 <= k < |s|
      ensures !PopsAtEdge(p, s, k)
    {
      var n := |EditAll(s[..k])|;
      assert p.col + n < WIDTH;
      RowAndColumn(CursorNumber(p) + n, p.row, p.col + n);
    }
    EchoShowsLine(p, s);
    var q := PutAll(p, EchoAll(s));
    assert s[..|s|] == s;
    RowAndColumn(CursorNumber(q), q.row, q.col);
    RowAndColumn(CursorNumber(q), p.row, p.col + |EditAll(s)|);
  }

  /**
   A backspace can erase across a row boundary: two characters typed in the last two columns, and the second taken
   back.
   */
  lemma EdgeCanBePopped(p: Page, a: byte, b: byte)
    requires Transcript.Valid(p) && p.col == 78 && Printable(a) && Printable(b)
    ensures var s := [a, b, BS];
      NoNewline(s) && PopsAtEdge(p, s, 2) && EditAll(s) == [a] && !CursorAgrees(p, s)
  {
    hide EditAll, EchoAll, PutAll, Displays, CellNumber;
    var s, t := [a, b, BS], [a, b];
    TwoTyped(a, b);
    assert s[..2] == t && s[..3] == s;
    assert forall k :: 0 <= k < 2 ==> t[k] != BS;
    EchoShowsLine(p, t);
    ShownCursor(p, t);
    EdgeBreaksCursor(p, s, 2);
  }

  lemma TwoTyped(a: byte, b: byte)
    requires Printable(a) && Printable(b)
    ensures EditAll([a, b]) == [a, b] && EditAll([a, b, BS]) == [a]
  {
    hide EditAll;
    NothingEdited();
    EditAllSnoc([], a);
    EditAllSnoc([a], b);
    EditAllSnoc([a, b], BS);
    assert [] + [a] == [a] && [a] + [b] == [a, b] && [a, b] + [BS] == [a, b, BS];
    assert [a, b][..1] == [a];
  }

  lemma ShownCursor(p: Page, s: seq<byte>)
    requires Displays(p, PutAll(p, EchoAll(s)), EditAll(s), Longest(s))
    ensures CursorAgrees(p, s)
  {
  }

  lemma NothingEdited()
    ensures EditAll([]) == [] && EchoAll([]) == [] && SimpleEchoAll([]) == []
  {
  }

  // ----- when the line is complete

  /** Enter leaves all cells, and moves the cursor to the start of the row behind the line. */
  lemma EnterEndsRow(p: Page, s: seq<byte>, c: byte)
    requires Newline(c)
    ensures EditAll(s + [c]) == EditAll(s)
    ensures var q := PutAll(p, EchoAll(s)); PutAll(p, EchoAll(s + [c])) == q.(row := q.row + 1, col := 0)
  {
    hide EditAll, EchoAll;
    var q := PutAll(p, EchoAll(s));
    EditAllSnoc(s, c);
    PutAllConcat(p, EchoAll(s), [LF]);
    OneCharacter(q, LF);
  }

  /** The characters before the last one of a shortest stopping input are no newlines. */
  lemma NoneBefore(input: seq<byte>, maxLength: int, used: nat)
    requires ShortestStop(input, maxLength, used, true)
    ensures NoNewline(input[..if used > 0 then used - 1 else 0])
  {
    forall i | 0 <= i < used - 1 ensures !Newline(input[i]) {
      assert !Stops(input[..i + 1], maxLength);
    }
  }

  /**
   What the screen shows when the reader returns. After Enter: the line, blanks where text was erased, and the cursor
   at the start of the row behind it. After filling the buffer: the same with the cursor behind the line.
   */
  lemma ScreenOnReturn(p: Page, input: seq<byte>, maxLength: int, used: nat)
    requires Transcript.Valid(p) && ShortestStop(input, maxLength, used, true)
    requires forall k :: 0 <= k < used ==> !PopsAtEdge(p, input[..used], k)
    ensures var line, q := EditAll(input[..used]), PutAll(p, EchoAll(input[..used]));
      if used > 0 && Newline(input[used - 1]) then
        && Shows(p, q, line, Longest(input[..used - 1]))
        && q.col == 0 && q.row == (CursorNumber(p) + |line|) / WIDTH + 1
      else Displays(p, q, line, Longest(input[..used]))
  {
    hide Shows, EditAll, EchoAll, PutAll, Longest;
    NoneBefore(input, maxLength, used);
    if used > 0 && Newline(input[used - 1]) {
      var s := input[..used - 1];
      assert s + [input[used - 1]] == input[..used];
      EarlierPops(p, s, input[..used]);
      EchoShowsLine(p, s);
      EnterEndsRow(p, s, input[used - 1]);
      var q0, q := PutAll(p, EchoAll(s)), PutAll(p, EchoAll(input[..used]));
      RowAndColumn(CursorNumber(q0), q0.row, q0.col);
      SameCellsShow(p, q0, q, EditAll(s), Longest(s));
    } else {
      EchoShowsLine(p, input[..used]);
    }
  }

  /** In particular for a line that stays within its row: Enter leads to the row below. */
  lemma WithinRowOnReturn(p: Page, input: seq<byte>, maxLength: int, used: nat)
    requires Transcript.Valid(p) && ShortestStop(input, maxLength, used, true)
    requires forall k :: 0 <= k <= used ==> p.col + |EditAll(input[..k])| < WIDTH
    ensures var line, q := EditAll(input[..used]), PutAll(p, EchoAll(input[..used]));
      if used > 0 && Newline(input[used - 1]) then
        Shows(p, q, line, Longest(input[..used - 1])) && q.col == 0 && q.row == p.row + 1
      else Displays(p, q, line, Longest(input[..used])) && q.row == p.row
  {
    hide Shows, EditAll, EchoAll, PutAll, Longest;
    var s := input[..used];
    forall k | 0 <= k < used ensures !PopsAtEdge(p, s, k) {
      assert s[..k] == input[..k] && p.col + |EditAll(input[..k])| < WIDTH;
    }
    ScreenOnReturn(p, input, maxLength, used);
    RowAndColumn(CursorNumber(p) + |EditAll(s)|, p.row, p.col + |EditAll(s)|);
    var q := PutAll(p, EchoAll(s));
    if !(used > 0 && Newline(input[used - 1])) {
      RowAndColumn(CursorNumber(q), q.row, q.col);
    }
  }

  lemma EarlierPops(p: Page, s: seq<byte>, t: seq<byte>)
    requires s <= t && forall k :: 0 <= k < |t| ==> !PopsAtEdge(p, t, k)
    ensures forall k :: 0 <= k < |s| ==> !PopsAtEdge(p, s, k)
  {
    forall k | 0 <= k < |s| ensures !PopsAtEdge(p, s, k) {
      assert s[..k] == t[..k] && !PopsAtEdge(p, t, k);
    }
  }

  lemma SameCellsShow(p: Page, q: Page, r: Page, line: seq<byte>, longest: nat)
    requires Shows(p, q, line, longest) && r.cells == q.cells
    ensures Shows(p, r, line, longest)
  {
    forall n: nat ensures CellNumber(r, n) == CellNumber(q, n) {
    }
  }

  // ----- the echo of gets_simple

  /** gets_simple erases twice for one backspace: behind column 1 its echo moves the cursor back by two columns. */
  lemma SimpleEchoErasesTwice(p: Page, line: seq<byte>)
    requires Transcript.Valid(p) && p.col > 1 && |line| > 0
    ensures CursorNumber(PutAll(p, SimpleEcho(line, BS))) == CursorNumber(p) - 2
  {
    SimpleEchoSplits(p, line);
    RubOut(Put(p, BS));
  }

  lemma SimpleEchoSplits(p: Page, line: seq<byte>)
    requires |line| > 0
    ensures PutAll(p, SimpleEcho(line, BS)) == PutAll(Put(p, BS), [BS, 32, BS])
  {
    var s: seq<byte> := [BS, BS, 32, BS];
    assert s == [BS] + [BS, 32, BS];
    PutAllConcat(p, [BS], [BS, 32, BS]);
    OneCharacter(p, BS);
  }

  ghost predicate SimpleCursorAgrees(p: Page, s: seq<byte>) {
    CursorNumber(PutAll(p, SimpleEchoAll(s))) == CursorNumber(p) + |EditAll(s)|
  }

  /**
   The character at position k is a backspace that the echo of gets_simple gets wrong: with text on the line, any
   whose cursor is not in column 1; without text, any whose cursor is not in column 0.
   */
  predicate Slips(p: Page, s: seq<byte>, k: nat)
    requires k < |s|
  {
    && s[k] == BS
    && (CursorNumber(p) + |EditAll(s[..k])|) % WIDTH != (if |EditAll(s[..k])| > 0 then 1 else 0)
  }

  /** One character keeps the cursor behind the line exactly when it is no such backspace. */
  lemma SimpleStep(q: Page, line: seq<byte>, c: byte)
    requires Transcript.Valid(q) && !Newline(c)
    ensures CursorNumber(PutAll(q, SimpleEcho(line, c))) == CursorNumber(q) + |Edit(line, c)| - |line| <==>
      !(c == BS && q.col != (if |line| > 0 then 1 else 0))
  {
    if c == BS && |line| > 0 {
      if q.col > 1 {
        SimpleEchoErasesTwice(q, line);
      } else {
        SimpleEchoSplits(q, line);
        RubOutAtEdge(Put(q, BS));
      }
    } else if c == BS {
      OneCharacter(q, BS);
    } else if Printable(c) {
      OneCharacter(q, c);
      PutOrdinary(q, c);
    }
  }

  lemma SimplePrefix(p: Page, s: seq<byte>, k: nat)
    requires Transcript.Valid(p) && NoNewline(s) && k < |s| && SimpleCursorAgrees(p, s[..k])
    ensures SimpleCursorAgrees(p, s[..k + 1]) <==> !Slips(p, s, k)
  {
    hide EditAll, SimpleEchoAll, PutAll, SimpleEcho;
    EditAllStep(s, k);
    var q, line := PutAll(p, SimpleEchoAll(s[..k])), EditAll(s[..k]);
    PutAllKeepsValid(p, SimpleEchoAll(s[..k]));
    PutAllConcat(p, SimpleEchoAll(s[..k]), SimpleEcho(line, s[k]));
    RowAndColumn(CursorNumber(q), q.row, q.col);
    SimpleStep(q, line, s[k]);
  }

  /** The cursor of gets_simple stands behind its line at every moment if and only if no backspace slips. */
  lemma SimpleEchoAgreesExactly(p: Page, s: seq<byte>)
    requires Transcript.Valid(p) && NoNewline(s)
    ensures (forall k :: 0 <= k <= |s| ==> SimpleCursorAgrees(p, s[..k])) <==>
            (forall k :: 0 <= k < |s| ==> !Slips(p, s, k))
  {
    if forall k :: 0 <= k < |s| ==> !Slips(p, s, k) {
      forall k | 0 <= k <= |s| ensures SimpleCursorAgrees(p, s[..k]) {
        SimpleAgreesUpTo(p, s, k);
      }
    } else {
      var k :| 0 <= k < |s| && Slips(p, s, k);
      if SimpleCursorAgrees(p, s[..k]) {
        SimplePrefix(p, s, k);
      }
    }
  }

  lemma {:induction false} SimpleAgreesUpTo(p: Page, s: seq<byte>, k: nat)
    requires Transcript.Valid(p) && NoNewline(s) && k <= |s|
    requires forall j :: 0 <= j < k ==> !Slips(p, s, j)
    ensures SimpleCursorAgrees(p, s[..k])
  {
    if k > 0 {
      SimpleAgreesUpTo(p, s, k - 1);
      SimplePrefix(p, s, k - 1);
    } else {
      assert s[..0] == [];
    }
  }

  /** A backspace on an empty line takes the character in front of it from the screen. */
  lemma EmptyLineSlips(p: Page)
    requires Transcript.Valid(p) && p.col > 0
    ensures EditAll([BS]) == [] && Slips(p, [BS], 0)
    ensures var q := PutAll(p, SimpleEchoAll([BS]));
      CursorNumber(q) == CursorNumber(p) - 1 && CellAt(q, p.row, p.col - 1).ch == 32
  {
    hide EditAll, SimpleEchoAll, PutAll;
    var s: seq<byte> := [BS];
    NothingEdited();
    EditAllStep(s, 0);
    assert s[..0] == [] && s[..1] == s;
    assert [] + SimpleEcho([], BS) == [BS];
    OneCharacter(p, BS);
    RowAndColumn(CursorNumber(p), p.row, p.col);
  }
}
