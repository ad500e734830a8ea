/** The two line readers of the kernel, with the buffer they fill and the screen they echo to. */
module Terminal {
  import opened Words
  import opened Transcript
  import opened LineEditing
  import opened Screen

  /** The bytes of the buffer that a line of at most maxLength - 1 characters and its NUL do not use. */
  twostate predicate RestUnchanged(buffer: array<byte>, maxLength: int)
    reads buffer
  {
    forall i :: 0 <= i < buffer.Length && i >= maxLength && i > 0 ==> buffer[i] == old(buffer[i])
  }

  // ----- the loop that both readers have

  /** Both loops: used characters have been read, none of which stopped the reading, and pos of them are the line. */
  ghost predicate Reading(input: seq<byte>, maxLength: int, used: nat, pos: nat) {
    && used <= |input| && pos == |EditAll(input[..used])| && (pos == 0 || pos <= maxLength - 1)
    && (forall k :: 0 <= k < used ==> !Stops(input[..k], maxLength))
    && (used > 0 ==> !Newline(input[used - 1]))
  }

  lemma ReadingStarts(input: seq<byte>, maxLength: int)
    ensures Reading(input, maxLength, 0, 0) && input[..0] == [] && EditAll(input[..0]) == []
    ensures EchoAll(input[..0]) == [] && SimpleEchoAll(input[..0]) == []
  {
  }

  lemma ReadingEnds(input: seq<byte>, maxLength: int, used: nat, pos: nat)
    requires Reading(input, maxLength, used, pos)
    ensures used <= |input| && pos == |EditAll(input[..used])| && (pos == 0 || pos <= maxLength - 1)
    ensures pos >= maxLength - 1 ==> ShortestStop(input, maxLength, used, true)
    ensures pos < maxLength - 1 && used == |input| ==> ShortestStop(input, maxLength, used, false)
  {
    if used == |input| {
      assert input[..used] == input;
    }
  }

  lemma ReadingGoesOn(input: seq<byte>, maxLength: int, used: nat, pos: nat)
    requires Reading(input, maxLength, used, pos) && pos < maxLength - 1 && used < |input|
    ensures var line, c := EditAll(input[..used]), input[used];
      && EditAll(input[..used + 1]) == Edit(line, c)
      && (if Newline(c) then Edit(line, c) == line && ShortestStop(input, maxLength, used + 1, true)
          else Reading(input, maxLength, used + 1, |Edit(line, c)|))
  {
    EditAllStep(input, used);
    assert !Stops(input[..used], maxLength);
    assert input[..used + 1][used] == input[used];
  }

  /** The page after one character more of the echo. */
  lemma EchoGoesOn(p: Page, input: seq<byte>, used: nat)
    requires used < |input|
    ensures var line, c := EditAll(input[..used]), input[used];
      && PutAll(p, EchoAll(input[..used + 1])) == PutAll(PutAll(p, EchoAll(input[..used])), Echo(line, c))
      && PutAll(p, SimpleEchoAll(input[..used + 1])) ==
         PutAll(PutAll(p, SimpleEchoAll(input[..used])), SimpleEcho(line, c))
  {
    hide EditAll, EchoAll, SimpleEchoAll, PutAll, Echo, SimpleEcho;
    EditAllStep(input, used);
    var line, c := EditAll(input[..used]), input[used];
    PutAllConcat(p, EchoAll(input[..used]), Echo(line, c));
    PutAllConcat(p, SimpleEchoAll(input[..used]), SimpleEcho(line, c));
  }

  /**
   terminal_get_line. `input` holds the successive results of keyboard_get_char, 0 standing for "no key"; when
   it is used up before reading stops, the reader is still waiting.
   */
  method GetLine(buffer: array<byte>, maxLength: int, input: seq<byte>, screen: Console)
    returns (used: nat, done: bool)
    requires buffer.Length > 0 && maxLength <= buffer.Length && screen.video != buffer && screen.Valid()
    modifies buffer, screen, screen.video
    ensures ShortestStop(input, maxLength, used, done)
    ensures screen.Valid() && screen.page == PutAll(old(screen.page), EchoAll(input[..used]))
    ensures |EditAll(input[..used])| < buffer.Length && RestUnchanged(buffer, maxLength)
    ensures buffer[..|EditAll(input[..used])|] == EditAll(input[..used])
    ensures done ==> buffer[|EditAll(input[..used])|] == 0
  {
    hide Reading, ShortestStop, Stops, EditAll, EchoAll, SimpleEchoAll, Echo, SimpleEcho, Edit, PutAll;
    ghost var start := screen.page;
    var pos: nat := 0;
    used := 0;
    ReadingStarts(input, maxLength);
    NothingShown(start);
    while pos < maxLength - 1
      invariant Reading(input, maxLength, used, pos) && used <= |input| && pos < buffer.Length
      invariant screen.Valid() && screen.page == PutAll(start, EchoAll(input[..used]))
      invariant buffer[..pos] == EditAll(input[..used]) && RestUnchanged(buffer, maxLength)
      decreases |input| - used
    {
      ReadingEnds(input, maxLength, used, pos);
      if used == |input| {
        return used, false;
      }
      var c := input[used];
      ReadingGoesOn(input, maxLength, used, pos);
      EchoGoesOn(start, input, used);
      pos := TypeCharacter(buffer, pos, c, screen, EditAll(input[..used]));
      used := used + 1;
      if c == LF || c == CR {
        buffer[pos] := 0;
        return used, true;
      }
      ReadingEnds(input, maxLength, used, pos);
    }
    ReadingEnds(input, maxLength, used, pos);
    buffer[pos] := 0;
    return used, true;
  }

  /** One character of terminal_get_line and its echo; the NUL behind a newline is stored by the caller. */
  method TypeCharacter(buffer: array<byte>, pos: nat, c: byte, screen: Console, ghost line: seq<byte>)
    returns (next: nat)
    requires screen.Valid() && screen.video != buffer
    requires pos == |line| && pos + 1 < buffer.Length && buffer[..pos] == line
    modifies buffer, screen, screen.video
    ensures next == |Edit(line, c)| && buffer[..next] == Edit(line, c)
    ensures forall i :: pos < i < buffer.Length ==> buffer[i] == old(buffer[i])
    ensures screen.Valid() && screen.page == PutAll(old(screen.page), Echo(line, c))
  {
    next := pos;
    if c == LF || c == CR {
      OneCharacter(screen.page, LF);
      screen.PutChar(LF);
    } else if c == BS {
      if pos > 0 {
        next := pos - 1;
        RubOutSteps(screen.page);
        screen.PutChar(BS);
        screen.PutChar(32);
        screen.PutChar(BS);
      }
    } else if 32 <= c <= 126 {
      buffer[pos] := c;
      next := pos + 1;
      OneCharacter(screen.page, c);
      screen.PutChar(c);
    }
  }

  /** gets_simple: the same line from the same input, with the echo of getchar_blocking. */
  method GetsSimple(buffer: array<byte>, maxLength: int, input: seq<byte>, screen: Console)
    returns (used: nat, done: bool)
    requires buffer.Length > 0 && maxLength <= buffer.Length && screen.video != buffer && screen.Valid()
    modifies buffer, screen, screen.video
    ensures ShortestStop(input, maxLength, used, done)
    ensures screen.Valid() && screen.page == PutAll(old(screen.page), SimpleEchoAll(input[..used]))
    ensures |EditAll(input[..used])| < buffer.Length && RestUnchanged(buffer, maxLength)
    ensures buffer[..|EditAll(input[..used])|] == EditAll(input[..used])
    ensures done ==> buffer[|EditAll(input[..used])|] == 0
  {
    hide Reading, ShortestStop, Stops, EditAll, EchoAll, SimpleEchoAll, Echo, SimpleEcho, Edit, PutAll;
    ghost var start := screen.page;
    var pos: nat := 0;
    used := 0;
    ReadingStarts(input, maxLength);
    NothingShown(start);
    while pos < maxLength - 1
      invariant Reading(input, maxLength, used, pos) && used <= |input| && pos < buffer.Length
      invariant screen.Valid() && screen.page == PutAll(start, SimpleEchoAll(input[..used]))
      invariant buffer[..pos] == EditAll(input[..used]) && RestUnchanged(buffer, maxLength)
      decreases |input| - used
    {
      ReadingEnds(input, maxLength, used, pos);
      if used == |input| {
        return used, false;
      }
      var c := input[used];
      ReadingGoesOn(input, maxLength, used, pos);
      EchoGoesOn(start, input, used);
      pos := TypeKey(buffer, pos, c, screen, EditAll(input[..used]));
      used := used + 1;
      if c == LF || c == CR {
        buffer[pos] := 0;
        return used, true;
      }
      ReadingEnds(input, maxLength, used, pos);
    }
    ReadingEnds(input, maxLength, used, pos);
    buffer[pos] := 0;
    return used, true;
  }

  /** One character of gets_simple: getchar_blocking echoes it before the loop takes it. */
  method TypeKey(buffer: array<byte>, pos: nat, c: byte, screen: Console, ghost line: seq<byte>)
    returns (next: nat)
    requires screen.Valid() && screen.video != buffer
    requires pos == |line| && pos + 1 < buffer.Length && buffer[..pos] == line
    modifies buffer, screen, screen.video
    ensures next == |Edit(line, c)| && buffer[..next] == Edit(line, c)
    ensures forall i :: pos < i < buffer.Length ==> buffer[i] == old(buffer[i])
    ensures screen.Valid() && screen.page == PutAll(old(screen.page), SimpleEcho(line, c))
  {
    EchoSplit(screen.page, line, c);
    EchoKey(c, screen);
    next := TakeKey(buffer, pos, c, screen, line);
  }

  /** The echo of getchar_blocking. */
  method EchoKey(c: byte, screen: Console)
    requires screen.Valid()
    modifies screen, screen.video
    ensures screen.Valid() && screen.page == PutAll(old(screen.page), KeyEcho(c))
  {
    OneCharacter(screen.page, BS);
    OneCharacter(screen.page, LF);
    OneCharacter(screen.page, c);
    if c == BS {
      screen.PutChar(BS);
    } else if c == LF || c == CR {
      screen.PutChar(LF);
    } else if 32 <= c <= 126 {
      screen.PutChar(c);
    }
  }

  function KeyEcho(c: byte): seq<byte> {
    if c == BS then [BS] else if Newline(c) then [LF] else if Printable(c) then [c] else []
  }

  /** What the loop of gets_simple does with a character that has been echoed. */
  method TakeKey(buffer: array<byte>, pos: nat, c: byte, screen: Console, ghost line: seq<byte>)
    returns (next: nat)
    requires screen.Valid() && screen.video != buffer
    requires pos == |line| && pos + 1 < buffer.Length && buffer[..pos] == line
    modifies buffer, screen, screen.video
    ensures next == |Edit(line, c)| && buffer[..next] == Edit(line, c)
    ensures forall i :: pos < i < buffer.Length ==> buffer[i] == old(buffer[i])
    ensures screen.Valid()
    ensures screen.page == PutAll(old(screen.page), if c == BS && |line| > 0 then [BS, 32, BS] else [])
  {
    next := pos;
    if c == BS {
      if pos > 0 {
        next := pos - 1;
        RubOutSteps(screen.page);
        screen.PutChar(BS);
        screen.PutChar(32);
        screen.PutChar(BS);
      }
    } else if 32 <= c <= 126 {
      buffer[pos] := c;
      next := pos + 1;
    }
  }

  lemma EchoSplit(p: Page, line: seq<byte>, c: byte)
    ensures PutAll(p, SimpleEcho(line, c)) ==
      PutAll(PutAll(p, KeyEcho(c)), if c == BS && |line| > 0 then [BS, 32, BS] else [])
  {
  }

  lemma NothingShown(p: Page)
    ensures PutAll(p, []) == p
  {
  }
}
