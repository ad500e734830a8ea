/** vsprintf and printf: two loops over the same format, one into a buffer and one onto the screen. */
module Printf {
  import opened Words
  import opened Digits
  import opened CStrings
  import opened Format
  import opened Transcript
  import opened Screen

  /** The format at position i: well formed, and what it still has to print. */
  ghost predicate Rest(format: seq<byte>, i: nat, args: seq<Arg>) {
    && Terminated(format) && i <= StrLen(format) && WellFormed(CString(format)[i..])
    && Matches(Parse(CString(format)[i..]), args)
  }

  ghost function RestOutput(format: seq<byte>, i: nat, args: seq<Arg>): seq<byte>
    requires Rest(format, i, args)
  {
    Output(Parse(CString(format)[i..]), args)
  }

  ghost function RestCount(format: seq<byte>, i: nat, args: seq<Arg>): nat
    requires Rest(format, i, args)
  {
    Count(Parse(CString(format)[i..]), args)
  }

  /** An ordinary character of the format. */
  lemma AtCharacter(format: seq<byte>, i: nat, args: seq<Arg>)
    requires Rest(format, i, args) && i < StrLen(format) && format[i] != PERCENT
    ensures Rest(format, i + 1, args)
    ensures RestOutput(format, i, args) == [format[i]] + RestOutput(format, i + 1, args)
    ensures RestCount(format, i, args) == 1 + RestCount(format, i + 1, args)
  {
    var f := CString(format)[i..];
    assert f[0] == format[i] && f[1..] == CString(format)[i + 1..];
    assert Parse(f)[0] == Literal(f[0]) && Parse(f)[1..] == Parse(f[1..]);
  }

  function ArgOf(d: Directive, args: seq<Arg>): Arg
    requires TakesArg(d) ==> args != []
  {
    if TakesArg(d) then args[0] else Null
  }

  function ArgsBehind(d: Directive, args: seq<Arg>): seq<Arg>
    requires TakesArg(d) ==> args != []
  {
    if TakesArg(d) then args[1..] else args
  }

  /** The arguments begin with what the directive takes. */
  ghost predicate Ready(d: Directive, args: seq<Arg>) {
    TakesArg(d) ==> args != [] && Fits(d, args[0])
  }

  /** A '%' and the character behind it. */
  lemma AtConversion(format: seq<byte>, i: nat, args: seq<Arg>)
    requires Rest(format, i, args) && i < StrLen(format) && format[i] == PERCENT
    ensures i + 1 < StrLen(format)
    ensures var d := Directed(format[i + 1]);
      && Ready(d, args)
      && var (arg, left) := (ArgOf(d, args), ArgsBehind(d, args));
      && Rest(format, i + 2, left)
      && RestOutput(format, i, args) == Shown(d, arg) + RestOutput(format, i + 2, left)
      && RestCount(format, i, args) == Counted(d, arg) + RestCount(format, i + 2, left)
  {
    var f := CString(format)[i..];
    assert f[0] == format[i] && f[1] == format[i + 1] && f[2..] == CString(format)[i + 2..];
    assert Parse(f)[0] == Directed(f[1]) && Parse(f)[1..] == Parse(f[2..]);
  }

  /** What both functions ask of their callers: no dangling '%', and arguments of the kinds the format names. */
  ghost predicate Printable(format: seq<byte>, args: seq<Arg>) {
    && Terminated(format) && WellFormed(CString(format)) && Matches(Parse(CString(format)), args)
  }

  /** The characters a format stands for. */
  ghost function Printed(format: seq<byte>, args: seq<Arg>): seq<byte>
    requires Printable(format, args)
  {
    Output(Parse(CString(format)), args)
  }

  /** The number both functions return for it. */
  ghost function Returned(format: seq<byte>, args: seq<Arg>): nat
    requires Printable(format, args)
  {
    Count(Parse(CString(format)), args)
  }

  /** At the start all of the format is left. */
  lemma AllOfIt(format: seq<byte>, args: seq<Arg>)
    requires Printable(format, args)
    ensures Rest(format, 0, args)
    ensures RestOutput(format, 0, args) == Printed(format, args)
    ensures RestCount(format, 0, args) == Returned(format, args)
  {
  }

  lemma Done(format: seq<byte>, args: seq<Arg>)
    requires Terminated(format) && Rest(format, StrLen(format), args)
    ensures RestOutput(format, StrLen(format), args) == [] && RestCount(format, StrLen(format), args) == 0
  {
  }

  // ----- vsprintf

  /** vsprintf: the output, then a NUL. */
  method VSprintf(out: array<byte>, format: seq<byte>, args: seq<Arg>) returns (count: nat)
    requires Printable(format, args) && |Printed(format, args)| < out.Length
    modifies out
    ensures var text := Printed(format, args);
      && |text| < out.Length && out[..|text|] == text && out[|text|] == 0
      && count == Returned(format, args)
      && forall j :: |text| < j < out.Length ==> out[j] == old(out[j])
  {
    hide Rest, RestOutput, RestCount, Printed, Returned, Shown, Counted, Directed, Ready, ArgOf, ArgsBehind;
    AllOfIt(format, args);
    ghost var text := Printed(format, args);
    var i, at, left := 0, 0, args;
    count := 0;
    while format[i] != 0
      invariant i <= StrLen(format) && Rest(format, i, left)
      invariant 0 <= at <= |text| < out.Length
      invariant text == out[..at] + RestOutput(format, i, left)
      invariant Returned(format, args) == count + RestCount(format, i, left)
      invariant forall j :: at <= j < out.Length ==> out[j] == old(out[j])
      decreases |format| - i
    {
      ghost var before, start := out[..], at;
      if format[i] == PERCENT {
        AtConversion(format, i, left);
        i := i + 1;
        at, count, left := StoreConversion(out, at, count, format[i], left);
      } else {
        AtCharacter(format, i, left);
        out[at] := format[i];
        at, count := at + 1, count + 1;
      }
      Longer(before, out[..], start, at);
      i := i + 1;
    }
    Done(format, left);
    out[at] := 0;
  }

  lemma Longer(before: seq<byte>, after: seq<byte>, i: nat, j: nat)
    requires i <= j <= |before| == |after| && forall k :: 0 <= k < i ==> after[k] == before[k]
    ensures after[..j] == before[..i] + after[i..j]
  {
  }

  /** The switch of vsprintf on the character behind '%'; each branch takes its own argument and adds to the count. */
  method StoreConversion(out: array<byte>, at: nat, count: nat, c: byte, args: seq<Arg>)
    returns (next: nat, total: nat, left: seq<Arg>)
    requires Ready(Directed(c), args) && at + |Shown(Directed(c), ArgOf(Directed(c), args))| < out.Length
    modifies out
    ensures var (d, a) := (Directed(c), ArgOf(Directed(c), args));
      && next == at + |Shown(d, a)| && out[at..next] == Shown(d, a)
      && total == count + Counted(d, a) && left == ArgsBehind(d, args)
    ensures forall j :: 0 <= j < out.Length && !(at <= j < next) ==> out[j] == old(out[j])
  {
    hide Render;
    left := args;
    if c == 100 || c == 105 {
      left := args[1..];
      next, total := StoreSigned(out, at, count, args[0].w);
    } else if c == 117 {
      left := args[1..];
      next := PrintNumberToBuffer(out, at, args[0].w, 10);
      total := count + 1;
    } else if c == 120 {
      left := args[1..];
      next := PrintNumberToBuffer(out, at, args[0].w, 16);
      total := count + 1;
    } else if c == 88 {
      left := args[1..];
      next := PrintNumberToBuffer(out, at, args[0].w, 16);
      total := count + 1;
    } else if c == 112 {
      left := args[1..];
      next := StorePointer(out, at, args[0].w);
      total := count + 1;
    } else if c == 99 {
      left := args[1..];
      next := StoreTwo(out, at, [args[0].w % 256]);
      total := count + 1;
    } else if c == 115 {
      left := args[1..];
      NullText();
      if !args[0].Null? {
        next := StoreString(out, at, args[0].s);
        total := count + 1;
      } else {
        next := StoreString(out, at, NULL_TEXT + [0]);
        total := count + 1;
      }
    } else if c == PERCENT {
      next := StoreTwo(out, at, [PERCENT]);
      total := count + 1;
    } else {
      next := StoreTwo(out, at, [PERCENT, c]);
      total := count + 2;
    }
  }

  /** One or two fixed characters. */
  method StoreTwo(out: array<byte>, at: nat, s: seq<byte>) returns (next: nat)
    requires 1 <= |s| <= 2 && at + |s| < out.Length
    modifies out
    ensures next == at + |s| && out[at..next] == s
    ensures forall j :: 0 <= j < out.Length && !(at <= j < next) ==> out[j] == old(out[j])
  {
    out[at] := s[0];
    if |s| == 2 {
      out[at + 1] := s[1];
    }
    next := at + |s|;
  }

  method StorePointer(out: array<byte>, at: nat, w: u32) returns (next: nat)
    requires at + 2 + |Render(w, 16)| < out.Length
    modifies out
    ensures next == at + 2 + |Render(w, 16)| && out[at..next] == [48, 120] + Render(w, 16)
    ensures forall j :: 0 <= j < out.Length && !(at <= j < next) ==> out[j] == old(out[j])
  {
    hide Render;
    out[at] := 48;
    out[at + 1] := 120;
    next := PrintNumberToBuffer(out, at + 2, w, 16);
    assert out[at..next] == [48, 120] + out[at + 2..next];
  }

  /** The branch of %d: a minus sign counts for itself. */
  method StoreSigned(out: array<byte>, at: nat, count: nat, w: u32) returns (next: nat, total: nat)
    requires at + |SignedText(w)| < out.Length
    modifies out
    ensures next == at + |SignedText(w)| && out[at..next] == SignedText(w)
    ensures total == count + (if Digits.Signed(w) < 0 then 2 else 1)
    ensures forall j :: 0 <= j < out.Length && !(at <= j < next) ==> out[j] == old(out[j])
  {
    hide Render;
    var num: u32 := w;
    next, total := at, count;
    if Digits.Signed(w) < 0 {
      out[next] := 45;
      next := next + 1;
      num := (WORD - w) % WORD;
      total := total + 1;
    }
    next := PrintNumberToBuffer(out, next, num, 10);
    total := total + 1;
    assert Digits.Signed(w) < 0 ==> out[at..next] == [45] + out[at + 1..next];
  }

  /** The copy loop of %s. */
  method StoreString(out: array<byte>, at: nat, s: seq<byte>) returns (next: nat)
    requires Terminated(s) && at + StrLen(s) < out.Length
    modifies out
    ensures next == at + StrLen(s) && out[at..next] == CString(s)
    ensures forall j :: 0 <= j < out.Length && !(at <= j < next) ==> out[j] == old(out[j])
  {
    var i := 0;
    next := at;
    while s[i] != 0
      invariant i <= StrLen(s) && next == at + i
      invariant forall j :: at <= j < next ==> out[j] == s[j - at]
      invariant forall j :: 0 <= j < out.Length && !(at <= j < next) ==> out[j] == old(out[j])
      decreases |s| - i
    {
      out[next] := s[i];
      i, next := i + 1, next + 1;
    }
  }

  // ----- printf

  /** printf: the same output to the screen, and the same count. */
  method Print(screen: Console, format: seq<byte>, args: seq<Arg>) returns (count: nat)
    requires Printable(format, args) && screen.Valid()
    modifies screen, screen.video
    ensures screen.Valid() && screen.page == PutAll(old(screen.page), Printed(format, args))
    ensures count == Returned(format, args)
  {
    hide Rest, RestOutput, RestCount, Printed, Returned, Shown, Counted, Directed, Fits, TakesArg, PutAll;
    AllOfIt(format, args);
    ghost var start, text := screen.page, Printed(format, args);
    var i, left := 0, args;
    count := 0;
    while format[i] != 0
      invariant i <= StrLen(format) && Rest(format, i, left) && screen.Valid()
      invariant PutAll(start, text) == PutAll(screen.page, RestOutput(format, i, left))
      invariant Returned(format, args) == count + RestCount(format, i, left)
      decreases |format| - i
    {
      ghost var page := screen.page;
      if format[i] == PERCENT {
        AtConversion(format, i, left);
        ghost var d, before := Directed(format[i + 1]), left;
        i := i + 1;
        count, left := PrintConversion(screen, count, format[i], left);
        PutAllConcat(page, Shown(d, ArgOf(d, before)), RestOutput(format, i + 1, left));
      } else {
        AtCharacter(format, i, left);
        OneCharacter(page, format[i]);
        PutAllConcat(page, [format[i]], RestOutput(format, i + 1, left));
        screen.PutChar(format[i]);
        count := count + 1;
      }
      i := i + 1;
    }
    Done(format, left);
    NothingPut(screen.page);
  }

  /** The switch of printf on the character behind '%', with its own arguments and its own count. */
  method PrintConversion(screen: Console, count: nat, c: byte, args: seq<Arg>) returns (total: nat, left: seq<Arg>)
    requires Ready(Directed(c), args) && screen.Valid()
    modifies screen, screen.video
    ensures var (d, a) := (Directed(c), ArgOf(Directed(c), args));
      && screen.Valid() && screen.page == PutAll(old(screen.page), Shown(d, a))
      && total == count + Counted(d, a) && left == ArgsBehind(d, args)
  {
    hide Render, PutAll;
    left := args;
    if c == 100 || c == 105 {
      left := args[1..];
      total := PrintSigned(screen, count, args[0].w);
    } else if c == 117 {
      left := args[1..];
      PrintNumber(screen, args[0].w, 10);
      total := count + 1;
    } else if c == 120 {
      left := args[1..];
      PrintNumber(screen, args[0].w, 16);
      total := count + 1;
    } else if c == 88 {
      left := args[1..];
      PrintNumber(screen, args[0].w, 16);
      total := count + 1;
    } else if c == 112 {
      left := args[1..];
      PrintPointer(screen, args[0].w);
      total := count + 1;
    } else if c == 99 {
      left := args[1..];
      EmitTwo(screen, [args[0].w % 256]);
      total := count + 1;
    } else if c == 115 {
      left := args[1..];
      NullText();
      if !args[0].Null? {
        screen.PutString(args[0].s);
        total := count + 1;
      } else {
        screen.PutString(NULL_TEXT + [0]);
        total := count + 1;
      }
    } else if c == PERCENT {
      EmitTwo(screen, [PERCENT]);
      total := count + 1;
    } else {
      EmitTwo(screen, [PERCENT, c]);
      total := count + 2;
    }
  }

  method PrintPointer(screen: Console, w: u32)
    requires screen.Valid()
    modifies screen, screen.video
    ensures screen.Valid() && screen.page == PutAll(old(screen.page), [48, 120] + Render(w, 16))
  {
    PutAllConcat(screen.page, [48, 120], Render(w, 16));
    EmitTwo(screen, [48, 120]);
    PrintNumber(screen, w, 16);
  }

  lemma NothingPut(p: Page)
    ensures PutAll(p, []) == p
  {
  }

  method EmitTwo(screen: Console, s: seq<byte>)
    requires 1 <= |s| <= 2 && screen.Valid()
    modifies screen, screen.video
    ensures screen.Valid() && screen.page == PutAll(old(screen.page), s)
  {
    PutAllStep(screen.page, s, 0);
    assert s[..0] == [] && s[..|s|] == s;
    screen.PutChar(s[0]);
    if |s| == 2 {
      PutAllStep(old(screen.page), s, 1);
      screen.PutChar(s[1]);
    }
  }

  /** The branch of %d on the screen. */
  method PrintSigned(screen: Console, count: nat, w: u32) returns (total: nat)
    requires screen.Valid()
    modifies screen, screen.video
    ensures screen.Valid() && screen.page == PutAll(old(screen.page), SignedText(w))
    ensures total == count + (if Digits.Signed(w) < 0 then 2 else 1)
  {
    hide Render, PutAll;
    var num: u32 := w;
    total := count;
    if Digits.Signed(w) < 0 {
      PutAllConcat(screen.page, [45], Render(WORD - w, 10));
      EmitTwo(screen, [45]);
      num := (WORD - w) % WORD;
      total := total + 1;
    }
    PrintNumber(screen, num, 10);
    total := total + 1;
  }

  /** print_number */
  method PrintNumber(screen: Console, num: u32, base: nat)
    requires 2 <= base <= 16 && screen.Valid()
    modifies screen, screen.video
    ensures screen.Valid() && screen.page == PutAll(old(screen.page), Render(num, base))
  {
    if num == 0 {
      OneCharacter(screen.page, 48);
      screen.PutChar(48);
      return;
    }
    hide DigitsOf, PutAll;
    var buffer, n := ScratchDigits(num, base);
    ghost var start, digits := screen.page, DigitsOf(num, base);
    var i := n;
    NothingPut(start);
    while i > 0
      invariant 0 <= i <= n == |digits| && screen.Valid() && fresh(buffer) && buffer.Length == 32
      invariant forall k :: 0 <= k < n ==> buffer[k] == digits[n - 1 - k]
      invariant screen.page == PutAll(start, digits[..n - i])
    {
      i := i - 1;
      PutAllStep(start, digits, n - 1 - i);
      screen.PutChar(buffer[i]);
    }
    assert digits[..n] == digits;
  }

  /** The first loop of print_number, which fills a scratch array of its own from the last digit on. */
  method ScratchDigits(num: u32, base: nat) returns (buffer: array<byte>, i: nat)
    requires 2 <= base <= 16 && num > 0
    ensures fresh(buffer) && buffer.Length == 32 && i == |DigitsOf(num, base)| <= 32
    ensures forall k :: 0 <= k < i ==> buffer[k] == DigitsOf(num, base)[i - 1 - k]
  {
    hide DigitsOf;
    buffer := new byte[32];
    i := 0;
    var n := num;
    ghost var digits := DigitsOf(num, base);
    Pow2Is32();
    DigitsFit(num, base, 32);
    assert digits[..|digits|] == digits;
    while n > 0
      invariant 0 <= n <= num && i <= |digits| <= 32
      invariant DigitsOf(n, base) == digits[..|digits| - i]
      invariant forall k :: 0 <= k < i ==> buffer[k] == digits[|digits| - 1 - k]
    {
      LastDigit(n, base);
      Smaller(n, base);
      buffer[i] := DigitChar(n % base);
      i, n := i + 1, n / base;
    }
    NoDigits(base);
  }

  lemma LastDigit(n: nat, base: nat)
    requires 2 <= base <= 16 && n > 0
    ensures 0 <= n / base < n && 0 <= n % base < 16
    ensures DigitsOf(n, base) == DigitsOf(n / base, base) + [DigitChar(n % base)]
  {
    Smaller(n, base);
  }
}
