/** The format language that vsprintf and printf share: directives, the text they stand for, and the count returned. */
module Format {
  import opened Words
  import opened Digits
  import opened CStrings

  const PERCENT: byte := 37

  /** One step of a format: an ordinary character, or what a '%' and the character behind it ask for. */
  datatype Directive =
    | Literal(c: byte)
    | Decimal
    | Unsigned
    | Hexadecimal
    | Pointer
    | Character
    | Text
    | Percent
    | Unknown(c: byte)

  /** One variable argument: a 32-bit word, a pointer to a string in memory, or a null pointer. */
  datatype Arg = Word(w: u32) | Str(s: seq<byte>) | Null

  /** The directive behind '%'. */
  function Directed(c: byte): Directive {
    if c == 100 || c == 105 then Decimal            // d i
    else if c == 117 then Unsigned                  // u
    else if c == 120 || c == 88 then Hexadecimal    // x X
    else if c == 112 then Pointer                   // p
    else if c == 99 then Character                  // c
    else if c == 115 then Text                      // s
    else if c == PERCENT then Percent
    else Unknown(c)
  }

  /** A format that does not end inside a directive. */
  predicate WellFormed(f: seq<byte>)
    decreases |f|
  {
    if f == [] then true
    else if f[0] != PERCENT then WellFormed(f[1..])
    else |f| > 1 && WellFormed(f[2..])
  }

  function Parse(f: seq<byte>): seq<Directive>
    requires WellFormed(f)
    decreases |f|
  {
    if f == [] then []
    else if f[0] != PERCENT then [Literal(f[0])] + Parse(f[1..])
    else [Directed(f[1])] + Parse(f[2..])
  }

  predicate TakesArg(d: Directive) {
    d.Decimal? || d.Unsigned? || d.Hexadecimal? || d.Pointer? || d.Character? || d.Text?
  }

  ghost predicate Fits(d: Directive, a: Arg) {
    if d.Text? then a.Null? || (a.Str? && Terminated(a.s)) else a.Word?
  }

  /** The arguments begin with one of the right kind for each directive that takes one. */
  ghost predicate Matches(ds: seq<Directive>, args: seq<Arg>) {
    if ds == [] then true
    else if TakesArg(ds[0]) then args != [] && Fits(ds[0], args[0]) && Matches(ds[1..], args[1..])
    else Matches(ds[1..], args)
  }

  const NULL_TEXT: seq<byte> := [40, 110, 117, 108, 108, 41]    // (null)

  lemma NullText()
    ensures Terminated(NULL_TEXT + [0]) && CString(NULL_TEXT + [0]) == NULL_TEXT
  {
  }

  /** The characters a directive produces; a is its argument if it takes one. */
  ghost function Shown(d: Directive, a: Arg): seq<byte>
    requires TakesArg(d) ==> Fits(d, a)
  {
    match d
    case Literal(c) => [c]
    case Decimal => SignedText(a.w)
    case Unsigned => Render(a.w, 10)
    case Hexadecimal => Render(a.w, 16)
    case Pointer => [48, 120] + Render(a.w, 16)
    case Character => [a.w % 256]
    case Text => if a.Null? then NULL_TEXT else CString(a.s)
    case Percent => [PERCENT]
    case Unknown(c) => [PERCENT, c]
  }

  /** What a directive adds to the count: neither the characters nor the conversions, but a mixture. */
  function Counted(d: Directive, a: Arg): nat {
    match d
    case Decimal => if a.Word? && Digits.Signed(a.w) < 0 then 2 else 1
    case Unknown(_) => 2
    case _ => 1
  }

  ghost function Output(ds: seq<Directive>, args: seq<Arg>): seq<byte>
    requires Matches(ds, args)
  {
    if ds == [] then []
    else if TakesArg(ds[0]) then Shown(ds[0], args[0]) + Output(ds[1..], args[1..])
    else Shown(ds[0], Null) + Output(ds[1..], args)
  }

  ghost function Count(ds: seq<Directive>, args: seq<Arg>): nat
    requires Matches(ds, args)
  {
    if ds == [] then 0
    else if TakesArg(ds[0]) then Counted(ds[0], args[0]) + Count(ds[1..], args[1..])
    else Counted(ds[0], Null) + Count(ds[1..], args)
  }

  /** Without directives a format is printed as it is, and the count is its length. */
  lemma {:induction false} PlainFormat(f: seq<byte>, args: seq<Arg>)
    requires PERCENT !in f
    ensures WellFormed(f) && Matches(Parse(f), args)
    ensures Output(Parse(f), args) == f && Count(Parse(f), args) == |f|
    decreases |f|
  {
    if f != [] {
      PlainFormat(f[1..], args);
      assert Parse(f)[1..] == Parse(f[1..]);
      assert f == [f[0]] + f[1..];
    }
  }

  /**
   Printing is compositional: a concatenation prints the first part and then the second with the remaining arguments.
   */
  lemma {:induction false} OutputConcat(ds: seq<Directive>, es: seq<Directive>, args: seq<Arg>)
    requires Matches(ds + es, args)
    ensures ArgsTaken(ds) <= |args| && Matches(ds, args) && Matches(es, args[ArgsTaken(ds)..])
    ensures Output(ds + es, args) == Output(ds, args) + Output(es, args[ArgsTaken(ds)..])
  {
    hide Shown, Fits;
    if ds == [] {
      assert ds + es == es && args[0..] == args;
    } else {
      assert (ds + es)[1..] == ds[1..] + es;
      if TakesArg(ds[0]) {
        OutputConcat(ds[1..], es, args[1..]);
        assert args[1..][ArgsTaken(ds[1..])..] == args[ArgsTaken(ds)..];
      } else {
        OutputConcat(ds[1..], es, args);
      }
    }
  }

  function ArgsTaken(ds: seq<Directive>): nat {
    if ds == [] then 0 else (if TakesArg(ds[0]) then 1 else 0) + ArgsTaken(ds[1..])
  }

  // ----- the count and the length of the output

  /** The number of digits of a numeral. */
  function Length(n: nat, base: nat): (k: nat)
    requires 2 <= base <= 16
    ensures k >= 1
    decreases n
  {
    if n < base then 1
    else
      Smaller(n, base);
      1 + Length(n / base, base)
  }

  lemma {:induction false} DigitsLength(n: nat, base: nat)
    requires 2 <= base <= 16
    ensures |Render(n, base)| == Length(n, base) && (Length(n, base) == 1 <==> n < base)
  {
    if n >= base {
      QuotientPositive(n, base);
      DigitsLength(n / base, base);
      assert DigitsOf(n, base) == DigitsOf(n / base, base) + [DigitChar(n % base)];
    } else if n > 0 {
      SmallNumeral(n, base);
    }
  }

  lemma QuotientPositive(n: nat, base: nat)
    requires n >= base >= 2
    ensures 0 < n / base < n && n % base < base
  {
  }

  lemma SmallNumeral(n: nat, base: nat)
    requires 0 < n < base <= 16 && base >= 2
    ensures DigitsOf(n, base) == [DigitChar(n)]
  {
    NoDigits(base);
    assert n / base == 0 && n % base == n;
  }

  /** A "%s" with an empty string: the one directive that counts for more than it shows. */
  ghost predicate ShowsNothing(d: Directive, a: Arg)
    requires TakesArg(d) ==> Fits(d, a)
  {
    d.Text? && a.Str? && CString(a.s) == []
  }

  /** The directives that show exactly what they count, told from their arguments. */
  ghost predicate Exact(d: Directive, a: Arg)
    requires TakesArg(d) ==> Fits(d, a)
  {
    match d
    case Decimal => -10 < Digits.Signed(a.w) < 10
    case Unsigned => a.w < 10
    case Hexadecimal => a.w < 16
    case Pointer => false
    case Text => a.Str? && |CString(a.s)| == 1
    case _ => true
  }

  /** The characters of a directive beyond what it counts, told from its argument. */
  ghost function Beyond(d: Directive, a: Arg): nat
    requires TakesArg(d) ==> Fits(d, a)
  {
    match d
    case Decimal => Length(if Digits.Signed(a.w) < 0 then WORD - a.w else a.w, 10) - 1
    case Unsigned => Length(a.w, 10) - 1
    case Hexadecimal => Length(a.w, 16) - 1
    case Pointer => Length(a.w, 16) + 1
    case Text => if a.Null? then 5 else if CString(a.s) == [] then 0 else |CString(a.s)| - 1
    case _ => 0
  }

  lemma ShownAndCounted(d: Directive, a: Arg)
    requires TakesArg(d) ==> Fits(d, a)
    ensures |Shown(d, a)| == Counted(d, a) + Beyond(d, a) - (if ShowsNothing(d, a) then 1 else 0)
    ensures Beyond(d, a) == 0 && !ShowsNothing(d, a) <==> Exact(d, a)
    ensures ShowsNothing(d, a) ==> TakesArg(d)
  {
    hide Render, Length;
    match d
    case Decimal =>
      DigitsLength(a.w, 10);
      DigitsLength((WORD - a.w) % WORD, 10);
    case Unsigned => DigitsLength(a.w, 10);
    case Hexadecimal => DigitsLength(a.w, 16);
    case Pointer => DigitsLength(a.w, 16);
    case _ =>
  }

  /** How many "%s" of the format have an empty string. */
  ghost function Empties(ds: seq<Directive>, args: seq<Arg>): nat
    requires Matches(ds, args)
  {
    if ds == [] then 0
    else if TakesArg(ds[0]) then (if ShowsNothing(ds[0], args[0]) then 1 else 0) + Empties(ds[1..], args[1..])
    else Empties(ds[1..], args)
  }

  /** How many characters all directives show beyond what they count. */
  ghost function Surplus(ds: seq<Directive>, args: seq<Arg>): nat
    requires Matches(ds, args)
  {
    if ds == [] then 0
    else if TakesArg(ds[0]) then Beyond(ds[0], args[0]) + Surplus(ds[1..], args[1..])
    else Beyond(ds[0], Null) + Surplus(ds[1..], args)
  }

  ghost predicate AllExact(ds: seq<Directive>, args: seq<Arg>)
    requires Matches(ds, args)
  {
    ds != [] ==>
      && Exact(ds[0], if TakesArg(ds[0]) then args[0] else Null)
      && AllExact(ds[1..], if TakesArg(ds[0]) then args[1..] else args)
  }

  /** For every format: the output is as long as the count says, plus the surplus, less the empty strings. */
  lemma {:induction false} LengthOfOutput(ds: seq<Directive>, args: seq<Arg>)
    requires Matches(ds, args)
    ensures |Output(ds, args)| == Count(ds, args) + Surplus(ds, args) - Empties(ds, args)
    ensures Surplus(ds, args) == 0 && Empties(ds, args) == 0 <==> AllExact(ds, args)
  {
    hide Shown, Counted, Exact, ShowsNothing, Beyond;
    if ds != [] {
      var a := if TakesArg(ds[0]) then args[0] else Null;
      ShownAndCounted(ds[0], a);
      LengthOfOutput(ds[1..], if TakesArg(ds[0]) then args[1..] else args);
    }
  }

  /**
   The count is the length exactly when the empty strings make up for the surplus. Without an empty string it is at
   most the length, and equal to it exactly when every number has one digit, every string one character, and there is
   neither a null string nor a pointer.
   */
  lemma CountIsLengthExactly(ds: seq<Directive>, args: seq<Arg>)
    requires Matches(ds, args)
    ensures Count(ds, args) == |Output(ds, args)| <==> Surplus(ds, args) == Empties(ds, args)
    ensures Empties(ds, args) == 0 ==>
      && Count(ds, args) <= |Output(ds, args)|
      && (Count(ds, args) == |Output(ds, args)| <==> AllExact(ds, args))
  {
    LengthOfOutput(ds, args);
  }

  /** Two formats on either side: "%u" counts 1 whatever the number, "%s" counts 1 even for "". */
  lemma CountIsNotLength(w: u32)
    requires w >= 10
    ensures Count([Unsigned], [Word(w)]) == 1 < |Output([Unsigned], [Word(w)])|
    ensures Count([Text], [Str([0])]) == 1 > |Output([Text], [Str([0])])|
  {
    DigitsLength(w, 10);
    var t: seq<byte> := [0];
    assert CString(t) == [];
  }
}
