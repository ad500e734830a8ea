/**
 What a format means to its caller: the conversion behind every letter, on the bytes of the format and the text it
 stands for. Longer formats are concatenations of these.
 */
module FormatLaws {
  import opened Words
  import opened Digits
  import opened CStrings
  import opened Format
  import opened Printf

  /** The format "%c" as it lies in memory. */
  function Conversion(c: byte): seq<byte> {
    [37, c, 0]
  }

  lemma OneDirective(c: byte, args: seq<Arg>)
    requires c != 0 && Ready(Directed(c), args)
    ensures var (d, a) := (Directed(c), ArgOf(Directed(c), args));
      && Printable(Conversion(c), args)
      && Printed(Conversion(c), args) == Shown(d, a) && Returned(Conversion(c), args) == Counted(d, a)
  {
    hide Shown, Counted, Directed, Fits, TakesArg;
    StrLenIs(Conversion(c), 2);
    var f: seq<byte> := [PERCENT, c];
    assert CString(Conversion(c)) == f && f[2..] == [];
    NothingLeft(args);
    NothingLeft(ArgsBehind(Directed(c), args));
    assert Parse(f) == [Directed(c)] + Parse(f[2..]);
    assert Parse(f)[1..] == [];
  }

  lemma NothingLeft(args: seq<Arg>)
    ensures WellFormed([]) && Parse([]) == [] && Matches([], args) && Output([], args) == [] && Count([], args) == 0
  {
  }

  /** "%d" and "%i": the number, minus sign and all, for every word read as a signed number. */
  lemma SignedDecimal(c: byte, w: u32)
    requires c as char == 'd' || c as char == 'i'
    ensures Printable(Conversion(c), [Word(w)])
    ensures var text := Printed(Conversion(c), [Word(w)]);
      && DecodeSigned(text) == (if w < 0x8000_0000 then w else w - 0x1_0000_0000)
      && (w < 0x8000_0000 ==> Numeral(text, 10) && Returned(Conversion(c), [Word(w)]) == 1)
      && (w >= 0x8000_0000 ==>
            text[0] as char == '-' && Numeral(text[1..], 10) && Returned(Conversion(c), [Word(w)]) == 2)
  {
    hide Render, Printed, Returned, Printable;
    OneDirective(c, [Word(w)]);
    SignedRoundTrip(w);
    RenderDecodes(w, 10);
    RenderDecodes((WORD - w) % WORD, 10);
  }

  /** "%u" in base 10, "%x" and "%X" in base 16: the number, for every word. */
  lemma UnsignedNumber(c: byte, w: u32)
    requires c as char == 'u' || c as char == 'x' || c as char == 'X'
    ensures Printable(Conversion(c), [Word(w)]) && Returned(Conversion(c), [Word(w)]) == 1
    ensures var text, base := Printed(Conversion(c), [Word(w)]), if c as char == 'u' then 10 else 16;
      Numeral(text, base) && Digits.Decode(text, base) == w
  {
    hide Render, Printed, Returned, Printable;
    OneDirective(c, [Word(w)]);
    RenderDecodes(w, 10);
    RenderDecodes(w, 16);
  }

  /** "%p": 0x and the number in base 16. */
  lemma PointerNumber(w: u32)
    ensures Printable(Conversion('p' as byte), [Word(w)]) && Returned(Conversion('p' as byte), [Word(w)]) == 1
    ensures var text := Printed(Conversion('p' as byte), [Word(w)]);
      && |text| > 2 && text[0] as char == '0' && text[1] as char == 'x'
      && Numeral(text[2..], 16) && Digits.Decode(text[2..], 16) == w
  {
    hide Render, Printed, Returned, Printable;
    OneDirective('p' as byte, [Word(w)]);
    RenderDecodes(w, 16);
    var prefix: seq<byte> := [48, 120];
    assert (prefix + Render(w, 16))[2..] == Render(w, 16);
  }

  /** "%c" and "%s": the low byte, the string, and (null) for a null pointer. */
  lemma CharacterOrText(w: u32, s: seq<byte>)
    requires Terminated(s)
    ensures Printable(Conversion('c' as byte), [Word(w)]) && Printed(Conversion('c' as byte), [Word(w)]) == [w % 256]
    ensures Printable(Conversion('s' as byte), [Str(s)]) && Printed(Conversion('s' as byte), [Str(s)]) == CString(s)
    ensures Printable(Conversion('s' as byte), [Null])
    ensures var text := Printed(Conversion('s' as byte), [Null]);
      |text| == 6 && forall i :: 0 <= i < 6 ==> text[i] as char == "(null)"[i]
  {
    hide Printed, Returned, Printable;
    OneDirective('c' as byte, [Word(w)]);
    OneDirective('s' as byte, [Str(s)]);
    OneDirective('s' as byte, [Null]);
  }

  predicate IsConversion(c: byte) {
    c as char in "diuxXpcs"
  }

  /** "%%" is a percent sign, and "%" before any other character stands for itself; neither takes an argument. */
  lemma PercentOrUnknown(c: byte, args: seq<Arg>)
    requires c != 0 && !IsConversion(c)
    ensures Printable(Conversion(c), args)
    ensures Printed(Conversion(c), args) == if c as char == '%' then [c] else [37, c]
    ensures Returned(Conversion(c), args) == if c as char == '%' then 1 else 2
  {
    hide Printed, Returned, Printable;
    OneDirective(c, args);
  }

  /** How many arguments a directive takes. */
  lemma TakesOneOrNone(c: byte)
    ensures ArgsTaken([Directed(c)]) == if IsConversion(c) then 1 else 0
  {
    assert [Directed(c)][1..] == [];
  }

  lemma {:induction false} ParseConcat(f: seq<byte>, g: seq<byte>)
    requires WellFormed(f) && WellFormed(g)
    ensures WellFormed(f + g) && Parse(f + g) == Parse(f) + Parse(g)
    decreases |f|
  {
    if f == [] {
      assert f + g == g;
    } else if f[0] != PERCENT {
      assert (f + g)[1..] == f[1..] + g;
      ParseConcat(f[1..], g);
    } else {
      assert (f + g)[2..] == f[2..] + g;
      ParseConcat(f[2..], g);
    }
  }

  lemma {:induction false} MatchesConcat(ds: seq<Directive>, es: seq<Directive>, args: seq<Arg>)
    requires Matches(ds, args)
    ensures ArgsTaken(ds) <= |args|
    ensures Matches(es, args[ArgsTaken(ds)..]) ==> Matches(ds + es, args)
  {
    hide Fits, TakesArg;
    if ds == [] {
      assert ds + es == es && args[0..] == args;
    } else {
      assert (ds + es)[1..] == ds[1..] + es;
      var rest := ArgsBehind(ds[0], args);
      MatchesConcat(ds[1..], es, rest);
      assert rest[ArgsTaken(ds[1..])..] == args[ArgsTaken(ds)..];
    }
  }

  /**
   A longer format is printable exactly when its parts are, and prints them one after the other, each with the
   arguments that the parts before it left.
   */
  lemma PrintedConcat(f: seq<byte>, g: seq<byte>, args: seq<Arg>)
    requires 0 !in f && 0 !in g && WellFormed(f) && WellFormed(g)
    ensures var n := ArgsTaken(Parse(f));
      && (Printable(f + g + [0], args) <==>
            Printable(f + [0], args) && n <= |args| && Printable(g + [0], args[n..]))
      && (Printable(f + g + [0], args) ==>
            Printed(f + g + [0], args) == Printed(f + [0], args) + Printed(g + [0], args[n..]))
  {
    hide Parse, Output, Matches, WellFormed, ArgsTaken;
    ParseConcat(f, g);
    Ends(f);
    Ends(g);
    Ends(f + g);
    if Matches(Parse(f + g), args) {
      OutputConcat(Parse(f), Parse(g), args);
    } else if Matches(Parse(f), args) {
      MatchesConcat(Parse(f), Parse(g), args);
    }
  }

  lemma {:induction false} TextTakesNone(f: seq<byte>)
    requires 37 !in f
    ensures WellFormed(f) && ArgsTaken(Parse(f)) == 0
    decreases |f|
  {
    if f != [] {
      TextTakesNone(f[1..]);
      assert Parse(f)[1..] == Parse(f[1..]);
    }
  }

  lemma TextBefore(text: seq<byte>, f: seq<byte>, args: seq<Arg>)
    requires 37 !in text && 0 !in text && 0 !in f && Printable(f + [0], args)
    ensures Printable(text + f + [0], args) && Printed(text + f + [0], args) == text + Printed(f + [0], args)
  {
    hide Parse, Output, Matches, WellFormed, ArgsTaken;
    Ends(text);
    Ends(f);
    TextTakesNone(text);
    PlainFormat(text, args);
    PrintedConcat(text, f, args);
    assert args[0..] == args;
  }

  lemma TextBehind(f: seq<byte>, text: seq<byte>, args: seq<Arg>)
    requires 37 !in text && 0 !in text && 0 !in f && Printable(f + [0], args)
    ensures Printable(f + text + [0], args) && Printed(f + text + [0], args) == Printed(f + [0], args) + text
  {
    hide Parse, Output, Matches, WellFormed, ArgsTaken;
    Ends(text);
    Ends(f);
    TextTakesNone(text);
    MatchesConcat(Parse(f), [], args);
    PlainFormat(text, args[ArgsTaken(Parse(f))..]);
    PrintedConcat(f, text, args);
  }

  /** A directive between two texts is replaced by what it shows, and the texts stay as they are. */
  lemma DirectiveInText(before: seq<byte>, c: byte, behind: seq<byte>, args: seq<Arg>)
    requires 37 !in before && 0 !in before && 37 !in behind && 0 !in behind
    requires c != 0 && Printable(Conversion(c), args)
    ensures var format := before + [37, c] + behind + [0];
      && Printable(format, args)
      && Printed(format, args) == before + Printed(Conversion(c), args) + behind
  {
    hide Printable, Printed;
    var f: seq<byte> := [37, c];
    assert f + [0] == Conversion(c);
    TextBefore(before, f, args);
    TextBehind(before + f, behind, args);
  }

  lemma Ends(f: seq<byte>)
    requires 0 !in f
    ensures Terminated(f + [0]) && CString(f + [0]) == f
  {
    StrLenIs(f + [0], |f|);
  }
}
