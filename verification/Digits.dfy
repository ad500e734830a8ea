/** Positional notation as the number printers produce it, and the printers themselves. */
module Digits {
  import opened Words
  import opened Bits

  /** The character of "0123456789ABCDEF" for a digit. */
  function DigitChar(d: nat): byte
    requires d < 16
  {
    if d < 10 then 48 + d else 55 + d
  }

  function DigitValue(c: byte): int {
    if c < 58 then c - 48 else c - 55
  }

  lemma DigitTable(d: nat)
    requires d < 16
    ensures DigitChar(d) as char == "0123456789ABCDEF"[d] && DigitValue(DigitChar(d)) == d
  {
  }

  /** The digits of n, most significant first; none for 0. */
  function DigitsOf(n: nat, base: nat): (s: seq<byte>)
    requires 2 <= base <= 16
    ensures n > 0 ==> s != []
    decreases n
  {
    if n == 0 then []
    else
      Shrinks(n, base);
      DigitsOf(n / base, base) + [DigitChar(n % base)]
  }

  /** What the printers print. */
  function Render(n: nat, base: nat): (s: seq<byte>)
    requires 2 <= base <= 16
    ensures s != []
  {
    if n == 0 then [48] else DigitsOf(n, base)
  }

  function Decode(s: seq<byte>, base: nat): int {
    if s == [] then 0 else Decode(s[..|s| - 1], base) * base + DigitValue(s[|s| - 1])
  }

  /** A numeral: digits of the base, without a leading zero unless it is the only digit. */
  ghost predicate Numeral(s: seq<byte>, base: nat) {
    && s != [] && (|s| > 1 ==> s[0] != 48)
    && forall i :: 0 <= i < |s| ==> IsDigit(s[i], base)
  }

  predicate IsDigit(c: byte, base: nat) {
    (48 <= c < 58 || 65 <= c < 71) && DigitValue(c) < base
  }

  lemma Shrinks(n: nat, base: nat)
    requires n > 0 && base >= 2
    ensures n / base < n && n == n / base * base + n % base
  {
  }

  /** Printing and decoding are inverse: the digits decode to the number, and form a numeral. */
  lemma {:induction false} DigitsDecode(n: nat, base: nat)
    requires 2 <= base <= 16
    ensures Decode(DigitsOf(n, base), base) == n
    ensures n > 0 ==> Numeral(DigitsOf(n, base), base) && DigitsOf(n, base)[0] != 48
    decreases n
  {
    if n > 0 {
      Shrinks(n, base);
      Smaller(n, base);
      var q, r := n / base, n % base;
      DigitsDecode(q, base);
      NoDigits(base);
      NumeralGrows(DigitsOf(q, base), r, base, q == 0);
    }
  }

  /** One more digit behind a numeral, or behind nothing. */
  lemma NumeralGrows(s: seq<byte>, r: nat, base: nat, first: bool)
    requires 2 <= base <= 16 && r < base
    requires if first then s == [] && r > 0 else Numeral(s, base) && s[0] != 48
    ensures var t := s + [DigitChar(r)];
      && Numeral(t, base) && t[0] != 48 && Decode(t, base) == Decode(s, base) * base + r
  {
    var t := s + [DigitChar(r)];
    assert t[..|t| - 1] == s;
  }

  /** For every number and base: printing gives a numeral that decodes to the number. */
  lemma RenderDecodes(n: nat, base: nat)
    requires 2 <= base <= 16
    ensures Decode(Render(n, base), base) == n && Numeral(Render(n, base), base)
  {
    if n == 0 {
      var s: seq<byte> := [48];
      assert s[..0] == [];
      assert Decode(s, base) == Decode(s[..0], base) * base + 0;
    } else {
      DigitsDecode(n, base);
    }
  }

  /** Hence different numbers print differently. */
  lemma RenderInjective(m: nat, n: nat, base: nat)
    requires 2 <= base <= 16 && Render(m, base) == Render(n, base)
    ensures m == n
  {
    RenderDecodes(m, base);
    RenderDecodes(n, base);
  }

  /** Conversely every numeral is what is printed for the number it denotes. */
  lemma {:induction false} NumeralsAreRendered(s: seq<byte>, base: nat)
    requires 2 <= base <= 16 && Numeral(s, base)
    ensures Decode(s, base) >= 0 && Render(Decode(s, base), base) == s
    ensures s[0] != 48 ==> Decode(s, base) > 0
    decreases |s|
  {
    var t, c := s[..|s| - 1], s[|s| - 1];
    if t == [] {
      assert s == [c];
      OneDigit(c, base);
    } else {
      assert forall i :: 0 <= i < |t| ==> IsDigit(t[i], base);
      NumeralsAreRendered(t, base);
      assert s == t + [c];
      OneMoreDigit(Decode(t, base), c, base);
    }
  }

  lemma OneDigit(c: byte, base: nat)
    requires 2 <= base <= 16 && IsDigit(c, base)
    ensures Decode([c], base) == DigitValue(c) >= 0 && Render(DigitValue(c), base) == [c]
  {
    var s, v := [c], DigitValue(c);
    assert s[..0] == [];
    assert Decode(s, base) == Decode(s[..0], base) * base + v;
    if v > 0 {
      assert v / base == 0 && v % base == v;
      assert DigitsOf(v, base) == DigitsOf(0, base) + [DigitChar(v)];
    }
  }

  lemma OneMoreDigit(q: nat, c: byte, base: nat)
    requires 2 <= base <= 16 && q > 0 && IsDigit(c, base)
    ensures q * base + DigitValue(c) > 0
    ensures Render(q * base + DigitValue(c), base) == Render(q, base) + [c]
  {
    Positional(q, DigitValue(c), base);
  }

  lemma Positional(q: nat, v: nat, base: nat)
    requires v < base && q > 0 && base >= 2
    ensures (q * base + v) / base == q && (q * base + v) % base == v && q * base + v > 0
  {
    var d := (q * base + v) / base;
    var r := (q * base + v) % base;
    assert q * base + v == d * base + r;
    MultipleSmall(d - q, base, v - r);
    assert q * base >= base by {
      MultipleAtLeast(q, base);
    }
  }

  lemma MultipleAtLeast(x: int, base: int)
    requires x >= 1 && base >= 0
    ensures x * base >= base
  {
  }

  /** A multiple of base that is smaller than base in absolute value is 0. */
  lemma MultipleSmall(x: int, base: int, y: int)
    requires base >= 0 && x * base == y && -base < y < base
    ensures x == 0 && y == 0
  {
  }

  /** A number below 2^k has at most k digits in any base: 32 bits fit the 32-byte scratch array. */
  lemma {:induction false} DigitsFit(n: nat, base: nat, k: nat)
    requires 2 <= base <= 16 && n < Pow2(k)
    ensures |DigitsOf(n, base)| <= k
    decreases k
  {
    if n > 0 {
      Shrinks(n, base);
      assert n / base <= n / 2 by {
        HalfOrLess(n, base);
      }
      DigitsFit(n / base, base, k - 1);
    }
  }

  lemma HalfOrLess(n: nat, base: nat)
    requires base >= 2
    ensures n / base <= n / 2
  {
    var q := n / base;
    assert q * base <= n;
    assert q * 2 <= q * base;
  }

  // ----- the printers

  function Reversed(s: seq<byte>): (r: seq<byte>)
    ensures |r| == |s| && forall i :: 0 <= i < |s| ==> r[i] == s[|s| - 1 - i]
  {
    if s == [] then [] else [s[|s| - 1]] + Reversed(s[..|s| - 1])
  }

  /** The first loop of print_number_to_buffer: the digits into a 32-byte scratch array, least significant first. */
  method ExtractDigits(num: u32, base: nat) returns (temp: array<byte>, i: nat)
    requires 2 <= base <= 16 && num > 0
    ensures fresh(temp) && temp.Length == 32 && i <= 32 && i == |DigitsOf(num, base)|
    ensures Reversed(temp[..i]) == DigitsOf(num, base)
  {
    hide DigitsOf, Reversed;
    temp := new byte[32];
    i := 0;
    var n := num;
    Pow2Is32();
    DigitsFit(num, base, 32);
    assert temp[..0] == [];
    assert DigitsOf(num, base) + Reversed(temp[..0]) == DigitsOf(num, base);
    while n > 0
      invariant 0 <= n <= num && i <= 32
      invariant DigitsOf(num, base) == DigitsOf(n, base) + Reversed(temp[..i])
    {
      assert |DigitsOf(num, base)| == |DigitsOf(n, base)| + i;
      Smaller(n, base);
      DigitStep(n, base, temp[..i]);
      var d := DigitChar(n % base);
      ghost var after := temp[..i] + [d];
      temp[i] := d;
      i, n := i + 1, n / base;
      assert temp[..i] == after;
    }
    NoDigits(base);
    assert [] + Reversed(temp[..i]) == Reversed(temp[..i]);
  }

  lemma Smaller(n: nat, base: nat)
    requires n > 0 && 2 <= base <= 16
    ensures 0 <= n / base < n && 0 <= n % base < 16
  {
  }

  lemma NoDigits(base: nat)
    requires 2 <= base <= 16
    ensures DigitsOf(0, base) == []
  {
  }

  /** One digit moves from the number to the scratch array. */
  lemma DigitStep(n: nat, base: nat, s: seq<byte>)
    requires 2 <= base <= 16 && n > 0
    ensures DigitsOf(n, base) + Reversed(s) ==
      DigitsOf(n / base, base) + Reversed(s + [DigitChar(n % base)])
  {
  }

  lemma Pow2Is32()
    ensures Pow2(32) == WORD
  {
    assert Pow2(8) == 256;
    assert Pow2(16) == 0x1_0000;
    assert Pow2(24) == 0x100_0000;
  }

  /** print_number_to_buffer: writes at out[at..] and returns the advanced position. */
  method PrintNumberToBuffer(out: array<byte>, at: nat, num: u32, base: nat) returns (next: nat)
    requires 2 <= base <= 16 && at + |Render(num, base)| <= out.Length
    modifies out
    ensures next == at + |Render(num, base)| && out[at..next] == Render(num, base)
    ensures forall j :: 0 <= j < out.Length && !(at <= j < next) ==> out[j] == old(out[j])
  {
    hide DigitsOf, Reversed;
    if num == 0 {
      out[at] := 48;
      return at + 1;
    }
    var temp, i := ExtractDigits(num, base);
    next := EmitReversed(out, at, temp, i);
  }

  /** The second loop of print_number_to_buffer: the scratch characters, last one first. */
  method EmitReversed(out: array<byte>, at: nat, temp: array<byte>, n: nat) returns (next: nat)
    requires n <= temp.Length && at + n <= out.Length && temp != out
    modifies out
    ensures next == at + n && out[at..next] == Reversed(temp[..n])
    ensures forall j :: 0 <= j < out.Length && !(at <= j < next) ==> out[j] == old(out[j])
  {
    hide Reversed;
    var i := n;
    next := at;
    while i > 0
      invariant 0 <= i <= n && next + i == at + n
      invariant forall j :: at <= j < next ==> out[j] == temp[n - 1 - (j - at)]
      invariant forall j :: 0 <= j < out.Length && !(at <= j < next) ==> out[j] == old(out[j])
    {
      i := i - 1;
      out[next] := temp[i];
      next := next + 1;
    }
    assert |Reversed(temp[..n])| == n;
    assert out[at..next] == Reversed(temp[..n]);
  }

  // ----- signed decimals

  /** The value of a word read as a signed number. */
  function Signed(w: u32): int {
    if w < 0x8000_0000 then w else w - WORD
  }

  /** What %d prints: a minus sign and the negated word, in two's complement, if the word is negative. */
  function SignedText(w: u32): seq<byte> {
    if Signed(w) < 0 then [45] + Render((WORD - w) % WORD, 10) else Render(w, 10)
  }

  function DecodeSigned(s: seq<byte>): int {
    if s != [] && s[0] == 45 then -Decode(s[1..], 10) else Decode(s, 10)
  }

  lemma SignedRoundTrip(w: u32)
    ensures DecodeSigned(SignedText(w)) == Signed(w)
  {
    if Signed(w) < 0 {
      RenderDecodes(WORD - w, 10);
      assert SignedText(w)[1..] == Render(WORD - w, 10);
    } else {
      RenderDecodes(w, 10);
    }
  }
}
