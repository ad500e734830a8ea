/** The C-string primitives, with the exact bytes they write. */
module Strings {
  import opened Words
  import opened CStrings
  import opened MemoryCopy

  /** strlen */
  method Strlen(s: seq<byte>) returns (n: nat)
    requires Terminated(s)
    ensures n == StrLen(s)
  {
    n := 0;
    while s[n] != 0
      invariant n <= StrLen(s)
      decreases StrLen(s) - n
    {
      n := n + 1;
    }
  }

  /** A buffer with these bytes in it. */
  method Buffer(bytes: seq<byte>) returns (a: array<byte>)
    ensures fresh(a) && a[..] == bytes
  {
    a := new byte[|bytes|](k requires 0 <= k < |bytes| => bytes[k]);
  }

  /** strcpy: the string and its NUL, and not a byte more. */
  method Strcpy(mem: array<byte>, d: nat, src: seq<byte>)
    requires Terminated(src) && d + StrLen(src) + 1 <= mem.Length
    modifies mem
    ensures mem[..] == Overlay(old(mem[..]), d, CString(src) + [0])
  {
    hide Overlay;
    ghost var was, goal := mem[..], Overlay(mem[..], d, CString(src) + [0]);
    var i := 0;
    while true
      invariant 0 <= i <= StrLen(src)
      invariant forall a :: d <= a < d + i ==> mem[a] == goal[a]
      invariant forall a :: 0 <= a < mem.Length && !(d <= a < d + i) ==> mem[a] == was[a]
      decreases StrLen(src) - i
    {
      mem[d + i] := src[i];
      if src[i] == 0 {
        break;
      }
      i := i + 1;
    }
  }

  // ----- strncpy

  function Zeros(n: nat): seq<byte> {
    seq(n, _ => 0)
  }

  /** Source memory that strncpy can read: n bytes, or a string that ends before. */
  ghost predicate Readable(src: seq<byte>, n: nat) {
    Terminated(src) || n <= |src|
  }

  /** The string ends within the first n bytes. */
  ghost predicate Short(src: seq<byte>, n: nat) {
    Terminated(src) && StrLen(src) < n
  }

  /** What strncpy writes: n bytes, or n + 1 when it pads. */
  ghost function Padded(src: seq<byte>, n: nat): (t: seq<byte>)
    requires Readable(src, n)
    ensures |t| == if Short(src, n) then n + 1 else n
  {
    if Short(src, n) then CString(src) + Zeros(n + 1 - StrLen(src)) else src[..n]
  }

  /** strncpy */
  method Strncpy(mem: array<byte>, d: nat, src: seq<byte>, n: nat)
    requires Readable(src, n) && d + |Padded(src, n)| <= mem.Length
    modifies mem
    ensures mem[..] == Overlay(old(mem[..]), d, Padded(src, n))
  {
    hide Overlay, Padded;
    ghost var was, goal := mem[..], Overlay(mem[..], d, Padded(src, n));
    PaddedAt(src, n);
    var i, left := 0, n;
    while left > 0
      invariant 0 <= i <= n && i + left == n && i <= |src|
      invariant forall k :: 0 <= k < i ==> src[k] != 0
      invariant forall a :: d <= a < d + i ==> mem[a] == goal[a]
      invariant forall a :: 0 <= a < mem.Length && !(d <= a < d + i) ==> mem[a] == was[a]
    {
      ReadOn(src, n, i);
      mem[d + i] := src[i];
      i := i + 1;
      if src[i - 1] == 0 {
        break;
      }
      left := left - 1;
    }
    while left > 0
      invariant i + left == |Padded(src, n)|
      invariant left > 0 ==> Short(src, n) && StrLen(src) < i
      invariant forall a :: d <= a < d + i ==> mem[a] == goal[a]
      invariant forall a :: 0 <= a < mem.Length && !(d <= a < d + i) ==> mem[a] == was[a]
    {
      mem[d + i] := 0;
      i, left := i + 1, left - 1;
    }
  }

  lemma PaddedAt(src: seq<byte>, n: nat)
    requires Readable(src, n)
    ensures var t := Padded(src, n);
      && (Short(src, n) ==> forall k :: 0 <= k < |t| ==> t[k] == if k < StrLen(src) then src[k] else 0)
      && (!Short(src, n) ==> t == src[..n])
    ensures !Short(src, n) ==> n <= |src| && forall k :: 0 <= k < n ==> src[k] != 0
  {
  }

  /** Having seen no NUL in i bytes, the next one may be read; a NUL there ends the string. */
  lemma ReadOn(src: seq<byte>, n: nat, i: nat)
    requires Readable(src, n) && i < n && i <= |src| && forall k :: 0 <= k < i ==> src[k] != 0
    ensures i < |src|
    ensures src[i] == 0 ==> Short(src, n) && StrLen(src) == i
    ensures Terminated(src) ==> i <= StrLen(src)
  {
  }

  /** At most n characters of a string. */
  function Truncated(src: seq<byte>, n: nat): seq<byte>
    requires Terminated(src)
  {
    if StrLen(src) < n then CString(src) else src[..n]
  }

  /** A field of n + 1 bytes at f in a record m. */
  function Field(m: seq<byte>, f: nat, n: nat): seq<byte>
    requires f + n + 1 <= |m|
  {
    m[f..f + n + 1]
  }

  /**
   Called with the field size less one, strncpy stays inside the field. A field that held zeros, or whose last byte
   is cleared afterwards, then holds the string cut to n characters.
   */
  lemma FieldHoldsString(m: seq<byte>, f: nat, src: seq<byte>, n: nat)
    requires f + n + 1 <= |m| && Terminated(src)
    ensures f + |Padded(src, n)| <= f + n + 1
    ensures var r := Overlay(m, f, Padded(src, n));
      && SameOutside(m, r, f, n)
      && (m[f + n] == 0 ==> Terminated(Field(r, f, n)) && CString(Field(r, f, n)) == Truncated(src, n))
    ensures var r := Overlay(m, f, Padded(src, n))[f + n := 0];
      && SameOutside(m, r, f, n)
      && Terminated(Field(r, f, n)) && CString(Field(r, f, n)) == Truncated(src, n)
  {
    hide Overlay, Padded;
    PaddedAt(src, n);
    var r := Overlay(m, f, Padded(src, n));
    var end := if StrLen(src) < n then StrLen(src) else n;
    if m[f + n] == 0 {
      CutField(Field(r, f, n), src, n, end);
    }
    CutField(Field(r[f + n := 0], f, n), src, n, end);
  }

  /** create_process: the 32-byte name field at offset 8 of a zeroed record. */
  lemma ProcessName(size: nat, name: seq<byte>)
    requires 40 <= size && Terminated(name)
    ensures 8 + |Padded(name, 31)| <= 40
    ensures var r := Overlay(Zeros(size), 8, Padded(name, 31));
      && Terminated(r[8..40]) && CString(r[8..40]) == Truncated(name, 31)
      && forall a :: 0 <= a < size && !(8 <= a < 40) ==> r[a] == 0
  {
    hide Overlay, Padded, Truncated, CString;
    FieldHoldsString(Zeros(size), 8, name, 31);
    var r := Overlay(Zeros(size), 8, Padded(name, 31));
    assert Field(r, 8, 31) == r[8..40];
  }

  /**
   Called with the whole field size it writes one byte into the neighbour exactly when the string is shorter than
   that.
   */
  lemma WholeSizeOverruns(m: seq<byte>, f: nat, src: seq<byte>, n: nat)
    requires f + n + 1 <= |m| && Readable(src, n) && m[f + n] != 0
    ensures Overlay(m, f, Padded(src, n))[f + n] != m[f + n] <==> Short(src, n)
  {
  }

  ghost predicate SameOutside(m: seq<byte>, r: seq<byte>, f: nat, n: nat) {
    && |r| == |m|
    && forall a :: 0 <= a < |m| && !(f <= a <= f + n) ==> r[a] == m[a]
  }

  lemma CutField(field: seq<byte>, src: seq<byte>, n: nat, end: nat)
    requires Terminated(src) && end == if StrLen(src) < n then StrLen(src) else n
    requires |field| == n + 1 && field[end] == 0 && forall k :: 0 <= k < end ==> field[k] == src[k]
    ensures Terminated(field) && CString(field) == Truncated(src, n)
  {
  }

  // ----- strcmp

  /** Dictionary order on unsigned bytes. */
  predicate Before(a: seq<byte>, b: seq<byte>) {
    b != [] && (a == [] || a[0] < b[0] || (a[0] == b[0] && Before(a[1..], b[1..])))
  }

  lemma {:induction false} SharedPrefix(a: seq<byte>, b: seq<byte>, k: nat)
    requires k <= |a| && k <= |b| && a[..k] == b[..k]
    ensures Before(a, b) <==> Before(a[k..], b[k..])
    ensures a == b <==> a[k..] == b[k..]
  {
    assert a == a[..k] + a[k..] && b == b[..k] + b[k..];
    if k > 0 {
      assert a[0] == a[..k][0] == b[..k][0] == b[0];
      assert a[1..][..k - 1] == a[..k][1..] && b[1..][..k - 1] == b[..k][1..];
      SharedPrefix(a[1..], b[1..], k - 1);
      assert a[1..][k - 1..] == a[k..] && b[1..][k - 1..] == b[k..];
    }
  }

  /** a comes first exactly when it ends, or has the smaller byte, where the two first differ. */
  lemma {:induction false} BeforeExactly(a: seq<byte>, b: seq<byte>)
    ensures Before(a, b) <==> exists k :: DecidedAt(a, b, k)
  {
    if a != [] && b != [] && a[0] == b[0] {
      BeforeExactly(a[1..], b[1..]);
      if k: nat :| DecidedAt(a[1..], b[1..], k) {
        assert a[..k + 1] == [a[0]] + a[1..][..k] && b[..k + 1] == [b[0]] + b[1..][..k];
        assert DecidedAt(a, b, k + 1);
      }
      if k: nat :| DecidedAt(a, b, k) {
        assert k > 0;
        assert a[1..][..k - 1] == a[..k][1..] && b[1..][..k - 1] == b[..k][1..];
        assert DecidedAt(a[1..], b[1..], k - 1);
      }
    } else if b != [] && (a == [] || a[0] < b[0]) {
      assert DecidedAt(a, b, 0);
    } else if k: nat :| k > 0 && DecidedAt(a, b, k) {
      SharedFirst(a, b, k);
    }
  }

  lemma SharedFirst(a: seq<byte>, b: seq<byte>, k: nat)
    requires 0 < k <= |a| && k <= |b| && a[..k] == b[..k]
    ensures a[0] == b[0]
  {
    assert a[0] == a[..k][0];
  }

  predicate DecidedAt(a: seq<byte>, b: seq<byte>, k: nat) {
    k <= |a| && k < |b| && a[..k] == b[..k] && (k == |a| || a[k] < b[k])
  }

  /** strcmp: zero exactly for equal strings, otherwise the sign of the dictionary order. */
  method Strcmp(s: seq<byte>, t: seq<byte>) returns (r: int)
    requires Terminated(s) && Terminated(t)
    ensures r == 0 <==> CString(s) == CString(t)
    ensures r < 0 <==> Before(CString(s), CString(t))
    ensures r > 0 <==> Before(CString(t), CString(s))
  {
    var i := 0;
    while s[i] != 0 && s[i] == t[i]
      invariant i <= StrLen(s) && i <= StrLen(t)
      invariant forall k :: 0 <= k < i ==> s[k] == t[k]
      decreases StrLen(s) - i
    {
      i := i + 1;
    }
    r := s[i] as int - t[i] as int;
    ghost var a, b := CString(s), CString(t);
    assert a[..i] == b[..i];
    SharedPrefix(a, b, i);
    SharedPrefix(b, a, i);
    assert i < |a| ==> a[i..][0] == s[i];
    assert i < |b| ==> b[i..][0] == t[i];
  }

  lemma {:induction false} BeforeIsTransitive(a: seq<byte>, b: seq<byte>, c: seq<byte>)
    requires Before(a, b) && Before(b, c)
    ensures Before(a, c)
  {
    if a != [] && a[0] == b[0] == c[0] {
      BeforeIsTransitive(a[1..], b[1..], c[1..]);
    }
  }

  // ----- strstr

  /** needle occurs in hay at j. */
  predicate Occurs(hay: seq<byte>, needle: seq<byte>, j: nat) {
    j + |needle| <= |hay| && hay[j..j + |needle|] == needle
  }

  /** strstr: the first occurrence, or none if there is none. */
  method Strstr(haystack: seq<byte>, needle: seq<byte>) returns (r: Option<nat>)
    requires Terminated(haystack) && Terminated(needle)
    ensures r.Some? ==> Occurs(CString(haystack), CString(needle), r.value)
    ensures r.Some? ==> forall j: nat :: j < r.value ==> !Occurs(CString(haystack), CString(needle), j)
    ensures r.None? ==> forall j: nat :: !Occurs(CString(haystack), CString(needle), j)
  {
    if needle[0] == 0 {
      return Some(0);
    }
    ghost var hay, text := CString(haystack), CString(needle);
    var at := 0;
    while haystack[at] != 0
      invariant at <= |hay|
      invariant forall j: nat :: j < at ==> !Occurs(hay, text, j)
      decreases |hay| - at
    {
      var n := 0;
      while haystack[at + n] != 0 && needle[n] != 0 && haystack[at + n] == needle[n]
        invariant n <= |text| && at + n <= |hay|
        invariant forall k :: 0 <= k < n ==> haystack[at + k] == needle[k]
        decreases |text| - n
      {
        n := n + 1;
      }
      if needle[n] == 0 {
        return Some(at);
      }
      assert !Occurs(hay, text, at) by {
        assert at + |text| <= |hay| ==> hay[at..at + |text|][n] == haystack[at + n];
      }
      at := at + 1;
    }
    r := None;
  }
}
