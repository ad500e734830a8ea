/** memset, memcpy and memmove on one shared byte memory, with any overlap of the two regions. */
module MemoryCopy {
  import opened Words
  import opened Products

  /** Memory m after text is written at d. */
  function Overlay(m: seq<byte>, d: nat, text: seq<byte>): (r: seq<byte>)
    requires d + |text| <= |m|
    ensures |r| == |m|
    ensures forall a :: 0 <= a < |r| ==> r[a] == if d <= a < d + |text| then text[a - d] else m[a]
  {
    m[..d] + text + m[d + |text|..]
  }

  /** What a move promises: the destination holds the old source, and nothing else changes. */
  function Moved(m: seq<byte>, d: nat, s: nat, n: nat): seq<byte>
    requires d + n <= |m| && s + n <= |m|
  {
    Overlay(m, d, m[s..s + n])
  }

  /**
   The old source byte that the forward loop delivers at distance k: it runs into its own output after d - s bytes.
   */
  function Origin(d: nat, s: nat, k: nat): nat {
    if s < d then s + k % (d - s) else s + k
  }

  lemma OriginStep(d: nat, s: nat, k: nat)
    ensures !(s < d && d - s <= k) ==> Origin(d, s, k) == s + k
    ensures s < d && d - s <= k ==> Origin(d, s, k) == Origin(d, s, k - (d - s))
  {
    if s < d {
      if d - s <= k {
        WrappedRemainder(k - (d - s), d - s);
      } else {
        SmallRemainder(k, d - s);
      }
    }
  }

  /** It never lies beyond the source byte itself. */
  lemma OriginBounds(d: nat, s: nat, k: nat)
    ensures s <= Origin(d, s, k) <= s + k
    decreases k
  {
  }

  /** memset */
  method MemSet(mem: array<byte>, d: nat, c: int, n: nat)
    requires d + n <= mem.Length
    modifies mem
    ensures mem[..] == Overlay(old(mem[..]), d, seq(n, _ => c % 256))
  {
    hide Overlay;
    var i := 0;
    while i < n
      invariant 0 <= i <= n
      invariant forall a :: d <= a < d + i ==> mem[a] == c % 256
      invariant forall a :: 0 <= a < mem.Length && !(d <= a < d + i) ==> mem[a] == old(mem[a])
    {
      mem[d + i] := c % 256;
      i := i + 1;
    }
  }

  /** Memory m after a forward copy. */
  function CopiedForward(m: seq<byte>, d: nat, s: nat, n: nat): seq<byte>
    requires d + n <= |m| && s + n <= |m|
  {
    Overlay(m, d, seq(n, k requires 0 <= k < n => OriginBounds(d, s, k); m[Origin(d, s, k)]))
  }

  /** memcpy: always forward. */
  method MemCpy(mem: array<byte>, d: nat, s: nat, n: nat)
    requires d + n <= mem.Length && s + n <= mem.Length
    modifies mem
    ensures mem[..] == CopiedForward(old(mem[..]), d, s, n)
  {
    hide Origin, Overlay;
    ghost var was, goal := mem[..], CopiedForward(mem[..], d, s, n);
    var i := 0;
    while i < n
      invariant 0 <= i <= n
      invariant forall a :: d <= a < d + i ==> mem[a] == goal[a]
      invariant forall a :: 0 <= a < mem.Length && !(d <= a < d + i) ==> mem[a] == was[a]
    {
      OriginStep(d, s, i);
      mem[d + i] := mem[s + i];
      i := i + 1;
    }
  }

  /** memcpy does what memmove does, on every memory, exactly when the destination does not start inside the source. */
  lemma CopyIsMove(size: nat, d: nat, s: nat, n: nat)
    requires d + n <= size && s + n <= size
    ensures (forall m: seq<byte> | |m| == size :: CopiedForward(m, d, s, n) == Moved(m, d, s, n))
       <==> !(s < d < s + n)
  {
    if s < d < s + n {
      var m := OverlapDiffers(size, d, s, n);
    } else {
      forall m: seq<byte> | |m| == size ensures CopiedForward(m, d, s, n) == Moved(m, d, s, n) {
        CopyApart(m, d, s, n);
      }
    }
  }

  lemma CopyApart(m: seq<byte>, d: nat, s: nat, n: nat)
    requires d + n <= |m| && s + n <= |m| && !(s < d < s + n)
    ensures CopiedForward(m, d, s, n) == Moved(m, d, s, n)
  {
    hide Origin, Overlay;
    var r, t := CopiedForward(m, d, s, n), Moved(m, d, s, n);
    forall a | 0 <= a < |m| ensures r[a] == t[a] {
      if d <= a < d + n {
        OriginStep(d, s, a - d);
      }
    }
  }

  lemma OverlapDiffers(size: nat, d: nat, s: nat, n: nat) returns (m: seq<byte>)
    requires s < d < s + n && d + n <= size
    ensures |m| == size && CopiedForward(m, d, s, n) != Moved(m, d, s, n)
  {
    hide Origin, Overlay;
    m := seq(size, a => if a == d then 1 else 0);
    OriginStep(d, s, d - s);
    OriginStep(d, s, 0);
    assert CopiedForward(m, d, s, n)[d + (d - s)] == m[s] == 0;
    assert Moved(m, d, s, n)[d + (d - s)] == m[s + (d - s)] == 1;
  }

  /** memmove: forward when the destination is below the source, backward otherwise. */
  method MemMove(mem: array<byte>, d: nat, s: nat, n: nat)
    requires d + n <= mem.Length && s + n <= mem.Length
    modifies mem
    ensures mem[..] == Moved(old(mem[..]), d, s, n)
  {
    hide Overlay;
    ghost var was, goal := mem[..], Moved(mem[..], d, s, n);
    if d < s {
      var i := 0;
      while i < n
        invariant 0 <= i <= n
        invariant forall a :: d <= a < d + i ==> mem[a] == goal[a]
        invariant forall a :: 0 <= a < mem.Length && !(d <= a < d + i) ==> mem[a] == was[a]
      {
        mem[d + i] := mem[s + i];
        i := i + 1;
      }
    } else {
      var i := n;
      while i > 0
        invariant 0 <= i <= n
        invariant forall a :: d + i <= a < d + n ==> mem[a] == goal[a]
        invariant forall a :: 0 <= a < mem.Length && !(d + i <= a < d + n) ==> mem[a] == was[a]
      {
        mem[d + i - 1] := mem[s + i - 1];
        i := i - 1;
      }
    }
  }

  /** Moving a region away and back restores it, whatever the overlap. */
  lemma ThereAndBack(m: seq<byte>, d: nat, s: nat, n: nat)
    requires d + n <= |m| && s + n <= |m|
    ensures Moved(Moved(m, d, s, n), s, d, n)[s..s + n] == m[s..s + n]
  {
  }
}
