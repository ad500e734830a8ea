/** The linear search by name that both tables are built on. */
module FirstMatch {
  import opened Words

  /** The position of the first element with this name, or the length if there is none. */
  function Position<T>(xs: seq<T>, key: T -> seq<byte>, name: seq<byte>): (i: nat)
    ensures i <= |xs| && (i < |xs| ==> key(xs[i]) == name)
    ensures forall j :: 0 <= j < i ==> key(xs[j]) != name
  {
    if xs == [] || key(xs[0]) == name then 0 else 1 + Position(xs[1..], key, name)
  }

  lemma PositionIs<T>(xs: seq<T>, key: T -> seq<byte>, name: seq<byte>, i: nat)
    requires i <= |xs| && (i < |xs| ==> key(xs[i]) == name)
    requires forall j :: 0 <= j < i ==> key(xs[j]) != name
    ensures Position(xs, key, name) == i
  {
  }

  lemma {:induction false} PositionInConcat<T>(a: seq<T>, b: seq<T>, key: T -> seq<byte>, name: seq<byte>)
    ensures Position(a + b, key, name) ==
      if Position(a, key, name) < |a| then Position(a, key, name) else |a| + Position(b, key, name)
  {
    if a == [] {
      assert a + b == b;
    } else {
      assert (a + b)[1..] == a[1..] + b;
      PositionInConcat(a[1..], b, key, name);
    }
  }
}
