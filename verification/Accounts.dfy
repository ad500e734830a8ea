/** What the user table stands for: an ordered map from names to accounts, in the order of their uids. */
module Accounts {
  import opened FirstMatch
  import opened Words

  const MAX_USERS := 100
  const USERNAME_LENGTH := 32
  const PASSWORD_LENGTH := 64

  datatype Entry = Entry(name: seq<byte>, password: seq<byte>, admin: bool, uid: u32, gid: u32)

  datatype State = State(live: seq<Entry>, nextUid: u32)

  datatype Op = Init | Add(name: seq<byte>, password: seq<byte>, admin: bool) | Remove(name: seq<byte>)

  function NameOf(e: Entry): seq<byte> {
    e.name
  }

  /** The position of the first account with this name, or the length if there is none. */
  function Find(live: seq<Entry>, name: seq<byte>): nat {
    Position(live, NameOf, name)
  }

  predicate Has(live: seq<Entry>, name: seq<byte>) {
    Find(live, name) < |live|
  }

  predicate CanAdd(a: State, name: seq<byte>, password: seq<byte>) {
    && |a.live| < MAX_USERS && |name| < USERNAME_LENGTH && |password| < PASSWORD_LENGTH && !Has(a.live, name)
  }

  function NewEntry(uid: u32, name: seq<byte>, password: seq<byte>, admin: bool): Entry {
    Entry(name, password, admin, uid, if admin then 0 else 1000)
  }

  /** The list after the first account with this name, if any, is cut out. */
  function Dropped(live: seq<Entry>, name: seq<byte>): seq<Entry> {
    var i := Find(live, name);
    if i < |live| then live[..i] + live[i + 1..] else live
  }

  function Apply(a: State, op: Op): State {
    match op
    case Init => a.(live := [])
    case Add(name, password, admin) =>
      if CanAdd(a, name, password) then
        State(a.live + [NewEntry(a.nextUid, name, password, admin)], Add32(a.nextUid, 1))
      else a
    case Remove(name) => a.(live := Dropped(a.live, name))
  }

  function Run(a: State, ops: seq<Op>): State
    decreases |ops|
  {
    if ops == [] then a else Run(Apply(a, ops[0]), ops[1..])
  }

  // ----- The map

  ghost predicate Distinct(live: seq<Entry>) {
    forall i, j :: 0 <= i < j < |live| ==> live[i].name != live[j].name
  }

  /** The map from names to accounts. */
  function AsMap(live: seq<Entry>): map<seq<byte>, Entry> {
    if live == [] then map[] else AsMap(live[1..])[live[0].name := live[0]]
  }

  /** What each operation does to the map. */
  function MapApply(m: map<seq<byte>, Entry>, nextUid: u32, op: Op): map<seq<byte>, Entry> {
    match op
    case Init => map[]
    case Add(name, password, admin) =>
      if |m| < MAX_USERS && |name| < USERNAME_LENGTH && |password| < PASSWORD_LENGTH && name !in m then
        m[name := NewEntry(nextUid, name, password, admin)]
      else m
    case Remove(name) => m - {name}
  }

  /** The linear search is the lookup in the map. */
  lemma {:induction false} FindIsLookup(live: seq<Entry>, name: seq<byte>)
    ensures Has(live, name) <==> name in AsMap(live)
    ensures Has(live, name) ==> AsMap(live)[name] == live[Find(live, name)]
  {
    if live != [] {
      FindIsLookup(live[1..], name);
    }
  }

  lemma {:induction false} MapCount(live: seq<Entry>)
    requires Distinct(live)
    ensures |AsMap(live)| == |live|
  {
    if live != [] {
      MapCount(live[1..]);
      FindIsLookup(live[1..], live[0].name);
      var m := AsMap(live[1..]);
      assert m[live[0].name := live[0]].Keys == m.Keys + {live[0].name};
    }
  }

  lemma {:induction false} AppendIsInsert(live: seq<Entry>, e: Entry)
    requires e.name !in AsMap(live)
    ensures AsMap(live + [e]) == AsMap(live)[e.name := e]
  {
    if live == [] {
      assert [e][1..] == [] && live + [e] == [e];
    } else {
      AppendIsInsert(live[1..], e);
      assert (live + [e])[1..] == live[1..] + [e];
    }
  }

  /** The accounts with another name, in their order. */
  function Without(live: seq<Entry>, name: seq<byte>): seq<Entry> {
    if live == [] then []
    else (if live[0].name == name then [] else [live[0]]) + Without(live[1..], name)
  }

  lemma {:induction false} FilterIsRemoval(live: seq<Entry>, name: seq<byte>)
    ensures AsMap(Without(live, name)) == AsMap(live) - {name}
  {
    if live != [] {
      FilterIsRemoval(live[1..], name);
      var rest := Without(live[1..], name);
      if live[0].name != name {
        assert ([live[0]] + rest)[1..] == rest;
      } else {
        assert [] + rest == rest;
      }
    }
  }

  lemma {:induction false} FilterOfOthers(live: seq<Entry>, name: seq<byte>)
    requires forall i :: 0 <= i < |live| ==> live[i].name != name
    ensures Without(live, name) == live
  {
    if live != [] {
      FilterOfOthers(live[1..], name);
    }
  }

  /** Removal keeps the others in their order: it is the filter on the name. */
  lemma {:induction false} DropIsFilter(live: seq<Entry>, name: seq<byte>)
    requires Distinct(live)
    ensures Dropped(live, name) == Without(live, name)
  {
    hide Dropped;
    DropStep(live, name);
    if live != [] {
      var rest := live[1..];
      assert forall i :: 0 <= i < |rest| ==> rest[i] == live[i + 1];
      if live[0].name == name {
        FilterOfOthers(rest, name);
      } else {
        DropIsFilter(rest, name);
      }
    }
  }

  lemma DropStep(live: seq<Entry>, name: seq<byte>)
    ensures Dropped(live, name) ==
      if live == [] then []
      else if live[0].name == name then live[1..]
      else [live[0]] + Dropped(live[1..], name)
  {
    if live != [] && live[0].name != name && Has(live[1..], name) {
      CutBehindFirst(live, Find(live[1..], name));
    }
  }

  lemma CutBehindFirst(live: seq<Entry>, i: nat)
    requires i + 1 < |live|
    ensures live[..i + 1] + live[i + 2..] == [live[0]] + (live[1..][..i] + live[1..][i + 1..])
  {
  }

  /** Every operation, refused ones included, keeps the names distinct and does to the map what it should. */
  lemma ApplyRefinesMap(a: State, op: Op)
    requires Distinct(a.live)
    ensures Distinct(Apply(a, op).live)
    ensures AsMap(Apply(a, op).live) == MapApply(AsMap(a.live), a.nextUid, op)
  {
    hide AsMap, Without, Find;
    MapCount(a.live);
    match op
    case Init => NothingMapped();
    case Add(name, password, admin) =>
      FindIsLookup(a.live, name);
      if CanAdd(a, name, password) {
        AppendIsInsert(a.live, NewEntry(a.nextUid, name, password, admin));
        NotFound(a.live, name);
      }
    case Remove(name) =>
      DropIsFilter(a.live, name);
      FilterIsRemoval(a.live, name);
  }

  lemma NothingMapped()
    ensures AsMap([]) == map[]
  {
  }

  lemma NotFound(live: seq<Entry>, name: seq<byte>)
    ensures !Has(live, name) ==> forall j :: 0 <= j < |live| ==> live[j].name != name
  {
  }

  /** An account stays as it is, password included, until it is removed or the table is reset. */
  lemma {:induction false} AccountLasts(a: State, ops: seq<Op>, name: seq<byte>)
    requires Distinct(a.live) && name in AsMap(a.live)
    requires forall op :: op in ops ==> !op.Init? && op != Remove(name)
    ensures name in AsMap(Run(a, ops).live) && AsMap(Run(a, ops).live)[name] == AsMap(a.live)[name]
    decreases |ops|
  {
    hide AsMap, Apply, Distinct;
    if ops != [] {
      ApplyRefinesMap(a, ops[0]);
      assert ops[0] in ops;
      AccountLasts(Apply(a, ops[0]), ops[1..], name);
    }
  }

  /** An add succeeds exactly for a new name, with room in the table, for a name and a password, and their NULs. */
  lemma CanAddExactly(a: State, name: seq<byte>, password: seq<byte>)
    requires Distinct(a.live)
    ensures CanAdd(a, name, password) <==>
      |AsMap(a.live)| < 100 && |name| < 32 && |password| < 64 && name !in AsMap(a.live)
  {
    hide AsMap, Find;
    MapCount(a.live);
    FindIsLookup(a.live, name);
  }

  /**
   After a successful add the account has the password, the role and the group given, and the next uid, until it is
   removed or the table is reset.
   */
  lemma AddedStays(a: State, name: seq<byte>, password: seq<byte>, admin: bool, ops: seq<Op>)
    requires Distinct(a.live) && CanAdd(a, name, password)
    requires forall op :: op in ops ==> !op.Init? && op != Remove(name)
    ensures var m := AsMap(Run(Apply(a, Add(name, password, admin)), ops).live);
      && name in m && m[name].name == name && m[name].password == password && m[name].uid == a.nextUid
      && m[name].admin == admin && m[name].gid == if admin then 0 else 1000
  {
    hide AsMap, Find, Distinct;
    var op := Add(name, password, admin);
    CanAddExactly(a, name, password);
    ApplyRefinesMap(a, op);
    AccountLasts(Apply(a, op), ops, name);
  }

  // ----- Uids

  /** Uids increase along the array and none of them is up for issue again. */
  ghost predicate Ordered(a: State) {
    && (forall i, j :: 0 <= i < j < |a.live| ==> a.live[i].uid < a.live[j].uid)
    && (forall i :: 0 <= i < |a.live| ==> a.live[i].uid < a.nextUid)
  }

  /** A step keeps the order, except the successful add that takes the last uid there is. */
  lemma ApplyKeepsOrdered(a: State, op: Op)
    requires Ordered(a)
    ensures Ordered(Apply(a, op)) <==> !(op.Add? && CanAdd(a, op.name, op.password) && a.nextUid == 0xFFFF_FFFF)
  {
    hide Find;
    if op.Add? && CanAdd(a, op.name, op.password) {
      var b := Apply(a, op);
      assert b.live[|a.live|].uid == a.nextUid;
    }
  }

  /** The order of the uids alone. */
  ghost predicate Increasing(live: seq<Entry>) {
    forall i, j :: 0 <= i < j < |live| ==> live[i].uid < live[j].uid
  }

  /**
   A step keeps the order of the uids exactly when it adds nothing, or the counter stands above the last uid listed.
   */
  lemma ApplyKeepsIncreasing(a: State, op: Op)
    requires Increasing(a.live)
    ensures Increasing(Apply(a, op).live) <==>
      (Issues(a, op) && a.live != [] ==> a.live[|a.live| - 1].uid < a.nextUid)
  {
    hide Find;
    var n, b := |a.live|, Apply(a, op).live;
    if Issues(a, op) && n > 0 {
      assert b[n].uid == a.nextUid && b[n - 1] == a.live[n - 1];
    }
  }

  predicate Issues(a: State, op: Op) {
    op.Add? && CanAdd(a, op.name, op.password)
  }

  /** The uids that a run issues, in order. */
  function Issued(a: State, ops: seq<Op>): seq<u32>
    decreases |ops|
  {
    if ops == [] then []
    else (if Issues(a, ops[0]) then [a.nextUid] else []) + Issued(Apply(a, ops[0]), ops[1..])
  }

  lemma Counter(a: State, op: Op)
    ensures Apply(a, op).nextUid == if Issues(a, op) then Add32(a.nextUid, 1) else a.nextUid
  {
  }

  /**
   Over any run in which the counter does not wrap: the array stays an ordered map, and the uids issued are
   consecutive and new, whatever was removed, refused or reset in between.
   */
  lemma {:induction false} RunKeepsOrderedMap(a: State, ops: seq<Op>)
    requires Distinct(a.live) && Ordered(a) && a.nextUid + |Issued(a, ops)| < WORD
    ensures var b := Run(a, ops); Distinct(b.live) && Ordered(b) && b.nextUid == a.nextUid + |Issued(a, ops)|
    ensures forall k :: 0 <= k < |Issued(a, ops)| ==> Issued(a, ops)[k] == a.nextUid + k
    decreases |ops|
  {
    hide Distinct, Ordered, Apply, CanAdd;
    if ops != [] {
      ApplyRefinesMap(a, ops[0]);
      KeptInRange(a, ops[0]);
      Counter(a, ops[0]);
      RunKeepsOrderedMap(Apply(a, ops[0]), ops[1..]);
    }
  }

  lemma KeptInRange(a: State, op: Op)
    requires Ordered(a) && (Issues(a, op) ==> a.nextUid < 0xFFFF_FFFF)
    ensures Ordered(Apply(a, op))
  {
    ApplyKeepsOrdered(a, op);
  }

  /** The uids of any run are consecutive, starting over at 0 behind the last one. */
  lemma {:induction false} IssuedAt(a: State, ops: seq<Op>, k: nat)
    requires k < |Issued(a, ops)|
    ensures Issued(a, ops)[k] == (a.nextUid + k) % WORD
    decreases |ops|
  {
    hide Apply, Issues;
    Counter(a, ops[0]);
    var next := Apply(a, ops[0]);
    if !Issues(a, ops[0]) {
      assert Issued(a, ops) == Issued(next, ops[1..]);
      IssuedAt(next, ops[1..], k);
    } else if k > 0 {
      IssuedAt(next, ops[1..], k - 1);
      assert Issued(a, ops)[k] == Issued(next, ops[1..])[k - 1];
    }
  }

  /** No uid is issued twice in a run, whatever it removes or resets, exactly while it issues at most 2^32 of them. */
  lemma NeverReused(a: State, ops: seq<Op>)
    ensures (forall i, j :: 0 <= i < j < |Issued(a, ops)| ==> Issued(a, ops)[i] != Issued(a, ops)[j])
       <==> |Issued(a, ops)| <= WORD
  {
    hide Issued;
    var r := Issued(a, ops);
    if |r| <= WORD {
      forall i, j | 0 <= i < j < |r| ensures r[i] != r[j] {
        IssuedAt(a, ops, i);
        IssuedAt(a, ops, j);
      }
    } else {
      IssuedAt(a, ops, 0);
      IssuedAt(a, ops, WORD);
    }
  }

  /** And until the counter wraps none is issued that somebody held when the run began. */
  lemma NeverTaken(a: State, ops: seq<Op>, i: nat)
    requires Distinct(a.live) && Ordered(a) && a.nextUid + |Issued(a, ops)| < WORD
    requires i < |Issued(a, ops)|
    ensures forall e :: e in a.live ==> e.uid < Issued(a, ops)[i]
  {
    RunKeepsOrderedMap(a, ops);
  }

  /** The array holds nothing beyond the map: two ordered arrays with the same accounts are equal. */
  lemma {:induction false} OrderIsDetermined(a: seq<Entry>, b: seq<Entry>, top: u32)
    requires Ordered(State(a, top)) && Ordered(State(b, top))
    requires forall e :: e in a <==> e in b
    ensures a == b
  {
    hide Ordered;
    if |a| > 0 && |b| > 0 {
      var m, n := |a| - 1, |b| - 1;
      LastIsLargest(a, top);
      LastIsLargest(b, top);
      assert a[m] in b && b[n] in a;
      OrderIsDetermined(a[..m], b[..n], top);
      assert a == a[..m] + [a[m]] && b == b[..n] + [b[n]];
    } else if |a| > 0 {
      SomeMember(a);
    } else if |b| > 0 {
      SomeMember(b);
    }
  }

  lemma LastIsLargest(a: seq<Entry>, top: u32)
    requires Ordered(State(a, top)) && |a| > 0
    ensures var m := |a| - 1;
      && Ordered(State(a[..m], top))
      && (forall e :: e in a && e != a[m] ==> e.uid < a[m].uid)
      && (forall e :: e in a[..m] <==> e in a && e != a[m])
  {
    var m := |a| - 1;
    assert a == a[..m] + [a[m]];
  }

  lemma SomeMember(a: seq<Entry>)
    requires |a| > 0
    ensures exists e :: e in a
  {
    assert a[0] in a;
  }
}
