/** The table of user records that add_user, remove_user, authenticate_user and get_user work on. */
module Users {
  import opened Words
  import opened CStrings
  import opened FirstMatch
  import opened MemoryCopy
  import opened Shifting
  import opened Strings
  import opened Accounts

  /** One record; the two names are fixed buffers of C strings. */
  datatype User = User(username: seq<byte>, password: seq<byte>, isAdmin: bool, uid: u32, gid: u32)

  ghost predicate Sized(u: User) {
    |u.username| == USERNAME_LENGTH && |u.password| == PASSWORD_LENGTH
  }

  ghost predicate Live(u: User) {
    Sized(u) && Terminated(u.username) && Terminated(u.password)
  }

  ghost function EntryOf(u: User): Entry
    requires Live(u)
  {
    Entry(CString(u.username), CString(u.password), u.isAdmin, u.uid, u.gid)
  }

  ghost function Entries(us: seq<User>): (s: seq<Entry>)
    requires forall u :: u in us ==> Live(u)
  {
    seq(|us|, i requires 0 <= i < |us| => EntryOf(us[i]))
  }

  /** After strcpy a buffer holds the string. */
  lemma HoldsString(buffer: seq<byte>, text: seq<byte>)
    requires Terminated(text) && StrLen(text) < |buffer|
    ensures var r := Overlay(buffer, 0, CString(text) + [0]); Terminated(r) && CString(r) == CString(text)
  {
    var r := Overlay(buffer, 0, CString(text) + [0]);
    assert r[StrLen(text)] == 0;
    StrLenIs(r, StrLen(text));
  }

  /** The assignments of add_user to the slot behind the last record. */
  method FillUser(slot: User, username: seq<byte>, password: seq<byte>, isAdmin: bool, uid: u32) returns (u: User)
    requires Sized(slot) && Terminated(username) && Terminated(password)
    requires StrLen(username) < USERNAME_LENGTH && StrLen(password) < PASSWORD_LENGTH
    ensures Live(u) && EntryOf(u) == NewEntry(uid, CString(username), CString(password), isAdmin)
  {
    hide CString, Overlay;
    var name := Buffer(slot.username);
    Strcpy(name, 0, username);
    HoldsString(slot.username, username);
    var secret := Buffer(slot.password);
    Strcpy(secret, 0, password);
    HoldsString(slot.password, password);
    u := User(name[..], secret[..], isAdmin, uid, if isAdmin then 0 else 1000);
  }

  class UserTable {
    const users: array<User>
    var userCount: nat
    var nextUid: u32

    ghost predicate Valid()
      reads this, users
    {
      && users.Length == MAX_USERS && userCount <= MAX_USERS
      && (forall i :: 0 <= i < MAX_USERS ==> Sized(users[i]))
      && (forall i :: 0 <= i < userCount ==> Live(users[i]))
    }

    /** The accounts in the table and the uid up for issue. */
    ghost function View(): State
      requires Valid()
      reads this, users
    {
      State(Entries(users[..userCount]), nextUid)
    }

    constructor ()
      ensures Valid() && fresh(users) && View() == State([], 1000)
    {
      var blank := User(Zeros(USERNAME_LENGTH), Zeros(PASSWORD_LENGTH), false, 0, 0);
      users := new User[MAX_USERS](_ => blank);
      userCount, nextUid := 0, 1000;
    }

    /** user_init: the next uid is not reset. */
    method Init()
      requires Valid()
      modifies this
      ensures Valid() && View() == Apply(old(View()), Op.Init)
    {
      userCount := 0;
    }

    /** The search loop that every operation starts with. */
    method IndexOf(username: seq<byte>) returns (i: nat)
      requires Valid() && Terminated(username)
      ensures i == Find(View().live, CString(username)) <= userCount
    {
      ghost var live, name := View().live, CString(username);
      i := 0;
      while i < userCount
        invariant i <= userCount
        invariant forall j :: 0 <= j < i ==> live[j].name != name
      {
        assert live[i] == EntryOf(users[i]);
        var order := Strcmp(users[i].username, username);
        if order == 0 {
          break;
        }
        i := i + 1;
      }
      PositionIs(live, NameOf, name, i);
    }

    method AddUser(username: seq<byte>, password: seq<byte>, isAdmin: bool) returns (ok: bool)
      requires Valid() && Terminated(username) && Terminated(password)
      modifies this, users
      ensures Valid() && View() == Apply(old(View()), Add(CString(username), CString(password), isAdmin))
      ensures ok <==> CanAdd(old(View()), CString(username), CString(password))
    {
      hide Find, CString, EntryOf;
      if userCount >= MAX_USERS {
        return false;
      }
      var n := Strlen(username);
      if n >= USERNAME_LENGTH {
        return false;
      }
      n := Strlen(password);
      if n >= PASSWORD_LENGTH {
        return false;
      }
      var i := IndexOf(username);
      if i < userCount {
        return false;
      }
      users[userCount] := FillUser(users[userCount], username, password, isAdmin, nextUid);
      nextUid := Add32(nextUid, 1);
      userCount := userCount + 1;
      return true;
    }

    method RemoveUser(username: seq<byte>) returns (ok: bool)
      requires Valid() && Terminated(username)
      modifies this, users
      ensures Valid() && View() == Apply(old(View()), Remove(CString(username)))
      ensures ok <==> Has(old(View()).live, CString(username))
    {
      hide Find, EntryOf, Sized;
      var i := IndexOf(username);
      if i == userCount {
        return false;
      }
      ghost var was := users[..];
      ShiftDown(users, i, userCount);
      Gap(was, i, userCount, users[..]);
      userCount := userCount - 1;
      return true;
    }

    /** authenticate_user: the map holds this name with this password. */
    method AuthenticateUser(username: seq<byte>, password: seq<byte>) returns (ok: bool)
      requires Valid() && Terminated(username) && Terminated(password)
      ensures var m := AsMap(View().live); var name := CString(username);
        ok <==> name in m && m[name].password == CString(password)
    {
      hide AsMap, Find;
      var i := IndexOf(username);
      FindIsLookup(View().live, CString(username));
      if i < userCount {
        assert View().live[i] == EntryOf(users[i]);
        var order := Strcmp(users[i].password, password);
        return order == 0;
      }
      return false;
    }

    /** get_user: the index of the record, or none. */
    method GetUser(username: seq<byte>) returns (r: Option<nat>)
      requires Valid() && Terminated(username)
      ensures var m := AsMap(View().live); var name := CString(username);
        && (r.None? <==> name !in m)
        && (r.Some? ==> r.value < userCount && EntryOf(users[r.value]) == m[name])
    {
      hide AsMap, Find;
      var i := IndexOf(username);
      FindIsLookup(View().live, CString(username));
      if i < userCount {
        assert View().live[i] == EntryOf(users[i]);
        return Some(i);
      }
      return None;
    }
  }

  /** Closing the gap cuts the entry out. */
  lemma Gap(was: seq<User>, i: nat, n: nat, now: seq<User>)
    requires i < n <= |was| == |now| && now[..n - 1] == was[..i] + was[i + 1..n] && now[n - 1..] == was[n - 1..]
    requires (forall k :: 0 <= k < |was| ==> Sized(was[k])) && forall k :: 0 <= k < n ==> Live(was[k])
    ensures forall k :: 0 <= k < |now| ==> Sized(now[k])
    ensures forall k :: 0 <= k < n - 1 ==> Live(now[k])
    ensures Entries(now[..n - 1]) == Entries(was[..n])[..i] + Entries(was[..n])[i + 1..]
  {
    hide Sized, Live, EntryOf;
    forall k | 0 <= k < |now| ensures now[k] == was[if i <= k < n - 1 then k + 1 else k] {
      if k < n - 1 {
        assert now[k] == now[..n - 1][k];
      } else {
        assert now[k] == now[n - 1..][k - (n - 1)];
      }
    }
  }
}
