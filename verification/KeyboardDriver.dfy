/**
 The keyboard state, its interrupt handler, and the reader that the handler may interrupt. Interrupts that
 arrive between two statements of the reader are passed to it as the bytes they deliver.
 */
module KeyboardDriver {
  import opened Words
  import opened Keyboard

  class KeyboardState {
    var flags: Flags
    var ledState: Leds
    var extendedScancode: bool
    const buffer: array<byte>
    var head: nat
    var tail: nat
    var count: nat
    ghost var accepted: seq<byte>   // every code put into the buffer so far
    ghost var consumed: nat         // how many of them have been taken out
    ghost var read: seq<byte>       // the codes handed to readers, in order

    /**
     The ring holds the codes accepted and not yet consumed, each in the slot its number gives. lag is 1 while
     a reader has moved the tail and not yet lowered the count.
     */
    ghost predicate Ring(lag: nat)
      reads this, buffer
    {
      && buffer.Length == SIZE && consumed + count == |accepted| && lag <= count <= SIZE
      && head == |accepted| % SIZE && tail == (consumed + lag) % SIZE
      && forall k :: consumed <= k < |accepted| ==> buffer[k % SIZE] == accepted[k]
    }

    ghost predicate Valid()
      reads this, buffer
    {
      Ring(0) && ReadInOrder() && ledState == LedsOf(flags)
    }

    /** What readers got is what was accepted, in order, from the start. */
    ghost predicate ReadInOrder()
      reads this
    {
      consumed <= |accepted| && read == accepted[..consumed]
    }

    /** keyboard_init */
    constructor ()
      ensures Valid() && fresh(buffer) && accepted == [] && flags == NO_FLAGS && count == 0
    {
      buffer := new byte[SIZE](_ => 0);
      flags, ledState, extendedScancode := NO_FLAGS, LedsOf(NO_FLAGS), false;
      head, tail, count := 0, 0, 0;
      accepted, consumed, read := [], 0, [];
    }

    /** Inside the handler, or between two statements of the reader. */
    method BufferPut(code: byte, ghost lag: nat)
      requires Ring(lag)
      modifies this`head, this`count, this`accepted, buffer
      ensures Ring(lag) && accepted == if old(count) < SIZE then old(accepted) + [code] else old(accepted)
    {
      if count < SIZE {
        forall k: nat | consumed <= k < |accepted|
          ensures k % SIZE != |accepted| % SIZE
        {
          SlotsDiffer(k, |accepted|);
        }
        NextSlot(|accepted|);
        buffer[head] := code;
        head := (head + 1) % SIZE;
        count := count + 1;
        accepted := accepted + [code];
      }
    }

    /** keyboard_handler for the byte read from the data port. */
    method Handler(data: byte, ghost lag: nat)
      requires Ring(lag) && ledState == LedsOf(flags)
      modifies this`flags, this`ledState, this`extendedScancode, this`head, this`count, this`accepted, buffer
      ensures Ring(lag) && ledState == LedsOf(flags)
      ensures flags == FlagsAfter(old(flags), data) && extendedScancode == (data == 0xE0)
      ensures accepted == old(accepted) + Accepted(old(count), [data])
    {
      AcceptedOne(count, data);
      if data == PREFIX {
        extendedScancode := true;
        return;
      }
      var released := data >= 128;
      var key := data % 128;
      var special := SpecialKey(key, released);
      if !special && !released {
        BufferPut(key, lag);
      }
      extendedScancode := false;
    }

    /** The switch of the handler on the key, but for its default branch. */
    method SpecialKey(key: byte, released: bool) returns (special: bool)
      requires ledState == LedsOf(flags)
      modifies this`flags, this`ledState
      ensures special <==> IsModifier(key)
      ensures flags == (if special then MoveFlag(old(flags), key, released) else old(flags))
      ensures ledState == LedsOf(flags)
    {
      special := true;
      if key == 0x2A || key == 0x36 {
        if released {
          flags := flags.(shift := false);
        } else {
          flags := flags.(shift := true);
        }
      } else if key == 0x1D {
        if released {
          flags := flags.(ctrl := false);
        } else {
          flags := flags.(ctrl := true);
        }
      } else if key == 0x38 {
        if released {
          flags := flags.(alt := false);
        } else {
          flags := flags.(alt := true);
        }
      } else if key == 0x3A {
        if !released {
          flags := flags.(capsLock := !flags.capsLock);
          UpdateLeds();
        }
      } else if key == 0x45 {
        if !released {
          flags := flags.(numLock := !flags.numLock);
          UpdateLeds();
        }
      } else if key == 0x46 {
        if !released {
          flags := flags.(scrollLock := !flags.scrollLock);
          UpdateLeds();
        }
      } else {
        special := false;
      }
    }

    method UpdateLeds()
      modifies this`ledState
      ensures ledState == LedsOf(flags)
    {
      ledState := Leds(flags.scrollLock, flags.numLock, flags.capsLock);
    }

    /** Any number of interrupts, each running to completion, delivering the bytes of data. */
    method Interrupts(data: seq<byte>, ghost lag: nat)
      requires Ring(lag) && ledState == LedsOf(flags)
      modifies this`flags, this`ledState, this`extendedScancode, this`head, this`count, this`accepted, buffer
      ensures Ring(lag) && ledState == LedsOf(flags)
      ensures flags == FlagsAfterAll(old(flags), data)
      ensures accepted == old(accepted) + Accepted(old(count), data)
    {
      var i := 0;
      while i < |data|
        invariant i <= |data| && Ring(lag) && ledState == LedsOf(flags)
        invariant flags == FlagsAfterAll(old(flags), data[..i])
        invariant accepted == old(accepted) + Accepted(old(count), data[..i])
      {
        assert data[..i + 1] == data[..i] + [data[i]];
        AcceptedConcat(old(count), data[..i], [data[i]]);
        assert data[..i + 1][..i] == data[..i];
        Handler(data[i], lag);
        i := i + 1;
      }
      assert data[..|data|] == data;
    }

    /**
     keyboard_buffer_get, with the bytes delivered by interrupts after the test, after the load, after the
     tail moves and after the count drops.
     */
    method BufferGet(afterTest: seq<byte>, afterLoad: seq<byte>, afterTail: seq<byte>, afterCount: seq<byte>)
      returns (code: byte)
      requires Valid()
      modifies this, buffer
      ensures Valid() && old(accepted) <= accepted
      ensures old(count) == 0 ==> code == 0 && unchanged(this) && unchanged(buffer)
      ensures old(count) > 0 ==>
        && code == old(accepted)[old(consumed)] && read == old(read) + [code]
        && flags == FlagsAfterAll(old(flags), afterTest + afterLoad + afterTail + afterCount)
        && var before := Accepted(old(count), afterTest + afterLoad + afterTail);
          accepted == old(accepted) + before + Accepted(old(count) + |before| - 1, afterCount)
    {
      if count > 0 {
        code := TakeCode(afterTest, afterLoad, afterTail);
        ghost var here := accepted;
        TakeOneMore(old(accepted), here, consumed, code);
        count := count - 1;
        consumed, read := consumed + 1, read + [code];
        Interrupts(afterCount, 0);
        TakeOneMore(here, accepted, consumed - 1, code);
        FlagsConcat(old(flags), afterTest + afterLoad + afterTail, afterCount);
        return code;
      }
      return 0;
    }

    /** The reader's statements up to the one that moves the tail, and the interrupts behind it. */
    method TakeCode(afterTest: seq<byte>, afterLoad: seq<byte>, afterTail: seq<byte>) returns (code: byte)
      requires Valid() && count > 0
      modifies this`flags, this`ledState, this`extendedScancode, this`head, this`tail, this`count, this`accepted, buffer
      ensures Ring(1) && ledState == LedsOf(flags)
      ensures code == old(accepted)[consumed]
      ensures flags == FlagsAfterAll(old(flags), afterTest + afterLoad + afterTail)
      ensures accepted == old(accepted) + Accepted(old(count), afterTest + afterLoad + afterTail)
    {
      hide Accepted, FlagsAfterAll;
      ghost var base := accepted;
      ThreeBatches(base, count, flags, afterTest, afterLoad, afterTail);
      Interrupts(afterTest, 0);
      code := buffer[tail];
      assert code == accepted[consumed] == base[consumed];
      Interrupts(afterLoad, 0);
      NextSlot(consumed);
      tail := (tail + 1) % SIZE;
      Interrupts(afterTail, 1);
    }

    /** keyboard_get_char; interrupts may also arrive before the two flags are read and between them. */
    method GetChar(afterEmpty: seq<byte>, inGet: (seq<byte>, seq<byte>, seq<byte>, seq<byte>),
                   beforeFlags: seq<byte>, betweenFlags: seq<byte>) returns (c: byte)
      requires Valid()
      modifies this, buffer
      ensures Valid() && old(accepted) <= accepted
      ensures old(count) == 0 ==> c == 0 && unchanged(this) && unchanged(buffer)
      ensures old(count) > 0 ==>
        var seen := afterEmpty + (inGet.0 + inGet.1 + inGet.2 + inGet.3) + beforeFlags;
        && read == old(read) + [old(accepted)[old(consumed)]]
        && c == Decode(old(accepted)[old(consumed)], FlagsAfterAll(old(flags), seen).shift,
                       FlagsAfterAll(old(flags), seen + betweenFlags).capsLock)
    {
      if count == 0 {
        return 0;
      }
      ghost var got := inGet.0 + inGet.1 + inGet.2 + inGet.3;
      FlagsConcat(flags, afterEmpty, got);
      FlagsConcat(flags, afterEmpty + got, beforeFlags);
      FlagsConcat(flags, afterEmpty + got + beforeFlags, betweenFlags);
      Interrupts(afterEmpty, 0);
      var code := BufferGet(inGet.0, inGet.1, inGet.2, inGet.3);
      Interrupts(beforeFlags, 0);
      var shift := flags.shift;
      Interrupts(betweenFlags, 0);
      var caps := flags.capsLock;
      return Decode(code, shift, caps);
    }
  }

  lemma SlotsDiffer(k: nat, n: nat)
    requires k < n < k + SIZE
    ensures k % SIZE != n % SIZE
  {
  }

  /** The first n codes and the next one are the first n + 1 codes of any longer history. */
  lemma TakeOneMore(a: seq<byte>, b: seq<byte>, n: nat, code: byte)
    requires n < |a| && a <= b && code == a[n]
    ensures a[..n] + [code] == b[..n + 1]
  {
  }

  lemma NextSlot(n: nat)
    ensures (n % SIZE + 1) % SIZE == (n + 1) % SIZE
  {
  }

  lemma ThreeBatches(base: seq<byte>, count: nat, flags: Flags, a: seq<byte>, b: seq<byte>, c: seq<byte>)
    ensures var x := Accepted(count, a);
      var y := Accepted(count + |x|, b);
      base + x + y + Accepted(count + |x| + |y|, c) == base + Accepted(count, a + b + c)
    ensures FlagsAfterAll(flags, a + b + c) == FlagsAfterAll(FlagsAfterAll(FlagsAfterAll(flags, a), b), c)
  {
    hide Accepted, FlagsAfterAll;
    var x := Accepted(count, a);
    var y := Accepted(count + |x|, b);
    AcceptedConcat(count, a, b);
    AcceptedConcat(count, a + b, c);
    assert base + x + y + Accepted(count + |x| + |y|, c) == base + (x + y + Accepted(count + |x| + |y|, c));
    FlagsConcat(flags, a, b);
    FlagsConcat(flags, a + b, c);
  }
}
