/**
 The block-sized heap buffers that reads of fs/ext2.c use: `ext2_sync_direct_blocks` gives its
 buffer back, the buffers of the two indirect functions are never freed.
 */
module BlockBuffers {
  /** One `kmalloc` of a block: kept for ever, or given back before the next one. */
  datatype Use = Keep | Work

  /** How many buffers the heap has room for afterwards, out of `room`; -1 once it had none to give. */
  function After(room: int, us: seq<Use>): (left: int)
    ensures left == -1 || 0 <= left <= room
  {
    if us == [] then if room < 0 then -1 else room
    else if room < 1 then -1
    else After(if us[0].Keep? then room - 1 else room, us[1..])
  }

  /** What a read through one pointer block uses: that block's buffer, then the one for the data. */
  function ThroughPointers(): seq<Use> {
    [Keep, Work]
  }

  lemma AfterFirst(room: int, us: seq<Use>)
    ensures After(room, [Work]) == if room < 1 then -1 else room
    ensures After(room, ThroughPointers()) == if room < 2 then -1 else room - 1
    ensures After(room, [Keep] + us) == if room < 1 then -1 else After(room - 1, us)
    ensures room < 0 ==> After(room, us) == -1
    ensures room >= 0 ==> After(room, []) == room
  {
    assert ([Keep] + us)[1..] == us && [Keep, Work] == [Keep] + [Work] && [Work][1..] == [];
    assert ([Keep] + [Work])[1..] == [Work];
    assert After(room - 1, [Work]) == if room < 2 then -1 else After(room - 1, []);
  }

  function Kept(us: seq<Use>): nat {
    if us == [] then 0 else (if us[0].Keep? then 1 else 0) + Kept(us[1..])
  }

  /** The buffers kept, and the last one if that is only worked with. */
  function Needs(us: seq<Use>): nat {
    Kept(us) + if us != [] && us[|us| - 1].Work? then 1 else 0
  }

  /** All are served exactly if the heap has room for the buffers kept and the working one. */
  lemma {:induction false} ServedIff(room: nat, us: seq<Use>)
    ensures After(room, us) >= 0 <==> Needs(us) <= room
    ensures After(room, us) >= 0 ==> After(room, us) == room - Kept(us)
    decreases |us|
  {
    if us != [] && room > 0 {
      ServedIff(if us[0].Keep? then room - 1 else room, us[1..]);
      assert |us| > 1 ==> us[1..][|us| - 2] == us[|us| - 1];
    } else if us != [] {
      SomeNeeded(us);
    }
  }

  lemma {:induction false} SomeNeeded(us: seq<Use>)
    requires us != []
    ensures Needs(us) > 0
    decreases |us|
  {
    if us[0].Work? && |us| > 1 {
      SomeNeeded(us[1..]);
      assert us[1..][|us| - 2] == us[|us| - 1];
    }
  }

  lemma {:induction false} AfterBoth(room: int, a: seq<Use>, b: seq<Use>)
    ensures After(room, a + b) == After(After(room, a), b)
    decreases |a|
  {
    if a == [] {
      assert a + b == b;
      if room < 0 {
        AfterFirst(room, b);
      }
    } else {
      assert (a + b)[0] == a[0] && (a + b)[1..] == a[1..] + b;
      if room >= 1 {
        AfterBoth(if a[0].Keep? then room - 1 else room, a[1..], b);
      }
    }
  }

  lemma {:induction false} KeptBoth(a: seq<Use>, b: seq<Use>)
    ensures Kept(a + b) == Kept(a) + Kept(b)
    decreases |a|
  {
    if a == [] {
      assert a + b == b;
    } else {
      assert (a + b)[0] == a[0] && (a + b)[1..] == a[1..] + b;
      KeptBoth(a[1..], b);
    }
  }
}
