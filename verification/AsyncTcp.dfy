/**
 Two pieces of components/AsyncTCP/src/AsyncTCP.cpp: filtering the event queue by rotating it in
 place, and the table of closed slots that tells a stale connection handle from a live one.
 */
module AsyncTcp {
  import opened Wrappers

  // ---------- the event queue ----------

  /** A queued pointer: `addr` is the pointer, `arg` the field of the packet it points to. */
  datatype Packet = Packet(addr: nat, arg: nat)

  function Others(s: seq<Packet>, arg: nat): seq<Packet> {
    if s == [] then []
    else Others(s[..|s| - 1], arg) + (if s[|s| - 1].arg != arg then [s[|s| - 1]] else [])
  }

  function Matching(s: seq<Packet>, arg: nat): seq<Packet> {
    if s == [] then []
    else Matching(s[..|s| - 1], arg) + (if s[|s| - 1].arg == arg then [s[|s| - 1]] else [])
  }

  ghost predicate DistinctPointers(s: seq<Packet>) {
    forall i, j :: 0 <= i < j < |s| ==> s[i].addr != s[j].addr
  }

  lemma OneMore(s: seq<Packet>, i: nat, arg: nat)
    requires i < |s|
    ensures Others(s[..i + 1], arg) == Others(s[..i], arg) + (if s[i].arg != arg then [s[i]] else [])
    ensures Matching(s[..i + 1], arg) == Matching(s[..i], arg) + (if s[i].arg == arg then [s[i]] else [])
  {
    assert s[..i + 1][..i] == s[..i];
  }

  /** Nothing is lost or duplicated: each packet is either kept or freed. */
  lemma {:induction false} KeptOrFreed(s: seq<Packet>, arg: nat)
    ensures multiset(Others(s, arg)) + multiset(Matching(s, arg)) == multiset(s)
    ensures forall p :: p in Others(s, arg) <==> p in s && p.arg != arg
    ensures forall p :: p in Matching(s, arg) <==> p in s && p.arg == arg
    decreases |s|
  {
    if s != [] {
      var n := |s| - 1;
      KeptOrFreed(s[..n], arg);
      assert s == s[..n] + [s[n]];
    }
  }

  class EventQueue {
    var queue: seq<Packet>
    ghost var freed: seq<Packet>

    /** `_remove_events_with_arg`, with no other task using the queue meanwhile. */
    method RemoveEventsWithArg(arg: nat) returns (ok: bool)
      requires DistinctPointers(queue)
      modifies this
      ensures queue == Others(old(queue), arg)
      ensures freed == old(freed) + Matching(old(queue), arg)
      ensures ok == (queue != [])
    {
      hide Others, Matching;
      ghost var s, gone := queue, freed;
      ghost var i := 0;
      NothingYet(s, arg);
      assert gone + [] == gone;
      var first: Option<Packet> := None;
      while first.None?
        invariant i <= |s|
        invariant freed == gone + Matching(s[..i], arg)
        invariant first.None? ==> queue == s[i..] && Others(s[..i], arg) == []
        invariant first.Some? ==> i > 0 && queue == s[i..] + [s[i - 1]] && first.value == s[i - 1] &&
                                  Others(s[..i], arg) == [s[i - 1]]
        decreases |s| - i, first.None?
      {
        if queue == [] {
          assert s[..i] == s;
          return false;
        }
        var packet := queue[0];
        queue := queue[1..];
        OneMore(s, i, arg);
        i := i + 1;
        if packet.arg == arg {
          freed := freed + [packet];
        } else {
          queue := queue + [packet];
          first := Some(packet);
        }
      }
      ghost var k := i;
      while queue != [] && queue[0].addr != first.value.addr
        invariant k <= i <= |s|
        invariant freed == gone + Matching(s[..i], arg)
        invariant queue == s[i..] + Others(s[..i], arg) && (i < |s| ==> queue[0] == s[i])
        invariant Others(s[..i], arg) != [] && Others(s[..i], arg)[0] == first.value == s[k - 1]
        decreases |s| - i
      {
        var packet := queue[0];
        queue := queue[1..];
        OneMore(s, i, arg);
        i := i + 1;
        if packet.arg == arg {
          freed := freed + [packet];
        } else {
          queue := queue + [packet];
        }
      }
      assert s[..i] == s && s[i..] == [];
      ok := true;
    }

    lemma NothingYet(s: seq<Packet>, arg: nat)
      ensures Others(s[..0], arg) == [] && Matching(s[..0], arg) == []
    {
    }
  }

  // ---------- closed slots ----------

  const UINT32: nat := 0x1_0000_0000

  class AsyncClient {
    /** Index of the slot held, or -1. */
    var closedSlot: int

    constructor ()
      ensures closedSlot == -1
    {
      closedSlot := -1;
    }
  }

  class SlotTable {
    /** 0 while a connection holds the slot, else the stamp of its last release. */
    const slots: array<nat>
    var closedIndex: nat
    ghost var live: set<AsyncClient>

    /** A slot is 0 exactly when a live client holds it; no slot has two holders. */
    ghost predicate Consistent()
      reads this, slots, live
    {
      (forall c :: c in live ==> -1 <= c.closedSlot < slots.Length) &&
      (forall c :: c in live && c.closedSlot >= 0 ==> slots[c.closedSlot] == 0) &&
      (forall c, d :: c in live && d in live && c != d && c.closedSlot >= 0 ==> c.closedSlot != d.closedSlot) &&
      (forall i :: 0 <= i < slots.Length && slots[i] == 0 ==> Held(i))
    }

    ghost predicate Held(i: int)
      reads this, live
    {
      exists c :: c in live && c.closedSlot == i
    }

    /** Stamps were given out in the past, each to one release; 1 is also the initial value. */
    ghost predicate Stamped()
      reads this, slots
    {
      1 <= closedIndex < UINT32 &&
      (forall i :: 0 <= i < slots.Length ==> slots[i] <= 1 || slots[i] < closedIndex) &&
      (forall i, j :: 0 <= i < j < slots.Length && slots[i] > 1 ==> slots[i] != slots[j])
    }

    ghost predicate Valid()
      reads this, slots, live
    {
      Consistent() && Stamped()
    }

    constructor (n: nat)
      ensures Valid() && slots.Length == n && live == {} && fresh(slots)
      ensures closedIndex == 1 && forall i :: 0 <= i < n ==> slots[i] == 1
    {
      slots := new nat[n](_ => 1);
      closedIndex := 1;
      live := {};
    }

    /** `_allocate_closed_slot` in the constructor of a client. */
    method Allocate(c: AsyncClient)
      requires Valid() && c !in live && c.closedSlot == -1
      modifies this`live, slots, c
      ensures Valid() && live == old(live) + {c}
      ensures forall d :: d in old(live) ==> d.closedSlot == old(d.closedSlot)
      // It fails only when every slot is held.
      ensures c.closedSlot == -1 <==> forall i :: 0 <= i < slots.Length ==> old(slots[i]) == 0
      // The slot taken was free, and no free slot was released earlier; it is the last such slot.
      ensures var s := c.closedSlot;
              s >= 0 ==> old(slots[s]) != 0 && slots[..] == old(slots[..])[s := 0] &&
                         forall i :: 0 <= i < slots.Length && old(slots[i]) != 0 ==>
                           old(slots[s]) <= old(slots[i]) && (i > s ==> old(slots[s]) < old(slots[i]))
    {
      var minIndex := 0;
      var slot := -1;
      var i := 0;
      while i < slots.Length
        invariant 0 <= i <= slots.Length && -1 <= slot < i
        invariant slot == -1 ==> forall k :: 0 <= k < i ==> slots[k] == 0
        invariant slot >= 0 ==> minIndex == slots[slot] != 0 &&
                                forall k :: 0 <= k < i && slots[k] != 0 ==>
                                  minIndex <= slots[k] && (k > slot ==> minIndex < slots[k])
      {
        if (slot == -1 || slots[i] <= minIndex) && slots[i] != 0 {
          minIndex := slots[i];
          slot := i;
        }
        i := i + 1;
      }
      Take(c, slot);
    }

    method Take(c: AsyncClient, slot: int)
      requires Valid() && c !in live && c.closedSlot == -1
      requires -1 <= slot < slots.Length && (slot >= 0 ==> slots[slot] != 0)
      modifies this`live, slots, c
      ensures Valid() && live == old(live) + {c} && c.closedSlot == slot
      ensures forall d :: d in old(live) ==> d.closedSlot == old(d.closedSlot)
      ensures slots[..] == if slot >= 0 then old(slots[..])[slot := 0] else old(slots[..])
    {
      c.closedSlot := slot;
      if slot != -1 {
        slots[slot] := 0;
      }
      live := live + {c};
      assert forall i :: 0 <= i < slots.Length ==> slots[i] == if i == slot then 0 else old(slots[i]);
      forall i | 0 <= i < slots.Length && slots[i] == 0 ensures Held(i) {
        if i == slot {
          assert c in live && c.closedSlot == i;
        } else {
          assert old(slots[i]) == 0;
          var d :| d in old(live) && old(d.closedSlot) == i;
          assert d in live && d.closedSlot == i;
        }
      }
    }

    /** `_free_closed_slot`. The stamp is 32 bits wide: when it has wrapped to 0, the released
        slot stays marked as held although nobody holds it. */
    method Free(c: AsyncClient)
      requires Consistent() && c in live && closedIndex < UINT32
      requires closedIndex >= 1 ==> Stamped()
      modifies this`closedIndex, slots, c
      ensures c.closedSlot == -1
      ensures forall d :: d in live && d != c ==> d.closedSlot == old(d.closedSlot)
      ensures var s := old(c.closedSlot);
              if s == -1 then slots[..] == old(slots[..]) && closedIndex == old(closedIndex)
              else slots[..] == old(slots[..])[s := old(closedIndex)] &&
                   closedIndex == (old(closedIndex) + 1) % UINT32
      ensures old(closedIndex) >= 1 ==> Consistent() && (closedIndex >= 1 ==> Valid())
      ensures old(closedIndex) == 0 && old(c.closedSlot) >= 0 ==> !Consistent()
    {
      if c.closedSlot != -1 {
        slots[c.closedSlot] := closedIndex;
        c.closedSlot := -1;
        closedIndex := (closedIndex + 1) % UINT32;
      }
    }
  }
}
