/**
 The card store of main/main.cpp: accepted card UIDs and deactivated UIDs, each a list spread
 over numbered keys of one non-volatile key/value store. NVS calls are assumed to succeed.
 */
module UidStore {
  import opened Bytes
  import opened Decimals
  import opened Wrappers

  // ---------- numbered keys ----------

  /** The two lists that share the store. */
  datatype List = Cards | Deactivated

  function Prefix(w: List): string {
    match w
    case Cards => "uid_"
    case Deactivated => "deact_"
  }

  function CountKey(w: List): string {
    match w
    case Cards => "numUIDs"
    case Deactivated => "numDeactivated"
  }

  function Key(w: List, i: nat): string {
    Prefix(w) + Decimal(i)
  }

  /** The names that the stored cards of a lock in use have. */
  lemma KeyNames()
    ensures Key(Cards, 0) == "uid_0" && Key(Cards, 17) == "uid_17" && CountKey(Cards) == "numUIDs"
    ensures Key(Deactivated, 8) == "deact_8" && CountKey(Deactivated) == "numDeactivated"
  {
    assert Decimal(1) == "1" && Decimal(17) == Decimal(1) + "7";
  }

  lemma KeysDiffer(v: List, i: nat, w: List, j: nat)
    requires Key(v, i) == Key(w, j)
    ensures v == w && i == j
  {
    hide Decimal;
    assert Key(v, i)[0] == Key(w, j)[0];
    assert v == w;
    assert Key(v, i)[|Prefix(v)|..] == Decimal(i) && Key(w, j)[|Prefix(w)|..] == Decimal(j);
    DecimalInjective(i, j);
  }

  /** A key may be missing: the code tolerates such holes. */
  type Slots = seq<Option<string>>

  function Look(strs: map<string, string>, w: List, i: nat): Option<string> {
    if Key(w, i) in strs then Some(strs[Key(w, i)]) else None
  }

  ghost function SlotsOf(strs: map<string, string>, w: List, n: nat): Slots {
    seq(n, i requires 0 <= i < n => Look(strs, w, i))
  }

  /** No key at or beyond the count. */
  ghost predicate Tight(strs: map<string, string>, w: List, n: nat) {
    forall i :: n <= i ==> Key(w, i) !in strs
  }

  lemma AfterSet(strs: map<string, string>, v: List, i: nat, x: string, w: List, j: nat)
    ensures Look(strs[Key(v, i) := x], w, j) == if v == w && i == j then Some(x) else Look(strs, w, j)
  {
    if Key(v, i) == Key(w, j) {
      KeysDiffer(v, i, w, j);
    }
  }

  lemma AfterErase(strs: map<string, string>, v: List, i: nat, w: List, j: nat)
    ensures Look(strs - {Key(v, i)}, w, j) == if v == w && i == j then None else Look(strs, w, j)
  {
    if Key(v, i) == Key(w, j) {
      KeysDiffer(v, i, w, j);
    }
  }

  // ---------- the lists the keys stand for ----------

  function Entries(s: Slots): seq<string> {
    if s == [] then []
    else Entries(s[..|s| - 1]) + (if s[|s| - 1].Some? then [s[|s| - 1].value] else [])
  }

  function Kept(s: Slots, uid: string): seq<string> {
    if s == [] then []
    else
      var x := s[|s| - 1];
      Kept(s[..|s| - 1], uid) + (if x.Some? && x.value != uid then [x.value] else [])
  }

  function Filled(s: seq<string>): Slots {
    seq(|s|, i requires 0 <= i < |s| => Some(s[i]))
  }

  function Without(s: seq<string>, uid: string): seq<string> {
    if s == [] then []
    else Without(s[..|s| - 1], uid) + (if s[|s| - 1] != uid then [s[|s| - 1]] else [])
  }

  ghost function ToSet(s: seq<string>): set<string> {
    set x | x in s
  }

  lemma {:induction false} EntriesOfFilled(s: seq<string>)
    ensures Entries(Filled(s)) == s
    decreases |s|
  {
    if s != [] {
      var n := |s| - 1;
      assert Filled(s)[..n] == Filled(s[..n]);
      EntriesOfFilled(s[..n]);
      assert s == s[..n] + [s[n]];
    }
  }

  lemma {:induction false} KeptOfFilled(s: seq<string>, uid: string)
    ensures Kept(Filled(s), uid) == Without(s, uid)
    decreases |s|
  {
    if s != [] {
      var n := |s| - 1;
      assert Filled(s)[..n] == Filled(s[..n]);
      KeptOfFilled(s[..n], uid);
    }
  }

  lemma InWithout(s: seq<string>, uid: string)
    ensures forall x :: x in Without(s, uid) <==> x in s && x != uid
    decreases |s|
  {
    if s != [] {
      var n := |s| - 1;
      InWithout(s[..n], uid);
      assert s == s[..n] + [s[n]];
    }
  }

  /** Removing an element keeps the others, their order and their distinctness. */
  lemma {:induction false} WithoutFacts(s: seq<string>, uid: string)
    ensures ToSet(Without(s, uid)) == ToSet(s) - {uid}
    ensures uid !in s ==> Without(s, uid) == s
    ensures Distinct(s) ==> Distinct(Without(s, uid))
    decreases |s|
  {
    InWithout(s, uid);
    if s != [] {
      var n := |s| - 1;
      var p, r := s[..n], Without(s[..n], uid);
      WithoutFacts(p, uid);
      InWithout(p, uid);
      hide ToSet;
      assert s == p + [s[n]];
      if Distinct(s) {
        assert s[n] !in p;
        assert Distinct(p);
      }
    }
  }

  lemma {:induction false} WithoutAt(s: seq<string>, i: nat)
    requires Distinct(s) && i < |s|
    ensures Without(s, s[i]) == s[..i] + s[i + 1..]
    decreases |s|
  {
    hide ToSet, Distinct;
    var n := |s| - 1;
    var p := s[..n];
    LastIsNew(s);
    if i < n {
      WithoutAt(p, i);
      assert p[i] == s[i] && s[i + 1..] == p[i + 1..] + [s[n]];
      assert p[..i] == s[..i];
      Regroup(s[..i], p[i + 1..], [s[n]]);
    } else {
      WithoutFacts(p, s[n]);
      assert s[n + 1..] == [];
    }
  }

  lemma LastIsNew(s: seq<string>)
    requires Distinct(s) && s != []
    ensures Distinct(s[..|s| - 1]) && s[|s| - 1] !in s[..|s| - 1]
    ensures forall i :: 0 <= i < |s| - 1 ==> s[i] != s[|s| - 1]
  {
  }

  // ---------- what the two lists mean ----------

  datatype Sets = Sets(stored: set<string>, off: set<string>)

  /** `Present` is a card at the reader, in learning mode or not; the others are commands. */
  datatype Op = Present(uid: string, learn: bool) | Delete(uid: string)
              | Deactivate(uid: string) | Activate(uid: string)

  ghost function Apply(a: Sets, op: Op): Sets {
    match op
    case Present(uid, learn) => if learn then a.(stored := a.stored + {uid}) else a
    case Delete(uid) => a.(stored := a.stored - {uid})
    case Deactivate(uid) => if uid == "" then a else a.(off := a.off + {uid})
    case Activate(uid) => a.(off := a.off - {uid})
  }

  /** The two lists themselves: new entries at the end, survivors in their order. */
  datatype Lists = Lists(cards: seq<string>, off: seq<string>)

  function ApplyLists(a: Lists, op: Op): Lists {
    match op
    case Present(uid, learn) => if learn && uid !in a.cards then a.(cards := a.cards + [uid]) else a
    case Delete(uid) => a.(cards := Without(a.cards, uid))
    case Deactivate(uid) => if uid != "" && uid !in a.off then a.(off := a.off + [uid]) else a
    case Activate(uid) => if uid != "" then a.(off := Without(a.off, uid)) else a
  }

  ghost function Meaning(a: Lists): Sets {
    Sets(ToSet(a.cards), ToSet(a.off))
  }

  ghost predicate ListsOk(a: Lists) {
    Distinct(a.cards) && Distinct(a.off) && "" !in a.off
  }

  /** The lists implement the sets. */
  lemma ListsMeanSets(a: Lists, op: Op)
    requires ListsOk(a)
    ensures ListsOk(ApplyLists(a, op)) && Meaning(ApplyLists(a, op)) == Apply(Meaning(a), op)
  {
    match op {
      case Present(uid, learn) =>
        assert ToSet(a.cards + [uid]) == ToSet(a.cards) + {uid};
      case Delete(uid) =>
        WithoutFacts(a.cards, uid);
      case Deactivate(uid) =>
        assert ToSet(a.off + [uid]) == ToSet(a.off) + {uid};
      case Activate(uid) =>
        WithoutFacts(a.off, uid);
        assert "" !in Without(a.off, uid) by {
          InWithout(a.off, uid);
        }
        assert uid == "" ==> ToSet(a.off) - {uid} == ToSet(a.off);
    }
  }

  ghost function ApplyAll(a: Sets, ops: seq<Op>): Sets {
    if ops == [] then a else Apply(ApplyAll(a, ops[..|ops| - 1]), ops[|ops| - 1])
  }

  datatype Outcome = Allow | Deny | Learned | Unknown

  /** The door's answer in terms of the two sets. */
  function Answer(stored: bool, off: bool, learn: bool): Outcome {
    if stored && !off then Allow
    else if stored then Deny
    else if learn then Learned
    else Unknown
  }

  /** `on` has happened, and `off` has not happened since. */
  ghost predicate Since(ops: seq<Op>, on: Op, off: Op) {
    exists i :: 0 <= i < |ops| && LastAt(ops, on, off, i)
  }

  ghost predicate LastAt(ops: seq<Op>, on: Op, off: Op, i: nat)
    requires i < |ops|
  {
    ops[i] == on && forall j :: i < j < |ops| ==> ops[j] != off
  }

  lemma SinceStep(ops: seq<Op>, on: Op, off: Op)
    requires ops != [] && on != off
    ensures var n := |ops| - 1;
            Since(ops, on, off) <==> ops[n] == on || (ops[n] != off && Since(ops[..n], on, off))
  {
    var n := |ops| - 1;
    var p := ops[..n];
    if ops[n] == on {
      assert LastAt(ops, on, off, n);
    } else if ops[n] != off {
      forall i | 0 <= i < n ensures LastAt(ops, on, off, i) <==> LastAt(p, on, off, i) {
        assert p[i] == ops[i] && forall j :: i < j < n ==> p[j] == ops[j];
      }
    }
  }

  /** A card is stored exactly when it was learned and not deleted since. */
  lemma {:induction false} StoredByHistory(ops: seq<Op>, uid: string)
    ensures uid in ApplyAll(Sets({}, {}), ops).stored <==> Since(ops, Present(uid, true), Delete(uid))
    decreases |ops|
  {
    if ops != [] {
      SinceStep(ops, Present(uid, true), Delete(uid));
      hide Since;
      StoredByHistory(ops[..|ops| - 1], uid);
    }
  }

  /** A card is denied exactly when it was deactivated and not activated since, however often it
      was deleted and learned again in between. */
  lemma {:induction false} OffByHistory(ops: seq<Op>, uid: string)
    ensures uid in ApplyAll(Sets({}, {}), ops).off <==> uid != "" && Since(ops, Deactivate(uid), Activate(uid))
    decreases |ops|
  {
    if ops != [] {
      SinceStep(ops, Deactivate(uid), Activate(uid));
      hide Since;
      OffByHistory(ops[..|ops| - 1], uid);
    }
  }

  /** The door after any run from an empty store: it opens if and only if the card was learned and not
      deleted since, and not deactivated or activated since; a known card that does not open it is
      refused, an unknown one is learned exactly in learning mode. */
  lemma DoorByHistory(ops: seq<Op>, uid: string, learn: bool)
    ensures var a := ApplyAll(Sets({}, {}), ops);
            var known, barred := Since(ops, Present(uid, true), Delete(uid)),
                                 uid != "" && Since(ops, Deactivate(uid), Activate(uid));
            var answer := Answer(uid in a.stored, uid in a.off, learn);
            (answer == Allow <==> known && !barred) && (answer == Deny <==> known && barred) &&
            (answer == Learned <==> !known && learn) && (answer == Unknown <==> !known && !learn)
  {
    hide Since, ApplyAll;
    StoredByHistory(ops, uid);
    OffByHistory(ops, uid);
  }

  /** Two slot lists without holes, and the lists they hold. */
  ghost predicate SlotsOk(c: Slots, d: Slots) {
    c == Filled(Entries(c)) && d == Filled(Entries(d)) && ListsOk(ListsIn(c, d))
  }

  ghost function ListsIn(c: Slots, d: Slots): Lists {
    Lists(Entries(c), Entries(d))
  }

  lemma MembersBySlots(s: Slots, uid: string)
    requires s == Filled(Entries(s))
    ensures Some(uid) in s <==> uid in Entries(s)
  {
    if uid in Entries(s) {
      var i :| 0 <= i < |Entries(s)| && Entries(s)[i] == uid;
      assert s[i] == Some(uid);
    }
  }

  lemma AppendedItem(s: Slots, uid: string)
    requires s == Filled(Entries(s))
    ensures var t := s + [Some(uid)]; Entries(t) == Entries(s) + [uid] && t == Filled(Entries(t))
  {
    var items := Entries(s);
    hide Entries;
    assert s + [Some(uid)] == Filled(items + [uid]);
    EntriesOfFilled(items + [uid]);
  }

  /** `after` is `before` without its first occurrence of uid, which is at f. */
  ghost predicate CutAt(before: Slots, uid: string, f: nat, after: Slots) {
    f < |before| && before[f] == Some(uid) && Some(uid) !in before[..f] &&
    after == before[..f] + before[f + 1..]
  }

  lemma CutItem(s: Slots, uid: string, f: nat, after: Slots)
    requires s == Filled(Entries(s)) && Distinct(Entries(s)) && CutAt(s, uid, f, after)
    ensures after == Filled(Entries(after)) && Entries(after) == Without(Entries(s), uid)
  {
    var items := Entries(s);
    hide Entries;
    assert s[f] == Some(items[f]);
    WithoutAt(items, f);
    assert after == Filled(items[..f] + items[f + 1..]);
    EntriesOfFilled(Without(items, uid));
  }

  // What the four calls do to slots, they do to the lists.

  lemma LearnOnSlots(c: Slots, d: Slots, uid: string, learn: bool)
    requires SlotsOk(c, d)
    ensures var t := if learn && Some(uid) !in c then c + [Some(uid)] else c;
            SlotsOk(t, d) && ListsIn(t, d) == ApplyLists(ListsIn(c, d), Present(uid, learn))
    ensures (Some(uid) in c <==> uid in Meaning(ListsIn(c, d)).stored) &&
            (Some(uid) in d <==> uid in Meaning(ListsIn(c, d)).off)
  {
    hide Entries;
    MembersBySlots(c, uid);
    MembersBySlots(d, uid);
    AppendedItem(c, uid);
    ListsMeanSets(ListsIn(c, d), Present(uid, learn));
  }

  lemma DeleteOnSlots(c: Slots, d: Slots, uid: string, t: Slots)
    requires SlotsOk(c, d)
    requires if Some(uid) in c then exists f :: CutAt(c, uid, f, t) else t == c
    ensures SlotsOk(t, d) && ListsIn(t, d) == ApplyLists(ListsIn(c, d), Delete(uid))
  {
    hide Entries;
    MembersBySlots(c, uid);
    WithoutFacts(Entries(c), uid);
    if Some(uid) in c {
      var f :| CutAt(c, uid, f, t);
      CutItem(c, uid, f, t);
    }
    ListsMeanSets(ListsIn(c, d), Delete(uid));
  }

  lemma DeactivateOnSlots(c: Slots, d: Slots, uid: string)
    requires SlotsOk(c, d)
    ensures var t := if uid != "" && Some(uid) !in d then d + [Some(uid)] else d;
            SlotsOk(c, t) && ListsIn(c, t) == ApplyLists(ListsIn(c, d), Deactivate(uid))
  {
    hide Entries;
    MembersBySlots(d, uid);
    AppendedItem(d, uid);
    ListsMeanSets(ListsIn(c, d), Deactivate(uid));
  }

  lemma ActivateOnSlots(c: Slots, d: Slots, uid: string)
    requires SlotsOk(c, d)
    ensures var t := if uid == "" then d else Filled(Kept(d, uid));
            SlotsOk(c, t) && ListsIn(c, t) == ApplyLists(ListsIn(c, d), Activate(uid))
  {
    hide Entries, Kept;
    KeptOfFilled(Entries(d), uid);
    EntriesOfFilled(Without(Entries(d), uid));
    ListsMeanSets(ListsIn(c, d), Activate(uid));
  }

  // ---------- the store object ----------

  class Store {
    var i32s: map<string, int>
    var strs: map<string, string>

    function Count(w: List): int
      reads this
    {
      if CountKey(w) in i32s then i32s[CountKey(w)] else 0
    }

    ghost function Slot(w: List): Slots
      reads this
    {
      SlotsOf(strs, w, if Count(w) < 0 then 0 else Count(w))
    }

    /** What every call keeps, holes or not: counts are natural, nothing lies beyond them. */
    ghost predicate Counted()
      reads this
    {
      forall w :: Count(w) >= 0 && Tight(strs, w, Count(w))
    }

    /** The list as a sequence; in a Valid store it has no holes and no duplicates. */
    ghost function Items(w: List): seq<string>
      reads this
    {
      Entries(Slot(w))
    }

    ghost predicate Valid()
      reads this
    {
      Counted() && SlotsOk(Slot(Cards), Slot(Deactivated))
    }

    ghost function Both(): Lists
      reads this
    {
      ListsIn(Slot(Cards), Slot(Deactivated))
    }

    constructor ()
      ensures Valid() && Items(Cards) == [] && Items(Deactivated) == []
      ensures Meaning(Both()) == Sets({}, {})
    {
      i32s, strs := map[], map[];
      new;
      assert forall w :: Count(w) == 0;
      assert forall w :: Slot(w) == [];
    }

    /** `isUIDStored` and `isUIDDeactivated`. */
    method Contains(w: List, uid: string) returns (found: bool)
      requires Counted()
      ensures found <==> Some(uid) in Slot(w)
    {
      var i := 0;
      var n := Count(w);
      while i < n
        invariant 0 <= i <= n
        invariant forall k :: 0 <= k < i ==> Slot(w)[k] != Some(uid)
      {
        assert Slot(w)[i] == Look(strs, w, i);
        if Key(w, i) in strs {
          if strs[Key(w, i)] == uid {
            return true;
          }
        }
        i := i + 1;
      }
      found := false;
    }

    /** `listUIDs`. */
    method ListUIDs() returns (out: seq<string>)
      requires Counted()
      ensures out == Items(Cards)
    {
      out := [];
      var i := 0;
      var n := Count(Cards);
      while i < n
        invariant 0 <= i <= n
        invariant out == Entries(Slot(Cards)[..i])
      {
        assert Slot(Cards)[i] == Look(strs, Cards, i);
        assert Slot(Cards)[..i + 1][..i] == Slot(Cards)[..i];
        if Key(Cards, i) in strs {
          out := out + [strs[Key(Cards, i)]];
        }
        i := i + 1;
      }
      assert Slot(Cards)[..n] == Slot(Cards);
    }

    /** The common part of `addUID` and `deactivateUID`: the next key, then the count. */
    method Append(w: List, uid: string)
      requires Counted()
      modifies this
      ensures Counted()
      ensures Slot(w) == old(Slot(w)) + [Some(uid)]
      ensures forall v :: v != w ==> Slot(v) == old(Slot(v))
    {
      hide Key;
      var n := Count(w);
      ghost var was := strs;
      strs := strs[Key(w, n) := uid];
      i32s := i32s[CountKey(w) := n + 1];
      forall v, j: nat ensures Look(strs, v, j) == if w == v && n == j then Some(uid) else Look(was, v, j) {
        AfterSet(was, w, n, uid, v, j);
      }
      assert forall v :: v != w ==> Count(v) == old(Count(v));
      assert forall v, j: nat :: Key(v, j) in strs <==> Look(strs, v, j).Some?;
      assert forall v, j: nat :: Key(v, j) in was <==> Look(was, v, j).Some?;
    }

    /** The search loop of `deleteUID`. */
    method FirstIndex(uid: string) returns (found: int)
      requires Counted()
      ensures -1 <= found < |Slot(Cards)|
      ensures found < 0 ==> Some(uid) !in Slot(Cards)
      ensures found >= 0 ==> Slot(Cards)[found] == Some(uid) && Some(uid) !in Slot(Cards)[..found]
    {
      var i := 0;
      var n := Count(Cards);
      while i < n
        invariant 0 <= i <= n
        invariant forall k :: 0 <= k < i ==> Slot(Cards)[k] != Some(uid)
      {
        assert Slot(Cards)[i] == Look(strs, Cards, i);
        if Key(Cards, i) in strs {
          if strs[Key(Cards, i)] == uid {
            return i;
          }
        }
        i := i + 1;
      }
      found := -1;
    }

    /** The shifting loop of `deleteUID`; a hole is shifted like a value. */
    method ShiftDown(found: nat, n: nat)
      requires found < n
      modifies this`strs
      ensures forall j: nat :: Look(strs, Cards, j) == Shifted(old(strs), found, n - 1, j)
      ensures forall j: nat :: Look(strs, Deactivated, j) == old(Look(strs, Deactivated, j))
    {
      ghost var was := strs;
      var i := found;
      while i < n - 1
        invariant found <= i <= n - 1
        invariant forall j: nat :: Look(strs, Cards, j) == Shifted(was, found, i, j)
        invariant forall j: nat :: Look(strs, Deactivated, j) == Look(was, Deactivated, j)
      {
        ghost var now := strs;
        assert Look(now, Cards, i + 1) == Shifted(was, found, i, i + 1) == Look(was, Cards, i + 1);
        if Key(Cards, i + 1) !in strs {
          strs := strs - {Key(Cards, i)};
          forall w, j: nat ensures Look(strs, w, j)
                                   == if w == Cards && j == i then Look(now, Cards, i + 1) else Look(now, w, j) {
            AfterErase(now, Cards, i, w, j);
          }
        } else {
          strs := strs[Key(Cards, i) := strs[Key(Cards, i + 1)]];
          forall w, j: nat ensures Look(strs, w, j)
                                   == if w == Cards && j == i then Look(now, Cards, i + 1) else Look(now, w, j) {
            AfterSet(now, Cards, i, now[Key(Cards, i + 1)], w, j);
          }
        }
        forall j: nat ensures Look(strs, Cards, j) == Shifted(was, found, i + 1, j) {
          ShiftedStep(was, found, i, j);
        }
        i := i + 1;
      }
    }

    /** `deleteUID`: the first occurrence is cut out of the list, whatever holes it has. */
    method DeleteUID(uid: string) returns (ok: bool)
      requires Counted()
      modifies this
      ensures Counted() && Slot(Deactivated) == old(Slot(Deactivated))
      ensures ok == (Some(uid) in old(Slot(Cards)))
      ensures ok ==> exists f :: CutAt(old(Slot(Cards)), uid, f, Slot(Cards))
      ensures !ok ==> Slot(Cards) == old(Slot(Cards))
    {
      assert |Slot(Cards)| == Count(Cards);
      hide Key, Look, CutAt, SlotsOf, Tight;
      var n := Count(Cards);
      if n <= 0 {
        return false;
      }
      var found := FirstIndex(uid);
      if found < 0 {
        return false;
      }
      ghost var was, before := strs, Slot(Cards);
      ShiftDown(found, n);
      ghost var shifted := strs;
      strs := strs - {Key(Cards, n - 1)};
      i32s := i32s[CountKey(Cards) := n - 1];
      assert Count(Deactivated) == old(Count(Deactivated));
      ListDeleted(was, shifted, strs, found, n);
      assert CutAt(before, uid, found, Slot(Cards)) by {
        CutHere(before, uid, found);
      }
      ok := true;
    }

    lemma CutHere(before: Slots, uid: string, f: nat)
      requires f < |before| && before[f] == Some(uid) && Some(uid) !in before[..f]
      ensures CutAt(before, uid, f, before[..f] + before[f + 1..])
    {
    }

    /** The shifted keys without the last one are the list without position f. */
    lemma ListDeleted(was: map<string, string>, shifted: map<string, string>, now: map<string, string>, f: nat, n: nat)
      requires f < n && now == shifted - {Key(Cards, n - 1)}
      requires forall j: nat :: Look(shifted, Cards, j) == Shifted(was, f, n - 1, j)
      requires forall j: nat :: Look(shifted, Deactivated, j) == Look(was, Deactivated, j)
      requires Tight(was, Cards, n)
      ensures SlotsOf(now, Cards, n - 1) == SlotsOf(was, Cards, n)[..f] + SlotsOf(was, Cards, n)[f + 1..]
      ensures Tight(now, Cards, n - 1)
      ensures forall m: nat :: SlotsOf(now, Deactivated, m) == SlotsOf(was, Deactivated, m)
      ensures forall m: nat :: Tight(was, Deactivated, m) ==> Tight(now, Deactivated, m)
    {
      hide Key;
      forall w, j: nat ensures Look(now, w, j) == if w == Cards && j == n - 1 then None else Look(shifted, w, j) {
        AfterErase(shifted, Cards, n - 1, w, j);
      }
      KeysByLook(was, now);
      var s := SlotsOf(was, Cards, n);
      var t := SlotsOf(now, Cards, n - 1);
      forall j | 0 <= j < n - 1 ensures t[j] == (s[..f] + s[f + 1..])[j] {
        assert t[j] == Look(now, Cards, j) == Shifted(was, f, n - 1, j);
      }
      assert t == s[..f] + s[f + 1..];
      forall j: nat | n - 1 <= j ensures Look(now, Cards, j) == None {
        assert j > n - 1 ==> Look(now, Cards, j) == Shifted(was, f, n - 1, j) == Look(was, Cards, j);
      }
    }

    lemma KeysByLook(a: map<string, string>, b: map<string, string>)
      ensures forall w, j: nat :: Key(w, j) in a <==> Look(a, w, j).Some?
      ensures forall w, j: nat :: Key(w, j) in b <==> Look(b, w, j).Some?
    {
    }

    lemma KeptNext(all: Slots, r: nat, uid: string)
      requires r < |all|
      ensures Some(uid) in all[..r + 1] <==> Some(uid) in all[..r] || all[r] == Some(uid)
      ensures Kept(all[..r + 1], uid)
              == Kept(all[..r], uid) + (if all[r].Some? && all[r].value != uid then [all[r].value] else [])
    {
      assert all[..r + 1][..r] == all[..r];
      assert all[..r + 1] == all[..r] + [all[r]];
    }

    lemma NothingKept(all: Slots, uid: string)
      ensures Kept(all[..0], uid) == []
    {
    }

    /** The compacting loop of `activateUID`. */
    method Compact(uid: string, n: nat) returns (write: nat, removed: bool)
      modifies this`strs
      ensures write == |Kept(SlotsOf(old(strs), Deactivated, n), uid)| <= n
      ensures removed == (Some(uid) in SlotsOf(old(strs), Deactivated, n))
      ensures SlotsOf(strs, Deactivated, write) == Filled(Kept(SlotsOf(old(strs), Deactivated, n), uid))
      ensures forall j: nat :: n <= j ==> Look(strs, Deactivated, j) == old(Look(strs, Deactivated, j))
      ensures forall j: nat :: Look(strs, Cards, j) == old(Look(strs, Cards, j))
    {
      hide Kept, Key;
      ghost var was := strs;
      ghost var all := SlotsOf(was, Deactivated, n);
      NothingKept(all, uid);
      var read := 0;
      write, removed := 0, false;
      while read < n
        invariant read <= n && write == |Kept(all[..read], uid)| <= read
        invariant removed == (Some(uid) in all[..read])
        invariant forall j :: 0 <= j < write ==> Look(strs, Deactivated, j) == Some(Kept(all[..read], uid)[j])
        invariant forall j: nat :: read <= j ==> Look(strs, Deactivated, j) == Look(was, Deactivated, j)
        invariant forall j: nat :: Look(strs, Cards, j) == Look(was, Cards, j)
      {
        ghost var now := strs;
        KeptNext(all, read, uid);
        assert all[read] == Look(was, Deactivated, read) == Look(now, Deactivated, read);
        read := read + 1;
        if Key(Deactivated, read - 1) in strs {
          var buf := strs[Key(Deactivated, read - 1)];
          if uid == buf {
            removed := true;
          } else {
            if write != read - 1 {
              forall w, j: nat ensures Look(now[Key(Deactivated, write) := buf], w, j)
                                       == if w == Deactivated && j == write then Some(buf) else Look(now, w, j) {
                AfterSet(now, Deactivated, write, buf, w, j);
              }
              strs := strs[Key(Deactivated, write) := buf];
            }
            write := write + 1;
          }
        }
      }
      assert all[..n] == all;
      assert SlotsOf(strs, Deactivated, write) == Filled(Kept(all, uid));
    }

    /** The loop that erases the keys left over behind the compacted list. */
    method EraseFrom(lo: nat, n: nat)
      requires lo <= n
      modifies this`strs
      ensures forall j: nat :: Look(strs, Deactivated, j)
                == if lo <= j < n then None else old(Look(strs, Deactivated, j))
      ensures forall j: nat :: Look(strs, Cards, j) == old(Look(strs, Cards, j))
    {
      ghost var was := strs;
      var i := lo;
      while i < n
        invariant lo <= i <= n
        invariant forall j: nat :: Look(strs, Deactivated, j)
                    == if lo <= j < i then None else Look(was, Deactivated, j)
        invariant forall j: nat :: Look(strs, Cards, j) == Look(was, Cards, j)
      {
        ghost var now := strs;
        forall w, j: nat ensures Look(now - {Key(Deactivated, i)}, w, j)
                                 == if w == Deactivated && j == i then None else Look(now, w, j) {
          AfterErase(now, Deactivated, i, w, j);
        }
        strs := strs - {Key(Deactivated, i)};
        i := i + 1;
      }
    }

    /** `activateUID`: every occurrence goes, holes are closed, the order is kept. */
    method ActivateUID(uid: string) returns (removed: bool)
      requires Counted()
      modifies this
      ensures Counted() && Slot(Cards) == old(Slot(Cards))
      ensures removed == (uid != "" && Some(uid) in old(Slot(Deactivated)))
      ensures Slot(Deactivated) == if uid == "" then old(Slot(Deactivated))
                                   else Filled(Kept(old(Slot(Deactivated)), uid))
    {
      if uid == "" {
        return false;
      }
      var n := Count(Deactivated);
      if n <= 0 {
        assert Slot(Deactivated) == [];
        return false;
      }
      ghost var was := strs;
      var write, r := Compact(uid, n);
      removed := r;
      ghost var compacted := strs;
      EraseFrom(write, n);
      i32s := i32s[CountKey(Deactivated) := write];
      assert Count(Cards) == old(Count(Cards));
      KeysByLook(was, strs);
      assert Slot(Deactivated) == SlotsOf(compacted, Deactivated, write);
      assert Slot(Cards) == old(Slot(Cards));
    }

    /** `deactivateUID`. */
    method DeactivateUID(uid: string) returns (ok: bool)
      requires Counted()
      modifies this
      ensures Counted() && Slot(Cards) == old(Slot(Cards))
      ensures ok == (uid != "")
      ensures Slot(Deactivated) == old(Slot(Deactivated))
                + (if uid != "" && Some(uid) !in old(Slot(Deactivated)) then [Some(uid)] else [])
    {
      assert Slot(Deactivated) + [] == Slot(Deactivated);
      if uid == "" {
        return false;
      }
      var already := Contains(Deactivated, uid);
      if already {
        return true;
      }
      Append(Deactivated, uid);
      ok := true;
    }

    /** A card at the reader: the decision at the door, and learning it in learning mode. */
    method PresentCard(uid: string, storeNewCard: bool) returns (outcome: Outcome)
      requires Valid()
      modifies this
      ensures Valid() && Both() == ApplyLists(old(Both()), Present(uid, storeNewCard))
      ensures var a := Meaning(old(Both()));
              outcome == Answer(uid in a.stored, uid in a.off, storeNewCard)
      ensures var a := Meaning(old(Both()));
              (outcome == Allow <==> uid in a.stored && uid !in a.off) &&
              (outcome == Deny <==> uid in a.stored && uid in a.off) &&
              (outcome == Learned <==> uid !in a.stored && storeNewCard) &&
              (outcome == Unknown <==> uid !in a.stored && !storeNewCard)
    {
      hide SlotsOk, ListsIn, Counted, ApplyLists, Meaning, SlotsOf, Tight;
      LearnOnSlots(Slot(Cards), Slot(Deactivated), uid, storeNewCard);
      var uidStored := Contains(Cards, uid);
      var uidDeactivated := false;
      if uidStored {
        uidDeactivated := Contains(Deactivated, uid);
      }
      if uidStored && !uidDeactivated {
        outcome := Allow;
      } else if uidDeactivated {
        outcome := Deny;
      } else if !uidStored && storeNewCard {
        Append(Cards, uid);
        outcome := Learned;
      } else {
        outcome := Unknown;
      }
    }

    // The commands of the backend on a valid store.

    method DeleteCard(uid: string)
      requires Valid()
      modifies this
      ensures Valid() && Both() == ApplyLists(old(Both()), Delete(uid))
    {
      hide SlotsOk, ListsIn, Counted, ApplyLists, CutAt, Kept;
      ghost var c, d := Slot(Cards), Slot(Deactivated);
      var ok := DeleteUID(uid);
      DeleteOnSlots(c, d, uid, Slot(Cards));
    }

    method DeactivateCard(uid: string)
      requires Valid()
      modifies this
      ensures Valid() && Both() == ApplyLists(old(Both()), Deactivate(uid))
    {
      hide SlotsOk, ListsIn, Counted, ApplyLists, CutAt, Kept;
      ghost var c, d := Slot(Cards), Slot(Deactivated);
      DeactivateOnSlots(c, d, uid);
      var ok := DeactivateUID(uid);
      assert d + [] == d;
    }

    method ActivateCard(uid: string)
      requires Valid()
      modifies this
      ensures Valid() && Both() == ApplyLists(old(Both()), Activate(uid))
    {
      hide SlotsOk, ListsIn, Counted, ApplyLists, CutAt, Kept;
      ghost var c, d := Slot(Cards), Slot(Deactivated);
      ActivateOnSlots(c, d, uid);
      var removed := ActivateUID(uid);
    }

    method Perform(op: Op)
      requires Valid()
      modifies this
      ensures Valid() && Meaning(Both()) == Apply(Meaning(old(Both())), op)
    {
      ListsMeanSets(Both(), op);
      hide Meaning, Apply, ApplyLists, ListsIn;
      match op {
        case Present(uid, learn) =>
          var outcome := PresentCard(uid, learn);
        case Delete(uid) =>
          DeleteCard(uid);
        case Deactivate(uid) =>
          DeactivateCard(uid);
        case Activate(uid) =>
          ActivateCard(uid);
      }
    }

    /** Any run of operations. */
    method PerformAll(ops: seq<Op>)
      requires Valid()
      modifies this
      ensures Valid() && Meaning(Both()) == ApplyAll(Meaning(old(Both())), ops)
    {
      var i := 0;
      while i < |ops|
        invariant i <= |ops| && Valid() && Meaning(Both()) == ApplyAll(Meaning(old(Both())), ops[..i])
      {
        Perform(ops[i]);
        i := i + 1;
        assert ops[..i][..i - 1] == ops[..i - 1];
      }
      assert ops[..i] == ops;
    }
  }

  /** A card at the door of a device that started empty. */
  method VisitAfter(ops: seq<Op>, uid: string, learn: bool) returns (outcome: Outcome)
    ensures outcome == Allow <==> Since(ops, Present(uid, true), Delete(uid)) &&
                                  !(uid != "" && Since(ops, Deactivate(uid), Activate(uid)))
  {
    hide Since, ApplyAll, Meaning, Answer;
    var store := new Store();
    store.PerformAll(ops);
    DoorByHistory(ops, uid, learn);
    outcome := store.PresentCard(uid, learn);
  }

  /** Position j of the card list when the positions from found up to i have been shifted. */
  ghost function Shifted(was: map<string, string>, found: nat, i: nat, j: nat): Option<string> {
    if found <= j < i then Look(was, Cards, j + 1) else Look(was, Cards, j)
  }

  lemma ShiftedStep(was: map<string, string>, found: nat, i: nat, j: nat)
    requires found <= i
    ensures Shifted(was, found, i + 1, j)
            == if j == i then Look(was, Cards, i + 1) else Shifted(was, found, i, j)
  {
  }
}
