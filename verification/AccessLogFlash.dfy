/**
 The flash store of main/access_log_service.c one write at a time: a ring of 200 numbered slots, the
 slot of its oldest record, and its length. The power can go between any two writes.
 */
module AccessLogFlash {
  import opened Bytes
  import opened Decimals
  import opened Wrappers

  datatype Record = Record(uid: string, result: string, reason: string, ts: string, omitTs: bool)

  const CAPACITY: nat := 200

  type SlotNumber = s: nat | s < CAPACITY
  type Length = n: nat | n <= CAPACITY

  /** What a restart finds; missing and impossible numbers have been replaced on loading. */
  datatype Flash = Flash(blobs: map<string, Record>, head: SlotNumber, count: Length)

  const EMPTY_FLASH := Flash(map[], 0, 0)

  datatype Write = EraseBlob(slot: SlotNumber) | PutBlob(slot: SlotNumber, rec: Record)
                 | PutHead(head: SlotNumber) | PutCount(count: Length)

  // ---------- slots and keys ----------

  /** The key of a slot: r followed by three digits. */
  function KeyForSlot(slot: SlotNumber): string {
    ['r', Digit(slot / 100), Digit(slot / 10 % 10), Digit(slot % 10)]
  }

  /** `snprintf` with "r%03u". */
  lemma KeyNames()
    ensures KeyForSlot(0) == "r000" && KeyForSlot(7) == "r007" && KeyForSlot(42) == "r042" && KeyForSlot(199) == "r199"
  {
  }

  lemma KeysDiffer(a: SlotNumber, b: SlotNumber)
    requires KeyForSlot(a) == KeyForSlot(b)
    ensures a == b
  {
    hide Digit;
    var k, l := KeyForSlot(a), KeyForSlot(b);
    assert k[1] == l[1] && k[2] == l[2] && k[3] == l[3];
    DigitsDiffer(a / 100, b / 100);
    DigitsDiffer(a / 10 % 10, b / 10 % 10);
    DigitsDiffer(a % 10, b % 10);
    ByDigits(a);
    ByDigits(b);
  }

  lemma DigitsDiffer(d: nat, e: nat)
    requires d < 10 && e < 10 && Digit(d) == Digit(e)
    ensures d == e
  {
  }

  lemma ByDigits(a: nat)
    requires a < 1000
    ensures a == 100 * (a / 100) + 10 * (a / 10 % 10) + a % 10
  {
  }

  /** The slot k places behind the head, around the end of the slots. */
  function SlotAt(head: SlotNumber, k: nat): (s: SlotNumber)
    ensures k < CAPACITY ==> s == if head + k < CAPACITY then head + k else head + k - CAPACITY
  {
    (head + k) % CAPACITY
  }

  lemma SlotsDiffer(head: SlotNumber, j: nat, k: nat)
    requires j < CAPACITY && k < CAPACITY && SlotAt(head, j) == SlotAt(head, k)
    ensures j == k
  {
  }

  lemma SlotBehindNext(head: SlotNumber, k: nat)
    requires k < CAPACITY
    ensures SlotAt(SlotAt(head, 1), k) == if k + 1 < CAPACITY then SlotAt(head, k + 1) else head
  {
  }

  function Cell(f: Flash, k: nat): Option<Record> {
    var key := KeyForSlot(SlotAt(f.head, k));
    if key in f.blobs then Some(f.blobs[key]) else None
  }

  /** All slots in order from the head on. */
  function Cells(f: Flash): (r: seq<Option<Record>>)
    ensures |r| == CAPACITY
  {
    seq(CAPACITY, k requires 0 <= k => Cell(f, k))
  }

  /** The store holds the ring, oldest record at the head. Slots behind it may hold anything. */
  ghost predicate Represents(f: Flash, ring: seq<Record>) {
    f.count == |ring| && forall k :: 0 <= k < |ring| ==> Cells(f)[k] == Some(ring[k])
  }

  /** The record an upload would send. */
  function Oldest(f: Flash): Option<Record> {
    if f.count == 0 then None else Cell(f, 0)
  }

  lemma OldestOfRing(f: Flash, ring: seq<Record>)
    requires Represents(f, ring)
    ensures Oldest(f) == if ring == [] then None else Some(ring[0])
  {
    assert Cells(f)[0] == Cell(f, 0);
  }

  // ---------- writes ----------

  function Written(f: Flash, w: Write): Flash {
    match w
    case EraseBlob(slot) => f.(blobs := f.blobs - {KeyForSlot(slot)})
    case PutBlob(slot, rec) => f.(blobs := f.blobs[KeyForSlot(slot) := rec])
    case PutHead(head) => f.(head := head)
    case PutCount(count) => f.(count := count)
  }

  function WrittenAll(f: Flash, ws: seq<Write>): Flash {
    if ws == [] then f else Written(WrittenAll(f, ws[..|ws| - 1]), ws[|ws| - 1])
  }

  /** The writes of `persist_record`. */
  function PersistWrites(f: Flash, rec: Record): seq<Write> {
    if f.count >= CAPACITY then
      var head := SlotAt(f.head, 1);
      [EraseBlob(f.head), PutBlob(SlotAt(head, f.count - 1), rec), PutHead(head), PutCount(f.count)]
    else
      [PutBlob(SlotAt(f.head, f.count), rec), PutHead(f.head), PutCount(f.count + 1)]
  }

  /** The writes of `pop_record`; an empty ring has none. */
  function PopWrites(f: Flash): seq<Write> {
    if f.count == 0 then [] else [EraseBlob(f.head), PutHead(SlotAt(f.head, 1)), PutCount(f.count - 1)]
  }

  /** The first `left` writes, before the power goes. */
  function CutOff(f: Flash, ws: seq<Write>, left: nat): Flash {
    WrittenAll(f, ws[..Min(left, |ws|)])
  }

  function Persisted(f: Flash, rec: Record): Flash {
    WrittenAll(f, PersistWrites(f, rec))
  }

  function Popped(f: Flash): Flash {
    WrittenAll(f, PopWrites(f))
  }

  lemma WrittenNext(f: Flash, ws: seq<Write>, j: nat)
    requires j <= |ws|
    ensures j == 0 ==> WrittenAll(f, ws[..j]) == f
    ensures j > 0 ==> WrittenAll(f, ws[..j]) == Written(WrittenAll(f, ws[..j - 1]), ws[j - 1])
  {
    if j > 0 {
      assert ws[..j][..j - 1] == ws[..j - 1];
    }
  }

  lemma AfterBlob(f: Flash, k: nat, rec: Record)
    requires k < CAPACITY
    ensures Cells(Written(f, PutBlob(SlotAt(f.head, k), rec))) == Cells(f)[k := Some(rec)]
    ensures Cells(Written(f, EraseBlob(SlotAt(f.head, k)))) == Cells(f)[k := None]
  {
    hide KeyForSlot;
    forall i | 0 <= i < CAPACITY && i != k
      ensures KeyForSlot(SlotAt(f.head, i)) != KeyForSlot(SlotAt(f.head, k))
    {
      if KeyForSlot(SlotAt(f.head, i)) == KeyForSlot(SlotAt(f.head, k)) {
        KeysDiffer(SlotAt(f.head, i), SlotAt(f.head, k));
        SlotsDiffer(f.head, i, k);
      }
    }
    hide SlotAt;
  }

  lemma AfterAdvance(f: Flash)
    ensures Cells(Written(f, PutHead(SlotAt(f.head, 1)))) == Cells(f)[1..] + [Cells(f)[0]]
  {
    hide KeyForSlot;
    forall k | 0 <= k < CAPACITY
      ensures SlotAt(SlotAt(f.head, 1), k) == if k + 1 < CAPACITY then SlotAt(f.head, k + 1) else SlotAt(f.head, 0)
    {
      SlotBehindNext(f.head, k);
    }
    hide SlotAt;
  }

  lemma AfterNumber(f: Flash, count: Length)
    ensures Cells(Written(f, PutCount(count))) == Cells(f) && Cells(Written(f, PutHead(f.head))) == Cells(f)
  {
    assert forall k :: 0 <= k < CAPACITY ==> Cell(Written(f, PutCount(count)), k) == Cell(f, k);
  }

  // ---------- where the power may go ----------

  /** The slots and the length after the first `left` writes of a persist. */
  lemma PersistCutCells(f: Flash, rec: Record, left: nat)
    ensures var c := CutOff(f, PersistWrites(f, rec), left);
            f.count < CAPACITY ==>
              c.count == (if left < 3 then f.count else f.count + 1) &&
              Cells(c) == if left == 0 then Cells(f) else Cells(f)[f.count := Some(rec)]
    ensures var c := CutOff(f, PersistWrites(f, rec), left);
            f.count == CAPACITY ==>
              c.count == CAPACITY &&
              Cells(c) == if left == 0 then Cells(f) else if left == 1 then Cells(f)[0 := None]
                          else if left == 2 then Cells(f)[0 := Some(rec)] else Cells(f)[1..] + [Some(rec)]
  {
    if f.count < CAPACITY {
      PersistCutOpen(f, rec, left);
    } else {
      PersistCutFull(f, rec, left);
    }
  }

  lemma PersistCutOpen(f: Flash, rec: Record, left: nat)
    requires f.count < CAPACITY
    ensures var c := CutOff(f, PersistWrites(f, rec), left);
            c.count == (if left < 3 then f.count else f.count + 1) && c.head == f.head &&
            Cells(c) == if left == 0 then Cells(f) else Cells(f)[f.count := Some(rec)]
  {
    hide Cells, SlotAt, KeyForSlot;
    var ws := PersistWrites(f, rec);
    WrittenNext(f, ws, 0);
    WrittenNext(f, ws, 1);
    WrittenNext(f, ws, 2);
    WrittenNext(f, ws, 3);
    hide WrittenAll;
    AfterBlob(f, f.count, rec);
    var a := Written(f, ws[0]);
    AfterNumber(a, a.count);
    AfterNumber(a, f.count + 1);
  }

  lemma PersistCutFull(f: Flash, rec: Record, left: nat)
    requires f.count == CAPACITY
    ensures var c := CutOff(f, PersistWrites(f, rec), left);
            c.count == CAPACITY &&
            Cells(c) == if left == 0 then Cells(f) else if left == 1 then Cells(f)[0 := None]
                        else if left == 2 then Cells(f)[0 := Some(rec)] else Cells(f)[1..] + [Some(rec)]
  {
    hide Cells, KeyForSlot;
    var ws := PersistWrites(f, rec);
    WrittenNext(f, ws, 0);
    WrittenNext(f, ws, 1);
    WrittenNext(f, ws, 2);
    WrittenNext(f, ws, 3);
    WrittenNext(f, ws, 4);
    hide WrittenAll;
    SlotBehindNext(f.head, CAPACITY - 1);
    assert SlotAt(f.head, 0) == f.head;
    hide SlotAt;
    AfterBlob(f, 0, rec);
    var a := Written(f, ws[0]);
    AfterBlob(a, 0, rec);
    var b := Written(a, ws[1]);
    AfterAdvance(b);
    var c := Written(b, ws[2]);
    AfterNumber(c, f.count);
    RefillFirst(Cells(f), rec);
  }

  lemma RefillFirst(cells: seq<Option<Record>>, rec: Record)
    requires |cells| > 0
    ensures cells[0 := None][0 := Some(rec)] == cells[0 := Some(rec)]
    ensures cells[0 := Some(rec)][1..] + [cells[0 := Some(rec)][0]] == cells[1..] + [Some(rec)]
  {
  }

  lemma PopCutCells(f: Flash, left: nat)
    requires f.count > 0
    ensures var c := CutOff(f, PopWrites(f), left);
            c.count == (if left < 3 then f.count else f.count - 1) &&
            Cells(c) == if left == 0 then Cells(f) else if left == 1 then Cells(f)[0 := None]
                        else Cells(f)[1..] + [None]
  {
    hide Cells, KeyForSlot;
    var ws := PopWrites(f);
    WrittenNext(f, ws, 0);
    WrittenNext(f, ws, 1);
    WrittenNext(f, ws, 2);
    WrittenNext(f, ws, 3);
    hide WrittenAll;
    assert SlotAt(f.head, 0) == f.head;
    hide SlotAt;
    AfterBlob(f, 0, Record("", "", "", "", false));
    var a := Written(f, ws[0]);
    AfterAdvance(a);
    var b := Written(a, ws[1]);
    AfterNumber(b, f.count - 1);
  }

  /** The ring after a persist: a full one loses its oldest record. */
  function Pushed(ring: seq<Record>, rec: Record): seq<Record> {
    (if |ring| >= CAPACITY then ring[1..] else ring) + [rec]
  }

  /** A persist that loses power leaves the old ring or the new one, unless the ring was full and
      the last write was the erase or the new record. */
  predicate PersistCutSafe(ring: seq<Record>, left: nat) {
    |ring| < CAPACITY || (left != 1 && left != 2)
  }

  lemma NoRing(f: Flash, r: seq<Record>)
    ensures f.count > 0 && Cells(f)[0] == None ==> !Represents(f, r)
  {
    if f.count > 0 && Represents(f, r) {
      assert Cells(f)[0] == Some(r[0]);
    }
  }

  /** After the erase no ring is left; after the new record it is there, but in the oldest place. */
  lemma PersistCutLeaves(f: Flash, ring: seq<Record>, rec: Record, left: nat)
    requires Represents(f, ring)
    ensures var c := CutOff(f, PersistWrites(f, rec), left);
            if PersistCutSafe(ring, left) then Represents(c, if left < 3 then ring else Pushed(ring, rec))
            else if left == 1 then Oldest(c) == None && forall r :: !Represents(c, r)
            else Represents(c, [rec] + ring[1..])
  {
    PersistCutCells(f, rec, left);
    var c := CutOff(f, PersistWrites(f, rec), left);
    hide PersistWrites, CutOff;
    assert Cells(c)[0] == Cell(c, 0);
    hide Cells, Cell;
    if !PersistCutSafe(ring, left) && left == 1 {
      forall r ensures !Represents(c, r) {
        NoRing(c, r);
      }
    }
  }

  lemma AtMostOneRing(f: Flash, r: seq<Record>, s: seq<Record>)
    requires Represents(f, r) && Represents(f, s)
    ensures r == s
  {
    forall k | 0 <= k < |r| ensures r[k] == s[k] {
      assert Cells(f)[k] == Some(r[k]);
    }
  }

  /** Exactly when a persist that loses power leaves the old or the new ring. The two cases behind
      the guard need records that cannot be told apart. */
  lemma PersistCutExactly(f: Flash, ring: seq<Record>, rec: Record, left: nat)
    requires Represents(f, ring)
    ensures var c := CutOff(f, PersistWrites(f, rec), left);
            Represents(c, ring) || Represents(c, Pushed(ring, rec)) <==>
            PersistCutSafe(ring, left) ||
            (left == 2 && (rec == ring[0] || forall k :: 1 <= k < |ring| ==> ring[k] == rec))
  {
    PersistCutLeaves(f, ring, rec, left);
    var c := CutOff(f, PersistWrites(f, rec), left);
    hide CutOff, Represents;
    if !PersistCutSafe(ring, left) && left == 2 {
      RotatedRing(ring, rec);
      var s := [rec] + ring[1..];
      forall r | Represents(c, r) ensures r == s {
        AtMostOneRing(c, r, s);
      }
    }
  }

  lemma RotatedRing(ring: seq<Record>, rec: Record)
    requires |ring| > 0
    ensures [rec] + ring[1..] == ring <==> rec == ring[0]
    ensures [rec] + ring[1..] == ring[1..] + [rec] <==> forall k :: 1 <= k < |ring| ==> ring[k] == rec
  {
    var s, t := [rec] + ring[1..], ring[1..] + [rec];
    assert forall k :: 1 <= k < |ring| ==> s[k] == ring[k] && t[k - 1] == ring[k];
    if s == t {
      AllShifted(s, rec);
    }
  }

  lemma {:induction false} AllShifted(s: seq<Record>, rec: Record)
    requires |s| > 0 && s == s[1..] + [rec]
    ensures forall k :: 0 <= k < |s| ==> s[k] == rec
  {
    assert s[|s| - 1] == rec;
    var i := |s| - 1;
    while i > 0
      invariant 0 <= i < |s| && forall k :: i <= k < |s| ==> s[k] == rec
    {
      assert s[i - 1] == (s[1..] + [rec])[i - 1] == s[i];
      i := i - 1;
    }
  }

  /** After the erase of a pop no ring is left. After the new head there is one only if an earlier
      loss of power left a record behind the newest: that record then comes to life. */
  lemma PopCutLeaves(f: Flash, ring: seq<Record>, left: nat)
    requires Represents(f, ring) && ring != []
    ensures var c := CutOff(f, PopWrites(f), left);
            (left == 0 ==> Represents(c, ring)) && (left >= 3 ==> Represents(c, ring[1..])) &&
            (left == 1 ==> Oldest(c) == None && forall r :: !Represents(c, r)) &&
            (left == 2 ==> forall r :: Represents(c, r) <==>
              |ring| < CAPACITY && Cells(f)[|ring|].Some? && r == ring[1..] + [Cells(f)[|ring|].value])
  {
    PopCutCells(f, left);
    var c := CutOff(f, PopWrites(f), left);
    hide PopWrites, CutOff;
    if left == 1 {
      assert Cells(c)[0] == Cell(c, 0);
      forall r ensures !Represents(c, r) {
        NoRing(c, r);
      }
    } else if left == 2 {
      forall r ensures Represents(c, r) <==>
          |ring| < CAPACITY && Cells(f)[|ring|].Some? && r == ring[1..] + [Cells(f)[|ring|].value]
      {
        OneBehind(f, c, ring, r);
      }
    }
    hide Cells;
  }

  lemma OneBehind(f: Flash, c: Flash, ring: seq<Record>, r: seq<Record>)
    requires Represents(f, ring) && ring != []
    requires c.count == f.count && Cells(c) == Cells(f)[1..] + [None]
    ensures Represents(c, r) <==>
              |ring| < CAPACITY && Cells(f)[|ring|].Some? && r == ring[1..] + [Cells(f)[|ring|].value]
  {
    hide Cells, Cell;
    var n := |ring| - 1;
    assert forall k :: 0 <= k < n ==> Cells(c)[k] == Cells(f)[k + 1] == Some(ring[1..][k]);
    assert Cells(c)[n] == if |ring| < CAPACITY then Cells(f)[n + 1] else None;
    if Represents(c, r) {
      assert Cells(c)[n] == Some(r[n]);
      assert forall k :: 0 <= k < n ==> Some(r[k]) == Cells(c)[k];
      assert r == ring[1..] + [r[n]];
    }
  }

  /** Exactly when a pop that loses power leaves the old or the new ring. */
  lemma PopCutExactly(f: Flash, ring: seq<Record>, left: nat)
    requires Represents(f, ring) && ring != []
    ensures var c := CutOff(f, PopWrites(f), left);
            Represents(c, ring) || Represents(c, ring[1..]) <==>
            (left != 1 && left != 2) ||
            (left == 2 && |ring| < CAPACITY && Cells(f)[|ring|] == Some(ring[0]) &&
             forall k :: 1 <= k < |ring| ==> ring[k] == ring[0])
  {
    PopCutLeaves(f, ring, left);
    hide CutOff, Cells, Represents;
    if left == 2 && |ring| < CAPACITY && Cells(f)[|ring|].Some? {
      var x := Cells(f)[|ring|].value;
      ShiftedRing(ring, x);
    }
  }

  lemma ShiftedRing(ring: seq<Record>, x: Record)
    requires |ring| > 0
    ensures ring == ring[1..] + [x] <==> x == ring[0] && forall k :: 1 <= k < |ring| ==> ring[k] == ring[0]
  {
    if ring == ring[1..] + [x] {
      AllShifted(ring, x);
    }
  }

  // ---------- how a broken ring mends ----------

  function PersistedAll(f: Flash, recs: seq<Record>): Flash {
    if recs == [] then f else Persisted(PersistedAll(f, recs[..|recs| - 1]), recs[|recs| - 1])
  }

  /** The newest records of the store, whatever lies before them. */
  ghost predicate EndsWith(f: Flash, tail: seq<Record>) {
    |tail| <= f.count && forall k :: 0 <= k < |tail| ==> Cells(f)[f.count - |tail| + k] == Some(tail[k])
  }

  function Last(recs: seq<Record>, n: nat): seq<Record> {
    if |recs| <= n then recs else recs[|recs| - n..]
  }

  lemma PersistedCells(f: Flash, rec: Record)
    ensures Persisted(f, rec).count == Min(f.count + 1, CAPACITY)
    ensures Cells(Persisted(f, rec)) ==
            if f.count < CAPACITY then Cells(f)[f.count := Some(rec)] else Cells(f)[1..] + [Some(rec)]
  {
    var ws := PersistWrites(f, rec);
    PersistCutCells(f, rec, |ws|);
    assert ws[..|ws|] == ws;
    hide Cells, WrittenAll, SlotAt;
  }

  lemma EndsWithNext(f: Flash, tail: seq<Record>, rec: Record)
    requires EndsWith(f, tail)
    ensures EndsWith(Persisted(f, rec), Last(tail + [rec], CAPACITY))
  {
    PersistedCells(f, rec);
    var n := Persisted(f, rec);
    hide Persisted, Cells;
    var t := Last(tail + [rec], CAPACITY);
    forall k | 0 <= k < |t| ensures Cells(n)[n.count - |t| + k] == Some(t[k]) {
      if k + 1 < |t| {
        assert t[k] == tail[|tail| + 1 - |t| + k];
      }
    }
  }

  lemma {:induction false} EndsWithAll(f: Flash, tail: seq<Record>, recs: seq<Record>)
    requires EndsWith(f, tail)
    ensures PersistedAll(f, recs).count == Min(f.count + |recs|, CAPACITY)
    ensures EndsWith(PersistedAll(f, recs), Last(tail + recs, CAPACITY))
    decreases |recs|
  {
    hide Persisted;
    if recs == [] {
      assert tail + recs == tail;
    } else {
      hide EndsWith, Cells, Last;
      var n := |recs| - 1;
      var s := tail + recs[..n];
      assert tail + recs == s + [recs[n]];
      EndsWithAll(f, tail, recs[..n]);
      var g := PersistedAll(f, recs[..n]);
      EndsWithNext(g, Last(s, CAPACITY), recs[n]);
      PersistedCells(g, recs[n]);
      LastTwice(s, recs[n], CAPACITY);
    }
  }

  lemma LastTwice(s: seq<Record>, rec: Record, n: nat)
    requires n > 0
    ensures Last(Last(s, n) + [rec], n) == Last(s + [rec], n)
  {
  }

  lemma WholeTail(f: Flash, tail: seq<Record>)
    requires EndsWith(f, tail) && |tail| == f.count
    ensures Represents(f, tail)
  {
  }

  /** Whatever the power did before: CAPACITY records later the ring is exactly those records. */
  lemma Mends(f: Flash, recs: seq<Record>)
    requires |recs| == CAPACITY
    ensures Represents(PersistedAll(f, recs), recs)
  {
    assert EndsWith(f, []);
    hide PersistedAll, EndsWith, Represents, Cells;
    EndsWithAll(f, [], recs);
    assert [] + recs == recs;
    WholeTail(PersistedAll(f, recs), recs);
  }

  /** The length is positive and yet no record is found: uploads fail without sending anything. */
  predicate Blocked(f: Flash) {
    f.count > 0 && Oldest(f) == None
  }

  lemma RingNotBlocked(f: Flash, ring: seq<Record>)
    requires Represents(f, ring)
    ensures !Blocked(f)
  {
    OldestOfRing(f, ring);
  }

  /** A pop that loses power behind its erase blocks uploads until the ring has been full and
      one more record comes in, and no longer; nothing but the erased record is lost. */
  lemma BlockedUntilFull(f: Flash, ring: seq<Record>, recs: seq<Record>)
    requires Represents(f, ring) && ring != []
    ensures var g := PersistedAll(CutOff(f, PopWrites(f), 1), recs);
            (Blocked(g) <==> |ring| + |recs| <= CAPACITY) &&
            (|ring| + |recs| > CAPACITY ==> Represents(g, Last(ring[1..] + recs, CAPACITY)))
  {
    hide PersistedAll, CutOff;
    var c := CutOff(f, PopWrites(f), 1);
    PopCutCells(f, 1);
    hide PopWrites;
    BehindErased(f, c, ring);
    hide Cells, Represents, EndsWith;
    var g := PersistedAll(c, recs);
    EndsWithAll(c, ring[1..], recs);
    if |ring| + |recs| <= CAPACITY {
      StaysBlocked(c, recs);
      FirstCell(g);
    } else {
      var t := Last(ring[1..] + recs, CAPACITY);
      WholeTail(g, t);
      OldestOfRing(g, t);
    }
  }

  lemma FirstCell(f: Flash)
    ensures f.count > 0 ==> Oldest(f) == Cells(f)[0]
  {
  }

  lemma BehindErased(f: Flash, c: Flash, ring: seq<Record>)
    requires Represents(f, ring) && ring != [] && c.count == f.count && Cells(c) == Cells(f)[0 := None]
    ensures EndsWith(c, ring[1..]) && Cells(c)[0] == None
  {
    hide Cells;
  }

  lemma {:induction false} StaysBlocked(f: Flash, recs: seq<Record>)
    requires f.count > 0 && f.count + |recs| <= CAPACITY && Cells(f)[0] == None
    ensures Cells(PersistedAll(f, recs))[0] == None
    ensures PersistedAll(f, recs).count == f.count + |recs|
    decreases |recs|
  {
    hide Cells, Persisted;
    if recs != [] {
      var n := |recs| - 1;
      StaysBlocked(f, recs[..n]);
      PersistedCells(PersistedAll(f, recs[..n]), recs[n]);
    }
  }
}
