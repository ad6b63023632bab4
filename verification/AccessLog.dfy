/**
 The access log of main/access_log_service.c: a RAM queue of 16 records, drained into a ring of
 200 slots in the flash store, drained in turn by uploads. Calls into the store succeed as long as
 there is power, and the power may go between any two writes.
 */
module AccessLog {
  import opened AccessLogFlash
  import opened Bytes
  import opened Wrappers

  const QUEUE_DEPTH: nat := 16

  // ---------- the device, one event at a time ----------

  /** `sent` is what the backend has accepted. */
  datatype Device = Device(flash: Flash, queue: seq<Record>, sent: seq<Record>)

  const NEW_DEVICE := Device(EMPTY_FLASH, [], [])

  /** In `PersistCut` the power goes while the first record of the queue is persisted, in `PopCut`
      while a record is removed that the backend has accepted, each after `left` more writes. */
  datatype Event = Enqueue(rec: Record) | DrainOne | Upload | UploadFails
                 | PersistCut(left: nat) | PopCut(left: nat) | Reboot

  /** A restart: the RAM queue is gone, the flash store is not. */
  function Restarted(d: Device): Device {
    d.(queue := [])
  }

  function Step(d: Device, e: Event): Device {
    match e
    case Enqueue(rec) => if |d.queue| < QUEUE_DEPTH then d.(queue := d.queue + [rec]) else d
    case DrainOne =>
      if d.queue == [] then d else d.(flash := Persisted(d.flash, d.queue[0]), queue := d.queue[1..])
    case Upload => Accepted(d, Popped(d.flash))
    case UploadFails => d
    case PersistCut(left) =>
      Restarted(if d.queue == [] then d
                else d.(flash := CutOff(d.flash, PersistWrites(d.flash, d.queue[0]), left)))
    case PopCut(left) => Restarted(Accepted(d, CutOff(d.flash, PopWrites(d.flash), left)))
    case Reboot => Restarted(d)
  }

  /** The backend has the oldest record, and `flash` is what became of the store; if no record is
      found, nothing is sent and nothing removed. */
  function Accepted(d: Device, flash: Flash): Device {
    match Oldest(d.flash)
    case None => d
    case Some(rec) => d.(flash := flash, sent := d.sent + [rec])
  }

  function Steps(d: Device, es: seq<Event>): Device
    decreases |es|
  {
    if es == [] then d else Steps(Step(d, es[0]), es[1..])
  }

  /** `drain_ram_queue` without a loss of power. */
  function Drained(d: Device): Device
    decreases |d.queue|
  {
    if d.queue == [] then d else Drained(Step(d, DrainOne))
  }

  /** The upload attempts of one round: they end with the first that fails, or that finds no
      record, and the RAM queue is drained after each success. */
  function Attempts(d: Device, answers: seq<bool>): Device
    decreases |answers|
  {
    if answers == [] || !answers[0] || Oldest(d.flash).None? then d
    else Attempts(Drained(Step(d, Upload)), answers[1..])
  }

  // ---------- the history of a device ----------

  /** How a record left the ring. */
  datatype Fate = Uploaded | Overwritten

  /** `stored` is every record ever persisted; the first |fates| of them have left the ring.
      `posted` lists, by position in `stored`, the records the backend has accepted. */
  datatype History = History(queue: seq<Record>, stored: seq<Record>, fates: seq<Fate>, posted: seq<nat>)

  const NO_HISTORY := History([], [], [], [])

  function Ring(h: History): seq<Record> {
    if |h.fates| <= |h.stored| then h.stored[|h.fates|..] else []
  }

  function Kept(h: History, rec: Record): History {
    h.(stored := h.stored + [rec],
       fates := if |Ring(h)| >= CAPACITY then h.fates + [Overwritten] else h.fates)
  }

  function Posted(h: History): History {
    h.(posted := h.posted + [|h.fates|])
  }

  function Removed(h: History): History {
    h.(fates := h.fates + [Uploaded])
  }

  /** What an event means when it is harmless. */
  function Happen(h: History, e: Event): History {
    match e
    case Enqueue(rec) => if |h.queue| < QUEUE_DEPTH then h.(queue := h.queue + [rec]) else h
    case DrainOne => if h.queue == [] then h else Kept(h.(queue := h.queue[1..]), h.queue[0])
    case Upload => if Ring(h) == [] then h else Removed(Posted(h))
    case UploadFails => h
    case PersistCut(left) =>
      (if h.queue != [] && left >= 3 then Kept(h, h.queue[0]) else h).(queue := [])
    case PopCut(left) =>
      (if Ring(h) == [] then h else if left >= 3 then Removed(Posted(h)) else Posted(h)).(queue := [])
    case Reboot => h.(queue := [])
  }

  function Run(h: History, es: seq<Event>): History
    decreases |es|
  {
    if es == [] then h else Run(Happen(h, es[0]), es[1..])
  }

  /** The four cuts that do harm: in a persist on a full ring behind the erase or the new record,
      in a pop behind the erase or the new head. */
  predicate Harmless(h: History, e: Event) {
    match e
    case PersistCut(left) => h.queue == [] || PersistCutSafe(Ring(h), left)
    case PopCut(left) => Ring(h) == [] || (left != 1 && left != 2)
    case _ => true
  }

  predicate HarmlessRun(h: History, es: seq<Event>)
    decreases |es|
  {
    es == [] || (Harmless(h, es[0]) && HarmlessRun(Happen(h, es[0]), es[1..]))
  }

  ghost predicate NonDecreasing(s: seq<nat>) {
    forall i, j :: 0 <= i < j < |s| ==> s[i] <= s[j]
  }

  ghost predicate Increasing(s: seq<nat>) {
    forall i, j :: 0 <= i < j < |s| ==> s[i] < s[j]
  }

  /** The run invariant. The ring is the suffix of what was stored; a record leaves it at the
      old end only, by upload, or by being overwritten when CAPACITY newer ones were there. */
  ghost predicate Sound(h: History) {
    |h.queue| <= QUEUE_DEPTH &&
    |h.fates| <= |h.stored| <= |h.fates| + CAPACITY &&
    (forall i :: 0 <= i < |h.fates| && h.fates[i] == Overwritten ==> i + CAPACITY < |h.stored|) &&
    (forall i :: 0 <= i < |h.fates| && h.fates[i] == Uploaded ==> i in h.posted) &&
    NonDecreasing(h.posted) &&
    (forall k :: 0 <= k < |h.posted| ==> h.posted[k] <= |h.fates| && h.posted[k] < |h.stored|)
  }

  /** The device is where its history says. */
  ghost predicate Matches(d: Device, h: History) {
    Sound(h) && d.queue == h.queue && Represents(d.flash, Ring(h)) &&
    |d.sent| == |h.posted| && forall k :: 0 <= k < |d.sent| ==> d.sent[k] == h.stored[h.posted[k]]
  }

  lemma NewMatches()
    ensures Matches(NEW_DEVICE, NO_HISTORY) && ExactlyOnce(NO_HISTORY)
  {
  }

  lemma KeptSound(h: History, rec: Record)
    requires Sound(h)
    ensures Sound(Kept(h, rec)) && Ring(Kept(h, rec)) == Pushed(Ring(h), rec)
    ensures Kept(h, rec).fates == h.fates || Kept(h, rec).fates == h.fates + [Overwritten]
  {
  }

  lemma PostedSound(h: History)
    requires Sound(h) && Ring(h) != []
    ensures Sound(Posted(h)) && Sound(Removed(Posted(h)))
  {
    assert Posted(h).posted[|h.posted|] == |h.fates|;
  }

  lemma QueueSound(h: History, queue: seq<Record>)
    requires Sound(h) && |queue| <= QUEUE_DEPTH
    ensures Sound(h.(queue := queue)) && Ring(h.(queue := queue)) == Ring(h)
  {
  }

  lemma EventSound(h: History, e: Event)
    requires Sound(h)
    ensures Sound(Happen(h, e))
  {
    assert |h.queue| <= QUEUE_DEPTH;
    hide Sound, Ring, Pushed, Kept, Posted, Removed;
    match e {
      case Enqueue(rec) =>
        if |h.queue| < QUEUE_DEPTH {
          QueueSound(h, h.queue + [rec]);
        }
      case DrainOne =>
        if h.queue != [] {
          QueueSound(h, h.queue[1..]);
          KeptSound(h.(queue := h.queue[1..]), h.queue[0]);
        }
      case Upload =>
        if Ring(h) != [] {
          PostedSound(h);
        }
      case UploadFails =>
      case PersistCut(left) =>
        QueueSound(h, []);
        if h.queue != [] {
          KeptSound(h, h.queue[0]);
          QueueSound(Kept(h, h.queue[0]), []);
        }
      case PopCut(left) =>
        QueueSound(h, []);
        if Ring(h) != [] {
          PostedSound(h);
          QueueSound(Posted(h), []);
          QueueSound(Removed(Posted(h)), []);
        }
      case Reboot => QueueSound(h, []);
    }
  }

  /** The same records in the same places, with one more stored. */
  lemma KeptMatches(d: Device, h: History, rec: Record, flash: Flash)
    requires Matches(d, h) && Represents(flash, Pushed(Ring(h), rec))
    ensures Matches(d.(flash := flash), Kept(h, rec))
  {
    hide Represents, Pushed;
    KeptSound(h, rec);
  }

  lemma PostedMatches(d: Device, h: History)
    requires Matches(d, h) && Ring(h) != []
    ensures Oldest(d.flash) == Some(Ring(h)[0])
    ensures Matches(d.(sent := d.sent + [Ring(h)[0]]), Posted(h))
  {
    OldestOfRing(d.flash, Ring(h));
    hide Represents, Oldest;
    assert Ring(Posted(h)) == Ring(h);
  }

  lemma RemovedMatches(d: Device, h: History, flash: Flash)
    requires Matches(d, h) && Ring(h) != [] && |h.fates| in h.posted && Represents(flash, Ring(h)[1..])
    ensures Matches(d.(flash := flash), Removed(h))
  {
    hide Represents;
    assert Ring(Removed(h)) == Ring(h)[1..];
  }

  lemma DrainMatches(d: Device, h: History)
    requires Matches(d, h)
    ensures Matches(Step(d, DrainOne), Happen(h, DrainOne))
  {
    if d.queue != [] {
      hide Represents, Persisted;
      PersistedRing(d.flash, Ring(h), d.queue[0]);
      var q := h.(queue := h.queue[1..]);
      assert Ring(q) == Ring(h);
      KeptMatches(d.(queue := d.queue[1..]), q, d.queue[0], Persisted(d.flash, d.queue[0]));
    }
  }

  lemma PersistedRing(f: Flash, ring: seq<Record>, rec: Record)
    requires Represents(f, ring)
    ensures Represents(Persisted(f, rec), Pushed(ring, rec))
  {
    var ws := PersistWrites(f, rec);
    assert |ws| >= 3 && ws[..|ws|] == ws;
    hide PersistWrites, Represents, WrittenAll;
    PersistCutLeaves(f, ring, rec, |ws|);
  }

  lemma PoppedRing(f: Flash, ring: seq<Record>)
    requires Represents(f, ring) && ring != []
    ensures Represents(Popped(f), ring[1..])
  {
    var ws := PopWrites(f);
    assert |ws| == 3 && ws[..|ws|] == ws;
    hide PopWrites, Represents, WrittenAll;
    PopCutLeaves(f, ring, |ws|);
  }

  lemma RestartMatches(d: Device, h: History)
    requires Matches(d, h)
    ensures Matches(Restarted(d), h.(queue := []))
  {
    hide Represents;
    assert Ring(h.(queue := [])) == Ring(h);
  }

  lemma FlashMatches(d: Device, h: History, flash: Flash)
    requires Matches(d, h)
    ensures d.queue == h.queue && Represents(d.flash, Ring(h))
    ensures Represents(flash, Ring(h)) ==> Matches(d.(flash := flash), h)
  {
    hide Represents;
  }

  lemma PersistCutMatches(d: Device, h: History, left: nat)
    requires Matches(d, h) && Harmless(h, PersistCut(left))
    ensures Matches(Step(d, PersistCut(left)), Happen(h, PersistCut(left)))
  {
    FlashMatches(d, h, d.flash);
    CutMeans(d, h, left);
    hide *;
    if d.queue == [] {
      RestartMatches(d, h);
    } else {
      var rec := d.queue[0];
      var flash := CutOff(d.flash, PersistWrites(d.flash, rec), left);
      PersistCutLeaves(d.flash, Ring(h), rec, left);
      FlashMatches(d, h, flash);
      if left >= 3 {
        KeptMatches(d, h, rec, flash);
        RestartMatches(d.(flash := flash), Kept(h, rec));
      } else {
        RestartMatches(d.(flash := flash), h);
      }
    }
  }

  lemma CutMeans(d: Device, h: History, left: nat)
    requires d.queue == h.queue
    ensures var e := PersistCut(left);
            if d.queue == [] then Step(d, e) == Restarted(d) && Happen(h, e) == h.(queue := [])
            else
              var flash := CutOff(d.flash, PersistWrites(d.flash, d.queue[0]), left);
              Step(d, e) == Restarted(d.(flash := flash)) &&
              Happen(h, e) == (if left >= 3 then Kept(h, h.queue[0]) else h).(queue := []) &&
              (Harmless(h, e) <==> PersistCutSafe(Ring(h), left))
  {
    hide CutOff, PersistWrites, Kept, PersistCutSafe, Ring;
  }

  lemma PopMatches(d: Device, h: History, flash: Flash, removed: bool)
    requires Matches(d, h)
    requires Ring(h) != [] ==> Represents(flash, if removed then Ring(h)[1..] else Ring(h))
    ensures Matches(Accepted(d, flash),
                    if Ring(h) == [] then h else if removed then Removed(Posted(h)) else Posted(h))
  {
    OldestOfRing(d.flash, Ring(h));
    hide Represents, Oldest;
    if Ring(h) != [] {
      PostedMatches(d, h);
      var p := Posted(h);
      assert Ring(p) == Ring(h);
      assert p.posted[|h.posted|] == |h.fates|;
      var s := d.(sent := d.sent + [Ring(h)[0]]);
      if removed {
        RemovedMatches(s, p, flash);
      }
    }
  }

  lemma PopCutMatches(d: Device, h: History, left: nat)
    requires Matches(d, h) && Harmless(h, PopCut(left))
    ensures Matches(Step(d, PopCut(left)), Happen(h, PopCut(left)))
  {
    hide Represents, CutOff, PopWrites, Oldest;
    var flash := CutOff(d.flash, PopWrites(d.flash), left);
    if Ring(h) != [] {
      PopCutLeaves(d.flash, Ring(h), left);
    }
    PopMatches(d, h, flash, left >= 3);
    var n := if Ring(h) == [] then h else if left >= 3 then Removed(Posted(h)) else Posted(h);
    RestartMatches(Accepted(d, flash), n);
  }

  lemma StepMatches(d: Device, h: History, e: Event)
    requires Matches(d, h) && Harmless(h, e)
    ensures Matches(Step(d, e), Happen(h, e))
  {
    hide Represents, Persisted, Popped, Oldest, CutOff;
    match e {
      case Enqueue(rec) => assert Ring(h.(queue := h.queue + [rec])) == Ring(h);
      case DrainOne => DrainMatches(d, h);
      case Upload =>
        if Ring(h) != [] {
          PoppedRing(d.flash, Ring(h));
        }
        PopMatches(d, h, Popped(d.flash), true);
      case UploadFails =>
      case PersistCut(left) => PersistCutMatches(d, h, left);
      case PopCut(left) => PopCutMatches(d, h, left);
      case Reboot => RestartMatches(d, h);
    }
  }

  /** Over every interleaving of enqueue, drain of one record, upload, failure, reboot and loss of
      power between any two writes, as long as no cut is one of the four that do harm. */
  lemma {:induction false} RunMatches(d: Device, h: History, es: seq<Event>)
    requires Matches(d, h) && HarmlessRun(h, es)
    ensures Matches(Steps(d, es), Run(h, es))
    decreases |es|
  {
    hide Matches, Step, Happen, Harmless;
    if es != [] {
      StepMatches(d, h, es[0]);
      RunMatches(Step(d, es[0]), Happen(h, es[0]), es[1..]);
    }
  }

  // ---------- every record once ----------

  /** The positions of the records that left by upload, in order. */
  function UploadedAt(fates: seq<Fate>): seq<nat> {
    if fates == [] then []
    else
      var n := |fates| - 1;
      UploadedAt(fates[..n]) + (if fates[n] == Uploaded then [n] else [])
  }

  /** No record is posted twice: the posts are exactly the uploads, in order. */
  ghost predicate ExactlyOnce(h: History) {
    h.posted == UploadedAt(h.fates)
  }

  lemma {:induction false} UploadedIncreasing(fates: seq<Fate>)
    ensures Increasing(UploadedAt(fates))
    ensures forall k :: 0 <= k < |UploadedAt(fates)| ==>
              UploadedAt(fates)[k] < |fates| && fates[UploadedAt(fates)[k]] == Uploaded
    decreases |fates|
  {
    if fates != [] {
      UploadedIncreasing(fates[..|fates| - 1]);
    }
  }

  /** A pop that loses power before its end has posted a record that is not removed. */
  predicate Lossless(es: seq<Event>) {
    forall i :: 0 <= i < |es| && es[i].PopCut? ==> es[i].left >= 3
  }

  lemma KeptOnce(h: History, rec: Record)
    requires ExactlyOnce(h)
    ensures ExactlyOnce(Kept(h, rec))
  {
    assert (h.fates + [Overwritten])[..|h.fates|] == h.fates;
  }

  lemma RemovedOnce(h: History)
    requires ExactlyOnce(h)
    ensures ExactlyOnce(Removed(Posted(h))) && !ExactlyOnce(Posted(h))
  {
    assert (h.fates + [Uploaded])[..|h.fates|] == h.fates;
  }

  /** Each event keeps that if and only if it does not cut the removal of a posted record short. */
  lemma EventExactlyOnce(h: History, e: Event)
    requires Sound(h) && ExactlyOnce(h)
    ensures ExactlyOnce(Happen(h, e)) <==> Lossless([e]) || Ring(h) == []
  {
    LosslessOne(e);
    RemovedOnce(h);
    hide Sound, Ring, UploadedAt, ExactlyOnce, Kept, Posted, Removed, Lossless;
    match e {
      case Enqueue(rec) => QueueOnce(h, h.queue + [rec]);
      case DrainOne =>
        if h.queue != [] {
          var q := h.(queue := h.queue[1..]);
          QueueOnce(h, q.queue);
          KeptOnce(q, h.queue[0]);
        }
      case Upload =>
      case UploadFails =>
      case PersistCut(_) =>
        QueueOnce(h, []);
        if h.queue != [] {
          KeptOnce(h, h.queue[0]);
          QueueOnce(Kept(h, h.queue[0]), []);
        }
      case PopCut(_) =>
        QueueOnce(h, []);
        QueueOnce(Posted(h), []);
        QueueOnce(Removed(Posted(h)), []);
      case Reboot => QueueOnce(h, []);
    }
  }

  lemma LosslessOne(e: Event)
    ensures Lossless([e]) <==> !e.PopCut? || e.left >= 3
  {
    assert [e][0] == e;
  }

  lemma QueueOnce(h: History, queue: seq<Record>)
    ensures ExactlyOnce(h.(queue := queue)) <==> ExactlyOnce(h)
  {
  }

  lemma {:induction false} HistoryExactlyOnce(h: History, es: seq<Event>)
    requires Sound(h) && ExactlyOnce(h) && Lossless(es)
    ensures ExactlyOnce(Run(h, es)) && Increasing(Run(h, es).posted)
    decreases |es|
  {
    if es == [] {
      UploadedIncreasing(h.fates);
    } else {
      EventSound(h, es[0]);
      EventExactlyOnce(h, es[0]);
      hide Sound, Happen, ExactlyOnce, Increasing;
      assert forall i :: 0 <= i < |es[1..]| ==> es[1..][i] == es[i + 1];
      HistoryExactlyOnce(Happen(h, es[0]), es[1..]);
    }
  }

  /** Without a loss of power between an accepted post and the end of the removal, a harmless run
      sends each uploaded record once, in the order of storage. */
  lemma RunExactlyOnce(d: Device, h: History, es: seq<Event>)
    requires Matches(d, h) && ExactlyOnce(h) && HarmlessRun(h, es) && Lossless(es)
    ensures Matches(Steps(d, es), Run(h, es))
    ensures ExactlyOnce(Run(h, es)) && Increasing(Run(h, es).posted)
  {
    RunMatches(d, h, es);
    HistoryExactlyOnce(h, es);
  }

  /** Whatever happens from here without such a loss of power, no record is posted again. */
  ghost predicate NeverRepeats(h: History) {
    forall es: seq<Event> :: HarmlessRun(h, es) && Lossless(es) ==> Increasing(Run(h, es).posted)
  }

  /** The backend has not accepted the oldest record of the ring yet. */
  ghost predicate Unposted(h: History) {
    Sound(h) && Increasing(h.posted) && |h.fates| !in h.posted
  }

  lemma RemovedUnposted(h: History)
    requires Unposted(h)
    ensures var r := Removed(Posted(h)); Increasing(r.posted) && |r.fates| !in r.posted
    ensures |h.fates| + 1 !in h.posted
  {
  }

  lemma EventKeepsUnposted(h: History, e: Event)
    requires Unposted(h) && Lossless([e])
    ensures Unposted(Happen(h, e))
  {
    assert [e][0] == e;
    EventSound(h, e);
    RemovedUnposted(h);
    hide Sound, Ring, Increasing;
  }

  lemma {:induction false} RunKeepsUnposted(h: History, es: seq<Event>)
    requires Unposted(h) && Lossless(es)
    ensures Unposted(Run(h, es))
    decreases |es|
  {
    hide Unposted, Happen;
    if es != [] {
      EventKeepsUnposted(h, es[0]);
      assert forall i :: 0 <= i < |es[1..]| ==> es[1..][i] == es[i + 1];
      RunKeepsUnposted(Happen(h, es[0]), es[1..]);
    }
  }

  /** Exactly when the future is free of repeated posts: the oldest record of the ring must not be
      one that the backend has already accepted. */
  lemma NeverRepeatsExactly(h: History)
    requires Sound(h) && Increasing(h.posted)
    ensures NeverRepeats(h) <==> |h.fates| !in h.posted
  {
    if |h.fates| !in h.posted {
      forall es: seq<Event> | HarmlessRun(h, es) && Lossless(es) ensures Increasing(Run(h, es).posted) {
        RunKeepsUnposted(h, es);
      }
    } else {
      var k :| 0 <= k < |h.posted| && h.posted[k] == |h.fates|;
      OneEvent(h, Upload);
      var r := Run(h, [Upload]);
      assert r.posted[k] == r.posted[|h.posted|];
      assert HarmlessRun(h, [Upload]) && Lossless([Upload]);
    }
  }

  lemma OneEvent(h: History, e: Event)
    ensures Run(h, [e]) == Happen(h, e) && HarmlessRun(h, [e]) == Harmless(h, e)
  {
    assert [e][1..] == [];
    assert Run(Happen(h, e), []) == Happen(h, e) && HarmlessRun(Happen(h, e), []);
  }

  // ---------- what a loss of power can do ----------

  lemma TwoSteps(d: Device, a: Event, b: Event)
    ensures Steps(d, [a, b]) == Step(Step(d, a), b)
  {
    hide Step;
    assert [a, b][1..] == [b] && [b][1..] == [];
    assert Steps(Step(d, a), [b]) == Steps(Step(Step(d, a), b), []);
  }

  /** Power lost behind an accepted post and before the first write of the removal: the next upload
      sends the record again. */
  lemma LossRepeats(d: Device, h: History)
    requires Matches(d, h) && Ring(h) != []
    ensures Steps(d, [PopCut(0), Upload]).sent == d.sent + [Ring(h)[0], Ring(h)[0]]
  {
    TwoSteps(d, PopCut(0), Upload);
    var rec := Ring(h)[0];
    assert d.sent + [rec, rec] == d.sent + [rec] + [rec];
    hide Represents, CutOff, Popped, Oldest;
    OldestOfRing(d.flash, Ring(h));
    PopCutLeaves(d.flash, Ring(h), 0);
    OldestOfRing(CutOff(d.flash, PopWrites(d.flash), 0), Ring(h));
  }

  /** Power lost on a full ring behind the new record and before the new head: the newest record is
      the next to be sent, before all older ones. */
  lemma NewestFirst(d: Device, h: History)
    requires Matches(d, h) && |Ring(h)| == CAPACITY && d.queue != []
    ensures Steps(d, [PersistCut(2), Upload]).sent == d.sent + [d.queue[0]]
    ensures Represents(Step(d, PersistCut(2)).flash, [d.queue[0]] + Ring(h)[1..])
  {
    TwoSteps(d, PersistCut(2), Upload);
    hide Represents, CutOff, Popped, Oldest;
    PersistCutLeaves(d.flash, Ring(h), d.queue[0], 2);
    OldestOfRing(Step(d, PersistCut(2)).flash, [d.queue[0]] + Ring(h)[1..]);
  }

  /** Power lost behind the erase of a removal: no ring is left, and uploads send nothing. */
  lemma NothingSent(d: Device, h: History)
    requires Matches(d, h) && Ring(h) != []
    ensures var c := Step(d, PopCut(1));
            Step(c, Upload) == c && Blocked(c.flash) && forall r :: !Represents(c.flash, r)
  {
    PopCutCells(d.flash, 1);
    OldestOfRing(d.flash, Ring(h));
    hide Represents, Oldest, CutOff;
    PopCutLeaves(d.flash, Ring(h), 1);
  }

  /** A cut persist and then a removal cut behind its new head: the lost record comes to life in the
      place of the one that was removed. */
  lemma LostRecordReturns(d: Device, h: History, rec: Record)
    requires Matches(d, h) && Ring(h) != [] && |Ring(h)| < CAPACITY && d.queue != [] && d.queue[0] == rec
    ensures var c := Step(Step(d, PersistCut(1)), PopCut(2));
            Represents(c.flash, Ring(h)[1..] + [rec]) && c.queue == []
  {
    var a := Step(d, PersistCut(1));
    PersistCutCells(d.flash, rec, 1);
    assert Cells(a.flash)[|Ring(h)|] == Some(rec);
    OldestOfRing(d.flash, Ring(h));
    hide Cells, CutOff, PersistWrites;
    PersistCutLeaves(d.flash, Ring(h), rec, 1);
    OldestOfRing(a.flash, Ring(h));
    hide Represents, Oldest;
    PopCutLeaves(a.flash, Ring(h), 2);
  }

  /** The harmful cuts do harm wherever records can be told apart: exactly the harmless ones leave the
      old or the new ring. In a persist ... */
  lemma HarmlessPersist(d: Device, h: History, left: nat)
    requires Matches(d, h) && d.queue != [] && d.queue[0] !in Ring(h)
    ensures var f := Step(d, PersistCut(left)).flash;
            Harmless(h, PersistCut(left)) <==> Represents(f, Ring(h)) || Represents(f, Pushed(Ring(h), d.queue[0]))
  {
    var ring, rec := Ring(h), d.queue[0];
    PersistCutExactly(d.flash, ring, rec, left);
    hide Represents, CutOff, PersistWrites, Pushed;
    assert |ring| > 1 ==> ring[0] in ring && ring[1] in ring;
  }

  /** ... and in a removal. */
  lemma HarmlessPop(d: Device, h: History, left: nat)
    requires Matches(d, h) && Ring(h) != []
    requires |Ring(h)| < CAPACITY ==> Cells(d.flash)[|Ring(h)|] != Some(Ring(h)[0])
    ensures var f := Step(d, PopCut(left)).flash;
            Harmless(h, PopCut(left)) <==> Represents(f, Ring(h)) || Represents(f, Ring(h)[1..])
  {
    OldestOfRing(d.flash, Ring(h));
    PopCutExactly(d.flash, Ring(h), left);
    hide Represents, CutOff, PopWrites, Oldest, Cells;
  }

  /** Everything the device holds or has sent is among the known records. */
  ghost predicate Known(d: Device, known: set<Record>) {
    |d.queue| <= QUEUE_DEPTH && (forall rec :: rec in d.queue || rec in d.sent ==> rec in known) &&
    BlobsKnown(d.flash, known)
  }

  ghost predicate BlobsKnown(f: Flash, known: set<Record>) {
    forall key :: key in f.blobs ==> f.blobs[key] in known
  }

  lemma {:induction false} WritesKnown(f: Flash, ws: seq<Write>, known: set<Record>)
    requires BlobsKnown(f, known)
    requires forall i :: 0 <= i < |ws| && ws[i].PutBlob? ==> ws[i].rec in known
    ensures BlobsKnown(WrittenAll(f, ws), known)
    decreases |ws|
  {
    if ws != [] {
      WritesKnown(f, ws[..|ws| - 1], known);
    }
  }

  lemma StepKnown(d: Device, e: Event, known: set<Record>)
    requires Known(d, known) && (e.Enqueue? ==> e.rec in known)
    ensures Known(Step(d, e), known)
  {
    hide WrittenAll, KeyForSlot, SlotAt;
    match e {
      case DrainOne =>
        if d.queue != [] {
          WritesKnown(d.flash, PersistWrites(d.flash, d.queue[0]), known);
        }
      case Upload => WritesKnown(d.flash, PopWrites(d.flash), known);
      case PersistCut(left) =>
        if d.queue != [] {
          var ws := PersistWrites(d.flash, d.queue[0]);
          WritesKnown(d.flash, ws[..Min(left, |ws|)], known);
        }
      case PopCut(left) =>
        var ws := PopWrites(d.flash);
        WritesKnown(d.flash, ws[..Min(left, |ws|)], known);
      case _ =>
    }
  }

  /** Over every run at all, harmful cuts included: nothing is sent, or found in the store, that was
      not enqueued once, and the queue keeps its bound. */
  lemma {:induction false} NothingInvented(d: Device, es: seq<Event>, known: set<Record>)
    requires Known(d, known) && forall i :: 0 <= i < |es| && es[i].Enqueue? ==> es[i].rec in known
    ensures Known(Steps(d, es), known)
    decreases |es|
  {
    hide Known, Step;
    if es != [] {
      StepKnown(d, es[0], known);
      assert forall i :: 0 <= i < |es[1..]| ==> es[1..][i] == es[i + 1];
      NothingInvented(Step(d, es[0]), es[1..], known);
    }
  }

  // ---------- whole rounds ----------

  lemma {:induction false} DrainedRing(d: Device, ring: seq<Record>)
    requires Represents(d.flash, ring)
    ensures Represents(Drained(d).flash, Last(ring + d.queue, CAPACITY))
    ensures Drained(d).queue == [] && Drained(d).sent == d.sent
    decreases |d.queue|
  {
    if d.queue == [] {
      assert ring + d.queue == ring;
    } else {
      hide Represents, Persisted;
      var rec := d.queue[0];
      PersistedRing(d.flash, ring, rec);
      DrainedRing(Step(d, DrainOne), Pushed(ring, rec));
      assert d.queue == [rec] + d.queue[1..];
      LastPushed(ring, rec, d.queue[1..]);
    }
  }

  lemma LastPushed(ring: seq<Record>, rec: Record, more: seq<Record>)
    requires |ring| <= CAPACITY
    ensures Last(Pushed(ring, rec) + more, CAPACITY) == Last(ring + ([rec] + more), CAPACITY)
  {
  }

  /** How many posts are accepted before the first that is not. */
  function Accepts(answers: seq<bool>): (k: nat)
    ensures k <= |answers| && (forall i :: 0 <= i < k ==> answers[i]) && (k < |answers| ==> !answers[k])
  {
    if answers == [] || !answers[0] then 0 else 1 + Accepts(answers[1..])
  }

  /** The attempts of a round send the records from the oldest on, as many as the backend accepts in a
      row and the ring holds; the rest stays in the ring. */
  lemma {:induction false} AttemptsSend(d: Device, ring: seq<Record>, answers: seq<bool>)
    requires Represents(d.flash, ring) && d.queue == []
    ensures var k, r := Min(Accepts(answers), |ring|), Attempts(d, answers);
            r.sent == d.sent + ring[..k] && Represents(r.flash, ring[k..]) && r.queue == []
    decreases |answers|
  {
    var k := Min(Accepts(answers), |ring|);
    AttemptsBegin(d, ring, answers);
    hide Represents, Attempts, Accepts, Step;
    if ring != [] && answers != [] && answers[0] {
      AttemptsSend(Step(d, Upload), ring[1..], answers[1..]);
      AcceptsFirst(answers);
      TakeOne(d.sent, ring, k);
    } else {
      assert ring[0..] == ring && d.sent + ring[..0] == d.sent;
    }
  }

  lemma TakeOne(sent: seq<Record>, ring: seq<Record>, k: nat)
    requires 0 < k <= |ring|
    ensures (sent + [ring[0]]) + ring[1..][..k - 1] == sent + ring[..k] && ring[1..][k - 1..] == ring[k..]
  {
  }

  /** The first attempt. */
  lemma AttemptsBegin(d: Device, ring: seq<Record>, answers: seq<bool>)
    requires Represents(d.flash, ring) && d.queue == []
    ensures if ring != [] && answers != [] && answers[0] then
              var n := Step(d, Upload);
              Attempts(d, answers) == Attempts(n, answers[1..]) &&
              n.sent == d.sent + [ring[0]] && Represents(n.flash, ring[1..]) && n.queue == []
            else
              Attempts(d, answers) == d && (ring == [] || Accepts(answers) == 0)
  {
    OldestOfRing(d.flash, ring);
    hide Represents, Popped, Oldest;
    if ring != [] && answers != [] && answers[0] {
      PoppedRing(d.flash, ring);
      NothingToDrain(Step(d, Upload));
      hide Drained;
    }
  }

  lemma NothingToDrain(d: Device)
    ensures d.queue == [] ==> Drained(d) == d
  {
  }

  lemma AcceptsFirst(answers: seq<bool>)
    requires answers != [] && answers[0]
    ensures Accepts(answers) == 1 + Accepts(answers[1..])
  {
  }

  /** So does a round, after its drain, with what ring and queue held, but for records that the drain
      overwrites. */
  lemma RoundSends(d: Device, ring: seq<Record>, answers: seq<bool>)
    requires Represents(d.flash, ring)
    ensures var all := Last(ring + d.queue, CAPACITY);
            var k, r := Min(Accepts(answers), |all|), Attempts(Drained(d), answers);
            r.sent == d.sent + all[..k] && Represents(r.flash, all[k..]) && r.queue == []
  {
    hide Represents, Drained, Attempts;
    DrainedRing(d, ring);
    AttemptsSend(Drained(d), Last(ring + d.queue, CAPACITY), answers);
  }

  /** A backend that accepts everything gets it all, once each and oldest first. */
  lemma RoundUploadsAll(d: Device, ring: seq<Record>, answers: seq<bool>)
    requires Represents(d.flash, ring)
    requires |answers| >= CAPACITY && forall i :: 0 <= i < |answers| ==> answers[i]
    ensures var r := Attempts(Drained(d), answers);
            r.sent == d.sent + Last(ring + d.queue, CAPACITY) && Represents(r.flash, [])
  {
    hide Drained, Attempts, Represents;
    RoundSends(d, ring, answers);
    var all := Last(ring + d.queue, CAPACITY);
    assert all[..|all|] == all && all[|all|..] == [];
  }

  function Drains(n: nat): seq<Event> {
    seq(n, _ => DrainOne)
  }

  /** A drain is a run of its single records. */
  lemma {:induction false} DrainedRun(d: Device)
    ensures Steps(d, Drains(|d.queue|)) == Drained(d)
    decreases |d.queue|
  {
    hide Persisted;
    if d.queue != [] {
      var n := Step(d, DrainOne);
      assert Drains(|d.queue|)[1..] == Drains(|n.queue|);
      DrainedRun(n);
    }
  }

  lemma {:induction false} StepsConcat(d: Device, a: seq<Event>, b: seq<Event>)
    ensures Steps(d, a + b) == Steps(Steps(d, a), b)
    decreases |a|
  {
    hide Step;
    if a == [] {
      assert a + b == b;
    } else {
      assert (a + b)[1..] == a[1..] + b;
      StepsConcat(Step(d, a[0]), a[1..], b);
    }
  }

  lemma OneStep(d: Device, e: Event)
    ensures Steps(d, [e]) == Step(d, e)
  {
    hide Step;
    assert [e][1..] == [];
    assert Steps(Step(d, e), []) == Step(d, e);
  }

  lemma AttemptsStep(d: Device, answers: seq<bool>, i: nat)
    requires i <= |answers|
    ensures Attempts(d, answers[i..]) ==
            if i == |answers| || !answers[i] || Oldest(d.flash).None? then d
            else Attempts(Drained(Step(d, Upload)), answers[i + 1..])
  {
    if i < |answers| {
      assert answers[i..][1..] == answers[i + 1..];
    }
  }

  // ---------- the service ----------

  /** The writes that succeed: all of them, or as many as the power lasts for. */
  function Cut(f: Flash, ws: seq<Write>, power: Option<nat>): Flash {
    match power
    case None => WrittenAll(f, ws)
    case Some(left) => CutOff(f, ws, left)
  }

  /** How long the power lasts after n more writes. */
  function Later(power: Option<nat>, n: nat): Option<nat> {
    match power
    case None => None
    case Some(left) => Some(if left < n then 0 else left - n)
  }

  lemma {:induction false} CutConcat(f: Flash, a: seq<Write>, b: seq<Write>, power: Option<nat>)
    ensures Cut(Cut(f, a, power), b, Later(power, |a|)) == Cut(f, a + b, power)
    ensures Later(Later(power, |a|), |b|) == Later(power, |a + b|)
  {
    match power {
      case None => WrittenConcat(f, a, b);
      case Some(left) =>
        if left < |a| {
          assert (a + b)[..left] == a[..left];
          assert b[..0] == [];
        } else {
          var n := Min(left - |a|, |b|);
          assert a[..|a|] == a && (a + b)[..|a| + n] == a + b[..n];
          WrittenConcat(f, a, b[..n]);
        }
    }
  }

  lemma {:induction false} WrittenConcat(f: Flash, a: seq<Write>, b: seq<Write>)
    ensures WrittenAll(WrittenAll(f, a), b) == WrittenAll(f, a + b)
    decreases |b|
  {
    if b == [] {
      assert a + b == a;
    } else {
      var n := |b| - 1;
      assert (a + b)[..|a| + n] == a + b[..n];
      WrittenConcat(f, a, b[..n]);
    }
  }

  lemma CutNone(f: Flash, power: Option<nat>)
    ensures Cut(f, [], power) == f && Later(power, 0) == power
  {
  }

  lemma CutOne(f: Flash, w: Write, power: Option<nat>)
    ensures Cut(f, [w], power) == if power == Some(0) then f else Written(f, w)
  {
    assert [w][..0] == [] && [w][..1] == [w];
    assert WrittenAll(f, [w]) == Written(WrittenAll(f, []), w);
  }

  /** `copy_trunc_c` into a field of `size` bytes, the closing zero included. */
  function CopyTrunc(size: nat, src: string): (r: string)
    ensures size > 0 ==> r == src[..Min(|src|, size - 1)]
  {
    if |src| + 1 <= size || size == 0 then src else src[..size - 1]
  }

  /** `power` is how many more writes the store accepts before the power goes; usually it stays. */
  class Service {
    var u16s: map<string, nat>
    var blobs: map<string, Record>
    var power: Option<nat>
    var queue: seq<Record>
    ghost var sent: seq<Record>

    function Number(key: string): nat
      reads this
    {
      if key in u16s then u16s[key] else 0
    }

    /** The store as `load_meta` sees it. */
    ghost function Store(): Flash
      reads this
    {
      Flash(blobs, if Number("head") >= CAPACITY then 0 else Number("head"),
            if Number("count") > CAPACITY then CAPACITY else Number("count"))
    }

    ghost function State(): Device
      reads this
    {
      Device(Store(), queue, sent)
    }

    constructor ()
      ensures State() == NEW_DEVICE && power == None
    {
      u16s, blobs, queue, sent, power := map[], map[], [], [], None;
    }

    /** `nvs_erase_key`: a missing key does not matter. */
    method EraseKey(slot: SlotNumber)
      modifies this`blobs, this`power
      ensures Store() == Cut(old(Store()), [EraseBlob(slot)], old(power)) && power == Later(old(power), 1)
    {
      CutOne(Store(), EraseBlob(slot), power);
      if power != Some(0) {
        blobs := blobs - {KeyForSlot(slot)};
      }
      power := Later(power, 1);
    }

    /** `nvs_set_blob`. */
    method SetBlob(slot: SlotNumber, rec: Record)
      modifies this`blobs, this`power
      ensures Store() == Cut(old(Store()), [PutBlob(slot, rec)], old(power)) && power == Later(old(power), 1)
    {
      CutOne(Store(), PutBlob(slot, rec), power);
      if power != Some(0) {
        blobs := blobs[KeyForSlot(slot) := rec];
      }
      power := Later(power, 1);
    }

    /** `nvs_set_u16`. */
    method SetU16(key: string, value: nat)
      modifies this`u16s, this`power
      ensures u16s == (if old(power) == Some(0) then old(u16s) else old(u16s)[key := value])
      ensures power == Later(old(power), 1)
    {
      if power != Some(0) {
        u16s := u16s[key := value];
      }
      power := Later(power, 1);
    }

    /** `load_meta`: missing values are zero, values out of range are clamped. */
    method LoadMeta() returns (head: nat, count: nat)
      ensures head == Store().head && count == Store().count
    {
      head, count := Number("head"), Number("count");
      if head >= CAPACITY {
        head := 0;
      }
      if count > CAPACITY {
        count := CAPACITY;
      }
    }

    method SaveMeta(head: SlotNumber, count: Length)
      modifies this`u16s, this`power
      ensures Store() == Cut(old(Store()), [PutHead(head), PutCount(count)], old(power))
      ensures power == Later(old(power), 2)
    {
      ghost var f, p := Store(), power;
      CutOne(f, PutHead(head), p);
      SetU16("head", head);
      assert Store() == Cut(f, [PutHead(head)], p);
      CutOne(Store(), PutCount(count), power);
      SetU16("count", count);
      CutConcat(f, [PutHead(head)], [PutCount(count)], p);
      assert [PutHead(head)] + [PutCount(count)] == [PutHead(head), PutCount(count)];
    }

    /** `persist_record`, cut where the power goes. */
    method PersistRecord(rec: Record)
      modifies this`u16s, this`blobs, this`power
      ensures Store() == Cut(old(Store()), PersistWrites(old(Store()), rec), old(power))
      ensures old(power) == None ==> power == None
    {
      hide Cut, KeyForSlot;
      ghost var f, p := Store(), power;
      var head, count := LoadMeta();
      ghost var done: seq<Write> := [];
      CutNone(f, p);
      if count >= CAPACITY {
        EraseKey(head);
        done := [EraseBlob(head)];
        head := (head + 1) % CAPACITY;
        count := count - 1;
      }
      var slot := (head + count) % CAPACITY;
      count := count + 1;
      ghost var meta := [PutHead(head), PutCount(count)];
      SetBlob(slot, rec);
      CutConcat(f, done, [PutBlob(slot, rec)], p);
      done := done + [PutBlob(slot, rec)];
      SaveMeta(head, count);
      CutConcat(f, done, meta, p);
      assert done + meta == PersistWrites(f, rec);
    }

    /** `peek_record`: without a record in the oldest slot there is none. */
    method PeekRecord() returns (rec: Option<Record>)
      ensures rec == Oldest(Store())
    {
      var head, count := LoadMeta();
      if count == 0 {
        return None;
      }
      var key := KeyForSlot(head);
      assert SlotAt(head, 0) == head;
      if key !in blobs {
        return None;
      }
      rec := Some(blobs[key]);
    }

    /** `pop_record`, cut where the power goes. */
    method PopRecord() returns (ok: bool)
      modifies this`u16s, this`blobs, this`power
      ensures Store() == Cut(old(Store()), PopWrites(old(Store())), old(power))
      ensures ok == (old(Store()).count > 0) && (old(power) == None ==> power == None)
    {
      ghost var f, p := Store(), power;
      var head, count := LoadMeta();
      if count == 0 {
        assert PopWrites(f) == [];
        return false;
      }
      hide Cut, KeyForSlot;
      EraseKey(head);
      ghost var first := [EraseBlob(head)];
      head := (head + 1) % CAPACITY;
      count := count - 1;
      SaveMeta(head, count);
      CutConcat(f, first, [PutHead(head), PutCount(count)], p);
      assert first + [PutHead(head), PutCount(count)] == PopWrites(f);
      ok := true;
    }

    /** One turn of the loop in `drain_ram_queue`. */
    method DrainRecord()
      requires queue != []
      modifies this`u16s, this`blobs, this`power, this`queue
      ensures queue == old(queue)[1..] && (old(power) == None ==> power == None)
      ensures Store() == Cut(old(Store()), PersistWrites(old(Store()), old(queue)[0]), old(power))
    {
      var rec := queue[0];
      queue := queue[1..];
      PersistRecord(rec);
    }

    method DrainRamQueue()
      requires power == None
      modifies this
      ensures State() == Drained(old(State())) && power == None
    {
      hide PersistWrites;
      while queue != []
        invariant power == None && Drained(State()) == Drained(old(State()))
        decreases |queue|
      {
        DrainRecord();
      }
    }

    /** `upload_one`: whether context and backend are ready and whether the post succeeds is
        decided outside. */
    method UploadOne(ready: bool, posts: bool) returns (ok: bool)
      modifies this
      ensures ok == (ready && posts && Oldest(old(Store())).Some?)
      ensures State() == if ready && posts
                         then Accepted(old(State()), Cut(old(Store()), PopWrites(old(Store())), old(power)))
                         else old(State())
      ensures old(power) == None ==> power == None
    {
      hide Cut, PopWrites, Cell;
      var rec := PeekRecord();
      if rec.None? {
        return false;
      }
      if !ready {
        return false;
      }
      if !posts {
        return false;
      }
      sent := sent + [rec.value];
      ok := PopRecord();
    }

    /** One round of `access_log_task`; `answers` are the outcomes of its upload attempts, and the
        service stops being ready when they run out. */
    method Round(answers: seq<bool>) returns (ghost es: seq<Event>)
      requires power == None
      modifies this
      ensures power == None && State() == Attempts(Drained(old(State())), answers)
      ensures State() == Steps(old(State()), es)
      ensures forall i :: 0 <= i < |es| ==> es[i] in {DrainOne, Upload, UploadFails}
    {
      hide Attempts, Steps, Drained, Oldest, PopWrites, WrittenAll;
      ghost var d := State();
      DrainRamQueue();
      DrainedRun(d);
      es := Drains(|d.queue|);
      ghost var goal := Attempts(State(), answers);
      var i := 0;
      assert answers[0..] == answers;
      while i < |answers|
        invariant i <= |answers| && power == None && State() == Steps(d, es)
        invariant forall k :: 0 <= k < |es| ==> es[k] in {DrainOne, Upload, UploadFails}
        invariant Attempts(State(), answers[i..]) == goal
      {
        ghost var was := State();
        AttemptsStep(was, answers, i);
        ghost var e := if answers[i] then Upload else UploadFails;
        var ok := UploadOne(true, answers[i]);
        OneStep(was, e);
        StepsConcat(d, es, [e]);
        es := es + [e];
        if !ok {
          return;
        }
        ghost var now := State();
        DrainRamQueue();
        DrainedRun(now);
        StepsConcat(d, es, Drains(|now.queue|));
        es := es + Drains(|now.queue|);
        i := i + 1;
      }
      AttemptsStep(State(), answers, i);
    }

    /** `access_log_service_enqueue`; `now` is the clock's answer. A full queue drops the record. */
    method EnqueueRecord(uid: string, result: string, reason: string, omitTs: bool, now: Option<string>)
      returns (ok: bool)
      modifies this`queue
      ensures ok == (|old(queue)| < QUEUE_DEPTH)
      ensures State() == Step(old(State()), Enqueue(
                Record(CopyTrunc(40, uid), CopyTrunc(8, result), CopyTrunc(48, reason),
                       if !omitTs && now.Some? then now.value else "", omitTs || now.None?)))
      ensures !ok ==> queue == old(queue)
      ensures ok ==> |queue| == |old(queue)| + 1 && queue[..|old(queue)|] == old(queue)
      ensures ok ==> RecordFits(queue[|old(queue)|])
      // What fits its field is queued as it is.
      ensures ok && |uid| < 40 && |result| < 8 && |reason| < 48 && (omitTs || now.Some?) ==>
                queue == old(queue) + [Record(uid, result, reason, if omitTs then "" else now.value, omitTs)]
    {
      var rec := Record(CopyTrunc(40, uid), CopyTrunc(8, result), CopyTrunc(48, reason), "", omitTs);
      if !omitTs {
        match now {
          case None => rec := rec.(omitTs := true);
          case Some(t) => rec := rec.(ts := t);
        }
      }
      ok := |queue| < QUEUE_DEPTH;
      if ok {
        queue := queue + [rec];
      }
    }

    /** The power comes back: the RAM queue is gone, the store is not. */
    method Restart()
      modifies this`queue, this`power
      ensures State() == Restarted(old(State())) && power == None
      ensures queue == [] && Store() == old(Store()) && sent == old(sent)
    {
      queue := [];
      power := None;
    }

    /** The power goes while the first record of the queue is persisted. */
    method PersistUntilPowerLoss(left: nat)
      modifies this
      ensures State() == Step(old(State()), PersistCut(left)) && power == None
    {
      hide PersistWrites;
      power := Some(left);
      if queue != [] {
        DrainRecord();
      }
      Restart();
    }

    /** The power goes while a record is removed that the backend has accepted. */
    method PopUntilPowerLoss(left: nat)
      modifies this
      ensures State() == Step(old(State()), PopCut(left)) && power == None
    {
      hide PopWrites, Oldest;
      power := Some(left);
      var ok := UploadOne(true, true);
      Restart();
    }

    method Occur(e: Event)
      requires power == None && (e.Enqueue? ==> RecordFits(e.rec))
      modifies this
      ensures State() == Step(old(State()), e) && power == None
    {
      hide PersistWrites, PopWrites, Oldest;
      match e {
        case Enqueue(rec) =>
          var ok := EnqueueRecord(rec.uid, rec.result, rec.reason, rec.omitTs, Some(rec.ts));
        case DrainOne =>
          if queue != [] {
            DrainRecord();
          }
        case Upload =>
          var ok := UploadOne(true, true);
        case UploadFails =>
          var ok := UploadOne(true, false);
        case PersistCut(left) => PersistUntilPowerLoss(left);
        case PopCut(left) => PopUntilPowerLoss(left);
        case Reboot => Restart();
      }
    }

    /** The service through any run, and through a harmless one as its history says. */
    method OccurAll(es: seq<Event>)
      requires power == None && forall i :: 0 <= i < |es| && es[i].Enqueue? ==> RecordFits(es[i].rec)
      modifies this
      ensures State() == Steps(old(State()), es) && power == None
      ensures forall h :: Matches(old(State()), h) && HarmlessRun(h, es) ==> Matches(State(), Run(h, es))
    {
      hide Step, RecordFits, Matches, HarmlessRun, Run;
      ghost var d := State();
      var i := 0;
      assert es[..0] == [];
      while i < |es|
        invariant i <= |es| && power == None && State() == Steps(d, es[..i])
      {
        assert es[..i + 1] == es[..i] + [es[i]];
        OneStep(State(), es[i]);
        StepsConcat(d, es[..i], [es[i]]);
        Occur(es[i]);
        i := i + 1;
      }
      assert es[..i] == es;
      forall h | Matches(d, h) && HarmlessRun(h, es) ensures Matches(State(), Run(h, es)) {
        RunMatches(d, h, es);
      }
    }
  }

  /** What the fixed fields of a record can hold. */
  predicate RecordFits(rec: Record) {
    CopyTrunc(40, rec.uid) == rec.uid && CopyTrunc(8, rec.result) == rec.result &&
    CopyTrunc(48, rec.reason) == rec.reason && (rec.omitTs ==> rec.ts == "")
  }
}
