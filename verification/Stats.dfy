/**
 * Slot usage statistics: replays the event log of a build, adding up the time each slot spends in
 * each status and the time for which at least k slots are busy.
 */
module Stats {
  import opened Collections

  datatype Status = ACTIVE | FAILED | GETPKG | IDLE | LOCKED | MUTEX | MUTEXWAIT | STALLED | UNLOCK

  const ALL_STATUSES := [ACTIVE, FAILED, GETPKG, IDLE, LOCKED, MUTEX, MUTEXWAIT, STALLED, UNLOCK]
  const BUSY := [ACTIVE, MUTEX, GETPKG]

  datatype Event = Event(slot: string, status: Status, time: int)

  /** What has been accumulated for one status of a slot. */
  datatype Tally = Tally(enabled: bool, count: nat, start: int, total: int)

  datatype Slot = Slot(previous: Option<Status>, statuses: map<Status, Tally>)

  datatype Clock = Clock(start: int, total: int)

  // ---- What the log says, event after event ----

  function StatusAfter(log: seq<Event>, slot: string): Option<Status> {
    if log == [] then None
    else if log[|log| - 1].slot == slot then Some(log[|log| - 1].status)
    else StatusAfter(log[..|log| - 1], slot)
  }

  predicate IsBusy(status: Option<Status>) {
    status.Some? && status.value in BUSY
  }

  ghost function BusySlots(log: seq<Event>, slots: set<string>): set<string> {
    set s | s in slots && IsBusy(StatusAfter(log, s))
  }

  /** How many slots are busy after the log. */
  ghost function Level(log: seq<Event>, slots: set<string>): nat {
    |BusySlots(log, slots)|
  }

  /** The highest level ever reached. */
  ghost function Peak(log: seq<Event>, slots: set<string>): nat {
    if log == [] then 0
    else
      var before, now := Peak(log[..|log| - 1], slots), Level(log, slots);
      if now > before then now else before
  }

  ghost function Occurrences(log: seq<Event>, slot: string, status: Status): nat {
    if log == [] then 0
    else
      var last := log[|log| - 1];
      Occurrences(log[..|log| - 1], slot, status) + if last.slot == slot && last.status == status then 1 else 0
  }

  /** When a slot entered a status last. */
  ghost function LastTime(log: seq<Event>, slot: string, status: Status): Option<int> {
    if log == [] then None
    else
      var last := log[|log| - 1];
      if last.slot == slot && last.status == status then Some(last.time)
      else LastTime(log[..|log| - 1], slot, status)
  }

  function Now(log: seq<Event>): int {
    if log == [] then 0 else log[|log| - 1].time
  }

  datatype Condition = InStatus(slot: string, status: Status) | SlotBusy(slot: string) | AtLeast(k: nat)

  ghost predicate Meets(log: seq<Event>, slots: set<string>, c: Condition) {
    match c
    case InStatus(s, st) => StatusAfter(log, s) == Some(st)
    case SlotBusy(s) => IsBusy(StatusAfter(log, s))
    case AtLeast(k) => Level(log, slots) >= k
  }

  /** For how long the condition was met: the sum of the intervals between events throughout which it was. */
  ghost function Duration(log: seq<Event>, slots: set<string>, c: Condition): int {
    if |log| <= 1 then 0
    else
      var before := log[..|log| - 1];
      Duration(before, slots, c) + if Meets(before, slots, c) then Now(log) - Now(before) else 0
  }

  lemma LastEvent(log: seq<Event>, e: Event)
    ensures (log + [e])[..|log + [e]| - 1] == log && (log + [e])[|log|] == e
  {
  }

  lemma StatusSnoc(log: seq<Event>, e: Event, s: string)
    ensures StatusAfter(log + [e], s) == if e.slot == s then Some(e.status) else StatusAfter(log, s)
  {
    LastEvent(log, e);
  }

  // ---- The same, read off the log directly ----

  /** Event `i` is the last one of its slot. */
  ghost predicate LastOf(log: seq<Event>, slot: string, i: nat) {
    i < |log| && log[i].slot == slot && forall k :: i < k < |log| ==> log[k].slot != slot
  }

  /** The status of a slot is that of its last event; there is none exactly if it has no event. */
  lemma {:induction false} StatusIsLast(log: seq<Event>, slot: string)
    ensures forall i: nat :: LastOf(log, slot, i) ==> StatusAfter(log, slot) == Some(log[i].status)
    ensures StatusAfter(log, slot) == None <==> forall i :: 0 <= i < |log| ==> log[i].slot != slot
    ensures StatusAfter(log, slot).Some? ==> exists i: nat :: LastOf(log, slot, i)
  {
    if log != [] {
      var n := |log| - 1;
      StatusIsLast(log[..n], slot);
      if log[n].slot == slot {
        assert LastOf(log, slot, n);
      } else {
        forall i: nat
          ensures LastOf(log, slot, i) <==> LastOf(log[..n], slot, i)
        {
        }
      }
    }
  }

  ghost function Places(log: seq<Event>, slot: string, status: Status): set<nat> {
    set i: nat | i < |log| && log[i].slot == slot && log[i].status == status
  }

  lemma PlacesSnoc(log: seq<Event>, slot: string, status: Status)
    requires log != []
    ensures var n := |log| - 1;
            Places(log, slot, status) == Places(log[..n], slot, status)
              + (if log[n].slot == slot && log[n].status == status then {n} else {})
    ensures forall i :: i in Places(log[..|log| - 1], slot, status) ==>
              i < |log| - 1 && log[..|log| - 1][i] == log[i]
  {
  }

  /** A status occurs as often as there are events that say so. */
  lemma {:induction false} OccurrencesCount(log: seq<Event>, slot: string, status: Status)
    ensures Occurrences(log, slot, status) == |Places(log, slot, status)|
  {
    if log != [] {
      OccurrencesCount(log[..|log| - 1], slot, status);
      PlacesSnoc(log, slot, status);
      hide Places;
    }
  }

  /** It was entered last at the last of them. */
  lemma {:induction false} LastTimeIs(log: seq<Event>, slot: string, status: Status)
    ensures forall i :: i in Places(log, slot, status) && (forall k :: k in Places(log, slot, status) ==> k <= i) ==>
              LastTime(log, slot, status) == Some(log[i].time)
    ensures LastTime(log, slot, status) == None <==> Places(log, slot, status) == {}
  {
    if log != [] {
      var n := |log| - 1;
      LastTimeIs(log[..n], slot, status);
      PlacesSnoc(log, slot, status);
      if log[n].slot == slot && log[n].status == status {
        assert n in Places(log, slot, status);
      }
    }
  }

  ghost function BusyNow(log: seq<Event>, slots: set<string>): set<string> {
    set s | s in slots && exists i: nat :: LastOf(log, s, i) && log[i].status in {ACTIVE, MUTEX, GETPKG}
  }

  lemma BusyNowIs(log: seq<Event>, slots: set<string>)
    ensures BusySlots(log, slots) == BusyNow(log, slots)
  {
    forall s
      ensures IsBusy(StatusAfter(log, s)) <==>
              exists i: nat :: LastOf(log, s, i) && log[i].status in {ACTIVE, MUTEX, GETPKG}
    {
      StatusIsLast(log, s);
    }
  }

  /**
   * With each event but the first, the time since the event before is added to the status that each slot was in, to
   * the busy time of each slot that was active, in the mutex or getting a package, and to every level up to the
   * number of these slots.
   */
  lemma DurationGrows(log: seq<Event>, e: Event, slots: set<string>, s: string, st: Status, k: nat)
    requires log != []
    ensures var t := e.time - log[|log| - 1].time;
            && Duration(log + [e], slots, InStatus(s, st)) - Duration(log, slots, InStatus(s, st))
               == (if exists i: nat :: LastOf(log, s, i) && log[i].status == st then t else 0)
            && (s in slots ==> Duration(log + [e], slots, SlotBusy(s)) - Duration(log, slots, SlotBusy(s))
                               == if s in BusyNow(log, slots) then t else 0)
            && Duration(log + [e], slots, AtLeast(k)) - Duration(log, slots, AtLeast(k))
               == (if |BusyNow(log, slots)| >= k then t else 0)
    ensures |log| == 1 ==> forall c :: Duration(log, slots, c) == 0
  {
    DurationSnoc(log, e, slots, InStatus(s, st));
    DurationSnoc(log, e, slots, SlotBusy(s));
    DurationSnoc(log, e, slots, AtLeast(k));
    StatusIsLast(log, s);
    BusyNowIs(log, slots);
    assert s in slots ==> (s in BusySlots(log, slots) <==> IsBusy(StatusAfter(log, s)));
  }

  lemma DurationSnoc(log: seq<Event>, e: Event, slots: set<string>, c: Condition)
    ensures Duration(log + [e], slots, c) ==
            Duration(log, slots, c) + if log != [] && Meets(log, slots, c) then e.time - Now(log) else 0
  {
    LastEvent(log, e);
  }

  lemma BusySnoc(log: seq<Event>, e: Event, slots: set<string>)
    requires e.slot in slots
    ensures BusySlots(log + [e], slots) ==
            if e.status in BUSY then BusySlots(log, slots) + {e.slot} else BusySlots(log, slots) - {e.slot}
  {
    forall s
      ensures StatusAfter(log + [e], s) == if e.slot == s then Some(e.status) else StatusAfter(log, s)
    {
      StatusSnoc(log, e, s);
    }
  }

  lemma LevelSnoc(log: seq<Event>, e: Event, slots: set<string>)
    requires e.slot in slots
    ensures var was := IsBusy(StatusAfter(log, e.slot));
            Level(log + [e], slots) ==
            Level(log, slots) + (if e.status in BUSY && !was then 1 else if e.status !in BUSY && was then -1 else 0)
  {
    BusySnoc(log, e, slots);
    var b := BusySlots(log, slots);
    if e.slot in b {
      assert b == b - {e.slot} + {e.slot};
      assert b + {e.slot} == b;
    } else {
      assert b - {e.slot} == b;
    }
  }

  lemma PeakSnoc(log: seq<Event>, e: Event, slots: set<string>)
    ensures Peak(log + [e], slots) ==
            if Level(log + [e], slots) > Peak(log, slots) then Level(log + [e], slots) else Peak(log, slots)
  {
    LastEvent(log, e);
  }

  /** The peak is the true maximum over all prefixes of the log. */
  lemma {:induction false} PeakIsMaximum(log: seq<Event>, slots: set<string>)
    ensures forall i :: 0 <= i <= |log| ==> Level(log[..i], slots) <= Peak(log, slots)
    ensures exists i :: 0 <= i <= |log| && Level(log[..i], slots) == Peak(log, slots)
    ensures Peak(log, slots) <= |slots|
  {
    hide Level;
    LevelBounded(log, slots);
    assert log[..|log|] == log;
    if log == [] {
      NobodyBusy(slots);
      assert Level(log[..0], slots) == 0;
    } else {
      var before := log[..|log| - 1];
      PeakIsMaximum(before, slots);
      assert forall i :: 0 <= i < |log| ==> log[..i] == before[..i];
      var i :| 0 <= i <= |before| && Level(before[..i], slots) == Peak(before, slots);
      assert Level(log[..i], slots) == Peak(before, slots);
      assert Level(log[..|log|], slots) == Level(log, slots);
    }
  }

  lemma LevelBounded(log: seq<Event>, slots: set<string>)
    ensures Level(log, slots) <= |slots|
  {
    SubsetSize(BusySlots(log, slots), slots);
  }

  lemma {:induction false} SubsetSize<T>(a: set<T>, b: set<T>)
    requires a <= b
    ensures |a| <= |b|
  {
    if a != {} {
      var x :| x in a;
      SubsetSize(a - {x}, b - {x});
    }
  }

  lemma NobodyBusy(slots: set<string>)
    ensures Level([], slots) == 0
  {
    assert BusySlots([], slots) == {};
  }

  /** A level above the peak was held for no time at all. */
  lemma {:induction false} AboveThePeak(log: seq<Event>, slots: set<string>, k: nat)
    requires k > Peak(log, slots)
    ensures Duration(log, slots, AtLeast(k)) == 0
  {
    hide Level;
    if |log| > 1 {
      AboveThePeak(log[..|log| - 1], slots, k);
      PeakIsMaximum(log[..|log| - 1], slots);
      assert log[..|log| - 1][..|log| - 1] == log[..|log| - 1];
    }
  }

  // ---- What the replay keeps ----

  /** The time since the last start of a running clock is still outstanding. */
  ghost predicate TallyOk(t: Tally, log: seq<Event>, slots: set<string>, s: string, st: Status) {
    && (t.enabled <==> StatusAfter(log, s) == Some(st))
    && t.count == Occurrences(log, s, st)
    && (LastTime(log, s, st).Some? ==> t.start == LastTime(log, s, st).value)
    && t.total + (if t.enabled then Now(log) - t.start else 0) == Duration(log, slots, InStatus(s, st))
  }

  ghost predicate SlotOk(slot: Slot, log: seq<Event>, slots: set<string>, s: string) {
    && slot.previous == StatusAfter(log, s)
    && forall st :: st in slot.statuses && TallyOk(slot.statuses[st], log, slots, s, st)
  }

  ghost predicate ClockOk(c: Clock, log: seq<Event>, slots: set<string>, active: nat, k: nat) {
    c.total + (if k <= active then Now(log) - c.start else 0) == Duration(log, slots, AtLeast(k))
  }

  ghost predicate ConcurrencyOk(concurrency: map<nat, Clock>, active: nat, peak: nat, log: seq<Event>,
                                slots: set<string>) {
    && active == Level(log, slots) && peak == Peak(log, slots) && active <= peak
    && (forall k :: k in concurrency <==> 1 <= k <= peak)
    && forall k :: k in concurrency ==> ClockOk(concurrency[k], log, slots, active, k)
  }

  /** Level `k` was reached last by an event at time `t`, and has been held since. */
  ghost predicate Reached(log: seq<Event>, slots: set<string>, k: nat, t: int) {
    exists i: nat :: ReachedBy(log, slots, k, i) && log[i].time == t
  }

  ghost predicate ReachedBy(log: seq<Event>, slots: set<string>, k: nat, i: nat) {
    && i < |log| && Level(log[..i], slots) < k
    && forall j :: i < j <= |log| ==> Level(log[..j], slots) >= k
  }

  /** The running clocks have been started when their levels were reached. */
  ghost predicate StartsLogged(concurrency: map<nat, Clock>, active: nat, log: seq<Event>, slots: set<string>) {
    forall k :: k in concurrency && k <= active ==> Reached(log, slots, k, concurrency[k].start)
  }

  lemma ReachedStays(log: seq<Event>, e: Event, slots: set<string>, k: nat, t: int)
    requires Reached(log, slots, k, t) && Level(log + [e], slots) >= k
    ensures Reached(log + [e], slots, k, t)
  {
    hide Level;
    var i: nat :| ReachedBy(log, slots, k, i) && log[i].time == t;
    forall j | 0 <= j <= |log|
      ensures (log + [e])[..j] == log[..j]
    {
    }
    assert (log + [e])[..|log| + 1] == log + [e];
    assert ReachedBy(log + [e], slots, k, i);
  }

  lemma ReachedNow(log: seq<Event>, e: Event, slots: set<string>, k: nat)
    requires Level(log, slots) < k <= Level(log + [e], slots)
    ensures Reached(log + [e], slots, k, e.time)
  {
    hide Level;
    assert (log + [e])[..|log|] == log && (log + [e])[..|log| + 1] == log + [e];
    assert ReachedBy(log + [e], slots, k, |log|);
  }

  lemma StartsStay(before: map<nat, Clock>, after: map<nat, Clock>, active: nat, next: nat, log: seq<Event>, e: Event,
                   slots: set<string>)
    requires StartsLogged(before, active, log, slots) && next <= active
    requires next == Level(log + [e], slots)
    requires forall k :: k in after && k <= next ==> k in before && after[k] == before[k]
    ensures StartsLogged(after, next, log + [e], slots)
  {
    hide Level, Reached;
    forall k | k in after && k <= next
      ensures Reached(log + [e], slots, k, after[k].start)
    {
      ReachedStays(log, e, slots, k, after[k].start);
    }
  }

  lemma StartsClimb(concurrency: map<nat, Clock>, active: nat, c: Clock, log: seq<Event>, e: Event, slots: set<string>)
    requires StartsLogged(concurrency, active, log, slots) && c.start == e.time
    requires active == Level(log, slots) && active + 1 == Level(log + [e], slots)
    ensures StartsLogged(concurrency[active + 1 := c], active + 1, log + [e], slots)
  {
    hide Level, Reached;
    forall k | k in concurrency && k <= active
      ensures Reached(log + [e], slots, k, concurrency[k].start)
    {
      ReachedStays(log, e, slots, k, concurrency[k].start);
    }
    ReachedNow(log, e, slots, active + 1);
  }

  lemma ActiveIs(concurrency: map<nat, Clock>, active: nat, peak: nat, log: seq<Event>, slots: set<string>)
    requires ConcurrencyOk(concurrency, active, peak, log, slots)
    ensures active == Level(log, slots)
  {
  }

  lemma OccurrencesSnoc(log: seq<Event>, e: Event, s: string, st: Status)
    ensures Occurrences(log + [e], s, st) == Occurrences(log, s, st) + if e.slot == s && e.status == st then 1 else 0
    ensures LastTime(log + [e], s, st) == if e.slot == s && e.status == st then Some(e.time) else LastTime(log, s, st)
  {
    LastEvent(log, e);
  }

  /** How one tally changes with an event of its slot. */
  lemma TallyNext(t: Tally, log: seq<Event>, e: Event, slots: set<string>, st: Status) returns (next: Tally)
    requires TallyOk(t, log, slots, e.slot, st)
    ensures var stopped := if t.enabled then t.(enabled := false, total := t.total + (e.time - t.start)) else t;
            next == if st == e.status then Tally(true, stopped.count + 1, e.time, stopped.total) else stopped
    ensures TallyOk(next, log + [e], slots, e.slot, st)
  {
    var stopped := if t.enabled then t.(enabled := false, total := t.total + (e.time - t.start)) else t;
    next := if st == e.status then Tally(true, stopped.count + 1, e.time, stopped.total) else stopped;
    StatusSnoc(log, e, e.slot);
    OccurrencesSnoc(log, e, e.slot, st);
    DurationSnoc(log, e, slots, InStatus(e.slot, st));
  }

  /** An event of another slot only lets time pass. */
  lemma TallyPasses(t: Tally, log: seq<Event>, e: Event, slots: set<string>, s: string, st: Status)
    requires TallyOk(t, log, slots, s, st) && e.slot != s
    ensures TallyOk(t, log + [e], slots, s, st)
  {
    StatusSnoc(log, e, s);
    OccurrencesSnoc(log, e, s, st);
    DurationSnoc(log, e, slots, InStatus(s, st));
  }

  lemma SlotPasses(slot: Slot, log: seq<Event>, e: Event, slots: set<string>, s: string)
    requires SlotOk(slot, log, slots, s) && e.slot != s
    ensures SlotOk(slot, log + [e], slots, s)
  {
    hide TallyOk;
    StatusSnoc(log, e, s);
    forall st
      ensures st in slot.statuses && TallyOk(slot.statuses[st], log + [e], slots, s, st)
    {
      TallyPasses(slot.statuses[st], log, e, slots, s, st);
    }
  }

  /** What the previous status has accumulated is recorded, and the new status begins. */
  method NextSlot(slot: Slot, e: Event, ghost log: seq<Event>, ghost slots: set<string>) returns (next: Slot)
    requires SlotOk(slot, log, slots, e.slot)
    ensures SlotOk(next, log + [e], slots, e.slot)
    ensures forall st :: st != e.status ==> next.statuses[st].start == slot.statuses[st].start
  {
    hide TallyOk;
    var previous, statuses := slot.previous, slot.statuses;
    EnabledIsPrevious(slot, log, slots, e.slot);
    if previous.Some? && statuses[previous.value].enabled {
      var p := statuses[previous.value];
      statuses := statuses[previous.value := p.(enabled := false, total := p.total + (e.time - p.start))];
    }
    var now := statuses[e.status];
    statuses := statuses[e.status := Tally(true, now.count + 1, e.time, now.total)];
    next := Slot(Some(e.status), statuses);
    StatusSnoc(log, e, e.slot);
    forall st
      ensures st in statuses && TallyOk(statuses[st], log + [e], slots, e.slot, st)
    {
      var t := TallyNext(slot.statuses[st], log, e, slots, st);
    }
  }

  lemma EnabledIsPrevious(slot: Slot, log: seq<Event>, slots: set<string>, s: string)
    requires SlotOk(slot, log, slots, s)
    ensures forall st :: st in slot.statuses && (slot.statuses[st].enabled <==> slot.previous == Some(st))
  {
  }

  /** An event adds the time since the last one to every level that was held. */
  lemma ClockPasses(c: Clock, log: seq<Event>, e: Event, slots: set<string>, active: nat, k: nat)
    requires ClockOk(c, log, slots, active, k) && active == Level(log, slots) && k >= 1
    ensures c.total + (if k <= active then e.time - c.start else 0) == Duration(log + [e], slots, AtLeast(k))
  {
    hide Level, Duration;
    DurationSnoc(log, e, slots, AtLeast(k));
    NobodyBusy(slots);
  }

  lemma ClockStays(c: Clock, log: seq<Event>, e: Event, slots: set<string>, active: nat, next: nat, k: nat)
    requires ClockOk(c, log, slots, active, k) && active == Level(log, slots) && k >= 1
    requires k <= active <==> k <= next
    ensures ClockOk(c, log + [e], slots, next, k)
  {
    hide Level, Duration;
    ClockPasses(c, log, e, slots, active, k);
    LastEvent(log, e);
  }

  lemma ClockStarts(c: Clock, log: seq<Event>, e: Event, slots: set<string>, active: nat)
    requires ClockOk(c, log, slots, active, active + 1) && active == Level(log, slots)
    ensures ClockOk(c.(start := e.time), log + [e], slots, active + 1, active + 1)
  {
    hide Level, Duration;
    ClockPasses(c, log, e, slots, active, active + 1);
    LastEvent(log, e);
  }

  lemma ClockStops(c: Clock, log: seq<Event>, e: Event, slots: set<string>, active: nat)
    requires ClockOk(c, log, slots, active, active) && active == Level(log, slots) && active >= 1
    ensures ClockOk(c.(total := c.total + (e.time - c.start)), log + [e], slots, active - 1, active)
  {
    hide Level, Duration;
    ClockPasses(c, log, e, slots, active, active);
    LastEvent(log, e);
  }

  /** A level that has never been reached has not been held yet. */
  lemma ClockUnused(log: seq<Event>, slots: set<string>, k: nat)
    requires k > Peak(log, slots) && k == Level(log, slots) + 1
    ensures ClockOk(Clock(0, 0), log, slots, Level(log, slots), k)
  {
    hide Level, Duration;
    AboveThePeak(log, slots, k);
  }

  /** A slot becomes busy: one more level starts. */
  lemma ClimbKeeps(concurrency: map<nat, Clock>, active: nat, peak: nat, log: seq<Event>, slots: set<string>, e: Event)
    requires ConcurrencyOk(concurrency, active, peak, log, slots)
    requires e.slot in slots && e.status in BUSY && !IsBusy(StatusAfter(log, e.slot))
    ensures var up := active + 1;
            var c := if up in concurrency then concurrency[up] else Clock(0, 0);
            ConcurrencyOk(concurrency[up := c.(start := e.time)], up, if up > peak then up else peak, log + [e], slots)
  {
    hide Level, ClockOk;
    var up := active + 1;
    var c := if up in concurrency then concurrency[up] else Clock(0, 0);
    LevelSnoc(log, e, slots);
    PeakSnoc(log, e, slots);
    if up > peak {
      ClockUnused(log, slots, up);
    }
    ClockStarts(c, log, e, slots, active);
    forall k | k in concurrency && k != up
      ensures ClockOk(concurrency[k], log + [e], slots, up, k)
    {
      ClockStays(concurrency[k], log, e, slots, active, up, k);
    }
  }

  /** A slot stops being busy: the highest level ends. */
  lemma FallKeeps(concurrency: map<nat, Clock>, active: nat, peak: nat, log: seq<Event>, slots: set<string>, e: Event)
    requires ConcurrencyOk(concurrency, active, peak, log, slots)
    requires e.slot in slots && e.status !in BUSY && IsBusy(StatusAfter(log, e.slot))
    ensures active > 0 && active in concurrency
    ensures var c := concurrency[active];
            ConcurrencyOk(concurrency[active := c.(total := c.total + (e.time - c.start))], active - 1, peak, log + [e],
                          slots)
  {
    hide Level, ClockOk;
    LevelSnoc(log, e, slots);
    PeakSnoc(log, e, slots);
    ClockStops(concurrency[active], log, e, slots, active);
    forall k | k in concurrency && k != active
      ensures ClockOk(concurrency[k], log + [e], slots, active - 1, k)
    {
      ClockStays(concurrency[k], log, e, slots, active, active - 1, k);
    }
  }

  lemma LevelKeeps(concurrency: map<nat, Clock>, active: nat, peak: nat, log: seq<Event>, slots: set<string>, e: Event)
    requires ConcurrencyOk(concurrency, active, peak, log, slots)
    requires e.slot in slots && (e.status in BUSY <==> IsBusy(StatusAfter(log, e.slot)))
    ensures ConcurrencyOk(concurrency, active, peak, log + [e], slots)
  {
    hide Level, ClockOk;
    LevelSnoc(log, e, slots);
    PeakSnoc(log, e, slots);
    forall k | k in concurrency
      ensures ClockOk(concurrency[k], log + [e], slots, active, k)
    {
      ClockStays(concurrency[k], log, e, slots, active, active, k);
    }
  }

  /** A slot that has not been idle yet counts as idle from the start on. */
  ghost predicate IdleSince(slot: Slot, log: seq<Event>, s: string, started: int) {
    IDLE in slot.statuses && (LastTime(log, s, IDLE) == None ==> slot.statuses[IDLE].start == started)
  }

  lemma IdleSinceNext(slot: Slot, next: Slot, log: seq<Event>, e: Event, s: string, started: int)
    requires IdleSince(slot, log, s, started) && HasAll(slot.statuses) && HasAll(next.statuses)
    requires (e.slot == s && e.status == IDLE) || next.statuses[IDLE].start == slot.statuses[IDLE].start
    ensures IdleSince(next, log + [e], s, started)
  {
    OccurrencesSnoc(log, e, s, IDLE);
  }

  class Ledger {
    var slots: map<string, Slot>
    var concurrency: map<nat, Clock>
    var active: nat
    var peak: nat
    ghost var log: seq<Event>
    ghost const started: int

    /** All that is accumulated is what the log determines. */
    ghost predicate Valid()
      reads this
    {
      && (forall s :: s in slots ==> SlotOk(slots[s], log, slots.Keys, s))
      && ConcurrencyOk(concurrency, active, peak, log, slots.Keys)
      && StartsLogged(concurrency, active, log, slots.Keys)
      && (forall s :: s in slots ==> IdleSince(slots[s], log, s, started))
    }

    constructor (slotNames: set<string>, started: int)
      ensures Valid() && log == [] && slots.Keys == slotNames && this.started == started
    {
      var idle := map st: Status | st in ALL_STATUSES :: Tally(false, 0, if st == IDLE then started else 0, 0);
      this.started := started;
      slots := map s | s in slotNames :: Slot(None, idle);
      concurrency, active, peak, log := map[], 0, 0, [];
      new;
      NobodyBusy(slotNames);
      forall st
        ensures st in idle && idle[st] == Tally(false, 0, if st == IDLE then started else 0, 0)
      {
        Listed(st);
      }
    }

    /** One more level starts with a slot that becomes busy; the highest one ends with one that is not busy any more. */
    method RecordConcurrency(e: Event, previous: Option<Status>)
      requires ConcurrencyOk(concurrency, active, peak, log, slots.Keys)
      requires StartsLogged(concurrency, active, log, slots.Keys)
      requires e.slot in slots && previous == StatusAfter(log, e.slot)
      modifies this`concurrency, this`active, this`peak
      ensures ConcurrencyOk(concurrency, active, peak, log + [e], slots.Keys)
      ensures StartsLogged(concurrency, active, log + [e], slots.Keys)
    {
      hide ConcurrencyOk, StartsLogged, StatusAfter, Level, Peak;
      ghost var names, before := slots.Keys, concurrency;
      ActiveIs(concurrency, active, peak, log, names);
      if e.status in BUSY {
        if previous == None || previous.value !in BUSY {
          ClimbKeeps(concurrency, active, peak, log, names, e);
          active := active + 1;
          var c := if active in concurrency then concurrency[active] else Clock(0, 0);
          concurrency := concurrency[active := c.(start := e.time)];
          if active > peak {
            peak := active;
          }
          ActiveIs(concurrency, active, peak, log + [e], names);
          StartsClimb(before, active - 1, c.(start := e.time), log, e, names);
        } else {
          LevelKeeps(concurrency, active, peak, log, names, e);
          ActiveIs(concurrency, active, peak, log + [e], names);
          StartsStay(before, concurrency, active, active, log, e, names);
        }
      } else if IsBusy(previous) {
        FallKeeps(concurrency, active, peak, log, names, e);
        var c := concurrency[active];
        concurrency := concurrency[active := c.(total := c.total + (e.time - c.start))];
        active := active - 1;
        ActiveIs(concurrency, active, peak, log + [e], names);
        StartsStay(before, concurrency, active + 1, active, log, e, names);
      } else {
        LevelKeeps(concurrency, active, peak, log, names, e);
        ActiveIs(concurrency, active, peak, log + [e], names);
        StartsStay(before, concurrency, active, active, log, e, names);
      }
    }

    /** Replays one event. */
    method Record(e: Event)
      requires Valid() && e.slot in slots
      modifies this
      ensures Valid() && log == old(log) + [e] && slots.Keys == old(slots.Keys)
    {
      hide SlotOk, ConcurrencyOk, StartsLogged, StatusAfter, TallyOk, ClockOk, Level, Peak, IdleSince;
      ghost var names := slots.Keys;
      var slot := slots[e.slot];
      var previous := slot.previous;
      PreviousIs(slot, log, names, e.slot);
      var next := NextSlot(slot, e, log, names);
      RecordConcurrency(e, previous);
      forall s | s in slots && s != e.slot
        ensures SlotOk(slots[s], log + [e], names, s)
      {
        SlotPasses(slots[s], log, e, names, s);
      }
      forall s | s in slots
        ensures IdleSince(if s == e.slot then next else slots[s], log + [e], s, started)
      {
        SlotHasAll(slots[s], log, names, s);
        SlotHasAll(next, log + [e], names, e.slot);
        IdleSinceNext(slots[s], if s == e.slot then next else slots[s], log, e, s, started);
      }
      slots := slots[e.slot := next];
      log := log + [e];
      assert slots.Keys == names;
    }

    /** Closes every slot at the end of the log, and reports whether any was left open. */
    method Close(now: int, lastActive: int) returns (incomplete: bool)
      requires Valid()
      modifies this`slots
      ensures slots.Keys == old(slots.Keys)
      ensures forall s :: s in slots ==> ClosedFrom(old(slots)[s], slots[s], now, lastActive)
      ensures incomplete <==>
              exists s :: s in slots && StatusAfter(log, s).Some? && StatusAfter(log, s).value !in {IDLE, FAILED}
    {
      hide SlotOk, ConcurrencyOk, Unfinished, ClosedFrom, StatusAfter, StartsLogged, IdleSince;
      incomplete := false;
      ghost var before := slots;
      var todo := slots.Keys;
      while todo != {}
        invariant slots.Keys == before.Keys && todo <= slots.Keys
        invariant forall s :: s in todo ==> slots[s] == before[s]
        invariant forall s :: s in slots && s !in todo ==> ClosedFrom(before[s], slots[s], now, lastActive)
        invariant incomplete <==> exists s :: s in slots && s !in todo && Unfinished(StatusAfter(log, s))
      {
        var s :| s in todo;
        OpenIsUnfinished(slots[s], log, slots.Keys, s);
        var closed, isactive := CloseSlot(slots[s], now, lastActive);
        ClosedFromIs(slots[s], closed, now, lastActive);
        slots := slots[s := closed];
        incomplete := incomplete || isactive;
        todo := todo - {s};
        assert slots.Keys == before.Keys;
      }
      UnfinishedSlots(log, slots.Keys);
    }

    /**
     * The two columns of the report, in whatever order they are ranked. The slots' busy times exceed the
     * levels' times by what has passed since each level still held was reached: so the totals agree if no
     * slot was cut off while busy, and for a log in order that ends before the report, only then.
     */
    method Summarize(now: int, lastActive: int, names: seq<string>, ks: seq<nat>)
      returns (lines: seq<Line>, busyTotal: int, concurrentTotal: int)
      requires Valid()
      requires Distinct(names) && Elements(names) == slots.Keys
      requires Distinct(ks) && Elements(ks) == concurrency.Keys
      modifies this`slots
      ensures |ks| <= |lines| == |names|
      ensures forall i :: 0 <= i < |names| ==>
                && lines[i].slot == names[i] && (lines[i].concurrent.Some? <==> i < |ks|)
                && lines[i].busy == Duration(log, slots.Keys, SlotBusy(names[i]))
                     + if IsBusy(StatusAfter(log, names[i])) then now - Now(log) else 0
      ensures forall i :: 0 <= i < |ks| ==>
                ks[i] in concurrency &&
                lines[i].concurrent == Some((ks[i], Duration(log, slots.Keys, AtLeast(ks[i]))
                  - if ks[i] <= active then Now(log) - concurrency[ks[i]].start else 0))
      ensures forall k :: k in concurrency && k <= active ==> Reached(log, slots.Keys, k, concurrency[k].start)
      ensures busyTotal == BusyTime(log, slots.Keys, names) + active * (now - Now(log))
      ensures busyTotal - concurrentTotal == Outstanding(concurrency, ks, active, now)
      ensures active == 0 ==> busyTotal == concurrentTotal == BusyTime(log, slots.Keys, names)
      ensures Chronological(log) && Now(log) < now ==> (busyTotal == concurrentTotal <==> active == 0)
    {
      hide SlotOk, ConcurrencyOk, Distinct, ClosedFrom, Level, Duration, BusyTime, LevelTime, Outstanding,
           Chronological, StartsLogged, Now, Peak, ClockOk, Unfinished, CountIn, StatusAfter, Elements, IsBusy,
           Reached, IdleSince;
      ghost var before := slots;
      LevelsKnown(concurrency, active, peak, log, slots.Keys);
      LevelsCovered(ks, concurrency, peak);
      Conservation(log, slots.Keys, names, ks);
      var incomplete := Close(now, lastActive);
      var left;
      left, busyTotal := SlotLines(slots, names, log, before, now, lastActive);
      NameCount(names, slots.Keys);
      lines, concurrentTotal := LevelLines(left, concurrency, ks, active, peak, log, slots.Keys);
      HeldSince(concurrency, active, log, slots.Keys);
      TotalsDiffer(concurrency, ks, active, peak, log, slots.Keys, now, BusyTime(log, slots.Keys, names), busyTotal,
                   concurrentTotal);
    }
  }

  lemma LevelsKnown(concurrency: map<nat, Clock>, active: nat, peak: nat, log: seq<Event>, slots: set<string>)
    requires ConcurrencyOk(concurrency, active, peak, log, slots)
    ensures active == Level(log, slots) && peak == Peak(log, slots) && active <= peak
    ensures forall k :: k in concurrency <==> 1 <= k <= peak
  {
  }

  lemma HeldSince(concurrency: map<nat, Clock>, active: nat, log: seq<Event>, slots: set<string>)
    requires StartsLogged(concurrency, active, log, slots)
    ensures forall k :: k in concurrency && k <= active ==> Reached(log, slots, k, concurrency[k].start)
  {
  }

  lemma TotalsDiffer(concurrency: map<nat, Clock>, ks: seq<nat>, active: nat, peak: nat, log: seq<Event>,
                     slots: set<string>, now: int, time: int, busyTotal: int, concurrentTotal: int)
    requires Distinct(ks) && active <= peak && forall k :: k in ks <==> 1 <= k <= peak
    requires (forall k :: k in concurrency <==> 1 <= k <= peak) && StartsLogged(concurrency, active, log, slots)
    requires busyTotal == time + active * (now - Now(log))
    requires concurrentTotal == time - Outstanding(concurrency, ks, active, Now(log))
    ensures busyTotal - concurrentTotal == Outstanding(concurrency, ks, active, now)
    ensures active == 0 ==> busyTotal == concurrentTotal == time
    ensures Chronological(log) && Now(log) < now ==> (busyTotal == concurrentTotal <==> active == 0)
  {
    hide Distinct, Outstanding, Chronological, StartsLogged, Now, UpTo, CountIn;
    OutstandingGrows(concurrency, ks, active, Now(log), now);
    LevelsHeld(ks, active, peak);
    if Chronological(log) && Now(log) < now {
      OutstandingPositive(concurrency, ks, active, log, slots);
      MoreThanNothing(active, now - Now(log));
    }
    NothingOutstanding(concurrency, ks, Now(log));
    NothingOutstanding(concurrency, ks, now);
  }

  /** What has passed at time `t` since the levels among `ks` that are still held were reached. */
  ghost function Outstanding(concurrency: map<nat, Clock>, ks: seq<nat>, active: nat, t: int): int {
    if ks == [] then 0
    else
      var k := ks[0];
      Outstanding(concurrency, ks[1..], active, t) + if k in concurrency && 1 <= k <= active
        then t - concurrency[k].start else 0
  }

  lemma {:induction false} OutstandingEnd(concurrency: map<nat, Clock>, ks: seq<nat>, active: nat, t: int, k: nat)
    ensures Outstanding(concurrency, ks + [k], active, t) ==
            Outstanding(concurrency, ks, active, t) + if k in concurrency && 1 <= k <= active
              then t - concurrency[k].start else 0
  {
    if ks != [] {
      OutstandingEnd(concurrency, ks[1..], active, t, k);
      assert (ks + [k])[1..] == ks[1..] + [k];
    } else {
      assert (ks + [k])[1..] == [];
    }
  }

  lemma {:induction false} OutstandingGrows(concurrency: map<nat, Clock>, ks: seq<nat>, active: nat, t: int, u: int)
    requires forall k :: k in ks ==> k in concurrency
    ensures Outstanding(concurrency, ks, active, u) ==
            Outstanding(concurrency, ks, active, t) + (u - t) * CountIn(ks, UpTo(active))
  {
    if ks != [] {
      assert ks[0] in ks && forall k :: k in ks[1..] ==> k in ks;
      OutstandingGrows(concurrency, ks[1..], active, t, u);
      OneMore(u - t, CountIn(ks[1..], UpTo(active)), ks[0] in UpTo(active));
    }
  }

  lemma {:induction false} OutstandingPositive(concurrency: map<nat, Clock>, ks: seq<nat>, active: nat, log: seq<Event>,
                                               slots: set<string>)
    requires StartsLogged(concurrency, active, log, slots) && Chronological(log)
    ensures Outstanding(concurrency, ks, active, Now(log)) >= 0
  {
    if ks != [] {
      OutstandingPositive(concurrency, ks[1..], active, log, slots);
      var k := ks[0];
      if k in concurrency && k <= active {
        var i: nat :| ReachedBy(log, slots, k, i) && log[i].time == concurrency[k].start;
        NowIsLast(log, log[i]);
      }
    }
  }

  lemma {:induction false} NowIsLast(log: seq<Event>, e: Event)
    requires Chronological(log) && e in log
    ensures e.time <= Now(log)
  {
    var before := log[..|log| - 1];
    if e != log[|log| - 1] {
      assert log == before + [log[|log| - 1]];
      assert e in before;
      assert forall i :: 0 <= i < |before| ==> before[i] == log[i];
      NowIsLast(before, e);
    }
  }

  lemma {:induction false} NothingOutstanding(concurrency: map<nat, Clock>, ks: seq<nat>, t: int)
    ensures Outstanding(concurrency, ks, 0, t) == 0
  {
    if ks != [] {
      NothingOutstanding(concurrency, ks[1..], t);
    }
  }

  lemma LevelsHeld(ks: seq<nat>, active: nat, peak: nat)
    requires Distinct(ks) && active <= peak && forall k :: k in ks <==> 1 <= k <= peak
    ensures CountIn(ks, UpTo(active)) == active
  {
    CountInCard(ks, UpTo(active));
  }

  lemma MoreThanNothing(n: nat, t: int)
    requires t > 0
    ensures t * n >= 0 && (t * n == 0 <==> n == 0)
  {
  }

  lemma LevelsCovered(ks: seq<nat>, concurrency: map<nat, Clock>, peak: nat)
    requires Elements(ks) == concurrency.Keys && forall k :: k in concurrency <==> 1 <= k <= peak
    ensures forall k :: k in ks <==> 1 <= k <= peak
  {
    assert forall k :: k in ks <==> k in Elements(ks);
  }

  lemma NameCount(names: seq<string>, x: set<string>)
    requires Distinct(names) && Elements(names) == x
    ensures |names| == |x|
  {
    CountInCard(names, x);
    AllIn(names, x);
  }

  predicate Unfinished(status: Option<Status>) {
    status.Some? && status.value != IDLE && status.value != FAILED
  }

  lemma UnfinishedSlots(log: seq<Event>, slots: set<string>)
    ensures (exists s :: s in slots && Unfinished(StatusAfter(log, s))) <==>
            exists s :: s in slots && StatusAfter(log, s).Some? && StatusAfter(log, s).value !in {IDLE, FAILED}
  {
  }

  lemma OpenIsUnfinished(slot: Slot, log: seq<Event>, slots: set<string>, s: string)
    requires SlotOk(slot, log, slots, s)
    ensures HasAll(slot.statuses)
    ensures Unfinished(StatusAfter(log, s)) <==>
            exists st :: slot.statuses[st].enabled && st != IDLE && st != FAILED
  {
    if Unfinished(StatusAfter(log, s)) {
      var st := StatusAfter(log, s).value;
      assert TallyOk(slot.statuses[st], log, slots, s, st);
      assert slot.statuses[st].enabled;
    }
    if st :| slot.statuses[st].enabled && st != IDLE && st != FAILED {
      assert TallyOk(slot.statuses[st], log, slots, s, st);
    }
  }

  lemma ClosedFromIs(slot: Slot, closed: Slot, now: int, last: int)
    requires HasAll(slot.statuses) && HasAll(closed.statuses)
    requires forall st :: closed.statuses[st] == Closed(slot.statuses[st], st, now, IdleTail(slot.statuses, last))
    ensures ClosedFrom(slot, closed, now, last)
  {
  }

  /** The replay of a whole log ends with what the log determines. */
  method Replay(events: seq<Event>, slotNames: set<string>) returns (ledger: Ledger)
    requires events != [] && forall e :: e in events ==> e.slot in slotNames
    ensures fresh(ledger) && ledger.Valid() && ledger.log == events && ledger.slots.Keys == slotNames
    ensures ledger.started == events[0].time
  {
    hide SlotOk, ConcurrencyOk;
    ledger := new Ledger(slotNames, events[0].time);
    for i := 0 to |events|
      invariant fresh(ledger) && ledger.Valid() && ledger.log == events[..i] && ledger.slots.Keys == slotNames
      invariant ledger.started == events[0].time
    {
      assert events[..i + 1] == events[..i] + [events[i]];
      assert events[i] in events;
      ledger.Record(events[i]);
    }
    assert events[..|events|] == events;
  }

  lemma SlotHasAll(slot: Slot, log: seq<Event>, slots: set<string>, s: string)
    requires SlotOk(slot, log, slots, s)
    ensures HasAll(slot.statuses)
  {
  }

  lemma PreviousIs(slot: Slot, log: seq<Event>, slots: set<string>, s: string)
    requires SlotOk(slot, log, slots, s)
    ensures slot.previous == StatusAfter(log, s)
  {
  }

  lemma Listed(st: Status)
    ensures st in ALL_STATUSES
  {
    match st
    case ACTIVE => case FAILED => case GETPKG => case IDLE => case LOCKED =>
    case MUTEX => case MUTEXWAIT => case STALLED => case UNLOCK =>
  }

  // ---- The two totals agree ----

  ghost function CountIn<T>(s: seq<T>, x: set<T>): nat {
    if s == [] then 0 else CountIn(s[1..], x) + if s[0] in x then 1 else 0
  }

  /** A list without repetition meets each member of a set that it covers once. */
  lemma {:induction false} CountInCard<T>(s: seq<T>, x: set<T>)
    requires Distinct(s) && forall e :: e in x ==> e in s
    ensures CountIn(s, x) == |x|
  {
    hide Distinct;
    if s != [] {
      var rest, y := s[1..], x - {s[0]};
      assert s == [s[0]] + rest;
      DistinctTail(s);
      CountInCard(rest, y);
      CountInSame(rest, x, y);
      if s[0] in x {
        assert x == y + {s[0]};
      } else {
        assert x == y;
      }
    }
  }

  lemma DistinctTail<T>(s: seq<T>)
    requires s != [] && Distinct(s)
    ensures Distinct(s[1..]) && s[0] !in s[1..]
  {
    assert forall i :: 0 <= i < |s[1..]| ==> s[1..][i] == s[i + 1];
  }

  lemma {:induction false} CountInSame<T>(s: seq<T>, x: set<T>, y: set<T>)
    requires forall e :: e in s ==> (e in x <==> e in y)
    ensures CountIn(s, x) == CountIn(s, y)
  {
    if s != [] {
      assert s == [s[0]] + s[1..];
      CountInSame(s[1..], x, y);
    }
  }

  ghost function UpTo(c: nat): (r: set<nat>)
    ensures forall k :: k in r <==> 1 <= k <= c
    ensures |r| == c
  {
    if c == 0 then {} else UpTo(c - 1) + {c}
  }

  /** The time for which at least k slots were busy, added up over the levels `ks`. */
  ghost function LevelTime(log: seq<Event>, slots: set<string>, ks: seq<nat>): int {
    if ks == [] then 0 else Duration(log, slots, AtLeast(ks[0])) + LevelTime(log, slots, ks[1..])
  }

  /** The time for which each slot was busy, added up over the slots `names`. */
  ghost function BusyTime(log: seq<Event>, slots: set<string>, names: seq<string>): int {
    if names == [] then 0 else Duration(log, slots, SlotBusy(names[0])) + BusyTime(log, slots, names[1..])
  }

  lemma {:induction false} LevelTimeSnoc(log: seq<Event>, e: Event, slots: set<string>, ks: seq<nat>)
    requires log != [] && forall k :: k in ks ==> k >= 1
    ensures LevelTime(log + [e], slots, ks)
            == LevelTime(log, slots, ks) + (e.time - Now(log)) * CountIn(ks, UpTo(Level(log, slots)))
  {
    hide Level;
    hide Duration;
    if ks != [] {
      assert forall k :: k in ks[1..] ==> k in ks;
      LevelTimeSnoc(log, e, slots, ks[1..]);
      DurationSnoc(log, e, slots, AtLeast(ks[0]));
      var x := UpTo(Level(log, slots));
      assert ks[0] in ks;
      assert ks[0] in x <==> Meets(log, slots, AtLeast(ks[0]));
      OneMore(e.time - Now(log), CountIn(ks[1..], x), ks[0] in x);
    }
  }

  lemma {:induction false} BusyTimeSnoc(log: seq<Event>, e: Event, slots: set<string>, names: seq<string>)
    requires log != [] && forall s :: s in names ==> s in slots
    ensures BusyTime(log + [e], slots, names)
            == BusyTime(log, slots, names) + (e.time - Now(log)) * CountIn(names, BusySlots(log, slots))
  {
    hide Duration;
    if names != [] {
      assert forall s :: s in names[1..] ==> s in names;
      BusyTimeSnoc(log, e, slots, names[1..]);
      DurationSnoc(log, e, slots, SlotBusy(names[0]));
      var x := BusySlots(log, slots);
      assert names[0] in x <==> Meets(log, slots, SlotBusy(names[0]));
      OneMore(e.time - Now(log), CountIn(names[1..], x), names[0] in x);
    }
  }

  lemma OneMore(t: int, n: nat, more: bool)
    ensures t * (n + if more then 1 else 0) == t * n + if more then t else 0
  {
  }

  /** Slot by slot or level by level, the time spent busy is the same, whatever the timestamps. */
  lemma {:induction false} Conservation(log: seq<Event>, slots: set<string>, names: seq<string>, ks: seq<nat>)
    requires Distinct(names) && Elements(names) == slots
    requires Distinct(ks) && (forall k :: k in ks ==> k >= 1) && forall k :: 1 <= k <= Peak(log, slots) ==> k in ks
    ensures LevelTime(log, slots, ks) == BusyTime(log, slots, names)
  {
    hide Distinct;
    if |log| <= 1 {
      NoTime(log, slots, names, ks);
    } else {
      var before, e := log[..|log| - 1], log[|log| - 1];
      assert log == before + [e];
      PeakSnoc(before, e, slots);
      Conservation(before, slots, names, ks);
      LevelTimeSnoc(before, e, slots, ks);
      BusyTimeSnoc(before, e, slots, names);
      PeakIsMaximum(before, slots);
      assert before[..|before|] == before;
      assert forall s :: s in BusySlots(before, slots) ==> s in Elements(names);
      CountInCard(ks, UpTo(Level(before, slots)));
      CountInCard(names, BusySlots(before, slots));
    }
  }

  lemma {:induction false} NoTime(log: seq<Event>, slots: set<string>, names: seq<string>, ks: seq<nat>)
    requires |log| <= 1
    ensures LevelTime(log, slots, ks) == 0 && BusyTime(log, slots, names) == 0
    decreases |names| + |ks|
  {
    if names != [] {
      NoTime(log, slots, names[1..], ks);
    } else if ks != [] {
      NoTime(log, slots, names, ks[1..]);
    }
  }

  // ---- The summary ----

  /** Neither idle nor failed: the build is still going on, or was cut off. */
  predicate Open(status: Status, t: Tally) {
    t.enabled && status != IDLE && status != FAILED
  }

  ghost predicate HasAll(statuses: map<Status, Tally>) {
    forall st: Status :: st in statuses
  }

  function Place(st: Status): nat {
    match st
    case ACTIVE => 0 case FAILED => 1 case GETPKG => 2 case IDLE => 3 case LOCKED => 4
    case MUTEX => 5 case MUTEXWAIT => 6 case STALLED => 7 case UNLOCK => 8
  }

  lemma PlaceOf(i: nat)
    requires i < |ALL_STATUSES|
    ensures Place(ALL_STATUSES[i]) == i
  {
  }

  lemma SamePlace(a: Status, b: Status)
    ensures Place(a) == Place(b) ==> a == b
    ensures Place(a) < |ALL_STATUSES|
  {
  }

  /** A tally once it has been closed at time `now`; an idle slot was last active at `since`. */
  function Closed(t: Tally, st: Status, now: int, since: int): Tally {
    if st == IDLE then t.(total := t.total + since)
    else if Open(st, t) then t.(total := t.total + (now - t.start))
    else t
  }

  /** The idle time that is still to be added: from the failure, or else from the last idle event on. */
  function IdleTail(statuses: map<Status, Tally>, lastActive: int): int
    requires IDLE in statuses && FAILED in statuses
  {
    lastActive - if statuses[FAILED].enabled then statuses[FAILED].start else statuses[IDLE].start
  }

  /** The first `i` statuses have been closed. */
  ghost predicate HalfClosed(before: map<Status, Tally>, after: map<Status, Tally>, i: nat, now: int, tail: int) {
    forall st :: st in before && st in after && after[st] == if Place(st) < i then Closed(before[st], st, now, tail)
      else before[st]
  }

  lemma HalfClosedNext(before: map<Status, Tally>, after: map<Status, Tally>, st: Status, now: int, tail: int)
    requires HalfClosed(before, after, Place(st), now, tail)
    ensures st in before && st in after && after[st] == before[st]
    ensures HalfClosed(before, after[st := Closed(after[st], st, now, tail)], Place(st) + 1, now, tail)
    ensures IDLE in before && IDLE in after && FAILED in before && FAILED in after && after[FAILED] == before[FAILED]
  {
    hide Closed, Place;
    ClosedFailed(before, now, tail);
    forall o
      ensures Place(o) == Place(st) ==> o == st
    {
      SamePlace(o, st);
    }
  }

  lemma ClosedFailed(before: map<Status, Tally>, now: int, tail: int)
    requires FAILED in before
    ensures Closed(before[FAILED], FAILED, now, tail) == before[FAILED]
  {
  }

  ghost predicate SomeOpen(before: map<Status, Tally>, i: nat) {
    exists st :: st in before && Place(st) < i && Open(st, before[st])
  }

  lemma SomeOpenNext(before: map<Status, Tally>, st: Status)
    requires st in before
    ensures SomeOpen(before, Place(st) + 1) <==> SomeOpen(before, Place(st)) || Open(st, before[st])
  {
    hide Place, Open;
    forall o
      ensures Place(o) == Place(st) ==> o == st
    {
      SamePlace(o, st);
    }
  }

  /** Closes the statuses of one slot that are still open with the current time; tops up the idle time. */
  method CloseSlot(slot: Slot, now: int, lastActive: int) returns (closed: Slot, isactive: bool)
    requires HasAll(slot.statuses)
    ensures HasAll(closed.statuses)
    ensures isactive <==> exists st :: slot.statuses[st].enabled && st != IDLE && st != FAILED
    ensures forall st :: closed.statuses[st] == Closed(slot.statuses[st], st, now, IdleTail(slot.statuses, lastActive))
    ensures forall st :: closed.statuses[st] == slot.statuses[st].(total := closed.statuses[st].total)
    ensures forall st :: closed.statuses[st].total - slot.statuses[st].total ==
              if st == IDLE
              then lastActive - if slot.statuses[FAILED].enabled then slot.statuses[FAILED].start
                                else slot.statuses[IDLE].start
              else if slot.statuses[st].enabled && st != FAILED then now - slot.statuses[st].start
              else 0
  {
    hide Place, HalfClosed, SomeOpen;
    var statuses := slot.statuses;
    ghost var tail := IdleTail(statuses, lastActive);
    isactive := false;
    NothingClosed(statuses, now, tail);
    for i := 0 to |ALL_STATUSES|
      invariant HalfClosed(slot.statuses, statuses, i, now, tail)
      invariant isactive <==> SomeOpen(slot.statuses, i)
    {
      var st := ALL_STATUSES[i];
      PlaceOf(i);
      HalfClosedNext(slot.statuses, statuses, st, now, tail);
      SomeOpenNext(slot.statuses, st);
      var t := statuses[st];
      if st == IDLE {
        statuses := statuses[st := t.(total := t.total + IdleTail(statuses, lastActive))];
      } else if Open(st, t) {
        isactive := true;
        statuses := statuses[st := t.(total := t.total + (now - t.start))];
      } else {
        assert statuses == statuses[st := t];
      }
    }
    AllClosed(slot.statuses, statuses, now, tail);
    closed := Slot(slot.previous, statuses);
  }

  lemma NothingClosed(statuses: map<Status, Tally>, now: int, tail: int)
    requires HasAll(statuses)
    ensures HalfClosed(statuses, statuses, 0, now, tail) && !SomeOpen(statuses, 0)
  {
  }

  lemma AllClosed(before: map<Status, Tally>, after: map<Status, Tally>, now: int, tail: int)
    requires HalfClosed(before, after, |ALL_STATUSES|, now, tail)
    ensures HasAll(after) && HasAll(before)
    ensures forall st :: after[st] == Closed(before[st], st, now, tail)
    ensures SomeOpen(before, |ALL_STATUSES|) <==> exists st :: before[st].enabled && st != IDLE && st != FAILED
  {
    hide Closed, Place;
    forall st
      ensures Place(st) < |ALL_STATUSES|
    {
      SamePlace(st, st);
    }
    if st :| before[st].enabled && st != IDLE && st != FAILED {
      assert Open(st, before[st]);
    }
  }

  /** The time a slot was busy, as its tallies have it. */
  function BusyTotal(slot: Slot): int
    requires forall st :: st in BUSY ==> st in slot.statuses
  {
    slot.statuses[ACTIVE].total + slot.statuses[MUTEX].total + slot.statuses[GETPKG].total
  }

  lemma {:induction false} BusySplits(log: seq<Event>, slots: set<string>, s: string)
    ensures Duration(log, slots, SlotBusy(s)) ==
            Duration(log, slots, InStatus(s, ACTIVE)) + Duration(log, slots, InStatus(s, MUTEX))
              + Duration(log, slots, InStatus(s, GETPKG))
  {
    if |log| > 1 {
      BusySplits(log[..|log| - 1], slots, s);
    }
  }

  /** Once closed, a slot has its busy time on record, up to now if it ended busy. */
  lemma ClosedBusyTotal(slot: Slot, closed: Slot, log: seq<Event>, slots: set<string>, s: string, now: int, tail: int)
    requires SlotOk(slot, log, slots, s)
    requires forall st :: st in closed.statuses && closed.statuses[st] == Closed(slot.statuses[st], st, now, tail)
    ensures BusyTotal(closed) ==
            Duration(log, slots, SlotBusy(s)) + if IsBusy(StatusAfter(log, s)) then now - Now(log) else 0
  {
    hide Duration, Now;
    BusySplits(log, slots, s);
    forall st | st in BUSY
      ensures closed.statuses[st].total ==
              Duration(log, slots, InStatus(s, st)) + if StatusAfter(log, s) == Some(st) then now - Now(log) else 0
    {
      assert TallyOk(slot.statuses[st], log, slots, s, st);
    }
  }

  lemma {:induction false} BusyTimeEnd(log: seq<Event>, slots: set<string>, names: seq<string>, s: string)
    ensures BusyTime(log, slots, names + [s]) == BusyTime(log, slots, names) + Duration(log, slots, SlotBusy(s))
  {
    hide Duration;
    if names != [] {
      BusyTimeEnd(log, slots, names[1..], s);
      assert (names + [s])[1..] == names[1..] + [s];
    } else {
      assert (names + [s])[1..] == [];
    }
  }

  lemma {:induction false} LevelTimeEnd(log: seq<Event>, slots: set<string>, ks: seq<nat>, k: nat)
    ensures LevelTime(log, slots, ks + [k]) == LevelTime(log, slots, ks) + Duration(log, slots, AtLeast(k))
  {
    hide Duration;
    if ks != [] {
      LevelTimeEnd(log, slots, ks[1..], k);
      assert (ks + [k])[1..] == ks[1..] + [k];
    } else {
      assert (ks + [k])[1..] == [];
    }
  }

  lemma {:induction false} CountInEnd<T>(s: seq<T>, e: T, x: set<T>)
    ensures CountIn(s + [e], x) == CountIn(s, x) + if e in x then 1 else 0
  {
    if s != [] {
      CountInEnd(s[1..], e, x);
      assert (s + [e])[1..] == s[1..] + [e];
    } else {
      assert (s + [e])[1..] == [];
    }
  }

  datatype Line = Line(slot: string, busy: int, concurrent: Option<(nat, int)>)

  /** Sums up the slots in the given order. */
  method SlotLines(slots: map<string, Slot>, names: seq<string>, ghost log: seq<Event>, ghost before: map<string, Slot>,
                   ghost now: int, ghost last: int)
    returns (lines: seq<Line>, busyTotal: int)
    requires Elements(names) == slots.Keys == before.Keys
    requires forall s :: s in slots ==>
             SlotOk(before[s], log, slots.Keys, s) && ClosedFrom(before[s], slots[s], now, last)
    ensures |lines| == |names|
    requires Distinct(names)
    ensures busyTotal == BusyTime(log, slots.Keys, names) + Level(log, slots.Keys) * (now - Now(log))
    ensures forall i :: 0 <= i < |names| ==>
              && lines[i].slot == names[i] && lines[i].concurrent == None
              && lines[i].busy == Duration(log, slots.Keys, SlotBusy(names[i]))
                   + if IsBusy(StatusAfter(log, names[i])) then now - Now(log) else 0
  {
    hide SlotOk, ClosedFrom, Level, Duration, BusyTime, BusyTotal, BusySlots, CountIn, Now, Distinct, StatusAfter,
         IsBusy;
    lines, busyTotal := [], 0;
    NoBusyTime(log, slots.Keys);
    ghost var busy := BusySlots(log, slots.Keys);
    NothingCounted(busy);
    for i := 0 to |names|
      invariant |lines| == i
      invariant busyTotal == BusyTime(log, slots.Keys, names[..i]) + (now - Now(log)) * CountIn(names[..i], busy)
      invariant forall j :: 0 <= j < i ==>
                && lines[j].slot == names[j] && lines[j].concurrent == None
                && lines[j].busy == Duration(log, slots.Keys, SlotBusy(names[j]))
                     + if IsBusy(StatusAfter(log, names[j])) then now - Now(log) else 0
    {
      var s := names[i];
      assert s in Elements(names);
      assert names[..i + 1] == names[..i] + [s];
      BusyTimeEnd(log, slots.Keys, names[..i], s);
      ClosedHasAll(before[s], slots[s], now, last);
      ClosedSlotTotal(before[s], slots[s], log, slots.Keys, s, now, last);
      InBusySlots(log, slots.Keys, s);
      CountInEnd(names[..i], s, busy);
      OneMore(now - Now(log), CountIn(names[..i], busy), s in busy);
      busyTotal := busyTotal + BusyTotal(slots[s]);
      lines := lines + [Line(s, BusyTotal(slots[s]), None)];
    }
    assert names[..|names|] == names;
    BusyCounted(log, slots.Keys, names);
  }

  lemma InBusySlots(log: seq<Event>, slots: set<string>, s: string)
    requires s in slots
    ensures s in BusySlots(log, slots) <==> IsBusy(StatusAfter(log, s))
  {
  }

  lemma NothingCounted<T>(x: set<T>)
    ensures CountIn([], x) == 0
  {
  }

  lemma BusyCounted(log: seq<Event>, slots: set<string>, names: seq<string>)
    requires Distinct(names) && Elements(names) == slots
    ensures CountIn(names, BusySlots(log, slots)) == Level(log, slots)
  {
    hide Distinct;
    assert forall s :: s in BusySlots(log, slots) ==> s in Elements(names);
    CountInCard(names, BusySlots(log, slots));
  }

  lemma NoBusyTime(log: seq<Event>, slots: set<string>)
    ensures BusyTime(log, slots, []) == 0 && LevelTime(log, slots, []) == 0
  {
  }

  ghost predicate ClosedFrom(slot: Slot, closed: Slot, now: int, last: int) {
    && HasAll(slot.statuses) && HasAll(closed.statuses)
    && forall st :: closed.statuses[st] == Closed(slot.statuses[st], st, now, IdleTail(slot.statuses, last))
  }

  lemma ClosedHasAll(slot: Slot, closed: Slot, now: int, last: int)
    requires ClosedFrom(slot, closed, now, last)
    ensures HasAll(closed.statuses)
  {
  }

  lemma ClosedSlotTotal(slot: Slot, closed: Slot, log: seq<Event>, slots: set<string>, s: string, now: int, last: int)
    requires SlotOk(slot, log, slots, s) && ClosedFrom(slot, closed, now, last) && s in slots
    ensures HasAll(closed.statuses)
    ensures BusyTotal(closed) ==
            Duration(log, slots, SlotBusy(s)) + if s in BusySlots(log, slots) then now - Now(log) else 0
  {
    hide SlotOk, Closed, Duration, BusyTotal;
    ClosedBusyTotal(slot, closed, log, slots, s, now, IdleTail(slot.statuses, last));
  }

  lemma {:induction false} EnteredAt(log: seq<Event>, s: string)
    requires StatusAfter(log, s).Some?
    ensures LastTime(log, s, StatusAfter(log, s).value).Some?
  {
    if log[|log| - 1].slot != s {
      EnteredAt(log[..|log| - 1], s);
    }
  }

  /**
   * The idle time on record for a closed slot. It is right for a slot that ended idle; after a failure the time
   * since then counts as idle; and for a slot cut off in any other status, the time since it became idle last
   * counts again, whatever the slot has done since.
   */
  lemma ClosedIdleTotal(slot: Slot, closed: Slot, log: seq<Event>, slots: set<string>, s: string, started: int,
                        now: int, last: int)
    requires SlotOk(slot, log, slots, s) && IdleSince(slot, log, s, started) && ClosedFrom(slot, closed, now, last)
    ensures StatusAfter(log, s) == Some(FAILED) ==> LastTime(log, s, FAILED).Some?
    ensures closed.statuses[IDLE].total - Duration(log, slots, InStatus(s, IDLE)) ==
            last - match StatusAfter(log, s)
                   case Some(IDLE) => Now(log)
                   case Some(FAILED) => LastTime(log, s, FAILED).value
                   case _ => if LastTime(log, s, IDLE).Some? then LastTime(log, s, IDLE).value else started
  {
    hide Duration, Now, StatusAfter, LastTime;
    assert TallyOk(slot.statuses[IDLE], log, slots, s, IDLE) && TallyOk(slot.statuses[FAILED], log, slots, s, FAILED);
    if StatusAfter(log, s) == Some(FAILED) {
      EnteredAt(log, s);
    }
  }

  /** Puts the levels of concurrency, in the given order, behind the slot lines: there are no more levels than slots. */
  method LevelLines(lines0: seq<Line>, concurrency: map<nat, Clock>, ks: seq<nat>, ghost active: nat, ghost peak: nat,
                    ghost log: seq<Event>, ghost slots: set<string>)
    returns (lines: seq<Line>, concurrentTotal: int)
    requires ConcurrencyOk(concurrency, active, peak, log, slots)
    requires Distinct(ks) && Elements(ks) == concurrency.Keys && |lines0| == |slots|
    ensures |lines| == |lines0| && |ks| <= |lines|
    ensures concurrentTotal == LevelTime(log, slots, ks) - Outstanding(concurrency, ks, active, Now(log))
    ensures forall i :: 0 <= i < |lines| ==>
              lines[i] == if i < |ks| then lines0[i].(concurrent := Some((ks[i], concurrency[ks[i]].total)))
                else lines0[i]
    ensures forall i :: 0 <= i < |ks| ==>
              ks[i] in concurrency &&
              lines[i].concurrent == Some((ks[i], Duration(log, slots, AtLeast(ks[i]))
                - if ks[i] <= active then Now(log) - concurrency[ks[i]].start else 0))
  {
    hide Level, Duration, LevelTime, Distinct, Outstanding, Now;
    lines, concurrentTotal := lines0, 0;
    LevelsFit(ks, concurrency, peak, log, slots);
    NoBusyTime(log, slots);
    NoneOutstanding(concurrency, active, Now(log));
    assert forall i :: 0 <= i < |ks| ==> ks[i] in Elements(ks);
    for rank := 0 to |ks|
      invariant |lines| == |lines0|
      invariant concurrentTotal
                == LevelTime(log, slots, ks[..rank]) - Outstanding(concurrency, ks[..rank], active, Now(log))
      invariant forall i :: 0 <= i < |lines| ==>
                  lines[i] == if i < rank then lines0[i].(concurrent := Some((ks[i], concurrency[ks[i]].total)))
                    else lines0[i]
    {
      assert ks[..rank + 1] == ks[..rank] + [ks[rank]];
      LevelTimeEnd(log, slots, ks[..rank], ks[rank]);
      OutstandingEnd(concurrency, ks[..rank], active, Now(log), ks[rank]);
      concurrentTotal := concurrentTotal + concurrency[ks[rank]].total;
      lines := lines[rank := lines[rank].(concurrent := Some((ks[rank], concurrency[ks[rank]].total)))];
    }
    assert ks[..|ks|] == ks;
    forall i | 0 <= i < |ks|
      ensures ks[i] in concurrency && ClockOk(concurrency[ks[i]], log, slots, active, ks[i])
    {
    }
  }

  lemma NoneOutstanding(concurrency: map<nat, Clock>, active: nat, t: int)
    ensures Outstanding(concurrency, [], active, t) == 0
  {
  }

  lemma LevelsFit(ks: seq<nat>, concurrency: map<nat, Clock>, peak: nat, log: seq<Event>, slots: set<string>)
    requires Distinct(ks) && Elements(ks) == concurrency.Keys
    requires peak == Peak(log, slots) && forall k :: k in concurrency <==> 1 <= k <= peak
    ensures |ks| <= |slots|
  {
    PeakIsMaximum(log, slots);
    var x := UpTo(peak);
    assert forall k :: k in x ==> k in Elements(ks);
    CountInCard(ks, x);
    assert forall k :: k in ks ==> k in Elements(ks);
    AllIn(ks, x);
  }

  lemma {:induction false} AllIn<T>(s: seq<T>, x: set<T>)
    requires forall e :: e in s ==> e in x
    ensures CountIn(s, x) == |s|
  {
    if s != [] {
      assert s == [s[0]] + s[1..];
      AllIn(s[1..], x);
    }
  }

  ghost predicate Chronological(log: seq<Event>) {
    forall i :: 0 < i < |log| ==> log[i - 1].time <= log[i].time
  }

  /**
   * With events in order, a condition is met for no more than the whole time, and a higher level for no more
   * than a lower one.
   */
  lemma {:induction false} LevelsNest(log: seq<Event>, slots: set<string>, k: nat)
    requires log != [] && Chronological(log)
    ensures 0 <= Duration(log, slots, AtLeast(k + 1)) <= Duration(log, slots, AtLeast(k)) <= Now(log) - log[0].time
  {
    hide Level;
    if |log| > 1 {
      var before := log[..|log| - 1];
      assert forall i :: 0 <= i < |before| ==> before[i] == log[i];
      LevelsNest(before, slots, k);
    }
  }
}
