/**
 * The mutex of the build threads: a file lock, and an owner file that names who holds it.
 * Each step of the shell functions is one step here, and the steps of all processes interleave freely.
 */
module Mutex {
  import opened Collections

  /** What the owner file says: the job slot and the sequence number of the job. */
  type Id = (nat, nat)

  /** Where a process is in acquiring or releasing the lock. */
  datatype At =
    | Outside
    | Reading                                     // about to read the owner file
    | Trying                                      // the owner file was empty: about to try the file lock for a second
    | Deciding(locked: bool, seen: Option<Id>)    // out of the loop, with or without the file lock
    | Waiting                                     // blocked on the file lock
    | Marking                                     // about to write the owner file
    | Critical
    | Unlocking                                   // the owner file is removed: about to release the file lock
    | Dead

  datatype State = State(at: seq<At>, lock: Option<nat>, owner: Option<Id>)

  datatype Action = Begin | Read | TimedLock | TimeOut | Decide | BlockingLock | Mark | Remove | Unlock | Crash

  /** The process needs no file lock of its own: it believes it holds the mutex already. */
  predicate Skips(ids: seq<Id>, p: nat, at: At)
    requires p < |ids|
  {
    at.Deciding? && !at.locked && at.seen == Some(ids[p])
  }

  predicate Can(ids: seq<Id>, s: State, p: nat, a: Action) {
    p < |s.at| == |ids| &&
    match a
    case Begin => s.at[p] == Outside
    case Read => s.at[p] == Reading
    case TimedLock => s.at[p] == Trying && s.lock == None
    case TimeOut => s.at[p] == Trying
    case Decide => s.at[p].Deciding?
    case BlockingLock => s.at[p] == Waiting && s.lock == None
    case Mark => s.at[p] == Marking
    case Remove => s.at[p] == Critical
    case Unlock => s.at[p] == Unlocking
    case Crash => s.at[p] != Dead
  }

  function Do(ids: seq<Id>, s: State, p: nat, a: Action): State
    requires Can(ids, s, p, a)
  {
    match a
    case Begin => s.(at := s.at[p := Reading])
    case Read => s.(at := s.at[p := if s.owner.Some? then Deciding(false, s.owner) else Trying])
    case TimedLock => s.(at := s.at[p := Deciding(true, None)], lock := Some(p))
    case TimeOut => s.(at := s.at[p := Reading])
    case Decide => s.(at := s.at[p := if s.at[p].locked || Skips(ids, p, s.at[p]) then Marking else Waiting])
    case BlockingLock => s.(at := s.at[p := Marking], lock := Some(p))
    case Mark => s.(at := s.at[p := Critical], owner := Some(ids[p]))
    case Remove => s.(at := s.at[p := Unlocking], owner := None)
    case Unlock => s.(at := s.at[p := Outside], lock := if s.lock == Some(p) then None else s.lock)
    case Crash => s.(at := s.at[p := Dead], lock := if s.lock == Some(p) then None else s.lock)
  }

  function Start(ids: seq<Id>): State {
    State(seq(|ids|, _ => Outside), None, None)
  }

  /** In these places a process relies on holding the file lock. */
  predicate Inside(at: At) {
    (at.Deciding? && at.locked) || at == Marking || at == Critical || at == Unlocking
  }

  ghost predicate ProcessOk(ids: seq<Id>, s: State, p: nat)
    requires p < |s.at| == |ids|
  {
    && (Inside(s.at[p]) <==> s.lock == Some(p))
    && (s.at[p] == Critical ==> s.owner == Some(ids[p]))
    && (s.owner == Some(ids[p]) ==> s.at[p] == Critical || s.at[p] == Dead)
    && !Skips(ids, p, s.at[p])
  }

  ghost predicate Inv(ids: seq<Id>, s: State) {
    && |s.at| == |ids|
    && (s.lock.Some? ==> s.lock.value < |ids|)
    && (forall p :: 0 <= p < |ids| ==> ProcessOk(ids, s, p))
    && (s.owner.Some? ==> s.owner.value in ids)
  }

  lemma StartInv(ids: seq<Id>)
    ensures Inv(ids, Start(ids))
  {
  }

  lemma StepInv(ids: seq<Id>, s: State, p: nat, a: Action)
    requires Distinct(ids) && Inv(ids, s) && Can(ids, s, p, a)
    ensures Inv(ids, Do(ids, s, p, a))
  {
    var t := Do(ids, s, p, a);
    forall q | 0 <= q < |ids|
      ensures ProcessOk(ids, t, q)
    {
      ProcessStep(ids, s, p, a, q);
    }
  }

  lemma ProcessStep(ids: seq<Id>, s: State, p: nat, a: Action, q: nat)
    requires Distinct(ids) && Inv(ids, s) && Can(ids, s, p, a) && q < |ids|
    ensures ProcessOk(ids, Do(ids, s, p, a), q)
  {
    hide Inv;
    Each(ids, s, p);
    Each(ids, s, q);
    assert p != q ==> ids[p] != ids[q];
  }

  lemma Each(ids: seq<Id>, s: State, p: nat)
    requires Inv(ids, s) && p < |ids|
    ensures |s.at| == |ids| && ProcessOk(ids, s, p)
  {
  }

  /** A run: any number of steps of any processes, in any order. */
  datatype Move = Move(p: nat, a: Action)

  ghost predicate IsRun(ids: seq<Id>, states: seq<State>, moves: seq<Move>) {
    && |states| == |moves| + 1
    && states[0] == Start(ids)
    && forall i :: 0 <= i < |moves| ==>
       Can(ids, states[i], moves[i].p, moves[i].a) && states[i + 1] == Do(ids, states[i], moves[i].p, moves[i].a)
  }

  /** No two processes are in the critical section, or anywhere else where they rely on the lock. */
  ghost predicate Exclusive(s: State) {
    forall p, q :: 0 <= p < |s.at| && 0 <= q < |s.at| && Inside(s.at[p]) && Inside(s.at[q]) ==> p == q
  }

  lemma {:induction false} RunInv(ids: seq<Id>, states: seq<State>, moves: seq<Move>, i: nat)
    requires Distinct(ids) && IsRun(ids, states, moves) && i < |states|
    ensures Inv(ids, states[i])
  {
    hide Inv, Distinct, Do, Can;
    if i == 0 {
      StartInv(ids);
    } else {
      RunInv(ids, states, moves, i - 1);
      StepInv(ids, states[i - 1], moves[i - 1].p, moves[i - 1].a);
    }
  }

  /**
   * Mutual exclusion in every interleaving, even with crashes: who is in the critical section holds the file lock and
   * is named in the owner file; and no process ever skips the file lock.
   */
  lemma RunsAreExclusive(ids: seq<Id>, states: seq<State>, moves: seq<Move>, i: nat)
    requires Distinct(ids) && IsRun(ids, states, moves) && i < |states|
    ensures Exclusive(states[i])
    ensures |states[i].at| == |ids| && forall p :: 0 <= p < |ids| && states[i].at[p] == Critical ==>
              states[i].lock == Some(p) && states[i].owner == Some(ids[p])
    ensures |states[i].at| == |ids| && forall p :: 0 <= p < |ids| ==> !Skips(ids, p, states[i].at[p])
  {
    RunInv(ids, states, moves, i);
    InvExclusive(ids, states[i]);
  }

  lemma InvExclusive(ids: seq<Id>, s: State)
    requires Inv(ids, s)
    ensures Exclusive(s)
    ensures |s.at| == |ids| && forall p :: 0 <= p < |ids| && s.at[p] == Critical ==>
              s.lock == Some(p) && s.owner == Some(ids[p])
    ensures |s.at| == |ids| && forall p :: 0 <= p < |ids| ==> !Skips(ids, p, s.at[p])
  {
    hide Inv, Inside, Skips;
    SameLength(ids, s);
    forall p | 0 <= p < |s.at|
      ensures Inside(s.at[p]) <==> s.lock == Some(p)
      ensures s.at[p] == Critical ==> s.lock == Some(p) && s.owner == Some(ids[p])
      ensures !Skips(ids, p, s.at[p])
    {
      CriticalIsInside(s.at[p]);
      Each(ids, s, p);
    }
  }

  lemma CriticalIsInside(at: At)
    ensures at == Critical ==> Inside(at)
  {
  }

  lemma SameLength(ids: seq<Id>, s: State)
    requires Inv(ids, s)
    ensures |s.at| == |ids|
  {
  }

  ghost predicate NobodyDead(s: State) {
    forall p :: 0 <= p < |s.at| ==> s.at[p] != Dead
  }

  lemma {:induction false} NoCrashNobodyDead(ids: seq<Id>, states: seq<State>, moves: seq<Move>, i: nat)
    requires IsRun(ids, states, moves) && i < |states|
    requires forall j :: 0 <= j < |moves| ==> moves[j].a != Crash
    ensures NobodyDead(states[i])
  {
    if i > 0 {
      NoCrashNobodyDead(ids, states, moves, i - 1);
      assert Can(ids, states[i - 1], moves[i - 1].p, moves[i - 1].a);
    }
  }

  /**
   * A name in the owner file is that of the process that holds the file lock, in its critical section,
   * if and only if no process has died leaving its name there.
   */
  lemma OwnerIsHolder(ids: seq<Id>, states: seq<State>, moves: seq<Move>, i: nat)
    requires Distinct(ids) && IsRun(ids, states, moves) && i < |states|
    requires states[i].owner.Some?
    ensures var s := states[i];
            && |s.at| == |ids|
            && ((s.lock.Some? && s.lock.value < |ids| && s.owner == Some(ids[s.lock.value])
                 && s.at[s.lock.value] == Critical) <==>
                !exists p :: 0 <= p < |ids| && s.at[p] == Dead && s.owner == Some(ids[p]))
  {
    RunInv(ids, states, moves, i);
    var s := states[i];
    var p :| 0 <= p < |ids| && ids[p] == s.owner.value;
    Each(ids, s, p);
    hide Inv, IsRun;
  }

  /** Without crashes, a name in the owner file is that of the process that holds the file lock. */
  lemma OwnerHoldsLock(ids: seq<Id>, states: seq<State>, moves: seq<Move>, i: nat)
    requires Distinct(ids) && IsRun(ids, states, moves) && i < |states|
    requires forall j :: 0 <= j < |moves| ==> moves[j].a != Crash
    requires states[i].owner.Some?
    ensures states[i].lock.Some? && states[i].lock.value < |ids| == |states[i].at|
    ensures states[i].owner.value == ids[states[i].lock.value] && states[i].at[states[i].lock.value] == Critical
  {
    NoCrashNobodyDead(ids, states, moves, i);
    OwnerIsHolder(ids, states, moves, i);
  }

  /** A crash in the critical section leaves a name behind that nobody answers to; the lock is free nevertheless. */
  lemma CrashLeavesOwner()
    ensures exists ids: seq<Id>, states: seq<State>, moves: seq<Move> ::
              Distinct(ids) && IsRun(ids, states, moves)
              && states[|moves|].owner.Some? && states[|moves|].lock == None
  {
    var ids := [(1, 1)];
    var moves := [Move(0, Begin), Move(0, Read), Move(0, TimedLock), Move(0, Decide), Move(0, Mark), Move(0, Crash)];
    var s0 := Start(ids);
    var s1 := Do(ids, s0, 0, Begin);
    var s2 := Do(ids, s1, 0, Read);
    var s3 := Do(ids, s2, 0, TimedLock);
    var s4 := Do(ids, s3, 0, Decide);
    var s5 := Do(ids, s4, 0, Mark);
    var s6 := Do(ids, s5, 0, Crash);
    assert IsRun(ids, [s0, s1, s2, s3, s4, s5, s6], moves);
  }

  /** A step that takes a process forward: not a new arrival, a crash, or a retry. */
  predicate Forward(a: Action) {
    a != Begin && a != Crash && a != TimeOut
  }

  /** Nobody ever waits for ever for nothing: as long as somebody is under way, somebody can go forward. */
  lemma NoDeadlock(ids: seq<Id>, states: seq<State>, moves: seq<Move>, i: nat, p: nat) returns (q: nat, a: Action)
    requires Distinct(ids) && IsRun(ids, states, moves) && i < |states|
    requires p < |states[i].at| && states[i].at[p] != Outside && states[i].at[p] != Dead
    ensures Can(ids, states[i], q, a) && Forward(a)
  {
    RunInv(ids, states, moves, i);
    var s := states[i];
    q := if s.lock.Some? then s.lock.value else p;
    Each(ids, s, q);
    match s.at[q]
    case Reading => a := Read;
    case Trying => a := TimedLock;
    case Deciding(_, _) => a := Decide;
    case Waiting => a := BlockingLock;
    case Marking => a := Mark;
    case Critical => a := Remove;
    case Unlocking => a := Unlock;
    case _ => a := Read;
  }

  /** How many steps of its own the holder of the lock has left before it releases it. */
  function StepsToRelease(at: At): nat {
    match at
    case Deciding(_, _) => 4
    case Marking => 3
    case Critical => 2
    case Unlocking => 1
    case _ => 0
  }

  /**
   * Only the holder's own steps bring the release nearer, each of them does, and nobody else can take the lock
   * before it.
   */
  lemma ReleaseComesNearer(ids: seq<Id>, s: State, p: nat, a: Action, h: nat)
    requires Distinct(ids) && Inv(ids, s) && Can(ids, s, p, a) && a != Crash && s.lock == Some(h)
    ensures var t := Do(ids, s, p, a);
            h < |ids| && |t.at| == |ids|
            && if p != h then t.lock == Some(h) && StepsToRelease(t.at[h]) == StepsToRelease(s.at[h])
               else
                 && StepsToRelease(t.at[h]) + 1 == StepsToRelease(s.at[h])
                 && (t.lock == if s.at[h] == Unlocking then None else Some(h))
  {
    hide Inv;
    LockHolder(ids, s);
    Each(ids, s, h);
    Each(ids, s, p);
  }

  lemma LockHolder(ids: seq<Id>, s: State)
    requires Inv(ids, s) && s.lock.Some?
    ensures s.lock.value < |ids|
  {
  }
}
