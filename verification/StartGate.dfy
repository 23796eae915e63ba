/** The start gate of the concurrent benchmark: N session threads and the thread that starts them, sharing a gate
  * under a mutex and a condition variable. One step is one access to shared state by one thread. */
module StartGate {
  import opened Wrappers

  /** Where a thread is. Sessions run run_session; the last thread runs run_packet_benchmark. */
  datatype Pc =
    | NotStarted
    | LoggingIn                  // perform_login
    // gate_wait
    | WantGate                   // pthread_mutex_lock
    | Arriving                   // ++gate->arrived
    | Testing                    // if (gate->arrived == gate->target)
    | Releasing                  // gate->released = true
    | Waking                     // pthread_cond_broadcast
    | Checking                   // while (!gate->released), first time
    | Blocked                    // pthread_cond_wait, mutex given up
    | Woken                      // pthread_cond_wait, taking the mutex back
    | Rechecking                 // while (!gate->released), after a wakeup
    | ReadingFlag                // bool aborted = gate->aborted
    | Leaving(flag: bool)        // pthread_mutex_unlock
    | Passed                     // gate_wait returned 0; messages may be written
    | Refused                    // gate_wait returned -1
    // gate_abort
    | WantAbort                  // pthread_mutex_lock
    | SettingAborted             // gate->aborted = true
    | SettingReleased            // gate->released = true
    | AbortWaking                // pthread_cond_broadcast
    | AbortLeaving               // pthread_mutex_unlock
    | AbortDone
    // the starter
    | Accepting                  // accept and pthread_create
    | Joining                    // every session was started

  datatype Event = LoggedIn(session: nat) | Wrote(session: nat)

  /** `log` records completed logins and written keep-alives, in order. */
  datatype State = State(pcs: seq<Pc>, started: nat, arrived: nat, released: bool, aborted: bool,
                         owner: Option<nat>, log: seq<Event>)

  /** The number of sessions, which is also the gate's target and the starter's index. */
  function Target(s: State): nat
    requires s.pcs != []
  {
    |s.pcs| - 1
  }

  /** parse_size refuses zero clients. */
  predicate Init(s: State) {
    && |s.pcs| >= 2
    && (forall t :: 0 <= t < Target(s) ==> s.pcs[t] == NotStarted)
    && s.pcs[Target(s)] == Accepting
    && s.started == 0 && s.arrived == 0 && !s.released && !s.aborted && s.owner == None && s.log == []
  }

  /** What one step does: one thread goes to `pc`, perhaps the whole wait set is woken, and the shared state
    * becomes as given. */
  datatype Move = Move(thread: nat, pc: Pc, wakes: bool, started: nat, arrived: nat, released: bool, aborted: bool,
                       owner: Option<nat>, log: seq<Event>)

  function Apply(s: State, m: Move): State {
    State(seq(|s.pcs|, t requires 0 <= t < |s.pcs| =>
                if t == m.thread then m.pc
                else if m.wakes && s.pcs[t].Blocked? then Woken
                else s.pcs[t]),
          m.started, m.arrived, m.released, m.aborted, m.owner, m.log)
  }

  /** Thread `t` goes to `pc` and nothing else changes. */
  function Go(s: State, t: nat, pc: Pc): Move {
    Move(t, pc, false, s.started, s.arrived, s.released, s.aborted, s.owner, s.log)
  }

  function Lock(s: State, t: nat, pc: Pc): Move {
    Go(s, t, pc).(owner := Some(t))
  }

  function Unlock(s: State, t: nat, pc: Pc): Move {
    Go(s, t, pc).(owner := None)
  }

  // The steps that thread `t` can take, by the part of the program it is in.

  /** perform_login, which may fail; accept and pthread_create, which may fail. */
  predicate CanStart(s: State, t: nat, m: Move)
    requires t < |s.pcs|
  {
    match s.pcs[t]
    case LoggingIn => m == Go(s, t, WantGate).(log := s.log + [LoggedIn(t)]) || m == Go(s, t, WantAbort)
    case Accepting =>
      if s.started < Target(s)
      then m == Go(s, s.started, LoggingIn).(started := s.started + 1) || m == Go(s, t, WantAbort)
      else m == Go(s, t, Joining)
    case _ => false
  }

  predicate CanArrive(s: State, t: nat, m: Move)
    requires t < |s.pcs|
  {
    match s.pcs[t]
    case WantGate => s.owner.None? && m == Lock(s, t, Arriving)
    case Arriving => m == Go(s, t, Testing).(arrived := s.arrived + 1)
    case Testing => m == Go(s, t, if s.arrived == Target(s) then Releasing else Checking)
    case Releasing => m == Go(s, t, Waking).(released := true)
    case Waking => m == Go(s, t, Checking).(wakes := true)
    case _ => false
  }

  /** A wait may end without a wakeup; a woken thread takes the mutex and checks again. */
  predicate CanWait(s: State, t: nat, m: Move)
    requires t < |s.pcs|
  {
    match s.pcs[t]
    case Checking => m == if s.released then Go(s, t, ReadingFlag) else Unlock(s, t, Blocked)
    case Blocked => m == Go(s, t, Woken)
    case Woken => s.owner.None? && m == Lock(s, t, Rechecking)
    case Rechecking => m == if s.released then Go(s, t, ReadingFlag) else Unlock(s, t, Blocked)
    case _ => false
  }

  predicate CanExit(s: State, t: nat, m: Move)
    requires t < |s.pcs|
  {
    match s.pcs[t]
    case ReadingFlag => m == Go(s, t, Leaving(s.aborted))
    case Leaving(flag) => m == Unlock(s, t, if flag then Refused else Passed)
    case Passed => m == Go(s, t, Passed).(log := s.log + [Wrote(t)])
    case _ => false
  }

  predicate CanAbort(s: State, t: nat, m: Move)
    requires t < |s.pcs|
  {
    match s.pcs[t]
    case WantAbort => s.owner.None? && m == Lock(s, t, SettingAborted)
    case SettingAborted => m == Go(s, t, SettingReleased).(aborted := true)
    case SettingReleased => m == Go(s, t, AbortWaking).(released := true)
    case AbortWaking => m == Go(s, t, AbortLeaving).(wakes := true)
    case AbortLeaving => m == Unlock(s, t, AbortDone)
    case _ => false
  }

  predicate Can(s: State, t: nat, m: Move) {
    t < |s.pcs|
    && (CanStart(s, t, m) || CanArrive(s, t, m) || CanWait(s, t, m) || CanExit(s, t, m) || CanAbort(s, t, m))
  }

  predicate HoldsMutex(pc: Pc) {
    pc.Arriving? || pc.Testing? || pc.Releasing? || pc.Waking? || pc.Checking? || pc.Rechecking? || pc.ReadingFlag?
    || pc.Leaving? || pc.SettingAborted? || pc.SettingReleased? || pc.AbortWaking? || pc.AbortLeaving?
  }

  predicate HasArrived(pc: Pc) {
    pc.Testing? || pc.Releasing? || pc.Waking? || pc.Checking? || pc.Blocked? || pc.Woken? || pc.Rechecking?
    || pc.ReadingFlag? || pc.Leaving? || pc.Passed? || pc.Refused?
  }

  predicate IsAborting(pc: Pc) {
    pc.WantAbort? || pc.SettingAborted? || HasMarked(pc)
  }

  predicate HasMarked(pc: Pc) {
    pc.SettingReleased? || pc.AbortWaking? || pc.AbortLeaving? || pc.AbortDone?
  }

  // The invariant.

  /** The mutex is held by exactly the thread inside a critical section. */
  ghost predicate Exclusive(s: State) {
    && (s.owner.Some? ==> s.owner.value < |s.pcs|)
    && forall t :: 0 <= t < |s.pcs| ==> (HoldsMutex(s.pcs[t]) <==> s.owner == Some(t))
  }

  /** The starter starts sessions in order, and gives up only before the last. */
  predicate RoleFits(target: nat, started: nat, t: nat, pc: Pc) {
    if t < target then (pc.NotStarted? <==> t >= started) && !pc.Accepting? && !pc.Joining?
    else
      && (pc.Accepting? || pc.Joining? || IsAborting(pc))
      && (pc.Joining? ==> started == target) && (IsAborting(pc) ==> started < target)
  }

  ghost predicate InRole(s: State) {
    && |s.pcs| >= 2 && s.started <= Target(s)
    && forall t :: 0 <= t < |s.pcs| ==> RoleFits(Target(s), s.started, t, s.pcs[t])
  }

  /** How many of the first `n` threads have arrived. */
  ghost function CountArrived(pcs: seq<Pc>, n: nat): (k: nat)
    requires n <= |pcs|
    ensures k <= n
  {
    if n == 0 then 0 else CountArrived(pcs, n - 1) + if HasArrived(pcs[n - 1]) then 1 else 0
  }

  ghost predicate Counted(s: State)
    requires s.pcs != []
  {
    s.arrived == CountArrived(s.pcs, Target(s))
  }

  /** Where the thread is that holds the mutex. */
  function OwnerPc(s: State): Pc {
    if s.owner.Some? && s.owner.value < |s.pcs| then s.pcs[s.owner.value] else Joining
  }

  /** What the flags mean: the gate is released by an abort or by the last arrival, and nothing else; nobody stays in
    * the wait set after a release except until the broadcast that goes with it. */
  ghost predicate FlagsRight(s: State)
    requires s.pcs != []
  {
    && (s.released ==> s.aborted || s.arrived == Target(s))
    && (s.arrived == Target(s) && !s.released ==> OwnerPc(s).Testing? || OwnerPc(s).Releasing?)
    && (forall t :: 0 <= t < |s.pcs| ==> FlagsRightAt(s, s.pcs[t]))
  }

  /** An abort leaves its thread behind. */
  ghost predicate AbortSeen(s: State) {
    s.aborted ==> exists t :: 0 <= t < |s.pcs| && HasMarked(s.pcs[t])
  }

  ghost predicate FlagsRightAt(s: State, pc: Pc)
    requires s.pcs != []
  {
    && (HasMarked(pc) ==> s.aborted)
    && (pc.Blocked? && s.released ==> OwnerPc(s).Waking? || OwnerPc(s).AbortWaking?)
    && (pc.Releasing? || pc.Waking? ==> s.arrived == Target(s))
    && (pc.Waking? || pc.AbortWaking? || pc.AbortLeaving? || pc.AbortDone? ==> s.released)
    && (pc.ReadingFlag? || pc.Leaving? || pc.Passed? || pc.Refused? ==> s.released)
    && (pc == Leaving(true) || pc.Refused? ==> s.aborted)
    && (pc == Leaving(false) || pc.Passed? ==> s.arrived == Target(s))
  }

  predicate PastLogin(pc: Pc) {
    HasArrived(pc) || pc.WantGate? || pc.Arriving?
  }

  /** Sessions past their login logged in; and all sessions had when the first keep-alive was written. */
  ghost predicate Recorded(s: State)
    requires s.pcs != []
  {
    && (forall t :: 0 <= t < Target(s) && PastLogin(s.pcs[t]) ==> LoggedIn(t) in s.log)
    && (forall k, t :: 0 <= k < |s.log| && s.log[k].Wrote? && 0 <= t < Target(s) ==> LoggedIn(t) in s.log[..k])
  }

  ghost predicate Inv(s: State) {
    InRole(s) && Exclusive(s) && Counted(s) && AbortSeen(s) && FlagsRight(s) && Recorded(s)
  }

  lemma {:induction false} FullCount(pcs: seq<Pc>, n: nat)
    requires n <= |pcs| && CountArrived(pcs, n) == n
    ensures forall t :: 0 <= t < n ==> HasArrived(pcs[t])
  {
    if n > 0 { FullCount(pcs, n - 1); }
  }

  lemma {:induction false} SameCount(pcs: seq<Pc>, pcs': seq<Pc>, n: nat)
    requires n <= |pcs| == |pcs'| && forall t :: 0 <= t < n ==> HasArrived(pcs[t]) == HasArrived(pcs'[t])
    ensures CountArrived(pcs, n) == CountArrived(pcs', n)
  {
    if n > 0 { SameCount(pcs, pcs', n - 1); }
  }

  lemma {:induction false} OneMore(pcs: seq<Pc>, t: nat, pc: Pc, n: nat)
    requires t < n <= |pcs| && !HasArrived(pcs[t]) && HasArrived(pc)
    ensures CountArrived(pcs[t := pc], n) == CountArrived(pcs, n) + 1
  {
    if t == n - 1 { SameCount(pcs, pcs[t := pc], n - 1); } else { OneMore(pcs, t, pc, n - 1); }
  }

  /** When all have arrived, no thread aborts: no session is left for it, and the starter has started them all. */
  lemma FullGateIsNotAborted(s: State)
    requires InRole(s) && Counted(s) && s.arrived == Target(s)
    ensures s.started == Target(s)
    ensures forall t :: 0 <= t < Target(s) ==> HasArrived(s.pcs[t])
    ensures forall t :: 0 <= t < |s.pcs| ==> !IsAborting(s.pcs[t])
  {
    FullCount(s.pcs, Target(s));
    var last := Target(s) - 1;
    assert HasArrived(s.pcs[last]) && RoleFits(Target(s), s.started, last, s.pcs[last]);
    assert RoleFits(Target(s), s.started, Target(s), s.pcs[Target(s)]);
  }

  // Every step keeps the invariant. Each part is kept by any move with a few local properties, and the moves that
  // threads can make have them.

  ghost predicate RoleMove(s: State, m: Move)
    requires |s.pcs| >= 2
  {
    && m.thread < |s.pcs| && m.started <= Target(s) && RoleFits(Target(s), m.started, m.thread, m.pc)
    && (m.started == s.started
        || (m.started == s.started + 1 && m.thread == s.started && s.pcs[Target(s)].Accepting?))
  }

  lemma RolesKept(s: State, m: Move)
    requires InRole(s) && RoleMove(s, m)
    ensures InRole(Apply(s, m))
  {
    var s' := Apply(s, m);
    forall t | 0 <= t < |s'.pcs| ensures RoleFits(Target(s'), s'.started, t, s'.pcs[t]) {
      assert RoleFits(Target(s), s.started, t, s.pcs[t]);
    }
  }

  ghost predicate MutexMove(s: State, m: Move) {
    && m.thread < |s.pcs| && (HoldsMutex(m.pc) <==> m.owner == Some(m.thread))
    && (m.owner == s.owner || (s.owner == None && m.owner == Some(m.thread))
        || (s.owner == Some(m.thread) && m.owner == None))
  }

  lemma ExclusionKept(s: State, m: Move)
    requires Exclusive(s) && MutexMove(s, m)
    ensures Exclusive(Apply(s, m))
  {
    var s' := Apply(s, m);
    forall t | 0 <= t < |s'.pcs| ensures HoldsMutex(s'.pcs[t]) <==> s'.owner == Some(t) {
      assert HoldsMutex(s.pcs[t]) <==> s.owner == Some(t);
    }
  }

  ghost predicate CountMove(s: State, m: Move)
    requires |s.pcs| >= 2
  {
    && m.thread < |s.pcs|
    && if m.arrived == s.arrived then HasArrived(m.pc) == HasArrived(s.pcs[m.thread])
       else m.arrived == s.arrived + 1 && m.thread < Target(s) && !HasArrived(s.pcs[m.thread]) && HasArrived(m.pc)
  }

  lemma CountKept(s: State, m: Move)
    requires |s.pcs| >= 2 && Counted(s) && CountMove(s, m)
    ensures Counted(Apply(s, m))
  {
    var s' := Apply(s, m);
    var moved := s.pcs[m.thread := m.pc];
    SameCount(moved, s'.pcs, Target(s));
    if m.arrived == s.arrived {
      SameCount(s.pcs, moved, Target(s));
    } else {
      OneMore(s.pcs, m.thread, m.pc, Target(s));
    }
  }

  ghost predicate AbortMove(s: State, m: Move) {
    && m.thread < |s.pcs| && (HasMarked(s.pcs[m.thread]) ==> HasMarked(m.pc))
    && (IsAborting(s.pcs[m.thread]) ==> IsAborting(m.pc))
    && (m.aborted ==> s.aborted || HasMarked(m.pc))
  }

  lemma AbortSeenKept(s: State, m: Move)
    requires AbortSeen(s) && AbortMove(s, m)
    ensures AbortSeen(Apply(s, m))
  {
    var s' := Apply(s, m);
    if s'.aborted {
      if s.aborted {
        var t :| 0 <= t < |s.pcs| && HasMarked(s.pcs[t]);
        assert HasMarked(s'.pcs[t]);
      } else {
        assert HasMarked(s'.pcs[m.thread]);
      }
    }
  }

  ghost predicate RecordMove(s: State, m: Move)
    requires |s.pcs| >= 2
  {
    && m.thread < |s.pcs| && s.log <= m.log && |m.log| <= |s.log| + 1
    && (PastLogin(m.pc) ==> m.thread == Target(s) || PastLogin(s.pcs[m.thread]) || LoggedIn(m.thread) in m.log)
    && (|m.log| > |s.log| && m.log[|s.log|].Wrote? ==> forall t :: 0 <= t < Target(s) ==> HasArrived(s.pcs[t]))
  }

  lemma RecordKept(s: State, m: Move)
    requires |s.pcs| >= 2 && Recorded(s) && RecordMove(s, m)
    ensures Recorded(Apply(s, m))
  {
    var s' := Apply(s, m);
    forall t | 0 <= t < Target(s') && PastLogin(s'.pcs[t]) ensures LoggedIn(t) in s'.log {
      assert PastLogin(s.pcs[t]) ==> LoggedIn(t) in s.log;
    }
    forall k, t | 0 <= k < |s'.log| && s'.log[k].Wrote? && 0 <= t < Target(s')
      ensures LoggedIn(t) in s'.log[..k]
    {
      if k < |s.log| {
        assert s'.log[..k] == s.log[..k] && s'.log[k] == s.log[k];
      } else {
        assert s'.log[..k] == s.log;
        assert HasArrived(s.pcs[t]) && PastLogin(s.pcs[t]);
      }
    }
  }

  ghost predicate FlagsMove(s: State, m: Move)
    requires |s.pcs| >= 2
  {
    && m.thread < |s.pcs|
    && (s.released ==> m.released) && (s.aborted ==> m.aborted)
    && (s.arrived == Target(s) ==> m.arrived == Target(s))
    && (m.released ==> s.released || m.aborted || m.arrived == Target(s))
    && (m.released && !s.released ==> (m.pc.Waking? || m.pc.AbortWaking?) && m.owner == Some(m.thread))
    && (s.pcs[m.thread].Waking? || s.pcs[m.thread].AbortWaking? ==> m.wakes)
    && (m.arrived == Target(s) && !m.released ==>
          if m.arrived != s.arrived || s.owner == Some(m.thread)
          then m.owner == Some(m.thread) && (m.pc.Testing? || m.pc.Releasing?)
          else m.owner == s.owner)
  }

  lemma FlagsKept(s: State, m: Move)
    requires |s.pcs| >= 2 && Exclusive(s) && FlagsRight(s)
    requires MutexMove(s, m) && FlagsMove(s, m) && FlagsRightAt(Apply(s, m), m.pc)
    ensures FlagsRight(Apply(s, m))
  {
    var s' := Apply(s, m);
    OwnerKept(s, m);
    forall t | 0 <= t < |s'.pcs| ensures FlagsRightAt(s', s'.pcs[t]) {
      assert FlagsRightAt(s, s.pcs[t]);
    }
  }

  lemma OwnerKept(s: State, m: Move)
    requires Exclusive(s) && MutexMove(s, m)
    ensures m.owner == Some(m.thread) ==> OwnerPc(Apply(s, m)) == m.pc
    ensures m.owner == s.owner && s.owner != Some(m.thread) ==> OwnerPc(Apply(s, m)) == OwnerPc(s)
  {
    if s.owner.Some? && s.owner.value < |s.pcs| { assert HoldsMutex(s.pcs[s.owner.value]); }
  }

  ghost predicate LocalMove(s: State, m: Move)
    requires |s.pcs| >= 2
  {
    && RoleMove(s, m) && MutexMove(s, m) && CountMove(s, m) && AbortMove(s, m) && RecordMove(s, m)
    && FlagsMove(s, m) && FlagsRightAt(Apply(s, m), m.pc)
  }

  /** What the invariant says about the thread that is about to move. */
  ghost predicate Before(s: State, t: nat)
    requires |s.pcs| >= 2 && t < |s.pcs|
  {
    && s.started <= Target(s) && RoleFits(Target(s), s.started, t, s.pcs[t])
    && (HoldsMutex(s.pcs[t]) <==> s.owner == Some(t))
    && FlagsRightAt(s, s.pcs[t])
    && (PastLogin(s.pcs[t]) && t < Target(s) ==> LoggedIn(t) in s.log)
    && (s.released ==> s.aborted || s.arrived == Target(s))
    && (s.arrived == Target(s) && !s.released ==> OwnerPc(s).Testing? || OwnerPc(s).Releasing?)
    && (s.arrived == Target(s) ==> (t < Target(s) ==> HasArrived(s.pcs[t])) && !IsAborting(s.pcs[t]))
    && (s.arrived == Target(s) ==> forall i :: 0 <= i < Target(s) ==> HasArrived(s.pcs[i]))
    && (s.started < Target(s) ==> s.pcs[s.started].NotStarted? && s.owner != Some(s.started))
  }

  lemma InvBefore(s: State, t: nat)
    requires Inv(s) && t < |s.pcs|
    ensures Before(s, t)
  {
    if s.arrived == Target(s) { FullGateIsNotAborted(s); }
    if s.started < Target(s) {
      assert RoleFits(Target(s), s.started, s.started, s.pcs[s.started]);
      assert HoldsMutex(s.pcs[s.started]) <==> s.owner == Some(s.started);
    }
    assert RoleFits(Target(s), s.started, t, s.pcs[t]) && FlagsRightAt(s, s.pcs[t]);
  }

  lemma LoginIsLocal(s: State, t: nat, m: Move)
    requires |s.pcs| >= 2 && t < |s.pcs| && Before(s, t) && CanStart(s, t, m) && s.pcs[t].LoggingIn?
    ensures LocalMove(s, m)
  {
  }

  lemma AcceptIsLocal(s: State, t: nat, m: Move)
    requires |s.pcs| >= 2 && t < |s.pcs| && Before(s, t) && CanStart(s, t, m) && s.pcs[t].Accepting?
    ensures LocalMove(s, m)
  {
  }

  lemma ArriveIsLocal(s: State, t: nat, m: Move)
    requires |s.pcs| >= 2 && t < |s.pcs| && Before(s, t) && CanArrive(s, t, m)
    requires s.pcs[t].WantGate? || s.pcs[t].Arriving? || s.pcs[t].Testing?
    ensures LocalMove(s, m)
  {
  }

  lemma ReleaseIsLocal(s: State, t: nat, m: Move)
    requires |s.pcs| >= 2 && t < |s.pcs| && Before(s, t) && CanArrive(s, t, m)
    requires s.pcs[t].Releasing? || s.pcs[t].Waking?
    ensures LocalMove(s, m)
  {
  }

  lemma WaitIsLocal(s: State, t: nat, m: Move)
    requires |s.pcs| >= 2 && t < |s.pcs| && Before(s, t) && CanWait(s, t, m)
    ensures LocalMove(s, m)
  {
  }

  lemma ExitIsLocal(s: State, t: nat, m: Move)
    requires |s.pcs| >= 2 && t < |s.pcs| && Before(s, t) && CanExit(s, t, m)
    ensures LocalMove(s, m)
  {
  }

  lemma AbortIsLocal(s: State, t: nat, m: Move)
    requires |s.pcs| >= 2 && t < |s.pcs| && Before(s, t) && CanAbort(s, t, m)
    requires s.pcs[t].WantAbort? || s.pcs[t].SettingAborted? || s.pcs[t].SettingReleased?
    ensures LocalMove(s, m)
  {
  }

  lemma AbortEndIsLocal(s: State, t: nat, m: Move)
    requires |s.pcs| >= 2 && t < |s.pcs| && Before(s, t) && CanAbort(s, t, m)
    requires s.pcs[t].AbortWaking? || s.pcs[t].AbortLeaving?
    ensures LocalMove(s, m)
  {
  }

  lemma StepIsLocal(s: State, t: nat, m: Move)
    requires Inv(s) && Can(s, t, m)
    ensures LocalMove(s, m)
  {
    InvBefore(s, t);
    if CanStart(s, t, m) { if s.pcs[t].Accepting? { AcceptIsLocal(s, t, m); } else { LoginIsLocal(s, t, m); } }
    else if CanArrive(s, t, m) {
      if s.pcs[t].Releasing? || s.pcs[t].Waking? { ReleaseIsLocal(s, t, m); } else { ArriveIsLocal(s, t, m); }
    }
    else if CanWait(s, t, m) { WaitIsLocal(s, t, m); }
    else if CanExit(s, t, m) { ExitIsLocal(s, t, m); }
    else if s.pcs[t].AbortWaking? || s.pcs[t].AbortLeaving? { AbortEndIsLocal(s, t, m); }
    else { AbortIsLocal(s, t, m); }
  }

  lemma StepKeepsInv(s: State, t: nat, m: Move)
    requires Inv(s) && Can(s, t, m)
    ensures Inv(Apply(s, m))
  {
    StepIsLocal(s, t, m);
    RolesKept(s, m);
    ExclusionKept(s, m);
    CountKept(s, m);
    AbortSeenKept(s, m);
    RecordKept(s, m);
    FlagsKept(s, m);
  }

  // Runs.

  ghost predicate Next(s: State, s': State) {
    exists t, m :: Can(s, t, m) && s' == Apply(s, m)
  }

  ghost predicate IsRun(run: seq<State>) {
    && run != [] && Init(run[0])
    && forall k :: 0 <= k < |run| - 1 ==> StepAt(run, k)
  }

  ghost predicate StepAt(run: seq<State>, k: nat) {
    k < |run| - 1 && Next(run[k], run[k + 1])
  }

  lemma InitInv(s: State)
    requires Init(s)
    ensures Inv(s)
  {
    NoneArrived(s.pcs, Target(s));
  }

  lemma {:induction false} NoneArrived(pcs: seq<Pc>, n: nat)
    requires n <= |pcs| && forall t :: 0 <= t < n ==> !HasArrived(pcs[t])
    ensures CountArrived(pcs, n) == 0
  {
    if n > 0 { NoneArrived(pcs, n - 1); }
  }

  lemma NextKeepsInv(s: State, s': State)
    requires Inv(s) && Next(s, s')
    ensures Inv(s') && |s'.pcs| == |s.pcs|
  {
    var t, m :| Can(s, t, m) && s' == Apply(s, m);
    StepKeepsInv(s, t, m);
  }

  lemma {:induction false} RunInv(run: seq<State>, k: nat)
    requires IsRun(run) && k < |run|
    ensures Inv(run[k]) && |run[k].pcs| == |run[0].pcs|
  {
    if k == 0 {
      InitInv(run[0]);
    } else {
      RunInv(run, k - 1);
      assert StepAt(run, k - 1);
      NextKeepsInv(run[k - 1], run[k]);
    }
  }

  lemma FlagsStay(run: seq<State>, k: nat)
    requires IsRun(run) && k < |run| - 1
    ensures |run[k].pcs| >= 2 && |run[k + 1].pcs| == |run[k].pcs|
    ensures run[k].aborted ==> run[k + 1].aborted
    ensures run[k].arrived == Target(run[k]) ==> run[k + 1].arrived == Target(run[k + 1])
  {
    var s := run[k];
    RunInv(run, k);
    assert StepAt(run, k);
    var t, m :| Can(s, t, m) && run[k + 1] == Apply(s, m);
    assert FlagsMove(s, m) by { StepIsLocal(s, t, m); }
  }

  /** An abort is final, and so is a full gate. */
  lemma {:induction false} FlagsLast(run: seq<State>, k: nat, l: nat)
    requires IsRun(run) && k <= l < |run|
    ensures |run[k].pcs| >= 2 && |run[l].pcs| == |run[k].pcs|
    ensures run[k].aborted ==> run[l].aborted
    ensures run[k].arrived == Target(run[k]) ==> run[l].arrived == Target(run[l])
  {
    RunInv(run, k);
    if k < l {
      FlagsLast(run, k, l - 1);
      FlagsStay(run, l - 1);
    }
  }

  lemma AbortingStays(run: seq<State>, k: nat, j: nat)
    requires IsRun(run) && k < |run| - 1 && j < |run[k].pcs| && IsAborting(run[k].pcs[j])
    ensures j < |run[k + 1].pcs| && IsAborting(run[k + 1].pcs[j])
  {
    var s := run[k];
    RunInv(run, k);
    assert StepAt(run, k);
    var t, m :| Can(s, t, m) && run[k + 1] == Apply(s, m);
    assert AbortMove(s, m) by { StepIsLocal(s, t, m); }
    assert !s.pcs[j].Blocked?;
  }

  /** A thread that has begun to abort never arrives. */
  lemma {:induction false} AbortingLasts(run: seq<State>, k: nat, l: nat, j: nat)
    requires IsRun(run) && k <= l < |run| && j < |run[k].pcs| && IsAborting(run[k].pcs[j])
    ensures j < |run[l].pcs| && IsAborting(run[l].pcs[j])
  {
    if k < l {
      AbortingLasts(run, k, l - 1, j);
      AbortingStays(run, l - 1, j);
    }
  }

  /** All or nothing: in every interleaving, with spurious wakeups, failing logins and a failing accept, if gate_wait
    * returns 0 in one session at any time then it returns -1 in no session at any time, and no thread ever begins to
    * abort. */
  lemma AllOrNothing(run: seq<State>, k: nat, i: nat, l: nat, j: nat)
    requires IsRun(run) && k < |run| && l < |run| && i < |run[k].pcs| && j < |run[l].pcs|
    requires run[k].pcs[i].Passed?
    ensures !run[l].pcs[j].Refused? && !IsAborting(run[l].pcs[j]) && !run[l].aborted
  {
    RunInv(run, k);
    RunInv(run, l);
    assert FlagsRightAt(run[k], run[k].pcs[i]) && FlagsRightAt(run[l], run[l].pcs[j]);
    FullGateIsNotAborted(run[k]);
    assert !run[k].aborted;
    if l <= k {
      FlagsLast(run, l, k);
      if IsAborting(run[l].pcs[j]) { AbortingLasts(run, l, k, j); }
    } else {
      FlagsLast(run, k, l);
      FullGateIsNotAborted(run[l]);
    }
  }

  /** No session writes a keep-alive before every session has logged in. */
  lemma WritesFollowLogins(run: seq<State>, k: nat, w: nat, t: nat)
    requires IsRun(run) && k < |run| && w < |run[k].log| && run[k].log[w].Wrote? && t < |run[0].pcs| - 1
    ensures LoggedIn(t) in run[k].log[..w]
  {
    RunInv(run, k);
  }

  // Progress.

  /** The starter has started all it will, and the sessions it started have arrived or aborted. */
  ghost predicate Settled(s: State)
    requires s.pcs != []
  {
    && (s.pcs[Target(s)].Joining? || s.pcs[Target(s)].AbortDone?)
    && forall t :: 0 <= t < Target(s) ==>
         s.pcs[t].NotStarted? || HasArrived(s.pcs[t]) || s.pcs[t].AbortDone?
  }

  /** No wakeup is lost: once the gate is settled and the mutex is free, it is released and nobody is in the wait
    * set, whichever of the last arrival and an abort came first. */
  lemma SettledGateIsOpen(s: State)
    requires Inv(s) && Settled(s) && s.owner.None?
    ensures s.released && forall t :: 0 <= t < |s.pcs| ==> !s.pcs[t].Blocked?
  {
    var n := Target(s);
    assert RoleFits(n, s.started, n, s.pcs[n]);
    assert forall t :: 0 <= t < |s.pcs| ==> FlagsRightAt(s, s.pcs[t]);
    if s.arrived != n && !s.released {
      assert s.started == n;
      forall t | 0 <= t < n ensures HasArrived(s.pcs[t]) {
        assert RoleFits(n, s.started, t, s.pcs[t]);
      }
      CountAll(s.pcs, n);
    }
  }

  lemma {:induction false} CountAll(pcs: seq<Pc>, n: nat)
    requires n <= |pcs| && forall t :: 0 <= t < n ==> HasArrived(pcs[t])
    ensures CountArrived(pcs, n) == n
  {
    if n > 0 { CountAll(pcs, n - 1); }
  }

  /** The threads have nothing left to do but exchange messages. */
  predicate Finished(s: State)
    requires s.pcs != []
  {
    && (s.pcs[Target(s)].Joining? || s.pcs[Target(s)].AbortDone?)
    && forall t :: 0 <= t < Target(s) ==>
         s.pcs[t].NotStarted? || s.pcs[t].Passed? || s.pcs[t].Refused? || s.pcs[t].AbortDone?
  }

  /** The step a thread takes when it does not fail and is not woken for nothing. */
  function Proceed(s: State, t: nat): Move
    requires t < |s.pcs|
  {
    match s.pcs[t]
    case LoggingIn => Go(s, t, WantGate).(log := s.log + [LoggedIn(t)])
    case WantGate => Lock(s, t, Arriving)
    case Arriving => Go(s, t, Testing).(arrived := s.arrived + 1)
    case Testing => Go(s, t, if s.arrived == Target(s) then Releasing else Checking)
    case Releasing => Go(s, t, Waking).(released := true)
    case Waking => Go(s, t, Checking).(wakes := true)
    case Checking | Rechecking => if s.released then Go(s, t, ReadingFlag) else Unlock(s, t, Blocked)
    case Woken => Lock(s, t, Rechecking)
    case ReadingFlag => Go(s, t, Leaving(s.aborted))
    case Leaving(flag) => Unlock(s, t, if flag then Refused else Passed)
    case WantAbort => Lock(s, t, SettingAborted)
    case SettingAborted => Go(s, t, SettingReleased).(aborted := true)
    case SettingReleased => Go(s, t, AbortWaking).(released := true)
    case AbortWaking => Go(s, t, AbortLeaving).(wakes := true)
    case AbortLeaving => Unlock(s, t, AbortDone)
    case Accepting =>
      if s.started < Target(s) then Go(s, s.started, LoggingIn).(started := s.started + 1) else Go(s, t, Joining)
    case _ => Go(s, t, s.pcs[t])
  }

  /** A thread that waits for nothing but, perhaps, a free mutex. */
  predicate IsActive(pc: Pc) {
    !(pc.NotStarted? || pc.Blocked? || pc.Passed? || pc.Refused? || pc.AbortDone? || pc.Joining?)
  }

  predicate NeedsMutex(pc: Pc) {
    pc.WantGate? || pc.Woken? || pc.WantAbort?
  }

  lemma ActiveCanProceed(s: State, t: nat)
    requires |s.pcs| >= 2 && t < |s.pcs| && IsActive(s.pcs[t]) && (NeedsMutex(s.pcs[t]) ==> s.owner.None?)
    ensures Can(s, t, Proceed(s, t))
  {
  }

  lemma IdleIsFinished(s: State)
    requires Inv(s) && s.owner.None? && forall t :: 0 <= t < |s.pcs| ==> !IsActive(s.pcs[t])
    ensures Finished(s)
  {
    var n := Target(s);
    forall t | 0 <= t < |s.pcs| ensures RoleFits(n, s.started, t, s.pcs[t]) && !IsActive(s.pcs[t]) {}
    assert Settled(s);
    SettledGateIsOpen(s);
  }

  /** No deadlock: until all is finished, some thread can take a step that is no spurious wakeup and no message. */
  lemma SomeThreadProceeds(s: State) returns (t: nat)
    requires Inv(s) && !Finished(s)
    ensures t < |s.pcs| && IsActive(s.pcs[t]) && Can(s, t, Proceed(s, t))
  {
    if s.owner.Some? {
      t := s.owner.value;
      assert HoldsMutex(s.pcs[t]);
    } else if u :| 0 <= u < |s.pcs| && IsActive(s.pcs[u]) {
      t := u;
    } else {
      IdleIsFinished(s);
      assert false;
    }
    ActiveCanProceed(s, t);
  }

  /** How it ends: all sessions may exchange messages, or none. */
  lemma FinishedOutcome(s: State)
    requires Inv(s) && Finished(s)
    ensures (forall t :: 0 <= t < Target(s) ==> s.pcs[t].Passed?)
         || (forall t :: 0 <= t < Target(s) ==> !s.pcs[t].Passed?)
    ensures (forall t :: 0 <= t < Target(s) ==> s.pcs[t].Passed?) <==> !s.aborted
  {
    var n := Target(s);
    assert forall t :: 0 <= t < |s.pcs| ==> FlagsRightAt(s, s.pcs[t]);
    if s.arrived == n {
      FullGateIsNotAborted(s);
    } else if s.owner.None? {
      SettledGateIsOpen(s);
    } else {
      assert HoldsMutex(s.pcs[s.owner.value]);
    }
  }

  // Termination: with finitely many spurious wakeups, every run comes to its end.

  /** How many steps a thread has before it, when no wait ends without a wakeup. A thread that is awake although the
    * gate is closed will wait again. */
  function Weight(pc: Pc, released: bool): nat {
    match pc
    case NotStarted => 31
    case LoggingIn => 30
    case WantGate => 29
    case Arriving => 28
    case Testing => 27
    case Releasing => 26
    case Waking => 25
    case Checking => 24
    case Blocked => 20
    case Woken => if released then 19 else 23
    case Rechecking => if released then 18 else 22
    case ReadingFlag => 10
    case Leaving(_) => 9
    case Accepting => 9
    case WantAbort => 8
    case SettingAborted => 7
    case SettingReleased => 6
    case AbortWaking => 5
    case AbortLeaving => 4
    case _ => 0
  }

  function TotalWeight(pcs: seq<Pc>, released: bool, n: nat): nat
    requires n <= |pcs|
  {
    if n == 0 then 0 else TotalWeight(pcs, released, n - 1) + Weight(pcs[n - 1], released)
  }

  lemma {:induction false} TotalWeightBy(s: State, m: Move, n: nat)
    requires n <= |s.pcs| && m.thread < |s.pcs| && (s.released ==> m.released) && (m.wakes ==> m.released)
    ensures TotalWeight(Apply(s, m).pcs, m.released, n)
         <= TotalWeight(s.pcs, s.released, n)
            + if m.thread < n then Weight(m.pc, m.released) - Weight(s.pcs[m.thread], s.released) else 0
  {
    if n > 0 {
      TotalWeightBy(s, m, n - 1);
      LighterBy(s, m, n - 1);
    }
  }

  lemma LighterBy(s: State, m: Move, t: nat)
    requires t < |s.pcs| && (s.released ==> m.released) && (m.wakes ==> m.released)
    ensures t != m.thread ==> Weight(Apply(s, m).pcs[t], m.released) <= Weight(s.pcs[t], s.released)
  {
  }

  /** Every step makes its thread lighter, but for a message, and for a spurious wakeup that may add three. */
  ghost predicate Lighter(s: State, t: nat, m: Move)
    requires t < |s.pcs|
  {
    && m.thread < |s.pcs| && (m.wakes ==> m.released)
    && Weight(m.pc, m.released) <= Weight(s.pcs[m.thread], s.released) + if s.pcs[t].Blocked? then 3 else -1
  }

  lemma OutsideIsLighter(s: State, t: nat, m: Move)
    requires |s.pcs| >= 2 && t < |s.pcs| && Before(s, t) && (CanStart(s, t, m) || CanAbort(s, t, m))
    ensures Lighter(s, t, m)
  {
  }

  lemma InsideIsLighter(s: State, t: nat, m: Move)
    requires |s.pcs| >= 2 && t < |s.pcs| && Before(s, t) && (CanArrive(s, t, m) || CanWait(s, t, m) || CanExit(s, t, m))
    requires !s.pcs[t].Passed?
    ensures Lighter(s, t, m)
  {
  }

  /** A run without messages, and the thread that took each step. */
  ghost predicate IsTrace(run: seq<State>, movers: seq<nat>) {
    && |run| == |movers| + 1 && IsRun(run)
    && forall k :: 0 <= k < |movers| ==> MovedAt(run, movers, k)
  }

  ghost predicate MovedAt(run: seq<State>, movers: seq<nat>, k: nat) {
    && k < |movers| && k + 1 < |run| && movers[k] < |run[k].pcs| && !run[k].pcs[movers[k]].Passed?
    && exists m :: Can(run[k], movers[k], m) && run[k + 1] == Apply(run[k], m)
  }

  /** Whether step `k` was a wait that ended without a wakeup. */
  predicate IsSpurious(run: seq<State>, movers: seq<nat>, k: nat)
    requires k < |movers| && k < |run|
  {
    movers[k] < |run[k].pcs| && run[k].pcs[movers[k]].Blocked?
  }

  function SpuriousWakeups(run: seq<State>, movers: seq<nat>, n: nat): nat
    requires n <= |movers| && n <= |run|
  {
    if n == 0 then 0 else SpuriousWakeups(run, movers, n - 1) + if IsSpurious(run, movers, n - 1) then 1 else 0
  }

  lemma StepTotal(run: seq<State>, movers: seq<nat>, k: nat)
    requires IsTrace(run, movers) && k < |movers|
    ensures |run[k].pcs| == |run[k + 1].pcs| == |run[0].pcs|
    ensures var n := |run[0].pcs|;
            TotalWeight(run[k + 1].pcs, run[k + 1].released, n)
            <= TotalWeight(run[k].pcs, run[k].released, n) + if IsSpurious(run, movers, k) then 3 else -1
  {
    var s, t := run[k], movers[k];
    RunInv(run, k);
    assert MovedAt(run, movers, k);
    var m :| Can(s, t, m) && run[k + 1] == Apply(s, m);
    InvBefore(s, t);
    if CanStart(s, t, m) || CanAbort(s, t, m) { OutsideIsLighter(s, t, m); } else { InsideIsLighter(s, t, m); }
    assert FlagsMove(s, m) by { StepIsLocal(s, t, m); }
    TotalWeightBy(s, m, |s.pcs|);
  }

  /** With n sessions and w spurious wakeups, a run takes at most 31 * n + 9 + 4 * w steps besides messages. */
  lemma {:induction false} RunsAreBounded(run: seq<State>, movers: seq<nat>, k: nat)
    requires IsTrace(run, movers) && k <= |movers|
    ensures var n := |run[0].pcs|;
            |run[k].pcs| == n
            && k + TotalWeight(run[k].pcs, run[k].released, n) <= 31 * (n - 1) + 9 + 4 * SpuriousWakeups(run, movers, k)
  {
    if k == 0 {
      InitWeight(run[0].pcs, run[0].released, |run[0].pcs| - 1);
    } else {
      RunsAreBounded(run, movers, k - 1);
      StepTotal(run, movers, k - 1);
    }
  }

  lemma {:induction false} InitWeight(pcs: seq<Pc>, released: bool, n: nat)
    requires n <= |pcs| && forall t :: 0 <= t < n ==> pcs[t].NotStarted?
    ensures TotalWeight(pcs, released, n) == 31 * n
  {
    if n > 0 { InitWeight(pcs, released, n - 1); }
  }
}
