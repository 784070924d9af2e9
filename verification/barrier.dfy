/** timer.c as a transition system: any number of devices, the timer thread and the final
    stop_timer of main. A move is one lock region, one wakeup or one shared read or write;
    mutexes and condition variables behave as POSIX says, spurious wakeups included.
    `slots` is a history counter: how often the device has entered next_slot. */
module Barrier {
  import opened Arith

  /** Where a device's thread stands: outside next_slot; in next_slot, holding or about to
      take timer_lock to test `done`; asleep on timer_cond; or past detach_event. */
  datatype DevicePc = Out | Testing | Asleep(signalled: bool) | Gone

  datatype Device = Device(done: bool, fsh: bool, pc: DevicePc, slots: nat)

  /** Where timer_routine stands: at its loop test, about to test device k of the first
      loop, asleep on device k's event_cond, about to release device k, or finished. */
  datatype TimerPc = Top | Collect(k: nat) | Sleep(k: nat, signalled: bool) | Release(k: nat) | Exited

  datatype State = State(devs: seq<Device>, timer: TimerPc, time: nat, fsh: nat, event: nat, stop: bool)

  datatype Move =
    | Post(d: nat)       // next_slot: done = 1, signal event_cond
    | Test(d: nat)       // next_slot: while (done) pthread_cond_wait
    | Wake(d: nat)       // a signalled device wakes
    | SpuriousWake(d: nat)
    | Detach(d: nat)     // detach_event
    | Timer              // the next action of timer_routine; asleep, it needs a signal
    | SpuriousTimer
    | Stop               // stop_timer, after every thread was joined

  function Init(n: nat): (r: State) {
    State(seq(n, _ => Device(false, false, Out, 0)), Top, 0, 0, 0, false)
  }

  predicate AllGone(s: State) {
    forall d :: 0 <= d < |s.devs| ==> s.devs[d].pc == Gone
  }

  predicate Enabled(s: State, m: Move) {
    match m
    case Post(d) => d < |s.devs| && s.devs[d].pc == Out
    case Test(d) => d < |s.devs| && s.devs[d].pc == Testing
    case Wake(d) => d < |s.devs| && s.devs[d].pc == Asleep(true)
    case SpuriousWake(d) => d < |s.devs| && s.devs[d].pc.Asleep?
    case Detach(d) => d < |s.devs| && s.devs[d].pc == Out
    case Timer =>
      match s.timer {
        case Top => true
        case Collect(k) => k <= |s.devs|
        case Sleep(_, signalled) => signalled
        case Release(k) => k <= |s.devs|
        case Exited => false
      }
    case SpuriousTimer => s.timer.Sleep?
    case Stop => AllGone(s) && !s.stop
  }

  /** pthread_cond_signal on device d's event_cond. */
  function SignalTimer(t: TimerPc, d: nat): (r: TimerPc) {
    if t.Sleep? && t.k == d then Sleep(d, true) else t
  }

  function SetDevice(s: State, d: nat, dev: Device): (r: State)
    requires d < |s.devs|
  {
    s.(devs := s.devs[d := dev])
  }

  function TimerMove(s: State): (r: State)
    requires Enabled(s, Timer)
  {
    match s.timer
    case Top =>
      if s.stop then s.(timer := Exited) else s.(timer := Collect(0), fsh := 0, event := 0)
    case Collect(k) =>
      if k == |s.devs| then
        s.(timer := Release(0), time := s.time + 1)
      else if s.devs[k].done || s.devs[k].fsh then
        s.(timer := Collect(k + 1), event := s.event + 1, fsh := s.fsh + if s.devs[k].fsh then 1 else 0)
      else
        s.(timer := Sleep(k, false))
    case Sleep(k, _) => s.(timer := Collect(k))
    case Release(k) =>
      if k < |s.devs| then
        var dev := s.devs[k];
        var pc := if dev.pc.Asleep? then Asleep(true) else dev.pc;
        SetDevice(s, k, dev.(done := false, pc := pc)).(timer := Release(k + 1))
      else
        s.(timer := if s.fsh == s.event then Exited else Top)
  }

  function Apply(s: State, m: Move): (r: State)
    requires Enabled(s, m)
  {
    match m
    case Post(d) =>
      var dev := s.devs[d];
      SetDevice(s, d, dev.(done := true, pc := Testing, slots := dev.slots + 1))
        .(timer := SignalTimer(s.timer, d))
    case Test(d) =>
      SetDevice(s, d, s.devs[d].(pc := if s.devs[d].done then Asleep(false) else Out))
    case Wake(d) => SetDevice(s, d, s.devs[d].(pc := Testing))
    case SpuriousWake(d) => SetDevice(s, d, s.devs[d].(pc := Testing))
    case Detach(d) =>
      SetDevice(s, d, s.devs[d].(fsh := true, pc := Gone)).(timer := SignalTimer(s.timer, d))
    case Timer => TimerMove(s)
    case SpuriousTimer => s.(timer := Collect(s.timer.k))
    case Stop => s.(stop := true)
  }

  // ---- The invariant -------------------------------------------------------------------

  /** Device d was collected in the round just ticked and is still to be released. */
  predicate Awaiting(s: State, d: nat) {
    s.timer.Release? && s.timer.k <= d
  }

  /** Device d was already collected in this round. */
  predicate Collected(s: State, d: nat) {
    (s.timer.Collect? || s.timer.Sleep?) && d < s.timer.k
  }

  predicate DeviceInv(s: State, d: nat)
    requires d < |s.devs|
  {
    var dev := s.devs[d];
    && (dev.fsh <==> dev.pc == Gone)
    && (dev.pc == Out || dev.pc == Gone ==> !dev.done)
    && (dev.pc.Asleep? ==> (dev.pc.signalled <==> !dev.done))
    && (if dev.pc == Gone then dev.slots <= s.time
        else if Awaiting(s, d) then dev.done && dev.slots == s.time
        else dev.slots == s.time + if dev.done then 1 else 0)
    && (Collected(s, d) ==> dev.done || dev.fsh)
  }

  predicate TimerInv(s: State) {
    && (match s.timer
        case Top => true
        case Collect(k) => k <= |s.devs| && s.event == k
        case Sleep(k, signalled) => k < |s.devs| && s.event == k && (signalled <==> s.devs[k].done || s.devs[k].fsh)
        case Release(k) => k <= |s.devs| && s.event == |s.devs|
        case Exited => AllGone(s))
    && s.fsh <= s.event
    && (s.fsh == s.event <= |s.devs| ==> forall d :: 0 <= d < s.event ==> s.devs[d].pc == Gone)
    && (s.stop ==> AllGone(s))
  }

  predicate Inv(s: State) {
    && (forall d :: 0 <= d < |s.devs| ==> DeviceInv(s, d))
    && TimerInv(s)
  }

  lemma InitInv(n: nat)
    ensures Inv(Init(n))
  {
  }

  lemma MoveInv(s: State, m: Move)
    requires Inv(s) && Enabled(s, m)
    ensures Inv(Apply(s, m)) && |Apply(s, m).devs| == |s.devs|
  {
    hide DeviceInv, TimerInv, Apply, Enabled;
    GoneStaysGone(s, m);
    forall d | 0 <= d < |s.devs|
      ensures DeviceInv(Apply(s, m), d)
    {
      DeviceMoveInv(s, m, d);
    }
    TimerMoveInv(s, m);
  }

  lemma DeviceMoveInv(s: State, m: Move, d: nat)
    requires Inv(s) && Enabled(s, m) && d < |s.devs|
    ensures |Apply(s, m).devs| == |s.devs| && DeviceInv(Apply(s, m), d)
  {
    assert DeviceInv(s, d);
  }

  lemma TimerMoveInv(s: State, m: Move)
    requires Inv(s) && Enabled(s, m)
    ensures TimerInv(Apply(s, m))
  {
    hide DeviceInv;
    GoneStaysGone(s, m);
    FshMeansGone(s);
  }

  lemma FshMeansGone(s: State)
    requires Inv(s)
    ensures forall d :: 0 <= d < |s.devs| ==> (s.devs[d].fsh <==> s.devs[d].pc == Gone)
  {
    forall d | 0 <= d < |s.devs|
      ensures s.devs[d].fsh <==> s.devs[d].pc == Gone
    {
      assert DeviceInv(s, d);
    }
  }

  lemma GoneStaysGone(s: State, m: Move)
    requires Enabled(s, m)
    ensures |Apply(s, m).devs| == |s.devs|
    ensures forall d :: 0 <= d < |s.devs| && s.devs[d].pc == Gone ==> Apply(s, m).devs[d].pc == Gone
  {
  }

  // ---- Runs ----------------------------------------------------------------------------

  ghost predicate IsRun(s: State, moves: seq<Move>)
    decreases |moves|
  {
    moves == [] || (Enabled(s, moves[0]) && IsRun(Apply(s, moves[0]), moves[1..]))
  }

  ghost function End(s: State, moves: seq<Move>): (t: State)
    requires IsRun(s, moves)
    ensures |t.devs| == |s.devs|
    decreases |moves|
  {
    if moves == [] then s else End(Apply(s, moves[0]), moves[1..])
  }

  lemma {:induction false} RunInv(s: State, moves: seq<Move>)
    requires Inv(s) && IsRun(s, moves)
    ensures Inv(End(s, moves)) && |End(s, moves).devs| == |s.devs|
    decreases |moves|
  {
    if moves == [] {
    } else {
      MoveInv(s, moves[0]);
      RunInv(Apply(s, moves[0]), moves[1..]);
    }
  }

  // ---- What it gives -------------------------------------------------------------------

  /** Lock-step: two devices that have not detached differ by at most one slot. */
  lemma LockStep(s: State, d: nat, e: nat)
    requires Inv(s) && d < |s.devs| && e < |s.devs|
    requires s.devs[d].pc != Gone && s.devs[e].pc != Gone
    ensures -1 <= s.devs[d].slots - s.devs[e].slots <= 1
  {
    assert DeviceInv(s, d) && DeviceInv(s, e);
  }

  /** Every run from the start, whatever the threads, the scheduler and the wakeups do, keeps
      undetached devices within one slot of each other and of the clock. */
  lemma EveryRunIsInLockStep(n: nat, moves: seq<Move>, d: nat, e: nat)
    requires IsRun(Init(n), moves) && d < n && e < n
    requires End(Init(n), moves).devs[d].pc != Gone && End(Init(n), moves).devs[e].pc != Gone
    ensures var s := End(Init(n), moves);
      -1 <= s.devs[d].slots - s.devs[e].slots <= 1 && s.time <= s.devs[d].slots <= s.time + 1
  {
    RunInv(Init(n), moves);
    var s := End(Init(n), moves);
    LockStep(s, d, e);
    assert DeviceInv(s, d);
  }

  /** A device outside next_slot sees a clock that equals its own slot count, and no move of
      anyone can tick while it stays there. */
  lemma ClockStandsStill(s: State, d: nat, m: Move)
    requires Inv(s) && d < |s.devs| && s.devs[d].pc == Out && Enabled(s, m)
    ensures s.devs[d].slots == s.time
    ensures Apply(s, m).time == s.time
  {
    assert DeviceInv(s, d);
  }

  /** `done` is written under two different locks, but never with both writers ready: the
      timer clears it only of a device that is inside next_slot or gone. */
  lemma WritersOfDoneExclude(s: State, d: nat)
    requires Inv(s) && d < |s.devs| && s.timer == Release(d)
    ensures !Enabled(s, Post(d))
    ensures s.devs[d].pc != Gone ==> s.devs[d].done
  {
    assert DeviceInv(s, d);
  }

  /** No lost wakeup: whoever sleeps although its predicate already holds has its signal. */
  lemma NoLostWakeup(s: State)
    requires Inv(s)
    ensures forall d :: 0 <= d < |s.devs| && s.devs[d].pc.Asleep? && !s.devs[d].done ==> Enabled(s, Wake(d))
    ensures s.timer.Sleep? && (s.devs[s.timer.k].done || s.devs[s.timer.k].fsh) ==> Enabled(s, Timer)
  {
    forall d | 0 <= d < |s.devs| && s.devs[d].pc.Asleep? && !s.devs[d].done
      ensures Enabled(s, Wake(d))
    {
      assert DeviceInv(s, d);
    }
  }

  predicate Spurious(m: Move) { m.SpuriousWake? || m.SpuriousTimer? }

  /** No deadlock: until the timer exits, some device is outside next_slot (so its own
      program goes on) or a move of the barrier that needs no spurious wakeup is enabled. */
  lemma NoDeadlock(s: State) returns (m: Move)
    requires Inv(s) && s.timer != Exited
    ensures Enabled(s, m) && !Spurious(m) && m != Stop && !m.Detach?
    ensures m.Post? ==> s.timer == Sleep(m.d, false)
  {
    if Enabled(s, Timer) {
      m := Timer;
    } else {
      var k := s.timer.k;
      assert DeviceInv(s, k);
      m := match s.devs[k].pc case Out => Post(k) case Testing => Test(k) case Asleep(_) => Wake(k) case Gone => Timer;
    }
  }

  /** The timer exits only when no device is left waiting. */
  lemma ExitLeavesNobody(s: State)
    requires Inv(s) && s.timer != Exited && Enabled(s, Timer) && Apply(s, Timer).timer == Exited
    ensures AllGone(s)
  {
    MoveInv(s, Timer);
    assert forall d :: 0 <= d < |s.devs| ==> Apply(s, Timer).devs[d].pc == Gone ==> s.devs[d].pc == Gone;
  }

  // ---- After the last detach -----------------------------------------------------------

  /** Timer moves still to come once every device has detached: the running round, and one
      more if some device of it was collected before it detached. */
  function Left(s: State): (r: nat)
    requires Inv(s)
  {
    var n := |s.devs|;
    var again := if s.fsh < s.event then 2 * n + 3 else 0;
    match s.timer
    case Top => 2 * n + 3
    case Collect(k) => 2 * n - k + 2 + again
    case Sleep(k, _) => 2 * n - k + 3 + again
    case Release(k) => n - k + 1 + again
    case Exited => 0
  }

  /** Ticks still to come then. */
  function TicksLeft(s: State): (r: nat) {
    match s.timer
    case Exited => 0
    case Top => 1
    case Release(_) => if s.fsh < s.event then 1 else 0
    case _ => if s.fsh < s.event then 2 else 1
  }

  lemma GoneMoves(s: State, m: Move)
    requires AllGone(s) && Enabled(s, m)
    ensures m in {Stop, Timer, SpuriousTimer} && AllGone(Apply(s, m))
  {
    GoneStaysGone(s, m);
  }

  lemma LastRoundsStep(s: State, m: Move)
    requires Inv(s) && AllGone(s) && Enabled(s, m)
    ensures Inv(Apply(s, m)) && AllGone(Apply(s, m))
    ensures m in {Stop, Timer, SpuriousTimer}
    ensures m != Stop ==> Left(Apply(s, m)) < Left(s) && Apply(s, m).stop == s.stop
    ensures m == Stop ==> Left(Apply(s, m)) == Left(s) && Apply(s, m).stop && !s.stop
    ensures s.time <= Apply(s, m).time
    ensures Apply(s, m).time + TicksLeft(Apply(s, m)) <= s.time + TicksLeft(s)
  {
    hide DeviceInv, AllGone;
    MoveInv(s, m);
    GoneMoves(s, m);
    FshMeansGone(s);
  }

  lemma RoundStep(s: State, m: Move)
    requires Inv(s) && AllGone(s) && Enabled(s, m) && m != Stop && !s.stop
    ensures Inv(Apply(s, m)) && Left(Apply(s, m)) == Left(s) - 1
    ensures Apply(s, m).time + TicksLeft(Apply(s, m)) == s.time + TicksLeft(s)
  {
    hide DeviceInv, AllGone;
    MoveInv(s, m);
    GoneMoves(s, m);
    FshMeansGone(s);
  }

  /** Once the last device has detached, whatever is scheduled, at most Left(s) + 1 moves and
      two ticks remain; by NoDeadlock a run that cannot be extended has the timer exited. Once
      stop_timer was called too no round begins: the timer ends the one it is in. */
  lemma TimerExitsSoon(s: State, moves: seq<Move>)
    requires Inv(s) && AllGone(s) && IsRun(s, moves)
    ensures |moves| <= Left(s) + (if s.stop then 0 else 1) <= 4 * |s.devs| + 7
    ensures s.time <= End(s, moves).time <= s.time + 2
    ensures s.stop ==> |moves| <= LeftAfterStop(s) <= 2 * |s.devs| + 4
    ensures s.stop ==> End(s, moves).time <= s.time + if InRound(s.timer) then 1 else 0
    ensures Inv(End(s, moves))
  {
    EndWithinTicks(s, moves);
    if s.stop { StopEndsTimer(s, moves); }
  }

  /** And it ends after exactly as many moves and ticks as the rounds ask for: without stop_timer
      the running round and, if some device of it was collected before it detached, one more;
      with it the running round alone. */
  lemma TimerExitsExactly(s: State, moves: seq<Move>)
    requires Inv(s) && AllGone(s) && IsRun(s, moves) && Stop !in moves && End(s, moves).timer == Exited
    ensures !s.stop ==> |moves| == Left(s) && End(s, moves).time == s.time + TicksLeft(s)
    ensures s.stop ==>
      |moves| == LeftAfterStop(s) && End(s, moves).time == s.time + if InRound(s.timer) then 1 else 0
  {
    if s.stop { StopEndsTimer(s, moves); } else { RoundsAreMade(s, moves); }
  }

  lemma {:induction false} RoundsAreMade(s: State, moves: seq<Move>)
    requires Inv(s) && AllGone(s) && !s.stop && IsRun(s, moves) && Stop !in moves
    ensures Inv(End(s, moves)) && Left(End(s, moves)) == Left(s) - |moves|
    ensures End(s, moves).time + TicksLeft(End(s, moves)) == s.time + TicksLeft(s)
    decreases |moves|
  {
    if moves == [] {
    } else {
      assert moves[0] in moves && forall m :: m in moves[1..] ==> m in moves;
      LastRoundsStep(s, moves[0]);
      RoundStep(s, moves[0]);
      RoundsAreMade(Apply(s, moves[0]), moves[1..]);
    }
  }

  /** The timer has begun a round that it has not ticked yet. */
  predicate InRound(t: TimerPc) { t.Collect? || t.Sleep? }

  /** Timer moves still to come after stop_timer: the rest of the running round and, if that does
      not end the loop, one more test of timer_stop. */
  function LeftAfterStop(s: State): (r: nat)
    requires Inv(s)
  {
    var n := |s.devs|;
    var test := if s.fsh < s.event then 1 else 0;
    match s.timer
    case Top => 1
    case Collect(k) => 2 * n - k + 2 + test
    case Sleep(k, _) => 2 * n - k + 3 + test
    case Release(k) => n - k + 1 + test
    case Exited => 0
  }

  lemma StoppedStep(s: State, m: Move)
    requires Inv(s) && s.stop && Enabled(s, m)
    ensures var t := Apply(s, m);
      && Inv(t) && t.stop && LeftAfterStop(t) == LeftAfterStop(s) - 1
      && t.time + (if InRound(t.timer) then 1 else 0) == s.time + (if InRound(s.timer) then 1 else 0)
      && t.time >= s.time
  {
    hide DeviceInv;
    FshMeansGone(s);
    LastRoundsStep(s, m);
  }

  lemma {:induction false} StopEndsTimer(s: State, moves: seq<Move>)
    requires Inv(s) && s.stop && IsRun(s, moves)
    ensures Inv(End(s, moves)) && LeftAfterStop(End(s, moves)) == LeftAfterStop(s) - |moves|
    ensures s.time <= End(s, moves).time
    ensures End(s, moves).time + (if InRound(End(s, moves).timer) then 1 else 0)
         == s.time + if InRound(s.timer) then 1 else 0
    decreases |moves|
  {
    if moves == [] {
    } else {
      StoppedStep(s, moves[0]);
      StopEndsTimer(Apply(s, moves[0]), moves[1..]);
    }
  }

  lemma {:induction false} EndWithinTicks(s: State, moves: seq<Move>)
    requires Inv(s) && AllGone(s) && IsRun(s, moves)
    ensures |moves| <= Left(s) + (if s.stop then 0 else 1)
    ensures s.time <= End(s, moves).time <= s.time + TicksLeft(s)
    ensures Inv(End(s, moves))
    decreases |moves|
  {
    if moves == [] {
    } else {
      LastRoundsStep(s, moves[0]);
      EndWithinTicks(Apply(s, moves[0]), moves[1..]);
    }
  }

  // ---- Every slot ends -----------------------------------------------------------------

  predicate Ticks(s: State, m: Move) {
    m == Timer && s.timer == Collect(|s.devs|)
  }

  /** How far device d still has to go before only a tick can move it on. */
  function Rank(s: State, d: nat): (r: nat)
    requires d < |s.devs|
  {
    var dev := s.devs[d];
    match dev.pc
    case Out => 3
    case Gone => 0
    case Testing => if Awaiting(s, d) then 7 else if dev.done then 2 else 4
    case Asleep(_) => if Awaiting(s, d) then 6 else if dev.done then 1 else 5
  }

  function TimerRank(s: State): (r: nat)
    requires TimerInv(s)
  {
    var n := |s.devs|;
    match s.timer
    case Top => 4 * n + 4
    case Collect(k) => 4 * (n - k) + if k == n || s.devs[k].done || s.devs[k].fsh then 0 else 3
    case Sleep(k, signalled) => 4 * (n - k) + if signalled then 1 else 2
    case Release(k) => 5 * n - k + 5
    case Exited => 0
  }

  ghost function Ranks(s: State): (r: seq<nat>)
    ensures |r| == |s.devs| && forall d :: 0 <= d < |r| ==> r[d] == Rank(s, d)
  {
    seq(|s.devs|, d requires 0 <= d < |s.devs| => Rank(s, d))
  }

  /** An upper bound on the moves left before the next tick. */
  ghost function Work(s: State): (r: nat)
    requires TimerInv(s)
  {
    SumNonNegative(Ranks(s));
    TimerRank(s) + Sum(Ranks(s))
  }

  /** The one device whose rank a move can change. */
  function Mover(s: State, m: Move): (r: nat) {
    match m
    case Post(d) => d
    case Test(d) => d
    case Wake(d) => d
    case SpuriousWake(d) => d
    case Detach(d) => d
    case _ => if s.timer.Release? then s.timer.k else |s.devs|
  }

  lemma MoveWorks(s: State, m: Move)
    requires Inv(s) && Enabled(s, m) && !Spurious(m) && !Ticks(s, m) && m != Stop
    ensures Inv(Apply(s, m)) && Work(Apply(s, m)) < Work(s)
  {
    hide DeviceInv, Rank, Apply, Sum;
    var t, d := Apply(s, m), Mover(s, m);
    MoveInv(s, m);
    forall e | 0 <= e < |s.devs| && e != d
      ensures Rank(t, e) == Rank(s, e)
    {
      OtherRank(s, m, e);
    }
    TimerWorks(s, m);
    if d < |s.devs| {
      DeviceWorks(s, m);
      assert Ranks(t) == Ranks(s)[d := Rank(t, d)];
      SumUpdate(Ranks(s), d, Rank(t, d));
    } else {
      assert Ranks(t) == Ranks(s);
    }
  }

  lemma OtherRank(s: State, m: Move, d: nat)
    requires Inv(s) && Enabled(s, m) && m != Stop && !Spurious(m) && !Ticks(s, m) && d < |s.devs| && d != Mover(s, m)
    ensures |Apply(s, m).devs| == |s.devs| && Rank(Apply(s, m), d) == Rank(s, d)
  {
    assert DeviceInv(s, d);
  }

  lemma DeviceWorks(s: State, m: Move)
    requires Inv(s) && Enabled(s, m) && !Spurious(m) && m != Stop && Mover(s, m) < |s.devs|
    ensures |Apply(s, m).devs| == |s.devs|
    ensures var d := Mover(s, m);
      if m == Timer then Rank(Apply(s, m), d) <= Rank(s, d) else Rank(Apply(s, m), d) < Rank(s, d)
  {
    assert DeviceInv(s, Mover(s, m));
  }

  lemma TimerWorks(s: State, m: Move)
    requires Inv(s) && Enabled(s, m) && Inv(Apply(s, m)) && !Spurious(m) && !Ticks(s, m) && m != Stop
    ensures if m == Timer then TimerRank(Apply(s, m)) < TimerRank(s) else TimerRank(Apply(s, m)) <= TimerRank(s)
  {
    if s.timer.Collect? && s.timer.k < |s.devs| { assert DeviceInv(s, s.timer.k); }
    if s.timer.Sleep? { assert DeviceInv(s, s.timer.k); }
  }

  lemma SpuriousWorks(s: State, m: Move)
    requires Inv(s) && Enabled(s, m) && Spurious(m)
    ensures Inv(Apply(s, m)) && Work(Apply(s, m)) <= Work(s) + 1
  {
    var t, d := Apply(s, m), Mover(s, m);
    MoveInv(s, m);
    hide Inv, DeviceInv, Sum;
    if m.SpuriousWake? {
      assert Ranks(t) == Ranks(s)[d := Rank(t, d)];
      SumUpdate(Ranks(s), d, Rank(t, d));
    } else {
      assert Ranks(t) == Ranks(s);
    }
  }

  lemma StopWorks(s: State)
    requires Inv(s) && Enabled(s, Stop)
    ensures Inv(Apply(s, Stop)) && Work(Apply(s, Stop)) == Work(s)
  {
    MoveInv(s, Stop);
    assert Ranks(Apply(s, Stop)) == Ranks(s);
  }

  ghost predicate Steady(s: State, moves: seq<Move>)
    requires IsRun(s, moves)
    decreases |moves|
  {
    moves == [] ||
    (!Spurious(moves[0]) && !Ticks(s, moves[0]) && moves[0] != Stop && Steady(Apply(s, moves[0]), moves[1..]))
  }

  /** No livelock: leaving spurious wakeups aside, at most 12n + 5 barrier moves pass without
      a tick; with NoDeadlock, the clock goes on. */
  lemma {:induction false} EverySlotEnds(s: State, moves: seq<Move>)
    requires Inv(s) && IsRun(s, moves) && Steady(s, moves)
    ensures |moves| <= Work(s) <= 12 * |s.devs| + 5
    decreases |moves|
  {
    SumBound(Ranks(s), 7);
    if moves == [] {
    } else {
      MoveWorks(s, moves[0]);
      EverySlotEnds(Apply(s, moves[0]), moves[1..]);
    }
  }
}
