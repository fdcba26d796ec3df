/** How the controller of the decryptor starts its four machines and waits for them, in every state that any
    use of the start and reset buttons can bring about.

    A reset restarts the controller but none of the machines, so a machine may still be busy when it is started.
    It then ignores the start. If that happens in its very last state, it comes to rest without being started, and
    the controller waits for it for ever. */
module Handshakes {
  import opened Rc4
  import opened DecryptorMachines
  import opened Clocks

  // ----- how long a machine is still busy

  function InitLeft(m: Init): nat {
    match m.state
    case InitIdle => 0
    case InitFinish => 1
    case Increment => 257 - m.count
  }

  // The states of a round, counted down.
  function SchedulerPlace(state: SchedulerState): nat {
    match state
    case Idle => 0
    case Finish => 1
    case IncrementI => 2
    case WriteMem2Wait => 3
    case WriteMem2 => 4
    case UpdateData2 => 5
    case WriteMem1Wait => 6
    case WriteMem1 => 7
    case UpdateData1 => 8
    case FetchMem2Wait => 9
    case FetchMem2 => 10
    case UpdateAddress2 => 11
    case UpdateJ => 12
    case FetchMem1Wait => 13
    case FetchMem1 => 14
    case UpdateAddress1 => 15
  }

  function SchedulerLeft(m: Scheduler): nat {
    SchedulerPlace(m.state) + if m.state == Idle || m.state == Finish then 0 else 14 * (255 - m.i)
  }

  // The third machine counts up to 31; a larger count would have to wrap around first.
  function RoundsLeft(k: Byte): nat {
    if k <= 31 then 31 - k else 287 - k
  }

  // The same for the third machine.
  function DecrypterPlace(state: DecrypterState): nat {
    match state
    case DIdle => 0
    case DFinish => 1
    case IncrementK => 2
    case WriteMemDecrypt => 3
    case UpdateDataDecrypt => 4
    case FetchDataEncryptWait => 5
    case FetchDataEncrypt => 6
    case FetchMemFWait => 7
    case FetchMemF => 8
    case UpdateAddressF => 9
    case WriteMemIWait => 10
    case WriteMemI => 11
    case UpdateDataI => 12
    case WriteMemJWait => 13
    case WriteMemJ => 14
    case UpdateDataJ => 15
    case FetchMemJWait => 16
    case FetchMemJ => 17
    case UpdateAddressJ => 18
    case DUpdateJ => 19
    case FetchMemIWait => 20
    case FetchMemI => 21
    case UpdateAddressI => 22
    case DIncrementI => 23
  }

  function DecrypterLeft(m: Decrypter): nat {
    DecrypterPlace(m.state) + if m.state == DIdle || m.state == DFinish then 0 else 22 * RoundsLeft(m.k)
  }

  // At most; an unreadable byte ends the check early.
  function CheckerLeft(m: Checker): nat {
    match m.state
    case CIdle => 0
    case ErrorState => 1
    case SuccessState => 1
    case IncrementCount => 2 + 4 * (31 - m.count)
    case CheckDataVal => 3 + 4 * (31 - m.count)
    case FetchDataDWait => 4 + 4 * (31 - m.count)
    case FetchDataD => 5 + 4 * (31 - m.count)
  }

  // Clocks a machine takes from the one after its start.
  const INIT_CLOCKS: nat := 257
  const SCHEDULE_CLOCKS: nat := 14 * 256 + 1
  const DECRYPT_CLOCKS: nat := 22 * MESSAGE_LENGTH + 1
  const CHECK_CLOCKS: nat := 4 * MESSAGE_LENGTH + 1

  // One clock later; a busy machine ignores the start.
  function Tick(left: nat, start: bool, all: nat): nat {
    if left > 0 then left - 1 else if start then all else 0
  }

  function Minus(a: nat, b: nat): nat {
    if a <= b then 0 else a - b
  }

  lemma InitTicks(m: Init, start: bool)
    ensures InitLeft(m.Next(start)) == Tick(InitLeft(m), start, INIT_CLOCKS)
  {
  }

  lemma SchedulerTicks(m: Scheduler, start: bool, key: Key, q: Byte)
    ensures SchedulerLeft(m.Next(start, key, q)) == Tick(SchedulerLeft(m), start, SCHEDULE_CLOCKS)
  {
    hide KeySlice;
  }

  // Within a round one state follows the other.
  lemma DecrypterMoves(m: Decrypter, start: bool, q: Byte, qm: Byte)
    requires m.state != DIdle && m.state != DFinish && m.state != IncrementK
    ensures var r := m.Next(start, q, qm);
            && DecrypterPlace(r.state) == DecrypterPlace(m.state) - 1
            && r.state != DFinish && r.state != DIdle && r.k == m.k
  {
    hide Xor, Plus;
  }

  lemma DecrypterTicks(m: Decrypter, start: bool, q: Byte, qm: Byte)
    ensures DecrypterLeft(m.Next(start, q, qm)) == Tick(DecrypterLeft(m), start, DECRYPT_CLOCKS)
  {
    hide Xor, Plus, RoundsLeft;
    RoundTicks(m.k);
    if m.state != DIdle && m.state != DFinish && m.state != IncrementK {
      hide Decrypter.Next, DecrypterPlace;
      DecrypterMoves(m, start, q, qm);
    }
  }

  lemma RoundTicks(k: Byte)
    ensures k != 31 ==> RoundsLeft(Plus(k, 1)) == RoundsLeft(k) - 1
    ensures RoundsLeft(31) == 0 && RoundsLeft(0) == 31
  {
  }

  lemma CheckerTicks(m: Checker, start: bool, qd: Byte)
    ensures CheckerLeft(m.Next(start, qd)) <= Tick(CheckerLeft(m), start, CHECK_CLOCKS)
    ensures CheckerLeft(m) > 1 ==> CheckerLeft(m.Next(start, qd)) > 0
  {
  }

  lemma NothingLeft(x: System)
    ensures InitLeft(x.init) == 0 <==> x.init.state == InitIdle
    ensures SchedulerLeft(x.scheduler) == 0 <==> x.scheduler.state == Idle
    ensures DecrypterLeft(x.decrypter) == 0 <==> x.decrypter.state == DIdle
    ensures CheckerLeft(x.checker) == 0 <==> x.checker.state == CIdle
  {
  }

  lemma MostLeft(x: System)
    ensures InitLeft(x.init) <= INIT_CLOCKS
    ensures SchedulerLeft(x.scheduler) <= SCHEDULE_CLOCKS
    ensures CheckerLeft(x.checker) <= CHECK_CLOCKS
  {
  }

  // ----- one clock of the controller

  // Where the controller goes, by how long its machines are still busy.
  function TopAfter(x: System, start: bool): Top {
    match x.top
    case CheckStart => if start then RunInit else CheckStart
    case RunInit => WaitInit
    case WaitInit => if InitLeft(x.init) == 1 then RunSchedule else WaitInit
    case RunSchedule => WaitSchedule
    case WaitSchedule => if SchedulerLeft(x.scheduler) == 1 then RunDecrypt else WaitSchedule
    case RunDecrypt => WaitDecrypt
    case WaitDecrypt => if DecrypterLeft(x.decrypter) == 1 then RunCheck else WaitDecrypt
    case RunCheck => WaitCheck
    case WaitCheck =>
      if CheckerLeft(x.checker) != 1 then WaitCheck
      else if x.checker.state == ErrorState then IncrementKey
      else TopFinish
    case IncrementKey => if x.key == LAST_KEY then TopFinish else RunInit
    case TopFinish => CheckStart
  }

  lemma TopIs(x: System, start: bool)
    ensures x.NextTop(start) == TopAfter(x, start)
  {
  }

  // What a clock does to the controller and to the time its machines have left.
  lemma Clocked(x: System, start: bool)
    requires x.Valid()
    ensures var r := x.Next(start);
            && r.top == TopAfter(x, start)
            && InitLeft(r.init) == Tick(InitLeft(x.init), x.top == RunInit, INIT_CLOCKS)
            && SchedulerLeft(r.scheduler) == Tick(SchedulerLeft(x.scheduler), x.top == RunSchedule, SCHEDULE_CLOCKS)
            && DecrypterLeft(r.decrypter) == Tick(DecrypterLeft(x.decrypter), x.top == RunDecrypt, DECRYPT_CLOCKS)
            && CheckerLeft(r.checker) <= Tick(CheckerLeft(x.checker), x.top == RunCheck, CHECK_CLOCKS)
  {
    hide InitLeft, SchedulerLeft, DecrypterLeft, CheckerLeft, Init.Next, Scheduler.Next, Decrypter.Next, Checker.Next;
    hide System.ClockS, System.ClockD, System.NextTop, Tick;
    TopIs(x, start);
    InitTicks(x.init, x.top == RunInit);
    SchedulerTicks(x.scheduler, x.top == RunSchedule, x.key, x.s.q);
    DecrypterTicks(x.decrypter, x.top == RunDecrypt, x.s.q, x.qm);
    CheckerTicks(x.checker, x.top == RunCheck, x.d.q);
  }

  // Before the decryption neither the result nor the lights change, and the key only when start is pressed.
  lemma NothingDecided(x: System, start: bool)
    requires x.Valid() && Stage(x.top) < 5
    ensures var r := x.Next(start); r.d.cells == x.d.cells && r.ledr == x.ledr
    ensures x.Next(start).key == if x.top == CheckStart && start then 0 else x.key
  {
  }

  // ----- the states there can be

  function Stage(top: Top): nat {
    match top
    case CheckStart => 0
    case RunInit => 1
    case WaitInit => 2
    case RunSchedule => 3
    case WaitSchedule => 4
    case RunDecrypt => 5
    case WaitDecrypt => 6
    case RunCheck => 7
    case WaitCheck => 8
    case IncrementKey => 9
    case TopFinish => 10
  }

  /** A machine started earlier is at rest before one started later, and the controller has seen every machine
      of an earlier stage come to rest. */
  ghost predicate Orderly(x: System) {
    && x.Valid() && DecrypterLeft(x.decrypter) <= DECRYPT_CLOCKS
    && (SchedulerLeft(x.scheduler) > 0 ==> DecrypterLeft(x.decrypter) <= SchedulerLeft(x.scheduler))
    && (SchedulerLeft(x.scheduler) > 0 ==> CheckerLeft(x.checker) <= SchedulerLeft(x.scheduler))
    && (DecrypterLeft(x.decrypter) > 0 ==> CheckerLeft(x.checker) <= DecrypterLeft(x.decrypter))
    && (Stage(x.top) >= 3 ==> InitLeft(x.init) == 0)
    && (Stage(x.top) >= 5 ==> SchedulerLeft(x.scheduler) == 0)
    && (Stage(x.top) == 5 || Stage(x.top) >= 7 ==> DecrypterLeft(x.decrypter) == 0)
    && (5 <= Stage(x.top) <= 7 || Stage(x.top) >= 9 ==> CheckerLeft(x.checker) == 0)
  }

  lemma IdleIsOrderly(x: System)
    requires x.Valid() && x.AllIdle()
    ensures Orderly(x)
  {
    NothingLeft(x);
  }

  lemma OrderlyStep(x: System, start: bool)
    requires Orderly(x)
    ensures Orderly(x.Next(start)) && Orderly(x.Reset(start))
  {
    hide InitLeft, SchedulerLeft, DecrypterLeft, CheckerLeft, System.Next;
    Clocked(x, start);
    MostLeft(x);
  }

  /** `n` clocks with both buttons held as `start` and `reset` say. */
  function Lives(x: System, start: nat -> bool, reset: nat -> bool, n: nat): (r: System)
    requires x.Valid()
    ensures r.Valid() && r.cipher == x.cipher
  {
    if n == 0 then x
    else
      var y := Lives(x, start, reset, n - 1);
      if reset(n - 1) then y.Reset(start(n - 1)) else y.Next(start(n - 1))
  }

  /** Whatever is done with the buttons, every state since the decryptor was switched on is orderly. */
  lemma {:induction false} AlwaysOrderly(x: System, start: nat -> bool, reset: nat -> bool, n: nat)
    requires x.Valid() && x.AllIdle()
    ensures Orderly(Lives(x, start, reset, n))
  {
    hide Orderly, System.Next, System.Reset;
    if n == 0 {
      IdleIsOrderly(x);
    } else {
      AlwaysOrderly(x, start, reset, n - 1);
      OrderlyStep(Lives(x, start, reset, n - 1), start(n - 1));
    }
  }

  lemma {:induction false} OrderlySteps(x: System, n: nat)
    requires x.Valid() && Orderly(x)
    ensures Orderly(Steps(x, n))
  {
    hide Orderly, System.Next;
    if n == 0 {
    } else {
      OrderlySteps(x, n - 1);
      OrderlyStep(Steps(x, n - 1), false);
    }
  }

  // ----- waiting for a machine

  // The first machine, while the second one may be busy, too.
  lemma {:induction false} InitTimeline(x: System, n: nat)
    requires x.Valid() && x.top == WaitInit && 1 <= InitLeft(x.init) && n <= InitLeft(x.init)
    ensures var r := Steps(x, n);
            && r.top == (if n < InitLeft(x.init) then WaitInit else RunSchedule)
            && InitLeft(r.init) == InitLeft(x.init) - n
            && SchedulerLeft(r.scheduler) == Minus(SchedulerLeft(x.scheduler), n)
            && r.key == x.key && r.ledr == x.ledr && r.d.cells == x.d.cells
  {
    hide InitLeft, SchedulerLeft, DecrypterLeft, CheckerLeft, System.Next;
    if n == 0 {
    } else {
      InitTimeline(x, n - 1);
      Clocked(Steps(x, n - 1), false);
      NothingDecided(Steps(x, n - 1), false);
    }
  }

  // The second machine.
  lemma {:induction false} ScheduleTimeline(x: System, n: nat)
    requires x.Valid() && x.top == WaitSchedule && InitLeft(x.init) == 0
    requires 1 <= SchedulerLeft(x.scheduler) && n <= SchedulerLeft(x.scheduler)
    ensures var r := Steps(x, n);
            && r.top == (if n < SchedulerLeft(x.scheduler) then WaitSchedule else RunDecrypt)
            && SchedulerLeft(r.scheduler) == SchedulerLeft(x.scheduler) - n && InitLeft(r.init) == 0
            && r.key == x.key && r.ledr == x.ledr && r.d.cells == x.d.cells
  {
    hide InitLeft, SchedulerLeft, DecrypterLeft, CheckerLeft, System.Next;
    if n == 0 {
    } else {
      ScheduleTimeline(x, n - 1);
      Clocked(Steps(x, n - 1), false);
      NothingDecided(Steps(x, n - 1), false);
    }
  }

  // For a machine at rest the controller waits for ever.
  lemma {:induction false} WaitsForEver(x: System, n: nat)
    requires x.Valid()
    requires (x.top == WaitInit && InitLeft(x.init) == 0) || (x.top == WaitSchedule && SchedulerLeft(x.scheduler) == 0)
    ensures var r := Steps(x, n);
            && r.top == x.top
            && (x.top == WaitInit ==> InitLeft(r.init) == 0)
            && (x.top == WaitSchedule ==> SchedulerLeft(r.scheduler) == 0)
  {
    hide InitLeft, SchedulerLeft, DecrypterLeft, CheckerLeft, System.Next;
    if n == 0 {
    } else {
      WaitsForEver(x, n - 1);
      Clocked(Steps(x, n - 1), false);
    }
  }

  // ----- from the press of start to the decryption with key 0

  /** Clocks from the press until the second machine is started. */
  function ScheduleAt(x: System): nat {
    if InitLeft(x.init) <= 1 then INIT_CLOCKS + 1 else InitLeft(x.init) - 1
  }

  // How long the second machine is then still busy with what it was doing before.
  function SchedulerThen(x: System): nat {
    Minus(SchedulerLeft(x.scheduler), ScheduleAt(x) + 1)
  }

  /** Clocks from the press until the third machine is started. */
  function DecryptAt(x: System): nat {
    ScheduleAt(x) + if SchedulerThen(x) == 0 then SCHEDULE_CLOCKS + 1 else SchedulerThen(x)
  }

  /** A machine is started in its very last state: the first one because it writes its last cell when start is
      pressed, or the second one because it happens to finish when the first one does. */
  predicate Missed(x: System) {
    InitLeft(x.init) == 2 || SchedulerThen(x) == 1
  }

  // The first two clocks.
  lemma Pressed(x: System)
    requires x.Valid() && x.top == CheckStart
    ensures var y, z := x.Next(true), Steps(x.Next(true), 1);
            && y.top == RunInit && z.top == WaitInit
            && InitLeft(y.init) == Minus(InitLeft(x.init), 1)
            && InitLeft(z.init) == Tick(InitLeft(y.init), true, INIT_CLOCKS)
            && SchedulerLeft(z.scheduler) == Minus(SchedulerLeft(x.scheduler), 2)
            && z.key == 0 && z.ledr == x.ledr && z.d.cells == x.d.cells
  {
    hide InitLeft, SchedulerLeft, DecrypterLeft, CheckerLeft, System.Next;
    Clocked(x, true);
    NothingDecided(x, true);
    Clocked(x.Next(true), false);
    NothingDecided(x.Next(true), false);
    StepAfter(x.Next(true), 0);
  }

  /** Unless the first machine is missed, the second one is started at the time foretold. */
  lemma ReachesSchedule(x: System)
    requires x.Valid() && x.top == CheckStart && InitLeft(x.init) != 2
    ensures var r := Steps(x.Next(true), ScheduleAt(x));
            && r.top == RunSchedule && InitLeft(r.init) == 0 && SchedulerLeft(r.scheduler) == SchedulerThen(x)
            && r.key == 0 && r.ledr == x.ledr && r.d.cells == x.d.cells
    ensures forall i | 0 <= i < ScheduleAt(x) :: Stage(Steps(x.Next(true), i).top) < 3
  {
    hide InitLeft, SchedulerLeft, System.Next, Steps;
    var y, n := x.Next(true), ScheduleAt(x) - 1;
    Pressed(x);
    InitTimeline(Steps(y, 1), n);
    StepsAdd(y, 1, n);
    forall i | 0 <= i < ScheduleAt(x)
      ensures Stage(Steps(y, i).top) < 3
    {
      if i == 0 {
        NoSteps(y);
      } else {
        InitTimeline(Steps(y, 1), i - 1);
        StepsAdd(y, 1, i - 1);
      }
    }
  }

  lemma NoSteps(x: System)
    requires x.Valid()
    ensures Steps(x, 0) == x
  {
  }

  // The clock after the second machine is started.
  lemma ScheduleStarts(x: System)
    requires x.Valid() && x.top == RunSchedule && InitLeft(x.init) == 0
    ensures var r := Steps(x, 1);
            && r.top == WaitSchedule && InitLeft(r.init) == 0
            && SchedulerLeft(r.scheduler) == Tick(SchedulerLeft(x.scheduler), true, SCHEDULE_CLOCKS)
            && r.key == x.key && r.ledr == x.ledr && r.d.cells == x.d.cells
  {
    hide InitLeft, SchedulerLeft, DecrypterLeft, CheckerLeft, System.Next;
    Clocked(x, false);
    NothingDecided(x, false);
    StepAfter(x, 0);
  }

  // From the start of the second machine to that of the third one.
  lemma ScheduleRuns(x: System, n: nat)
    requires x.Valid() && x.top == CheckStart && !Missed(x) && ScheduleAt(x) < n <= DecryptAt(x)
    ensures var r := Steps(x.Next(true), n);
            && r.top == (if n < DecryptAt(x) then WaitSchedule else RunDecrypt)
            && r.key == 0 && r.ledr == x.ledr && r.d.cells == x.d.cells
  {
    hide InitLeft, SchedulerLeft, System.Next, Steps, ScheduleAt;
    var y, a := x.Next(true), ScheduleAt(x);
    ReachesSchedule(x);
    var z := Steps(y, a);
    ScheduleStarts(z);
    StepsAdd(y, a, 1);
    ScheduleTimeline(Steps(z, 1), n - a - 1);
    StepsAdd(y, a + 1, n - a - 1);
  }

  /** Unless one of them is missed the decryption with key 0 begins at the time foretold, with all machines idle. */
  lemma ReachesDecrypt(x: System)
    requires Orderly(x) && x.top == CheckStart && !Missed(x)
    ensures var r := Steps(x.Next(true), DecryptAt(x));
            r.top == RunDecrypt && r.AllIdle() && r.key == 0 && r.ledr == x.ledr && r.d.cells == x.d.cells
    ensures forall i | 0 <= i < DecryptAt(x) :: Stage(Steps(x.Next(true), i).top) < 5
  {
    hide InitLeft, SchedulerLeft, DecrypterLeft, CheckerLeft, System.Next, Steps, ScheduleAt;
    ReachesSchedule(x);
    ScheduleRuns(x, DecryptAt(x));
    OrderlyStep(x, true);
    OrderlySteps(x.Next(true), DecryptAt(x));
    NothingLeft(Steps(x.Next(true), DecryptAt(x)));
    forall i | 0 <= i < DecryptAt(x)
      ensures Stage(Steps(x.Next(true), i).top) < 5
    {
      if i > ScheduleAt(x) {
        ScheduleRuns(x, i);
      }
    }
  }

  /** If one of them is missed the decryptor hangs: the controller never gets as far as decrypting anything. */
  lemma MissedHangs(x: System, n: nat)
    requires x.Valid() && x.top == CheckStart && Missed(x)
    ensures 1 <= Stage(Steps(x.Next(true), n).top) < 5
  {
    hide InitLeft, SchedulerLeft, DecrypterLeft, CheckerLeft, System.Next, Steps, ScheduleAt;
    var y := x.Next(true);
    Pressed(x);
    NoSteps(y);
    if InitLeft(x.init) == 2 {
      if n >= 1 {
        WaitsForEver(Steps(y, 1), n - 1);
        StepsAdd(y, 1, n - 1);
      }
    } else {
      var a := ScheduleAt(x);
      ReachesSchedule(x);
      ScheduleStarts(Steps(y, a));
      StepsAdd(y, a, 1);
      if n < a {
        NotBack(y, n, a);
      } else if n > a {
        WaitsForEver(Steps(y, a + 1), n - a - 1);
        StepsAdd(y, a + 1, n - a - 1);
      }
    }
  }

  /** The controller gets past the first machine if and only if start is not pressed on the clock on which that
      machine writes its last cell. */
  lemma FirstMachineIff(x: System)
    requires x.Valid() && x.top == CheckStart
    ensures (exists n: nat :: Steps(x.Next(true), n).top == RunSchedule) <==> x.init != Init(Increment, 255)
  {
    hide System.Next, Steps, SchedulerLeft;
    var y := x.Next(true);
    Pressed(x);
    LastCell(x.init);
    if InitLeft(x.init) == 2 {
      forall n: nat
        ensures Steps(y, n).top != RunSchedule
      {
        NoSteps(y);
        if n >= 1 {
          WaitsForEver(Steps(y, 1), n - 1);
          StepsAdd(y, 1, n - 1);
        }
      }
    } else {
      ReachesSchedule(x);
    }
  }

  lemma LastCell(m: Init)
    ensures InitLeft(m) == 2 <==> m == Init(Increment, 255)
  {
  }

  /** The controller gets past the second machine if and only if that machine is not in its last state when it is
      started. */
  lemma SecondMachineIff(x: System)
    requires x.Valid() && x.top == RunSchedule && x.init.state == InitIdle
    ensures (exists n: nat :: Steps(x, n).top == RunDecrypt) <==> x.scheduler.state != Finish
  {
    hide System.Next, Steps, SchedulerLeft;
    NothingLeft(x);
    LastState(x.scheduler);
    ScheduleStarts(x);
    if SchedulerLeft(x.scheduler) == 1 {
      forall n: nat
        ensures Steps(x, n).top != RunDecrypt
      {
        NoSteps(x);
        if n >= 1 {
          WaitsForEver(Steps(x, 1), n - 1);
          StepsAdd(x, 1, n - 1);
        }
      }
    } else {
      var m := SchedulerLeft(Steps(x, 1).scheduler);
      ScheduleTimeline(Steps(x, 1), m);
      StepsAdd(x, 1, m);
    }
  }

  lemma LastState(m: Scheduler)
    ensures SchedulerLeft(m) == 1 <==> m.state == Finish
  {
  }

  lemma NotBack(x: System, n: nat, m: nat)
    requires x.Valid() && n <= m && Steps(x, m).top != CheckStart
    ensures Stage(Steps(x, n).top) > 0
  {
    if Steps(x, n).top == CheckStart {
      NotYetThere(x, n, m);
    }
  }

  // ----- the controller at rest

  // Without start the machines come to rest one clock after the other.
  lemma {:induction false} Resting(x: System, n: nat)
    requires x.Valid() && x.top == CheckStart
    ensures var r := Steps(x, n);
            && r.top == CheckStart
            && InitLeft(r.init) == Minus(InitLeft(x.init), n)
            && SchedulerLeft(r.scheduler) == Minus(SchedulerLeft(x.scheduler), n)
            && DecrypterLeft(r.decrypter) == Minus(DecrypterLeft(x.decrypter), n)
            && CheckerLeft(r.checker) <= Minus(CheckerLeft(x.checker), n)
  {
    hide InitLeft, SchedulerLeft, DecrypterLeft, CheckerLeft, System.Next;
    if n == 0 {
    } else {
      Resting(x, n - 1);
      Clocked(Steps(x, n - 1), false);
    }
  }

  /** Whatever the four machines were doing, they are idle 3585 clocks after the controller has been reset. */
  lemma IdleAfterReset(x: System, pressed: bool, n: nat)
    requires Orderly(x) && n >= SCHEDULE_CLOCKS
    ensures var r := Steps(x.Reset(pressed), n); r.top == CheckStart && r.AllIdle() && r.cipher == x.cipher
  {
    hide InitLeft, SchedulerLeft, DecrypterLeft, CheckerLeft, System.Next, System.Reset, Steps;
    OrderlyStep(x, pressed);
    ResetRests(x, pressed);
    MostLeft(x.Reset(pressed));
    Resting(x.Reset(pressed), n);
    NothingLeft(Steps(x.Reset(pressed), n));
  }

  lemma ResetRests(x: System, pressed: bool)
    requires x.Valid()
    ensures x.Reset(pressed).top == CheckStart && x.Reset(pressed).key == 0 && x.Reset(pressed).ledr == x.ledr
  {
  }

  // What a reset leaves busy.
  lemma ResetClocked(x: System, pressed: bool)
    requires x.Valid()
    ensures InitLeft(x.Reset(pressed).init) == Tick(InitLeft(x.init), x.top == RunInit, INIT_CLOCKS)
    ensures SchedulerLeft(x.Reset(pressed).scheduler)
         == Tick(SchedulerLeft(x.scheduler), x.top == RunSchedule, SCHEDULE_CLOCKS)
  {
    hide InitLeft, SchedulerLeft, DecrypterLeft, CheckerLeft, System.Next;
    Clocked(x, pressed);
  }

  /** Two ways to hang a decryptor that was idle: start, reset after 255 clocks and start again, so that the first
      machine is missed; or start, reset after 3583 clocks and start again, so that the second one is. */
  lemma RunsThatHang(x: System, pressed: bool, n: nat)
    requires x.Valid() && x.top == CheckStart && x.AllIdle()
    ensures var y := Steps(x.Next(true), 255).Reset(pressed);
            y.top == CheckStart && Missed(y) && 1 <= Stage(Steps(y.Next(true), n).top) < 5
    ensures var y := Steps(x.Next(true), 3583).Reset(pressed);
            y.top == CheckStart && Missed(y) && 1 <= Stage(Steps(y.Next(true), n).top) < 5
  {
    hide InitLeft, SchedulerLeft, DecrypterLeft, CheckerLeft, System.Next, System.Reset, Steps;
    NothingLeft(x);
    var p := x.Next(true);
    Pressed(x);
    InitTimeline(Steps(p, 1), 254);
    StepsAdd(p, 1, 254);
    var y1 := Steps(p, 255);
    ResetRests(y1, pressed);
    ResetClocked(y1, pressed);
    MissedHangs(y1.Reset(pressed), n);
    ReachesSchedule(x);
    ScheduleStarts(Steps(p, 258));
    StepsAdd(p, 258, 1);
    ScheduleTimeline(Steps(p, 259), 3324);
    StepsAdd(p, 259, 3324);
    var y2 := Steps(p, 3583);
    ResetRests(y2, pressed);
    ResetClocked(y2, pressed);
    MissedHangs(y2.Reset(pressed), n);
  }
}
