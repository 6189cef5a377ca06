// The start of the real-time thread: the global rttestthread object is constructed, main calls init
// and then Resume, and the new thread waits for its start mutex in __Start_thread. A schedule is any
// sequence of steps of the two threads; a step whose thread cannot move has no effect.
module StartGate {
  import opened Schedules

  /** Where the main thread is: the constructors of the global object first, then main. */
  datatype MainPc =
    | LockGate       // rtthread constructor: lock the start mutex
    | CreateThread   // pthread_create
    | ReleaseGate    // unlock it again, only if crrunning
    | SetDevice      // rttestthread constructor: m_device, and the virtual Execute is the derived one
    | CallInit       // main: ETHB.init()
    | CallResume     // mytestthread.Resume()
    | Looping        // receive_input and send_output, for ever
    | Exited         // main returned because init failed; the process is gone

  /** Where the real-time thread is. */
  datatype RtPc =
    | NotCreated
    | AtGate         // pthread_mutex_lock(&m_startmutex)
    | Entered        // the mutex is taken
    | Active         // m_activ is true, Execute is about to be called
    | InCycle        // inside execute_fromthread
    | Ended          // Execute returned

  datatype State = State(
    crrunning: bool,
    main: MainPc,
    rt: RtPc,
    locked: bool,      // m_startmutex
    activ: bool,       // m_activ
    constructed: bool, // the virtual Execute is the derived one
    // History:
    cycles: nat,       // MainTask calls
    sends: nat         // send_output calls
  )

  /** A step of the main thread, with the result of init when that is the step; or of the other. */
  datatype Step = Main(status: int) | Rt

  function Start(crrunning: bool): State
  {
    State(crrunning, LockGate, NotCreated, false, false, false, 0, 0)
  }

  function MainStep(s: State, status: int): State
  {
    match s.main
    case LockGate => s.(locked := true, main := CreateThread)
    case CreateThread => s.(rt := AtGate, main := ReleaseGate)
    case ReleaseGate => s.(locked := if s.crrunning then false else s.locked, main := SetDevice)
    case SetDevice => s.(constructed := true, main := CallInit)
    case CallInit => if status != 0 then s.(main := Exited) else s.(main := CallResume)
    case CallResume => s.(locked := false, main := Looping)
    case Looping => s.(sends := s.sends + 1)
    case Exited => s
  }

  function RtStep(s: State): State
  {
    if s.main.Exited? then s
    else
      match s.rt
      case NotCreated => s
      case AtGate => if s.locked then s else s.(locked := true, rt := Entered)
      case Entered => s.(activ := true, rt := Active)
      case Active =>
        // before the derived constructor has run, the virtual call reaches rtthread::Execute
        if s.constructed then s.(rt := InCycle) else s.(activ := false, rt := Ended)
      case InCycle => s.(cycles := s.cycles + 1)
      case Ended => s
  }

  function Apply(s: State, step: Step): State
  {
    match step
    case Main(status) => MainStep(s, status)
    case Rt => RtStep(s)
  }

  /** The results of the steps of the main thread in a schedule. */
  function Statuses(schedule: seq<Step>): seq<int>
  {
    if schedule == [] then [] else Result(schedule[0]) + Statuses(schedule[1..])
  }

  function Result(step: Step): seq<int>
  {
    if step.Main? then [step.status] else []
  }

  /** The step of the main thread that is the call of init: four steps construct the object before. */
  const INIT: nat := 4

  /** The schedule calls init, and init returns zero. */
  predicate InitSucceeds(schedule: seq<Step>)
  {
    |Statuses(schedule)| > INIT && Statuses(schedule)[INIT] == 0
  }

  /** The schedule goes beyond a successful init to the call of Resume. */
  predicate Resumes(schedule: seq<Step>)
  {
    InitSucceeds(schedule) && |Statuses(schedule)| > INIT + 1
  }

  /** Where the threads are after the main thread made steps with these results. */
  ghost predicate Inv(s: State, past: seq<int>)
  {
    var n := |past|;
    && !s.crrunning
    && s.main == (if n == 0 then LockGate else if n == 1 then CreateThread else if n == 2 then ReleaseGate
                  else if n == 3 then SetDevice else if n == INIT then CallInit
                  else if past[INIT] != 0 then Exited else if n == INIT + 1 then CallResume else Looping)
    && (s.constructed <==> n >= 4)
    && (s.rt.NotCreated? <==> n < 2)
    && (n > 0 && !s.main.Looping? ==> s.locked)
    && (s.rt.Entered? || s.rt.Active? || s.rt.InCycle? ==> s.main.Looping? && s.locked)
    && (s.main.Looping? && s.rt.AtGate? ==> !s.locked)
    && (s.activ <==> s.rt.Active? || s.rt.InCycle?)
    && !s.rt.Ended?
    && (s.cycles > 0 ==> s.rt.InCycle?)
    && s.sends == (if s.main.Looping? then n - 6 else 0)
  }

  lemma StepKeepsInv(s: State, past: seq<int>, step: Step)
    requires Inv(s, past)
    ensures Inv(Apply(s, step), past + Result(step))
  {
    if step.Rt? {
      assert past + [] == past;
    }
  }

  lemma {:induction false} RunKeepsInv(s: State, past: seq<int>, schedule: seq<Step>)
    requires Inv(s, past)
    ensures Inv(Run(Apply, s, schedule), past + Statuses(schedule))
    decreases |schedule|
  {
    hide Inv, Apply, Result;
    if schedule == [] {
      assert past + [] == past;
    } else {
      var first := Result(schedule[0]);
      StepKeepsInv(s, past, schedule[0]);
      RunKeepsInv(Apply(s, schedule[0]), past + first, schedule[1..]);
      assert (past + first) + Statuses(schedule[1..]) == past + (first + Statuses(schedule[1..]));
    }
  }

  /** No cycle and no send unless init was called, returned zero, and was followed by Resume; the
      cycles run in the complete object, with m_activ set and the start mutex held. */
  ghost predicate Safe(s: State, schedule: seq<Step>)
  {
    && (s.cycles > 0 || s.sends > 0 || s.activ ==> Resumes(schedule))
    && (s.cycles > 0 ==> s.constructed && s.activ && s.locked)
  }

  ghost predicate AlwaysSafe(crrunning: bool)
  {
    forall schedule: seq<Step> :: Safe(Run(Apply, Start(crrunning), schedule), schedule)
  }

  /** Cycles and sends need a successful init and Resume; every later step of main is a send. */
  lemma GateHolds(schedule: seq<Step>)
    ensures var s := Run(Apply, Start(false), schedule);
            && (s.cycles > 0 || s.sends > 0 || s.activ ==>
                  |Statuses(schedule)| >= 6 && Statuses(schedule)[4] == 0)
            && (s.cycles > 0 ==> s.constructed && s.activ && s.locked)
            && (|Statuses(schedule)| >= 6 && Statuses(schedule)[4] == 0 ==> s.sends == |Statuses(schedule)| - 6)
  {
    hide Run;
    RunKeepsInv(Start(false), [], schedule);
    assert [] + Statuses(schedule) == Statuses(schedule);
  }

  /** After an init that did not return zero the process is gone for good: no cycle, no send, whatever
      the threads would have done. */
  lemma FailedInit(schedule: seq<Step>)
    requires |Statuses(schedule)| >= 5 && Statuses(schedule)[4] != 0
    ensures var s := Run(Apply, Start(false), schedule);
            s.main.Exited? && s.cycles == 0 && s.sends == 0 && !s.activ
  {
    hide Run;
    RunKeepsInv(Start(false), [], schedule);
    assert [] + Statuses(schedule) == Statuses(schedule);
  }

  /** Once main has returned nothing happens any more, whatever crrunning is. */
  lemma {:induction false} GoneForGood(s: State, schedule: seq<Step>)
    requires s.main.Exited?
    ensures Run(Apply, s, schedule) == s
    decreases |schedule|
  {
    if schedule != [] {
      GoneForGood(s, schedule[1..]);
    }
  }

  /** With crrunning the thread would not wait: a cycle can run although init was never called. */
  lemma EarlyCycle()
    ensures var schedule := [Main(0), Main(0), Main(0), Main(0)] + [Rt, Rt, Rt, Rt];
            Run(Apply, Start(true), schedule).cycles == 1 && |Statuses(schedule)| == 4
  {
    hide Run;
    RunAppend(Apply, Start(true), [Main(0), Main(0), Main(0), Main(0)], [Rt, Rt, Rt, Rt]);
    RunFour(Apply, Start(true), Main(0), Main(0), Main(0), Main(0));
    RunFour(Apply, Run(Apply, Start(true), [Main(0), Main(0), Main(0), Main(0)]), Rt, Rt, Rt, Rt);
    StatusesAppend([Main(0), Main(0), Main(0), Main(0)], [Rt, Rt, Rt, Rt]);
    FourMains();
  }

  lemma {:induction false} StatusesAppend(first: seq<Step>, second: seq<Step>)
    ensures Statuses(first + second) == Statuses(first) + Statuses(second)
    decreases |first|
  {
    if first == [] {
      assert first + second == second;
    } else {
      hide Result;
      var all := first + second;
      assert all[0] == first[0] && all[1..] == first[1..] + second;
      StatusesAppend(first[1..], second);
      assert Result(first[0]) + (Statuses(first[1..]) + Statuses(second)) ==
             (Result(first[0]) + Statuses(first[1..])) + Statuses(second);
    }
  }

  lemma FourMains()
    ensures Statuses([Main(0), Main(0), Main(0), Main(0)]) == [0, 0, 0, 0] && Statuses([Rt, Rt, Rt, Rt]) == []
  {
    var m := Main(0);
    assert [m, m, m, m][1..] == [m, m, m] && [m, m, m][1..] == [m, m] && [m, m][1..] == [m] && [m][1..] == [];
    assert Statuses([m]) == [0] && Statuses([m, m]) == [0, 0] && Statuses([m, m, m]) == [0, 0, 0];
    assert [Rt, Rt, Rt, Rt][1..] == [Rt, Rt, Rt] && [Rt, Rt, Rt][1..] == [Rt, Rt] && [Rt, Rt][1..] == [Rt];
    assert Statuses([Rt]) == [] && Statuses([Rt, Rt]) == [] && Statuses([Rt, Rt, Rt]) == [];
  }

  /** Or the thread ends at once, because the derived Execute is not in place yet; main is past init. */
  lemma LostThread()
    ensures var s := Run(Apply, Start(true), [Main(0), Main(0), Main(0), Rt] + [Rt, Rt, Main(0), Main(0)]);
            s.rt.Ended? && s.cycles == 0 && s.main.CallResume?
  {
    hide Run;
    RunAppend(Apply, Start(true), [Main(0), Main(0), Main(0), Rt], [Rt, Rt, Main(0), Main(0)]);
    RunFour(Apply, Start(true), Main(0), Main(0), Main(0), Rt);
    RunFour(Apply, Run(Apply, Start(true), [Main(0), Main(0), Main(0), Rt]), Rt, Rt, Main(0), Main(0));
  }

  /** The start is safe in every schedule if and only if the object is created with crrunning false,
      as rttestthread does. */
  lemma SafeExactly(crrunning: bool)
    ensures AlwaysSafe(crrunning) <==> !crrunning
  {
    hide Run;
    if crrunning {
      EarlyCycle();
      var schedule := [Main(0), Main(0), Main(0), Main(0)] + [Rt, Rt, Rt, Rt];
      assert !Safe(Run(Apply, Start(true), schedule), schedule);
    } else {
      forall schedule: seq<Step> ensures Safe(Run(Apply, Start(false), schedule), schedule) {
        GateHolds(schedule);
      }
    }
  }

  /** Once Resume was called nothing blocks the thread: four of its steps later it has run a cycle. */
  lemma ResumeStarts(schedule: seq<Step>)
    requires |Statuses(schedule)| >= 6 && Statuses(schedule)[4] == 0
    ensures var s := Run(Apply, Start(false), schedule);
            var t := Run(Apply, s, [Rt, Rt, Rt, Rt]);
            t.cycles > 0 && t.sends == s.sends
  {
    hide Run;
    RunKeepsInv(Start(false), [], schedule);
    assert [] + Statuses(schedule) == Statuses(schedule);
    RunFour(Apply, Run(Apply, Start(false), schedule), Rt, Rt, Rt, Rt);
  }

  /** The first cycle may come before the first send: then MainTask transfers the initial slot. */
  lemma CycleBeforeFirstSend()
    ensures exists schedule: seq<Step> ::
              var s := Run(Apply, Start(false), schedule);
              s.cycles > 0 && s.sends == 0
  {
    hide Run;
    var first, second, last := [Main(0), Main(0), Main(0), Main(0)], [Main(0), Main(0), Rt, Rt], [Rt, Rt, Rt, Rt];
    var s1 := Run(Apply, Start(false), first);
    Constructed();
    RunFour(Apply, s1, Main(0), Main(0), Rt, Rt);
    RunFour(Apply, Run(Apply, s1, second), Rt, Rt, Rt, Rt);
    RunAppend(Apply, Start(false), first, second + last);
    RunAppend(Apply, s1, second, last);
  }

  lemma Constructed()
    ensures Run(Apply, Start(false), [Main(0), Main(0), Main(0), Main(0)]) ==
            State(false, CallInit, AtGate, true, false, true, 0, 0)
  {
    hide Run;
    RunFour(Apply, Start(false), Main(0), Main(0), Main(0), Main(0));
  }
}
