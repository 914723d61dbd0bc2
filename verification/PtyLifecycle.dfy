/** Start-up, closing and resizing of the pseudo console.  The threads involved take the console lock
    for every step below, so a run is any interleaving of whole steps; only the wait for the
    terminal's answer during start-up gives the lock up in between. */
module PtyLifecycle {
  import opened Basics

  datatype Phase = Uninitialized | Initialized | Starting | StartupFailed | Running

  datatype Size = Size(sx: nat, sy: nat)

  /** Where the thread that runs StartIfNeeded is. */
  datatype Starter = NotStarted | WaitingForAnswer | Returned(ok: bool)

  /** The shared state, and what has been asked of the rest of the console so far. */
  datatype Pty = Pty(phase: Phase, closeEventSent: bool, starter: Starter,
                     connected: bool, earlyResize: Option<Size>, initialShow: Option<bool>,
                     closes: nat, resizes: seq<Size>, shows: seq<bool>)

  const FRESH := Pty(Uninitialized, false, NotStarted, false, None, None, 0, [], [])

  datatype Step =
    | Initialize
    | StartBegin(noThread: bool, outputBroken: bool, waits: bool)
    | StartFinish
    | PipeClosed
    | Resize(size: Size)
    | ShowHide(show: bool)

  // ----- the steps as functions

  function Close(p: Pty): Pty {
    if p.phase == Starting then p.(phase := StartupFailed)
    else if p.closeEventSent then p
    else p.(closeEventSent := true, closes := p.closes + 1)
  }

  function DoResize(p: Pty, size: Size): Pty {
    if !p.connected then p.(earlyResize := Some(size)) else p.(resizes := p.resizes + [size])
  }

  function DoShow(p: Pty, show: bool): Pty {
    if !p.connected then p.(initialShow := Some(show)) else p.(shows := p.shows + [show])
  }

  function Connect(p: Pty): Pty {
    var p1 := p.(connected := true);
    var p2 := if p1.earlyResize.Some? then DoResize(p1, p1.earlyResize.value) else p1;
    if p2.initialShow.Some? then DoShow(p2, p2.initialShow.value) else p2
  }

  /** The rest of StartIfNeeded, after the terminal has been asked. */
  function Finish(p: Pty): Pty {
    var p1 := Connect(p);
    if p1.phase != Starting then p1.(starter := Returned(false))
    else p1.(phase := Running, starter := Returned(true))
  }

  /** StartIfNeeded up to the point where it may give up the lock. */
  function Begin(p: Pty, noThread: bool, outputBroken: bool, waits: bool): Pty {
    if p.phase != Initialized then p
    else
      var p1 := p.(phase := Starting);
      if noThread then p1.(starter := Returned(false))
      else
        var p2 := if outputBroken then Close(p1) else p1;
        if waits then p2.(starter := WaitingForAnswer) else Finish(p2)
  }

  function Take(p: Pty, s: Step): Pty {
    match s
    case Initialize => if p.phase == Uninitialized then p.(phase := Initialized) else p
    case StartBegin(noThread, outputBroken, waits) => Begin(p, noThread, outputBroken, waits)
    case StartFinish => if p.starter == WaitingForAnswer then Finish(p) else p
    case PipeClosed => Close(p)
    case Resize(size) => DoResize(p, size)
    case ShowHide(show) => DoShow(p, show)
  }

  // ----- the objects

  class VtIo {
    var phase: Phase
    var closeEventSent: bool
    var signal: SignalThread
    ghost var starter: Starter
    ghost var closes: nat

    ghost function View(): Pty
      reads this, signal
    {
      Pty(phase, closeEventSent, starter, signal.consoleConnected, signal.earlyResize, signal.initialShowHide,
          closes, signal.resizes, signal.shows)
    }

    constructor ()
      ensures View() == FRESH && fresh(signal)
    {
      phase, closeEventSent, starter, closes := Uninitialized, false, NotStarted, 0;
      signal := new SignalThread();
    }

    /** VtIo::_Initialize. */
    method Initialize() returns (ok: bool)
      modifies this`phase
      ensures View() == Take(old(View()), Step.Initialize)
      ensures ok <==> old(phase) == Uninitialized
    {
      if phase != Uninitialized {
        return false;
      }
      phase := Initialized;
      return true;
    }

    /** VtIo::SendCloseEvent. */
    method SendCloseEvent()
      modifies this`phase, this`closeEventSent, this`closes
      ensures View() == Close(old(View()))
    {
      if phase == Starting {
        phase := StartupFailed;
        return;
      }
      var sent := closeEventSent;
      closeEventSent := true;
      if !sent {
        closes := closes + 1;
      }
    }

    /** VtIo::StartIfNeeded, first part. */
    method StartIfNeeded(noThread: bool, outputBroken: bool, waits: bool) returns (began: bool)
      modifies this, signal
      ensures signal == old(signal)
      ensures View() == Begin(old(View()), noThread, outputBroken, waits)
      ensures began <==> old(phase) == Initialized
    {
      if phase != Initialized {
        return false;
      }
      began := true;
      phase := Starting;
      if noThread {
        starter := Returned(false);
        return;
      }
      if outputBroken {
        SendCloseEvent();
      }
      if waits {
        starter := WaitingForAnswer;
        return;
      }
      var ok := FinishStart();
    }

    /** VtIo::StartIfNeeded, from where it holds the lock again. */
    method FinishStart() returns (ok: bool)
      modifies this, signal
      ensures signal == old(signal)
      ensures View() == Finish(old(View())) && starter == Returned(ok)
      ensures ok <==> phase == Running && old(phase) == Starting
    {
      signal.ConnectConsole();
      if phase != Starting {
        starter := Returned(false);
        return false;
      }
      phase := Running;
      starter := Returned(true);
      return true;
    }
  }

  class SignalThread {
    var consoleConnected: bool
    var earlyResize: Option<Size>
    var initialShowHide: Option<bool>
    ghost var resizes: seq<Size>
    ghost var shows: seq<bool>

    constructor ()
      ensures !consoleConnected && earlyResize == None && initialShowHide == None && resizes == [] && shows == []
    {
      consoleConnected, earlyResize, initialShowHide, resizes, shows := false, None, None, [], [];
    }

    /** PtySignalInputThread::ConnectConsole. */
    method ConnectConsole()
      modifies this
      ensures consoleConnected && earlyResize == old(earlyResize) && initialShowHide == old(initialShowHide)
      ensures resizes == old(resizes) + if old(earlyResize).Some? then [old(earlyResize).value] else []
      ensures shows == old(shows) + if old(initialShowHide).Some? then [old(initialShowHide).value] else []
    {
      consoleConnected := true;
      if earlyResize.Some? {
        DoResizeWindow(earlyResize.value);
      }
      if initialShowHide.Some? {
        DoShowHide(initialShowHide.value);
      }
    }

    /** PtySignalInputThread::_DoResizeWindow. */
    method DoResizeWindow(size: Size)
      modifies this`earlyResize, this`resizes
      ensures if old(consoleConnected) then resizes == old(resizes) + [size] && earlyResize == old(earlyResize)
              else earlyResize == Some(size) && resizes == old(resizes)
    {
      if !consoleConnected {
        earlyResize := Some(size);
        return;
      }
      resizes := resizes + [size];
    }

    /** PtySignalInputThread::_DoShowHide. */
    method DoShowHide(show: bool)
      modifies this`initialShowHide, this`shows
      ensures if old(consoleConnected) then shows == old(shows) + [show] && initialShowHide == old(initialShowHide)
              else initialShowHide == Some(show) && shows == old(shows)
    {
      if !consoleConnected {
        initialShowHide := Some(show);
        return;
      }
      shows := shows + [show];
    }
  }

  // ----- all interleavings

  function Run(p: Pty, steps: seq<Step>): Pty {
    if steps == [] then p else Take(Run(p, steps[..|steps| - 1]), steps[|steps| - 1])
  }

  /** The size in the last resize message of a run. */
  function LastResize(steps: seq<Step>): Option<Size> {
    if steps == [] then None
    else
      var s := steps[|steps| - 1];
      if s.Resize? then Some(s.size) else LastResize(steps[..|steps| - 1])
  }

  function LastShow(steps: seq<Step>): Option<bool> {
    if steps == [] then None
    else
      var s := steps[|steps| - 1];
      if s.ShowHide? then Some(s.show) else LastShow(steps[..|steps| - 1])
  }

  /** The last element handed out, if anything has been. */
  function Latest<T>(s: seq<T>): Option<T> {
    if s == [] then None else Some(s[|s| - 1])
  }

  /** What holds after a run whose last resize and visibility messages were lr and ls: a close of the
      console has been asked for at most once; before the console is connected nothing has been passed
      on to it, and afterwards the size it was last given is lr, however early that came, and likewise
      its visibility. */
  ghost predicate Inv(p: Pty, lr: Option<Size>, ls: Option<bool>) {
    && p.closes == (if p.closeEventSent then 1 else 0)
    && (if p.connected then Latest(p.resizes) == lr && Latest(p.shows) == ls
        else p.resizes == [] && p.shows == [] && p.earlyResize == lr && p.initialShow == ls)
    && (p.connected ==> p.starter.Returned?)
    && (p.phase == Running <==> p.starter == Returned(true))
    && (p.starter == WaitingForAnswer ==> p.phase == Starting || p.phase == StartupFailed)
    && (p.phase == Uninitialized || p.phase == Initialized ==> p.starter == NotStarted)
  }

  lemma {:induction false} FinishKeeps(p: Pty, lr: Option<Size>, ls: Option<bool>)
    requires Inv(p, lr, ls) && !p.connected && (p.phase == Starting || p.phase == StartupFailed)
    ensures Inv(Finish(p), lr, ls)
  {
  }

  lemma {:induction false} BeginKeeps(p: Pty, noThread: bool, outputBroken: bool, waits: bool, lr: Option<Size>, ls: Option<bool>)
    requires Inv(p, lr, ls)
    ensures Inv(Begin(p, noThread, outputBroken, waits), lr, ls)
  {
    if p.phase == Initialized && !noThread && !waits {
      var p1 := p.(phase := Starting);
      var p2 := if outputBroken then Close(p1) else p1;
      assert Inv(p2, lr, ls);
      FinishKeeps(p2, lr, ls);
    }
  }

  lemma {:induction false} TakeKeeps(p: Pty, s: Step, lr: Option<Size>, ls: Option<bool>)
    requires Inv(p, lr, ls)
    ensures Inv(Take(p, s), if s.Resize? then Some(s.size) else lr, if s.ShowHide? then Some(s.show) else ls)
  {
    match s
    case Initialize =>
    case StartBegin(noThread, outputBroken, waits) => BeginKeeps(p, noThread, outputBroken, waits, lr, ls);
    case StartFinish => if p.starter == WaitingForAnswer { FinishKeeps(p, lr, ls); }
    case PipeClosed =>
    case Resize(size) =>
    case ShowHide(show) =>
  }

  /** In every interleaving of the steps. */
  lemma {:induction false} EveryRun(steps: seq<Step>)
    ensures Inv(Run(FRESH, steps), LastResize(steps), LastShow(steps))
  {
    if steps != [] {
      var before := steps[..|steps| - 1];
      EveryRun(before);
      TakeKeeps(Run(FRESH, before), steps[|steps| - 1], LastResize(before), LastShow(before));
    }
  }

  /** A start-up that has failed stays failed, so a close that arrives while starting rules out Running
      for good. */
  lemma {:induction false} FailedForGood(p: Pty, steps: seq<Step>)
    requires p.phase == StartupFailed
    ensures Run(p, steps).phase == StartupFailed
  {
    if steps != [] {
      FailedForGood(p, steps[..|steps| - 1]);
    }
  }

  lemma {:induction false} CloseWhileStarting(p: Pty, after: seq<Step>)
    requires p.phase == Starting
    ensures Run(Take(p, PipeClosed), after).phase == StartupFailed
  {
    FailedForGood(Take(p, PipeClosed), after);
  }

  /** While the starter waits, only a closed pipe changes the phase. */
  lemma {:induction false} WaitingRun(p: Pty, steps: seq<Step>)
    requires p.phase == Starting && p.starter == WaitingForAnswer
    requires StartFinish !in steps
    ensures var q := Run(p, steps);
            q.starter == WaitingForAnswer && q.phase == if PipeClosed in steps then StartupFailed else Starting
  {
    if steps != [] {
      var before, last := steps[..|steps| - 1], steps[|steps| - 1];
      assert steps == before + [last];
      WaitingRun(p, before);
    }
  }

  /** Start-up succeeds exactly when no pipe closes while it waits, whatever else arrives. */
  lemma {:induction false} StartsIffNotClosed(p: Pty, during: seq<Step>)
    requires p.phase == Starting && p.starter == WaitingForAnswer && StartFinish !in during
    ensures Run(p, during + [StartFinish]).phase == Running <==> PipeClosed !in during
  {
    WaitingRun(p, during);
    assert (during + [StartFinish])[..|during|] == during;
  }

  // ----- whole runs, from the start

  lemma {:induction false} RunJoin(p: Pty, a: seq<Step>, b: seq<Step>)
    ensures Run(p, a + b) == Run(Run(p, a), b)
    decreases |b|
  {
    if b == [] {
      assert a + b == a;
    } else {
      RunJoin(p, a, b[..|b| - 1]);
      assert (a + b)[..|a + b| - 1] == a + b[..|b| - 1];
    }
  }

  lemma {:induction false} RunOne(p: Pty, s: Step)
    ensures Run(p, [s]) == Take(p, s)
  {
    assert Run(p, [s][..0]) == p;
  }

  /** Nothing happens to the phase before the console is initialised, nor from then until it is started. */
  lemma {:induction false} BeforeInitialize(p: Pty, steps: seq<Step>)
    requires p.phase == Uninitialized && p.starter == NotStarted && Initialize !in steps
    ensures var q := Run(p, steps); q.phase == Uninitialized && q.starter == NotStarted
  {
    if steps != [] {
      assert steps[|steps| - 1] in steps;
      BeforeInitialize(p, steps[..|steps| - 1]);
    }
  }

  ghost predicate NoStart(steps: seq<Step>) {
    forall i :: 0 <= i < |steps| ==> !steps[i].StartBegin?
  }

  lemma {:induction false} BeforeStart(p: Pty, steps: seq<Step>)
    requires p.phase == Initialized && p.starter == NotStarted && NoStart(steps)
    ensures var q := Run(p, steps); q.phase == Initialized && q.starter == NotStarted
  {
    if steps != [] {
      BeforeStart(p, steps[..|steps| - 1]);
    }
  }

  /** A start-up that has returned is not taken up again. */
  lemma {:induction false} AfterReturn(p: Pty, steps: seq<Step>)
    requires p.starter.Returned? && (p.phase == Starting || p.phase == StartupFailed || p.phase == Running)
    ensures var q := Run(p, steps);
      && q.starter == p.starter && (q.phase == Running <==> p.phase == Running)
      && (q.phase == Starting || q.phase == StartupFailed || q.phase == Running)
  {
    if steps != [] {
      AfterReturn(p, steps[..|steps| - 1]);
    }
  }

  /** A broken output is as good as a pipe that closes. */
  lemma {:induction false} AfterBreak(p: Pty, steps: seq<Step>)
    requires p.phase == StartupFailed && p.starter == WaitingForAnswer && StartFinish !in steps
    ensures var q := Run(p, steps); q.phase == StartupFailed && q.starter == WaitingForAnswer
  {
    if steps != [] {
      assert steps[|steps| - 1] in steps;
      AfterBreak(p, steps[..|steps| - 1]);
    }
  }

  /** From an initialised console: the start-up that begins now reaches Running exactly if its input
      thread can be made, the output works, and, in case it waits, the wait is over before any pipe closes. */
  lemma {:induction false} StartRunsIff(p: Pty, start: Step, during: seq<Step>, after: seq<Step>)
    requires p.phase == Initialized && p.starter == NotStarted && start.StartBegin? && StartFinish !in during
    ensures start.waits ==> Run(Take(p, start), during).phase != Running
    ensures Run(Run(Take(p, start), during + [StartFinish]), after).phase == Running
       <==> !start.noThread && !start.outputBroken && (start.waits ==> PipeClosed !in during)
  {
    var q := Take(p, start);
    var r := Run(q, during + [StartFinish]);
    RunJoin(q, during, [StartFinish]);
    RunOne(Run(q, during), StartFinish);
    if q.starter.Returned? {
      AfterReturn(q, during);
      AfterReturn(q, during + [StartFinish]);
    } else if start.outputBroken {
      AfterBreak(q, during);
    } else {
      WaitingRun(q, during);
      StartsIffNotClosed(q, during);
    }
    AfterReturn(r, after);
  }

  /** The same for a console from its creation on, whatever else happens and in whatever order. */
  lemma {:induction false} WholeRunIff(before: seq<Step>, between: seq<Step>, start: Step, during: seq<Step>, after: seq<Step>)
    requires Initialize !in before && NoStart(between) && start.StartBegin? && StartFinish !in during
    ensures Run(FRESH, before).phase == Uninitialized
    ensures Run(FRESH, before + [Initialize] + between).phase == Initialized
    ensures start.waits ==> Run(FRESH, before + [Initialize] + between + [start] + during).phase != Running
    ensures Run(FRESH, before + [Initialize] + between + [start] + (during + [StartFinish]) + after).phase == Running
       <==> !start.noThread && !start.outputBroken && (start.waits ==> PipeClosed !in during)
  {
    var a := before + [Initialize];
    var b := a + between;
    var c := b + [start];
    BeforeInitialize(FRESH, before);
    RunJoin(FRESH, before, [Initialize]);
    RunOne(Run(FRESH, before), Initialize);
    BeforeStart(Run(FRESH, a), between);
    RunJoin(FRESH, a, between);
    RunJoin(FRESH, b, [start]);
    RunOne(Run(FRESH, b), start);
    RunJoin(FRESH, c, during);
    RunJoin(FRESH, c, during + [StartFinish]);
    RunJoin(FRESH, c + (during + [StartFinish]), after);
    StartRunsIff(Run(FRESH, b), start, during, after);
  }

  /** A pipe that closes has the console close, once, unless a start-up is in progress, which then fails. */
  lemma {:induction false} CloseIsAsked(steps: seq<Step>)
    ensures var p, q := Run(FRESH, steps), Run(FRESH, steps + [PipeClosed]);
      if p.phase == Starting then q.phase == StartupFailed && q.closes == p.closes
      else q.phase == p.phase && q.closes == 1
  {
    EveryRun(steps);
    RunJoin(FRESH, steps, [PipeClosed]);
    RunOne(Run(FRESH, steps), PipeClosed);
  }
}
