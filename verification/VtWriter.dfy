/** The corked output of the pseudo console: nested writers append to a back buffer, and when the
    outermost one ends, the buffer becomes the front buffer and is sent as one write. */
module VtWriter {
  import opened Basics

  /** The bytes of a message. */
  type Bytes = string

  const SAVE: Bytes := "\U{1b}7"       // DECSC
  const RESTORE: Bytes := "\U{1b}8"    // DECRC

  /** What WriteFile comes back with. */
  datatype WriteResult = Done | Pending | BrokenPipe | OtherError

  /** The outcome of the system calls one flush makes: the wait for a pending write, then the write. */
  datatype System = System(waitOk: bool, write: WriteResult)

  /** All that the writers share. */
  datatype Io = Io(corked: int, back: Bytes, front: Bytes, pending: bool, restoreCursor: bool, tainted: bool, open: bool)

  /** What the outside sees: buffers handed to WriteFile, waits, and requests to close the console. */
  datatype Event = Wrote(data: Bytes) | Waited | CloseAsked

  // ----- the operations, as functions of the state and the events so far

  datatype World = World(io: Io, log: seq<Event>)

  function Open(v: World): World {
    v.(io := v.io.(corked := v.io.corked + 1))
  }

  function Append(v: World, data: Bytes): World {
    v.(io := v.io.(back := v.io.back + data))
  }

  function Backup(v: World): World {
    if v.io.restoreCursor then v
    else v.(io := v.io.(restoreCursor := true, back := v.io.back + SAVE))
  }

  /** The end of a pending write, before the front buffer may be touched. */
  function AwaitPending(v: World, sys: System): World {
    if !v.io.pending then v
    else if sys.waitOk then World(v.io.(pending := false), v.log + [Waited])
    else World(v.io.(pending := false, open := false), v.log + [Waited, CloseAsked])
  }

  function SendFront(v: World, sys: System): World {
    var v1 := v.(log := v.log + [Wrote(v.io.front)]);
    match sys.write
    case Done => v1
    case Pending => v1.(io := v1.io.(pending := true))
    case BrokenPipe => World(v1.io.(open := false), v1.log + [CloseAsked])
    case OtherError => v1
  }

  /** _flushNow. */
  function Flush(v: World, sys: System): World {
    var minSize := if v.io.restoreCursor then 4 else 0;
    var v1 := if v.io.restoreCursor then v.(io := v.io.(restoreCursor := false, back := v.io.back + RESTORE)) else v;
    var v2 := AwaitPending(v1, sys);
    var v3 := v2.(io := v2.io.(front := v2.io.back, back := []));
    if v3.io.tainted then v3.(io := v3.io.(tainted := false))
    else if |v3.io.front| <= minSize then v3
    else if !v3.io.open then v3
    else SendFront(v3, sys)
  }

  /** _uncork. */
  function Uncork(v: World, sys: System): World {
    var v1 := v.(io := v.io.(corked := v.io.corked - 1));
    if v1.io.corked <= 0 then Flush(v1, sys) else v1
  }

  function Taint(v: World): World {
    v.(io := v.io.(tainted := true))
  }

  // ----- the object

  class VtIo {
    var corked: int
    var back: Bytes
    var front: Bytes
    var pending: bool
    var restoreCursor: bool
    var tainted: bool
    var open: bool
    ghost var log: seq<Event>

    ghost function View(): World
      reads this
    {
      World(Io(corked, back, front, pending, restoreCursor, tainted, open), log)
    }

    constructor ()
      ensures View() == World(Io(0, [], [], false, false, false, true), [])
    {
      corked, back, front := 0, [], [];
      pending, restoreCursor, tainted, open := false, false, false, true;
      log := [];
    }

    /** Writer::Writer. */
    method OpenWriter()
      modifies this
      ensures View() == Open(old(View()))
    {
      corked := corked + 1;
    }

    /** Writer::~Writer of a writer that was not submitted. */
    method AbandonWriter(sys: System)
      modifies this
      ensures View() == Uncork(Taint(old(View())), sys)
    {
      tainted := true;
      DoUncork(sys);
    }

    /** Writer::Submit. */
    method SubmitWriter(sys: System)
      modifies this
      ensures View() == Uncork(old(View()), sys)
    {
      DoUncork(sys);
    }

    method DoUncork(sys: System)
      modifies this
      ensures View() == Uncork(old(View()), sys)
    {
      corked := corked - 1;
      if corked <= 0 {
        FlushNow(sys);
      }
    }

    method FlushNow(sys: System)
      modifies this
      ensures View() == Flush(old(View()), sys)
    {
      var minSize := 0;
      if restoreCursor {
        minSize := 4;
        restoreCursor := false;
        back := back + RESTORE;
      }
      if pending {
        pending := false;
        log := log + [Waited];
        if !sys.waitOk {
          open := false;
          SendCloseEvent();
        }
      }
      front, back := back, [];
      if tainted {
        tainted := false;
        return;
      }
      if |front| <= minSize {
        return;
      }
      if !open {
        return;
      }
      log := log + [Wrote(front)];
      match sys.write {
        case Done =>
        case BrokenPipe =>
          open := false;
          SendCloseEvent();
        case Pending =>
          pending := true;
        case OtherError =>
      }
    }

    method SendCloseEvent()
      modifies this`log
      ensures log == old(log) + [CloseAsked]
    {
      log := log + [CloseAsked];
    }

    /** Writer::BackupCursor. */
    method BackupCursor()
      modifies this
      ensures View() == Backup(old(View()))
    {
      if !restoreCursor {
        restoreCursor := true;
        back := back + SAVE;
      }
    }

    /** Writer::WriteUTF8. */
    method WriteUTF8(data: Bytes)
      modifies this
      ensures View() == Append(old(View()), data)
    {
      back := back + data;
    }
  }

  // ----- whole runs

  /** What the holders of writers can do; a writer ends by being submitted or abandoned. */
  datatype Op = DoOpen | DoWrite(data: Bytes) | DoBackup | DoSubmit(sys: System) | DoAbandon(sys: System)

  function Step(v: World, op: Op): World {
    match op
    case DoOpen => Open(v)
    case DoWrite(data) => Append(v, data)
    case DoBackup => Backup(v)
    case DoSubmit(sys) => Uncork(v, sys)
    case DoAbandon(sys) => Uncork(Taint(v), sys)
  }

  function Run(v: World, ops: seq<Op>): World
    decreases |ops|
  {
    if ops == [] then v else Run(Step(v, ops[0]), ops[1..])
  }

  /** How many writers are open after op. */
  function NestingStep(op: Op, n: int): int {
    match op
    case DoOpen => n + 1
    case DoSubmit(_) => n - 1
    case DoAbandon(_) => n - 1
    case _ => n
  }

  /** How many writers are open after ops, starting from n. */
  function Nesting(ops: seq<Op>, n: int): int {
    if ops == [] then n
    else Nesting(ops[1..], NestingStep(ops[0], n))
  }

  predicate Ends(op: Op) {
    op.DoSubmit? || op.DoAbandon?
  }

  /** Between the start and the end of the outermost writer some writer is always open. */
  ghost predicate Inside(ops: seq<Op>, n: int) {
    && n >= 1
    && (ops != [] ==> Inside(ops[1..], NestingStep(ops[0], n)))
  }

  /** One outermost batch: from the first writer's opening to the end that uncorks the output. */
  datatype Batch = Batch(body: seq<Op>, last: Op) {
    ghost predicate Proper() {
      Ends(last) && Inside(body, 1) && Nesting(body, 1) == 1
    }

    function Ops(): seq<Op> {
      [DoOpen] + body + [last]
    }
  }

  /** The text of a batch, with one save where the cursor was first backed up. */
  function Text(ops: seq<Op>, saved: bool): Bytes {
    if ops == [] then [] else Piece(ops[0], saved) + Text(ops[1..], saved || ops[0].DoBackup?)
  }

  /** What one operation adds. */
  function Piece(op: Op, saved: bool): Bytes {
    match op
    case DoWrite(data) => data
    case DoBackup => if saved then [] else SAVE
    case _ => []
  }

  predicate Backs(ops: seq<Op>) {
    DoBackup in ops
  }

  predicate Abandons(ops: seq<Op>) {
    exists i :: 0 <= i < |ops| && ops[i].DoAbandon?
  }

  /** Some writer of the batch had something to say. */
  predicate Says(ops: seq<Op>) {
    exists i :: 0 <= i < |ops| && ops[i].DoWrite? && ops[i].data != []
  }

  /** The whole message of a batch: what was written, ending in the restore if the cursor was saved. */
  function Message(b: Batch): Bytes {
    Text(b.body, false) + (if Backs(b.body) then RESTORE else [])
  }

  /** No writer open, nothing buffered. */
  ghost predicate Idle(v: World) {
    v.io.corked == 0 && v.io.back == [] && !v.io.restoreCursor && !v.io.tainted
  }

  /** The output is open, and the wait for a pending write does not fail. */
  predicate StaysOpen(v: World, sys: System) {
    v.io.open && (v.io.pending ==> sys.waitOk)
  }

  /** What a flush has to wait for. */
  function Waits(v: World, sys: System): seq<Event> {
    if !v.io.pending then [] else if sys.waitOk then [Waited] else [Waited, CloseAsked]
  }

  /** Only an abandoned writer, an empty message or a closed output keeps a batch from being sent. */
  ghost predicate Dropped(v: World, b: Batch)
    requires b.Proper()
  {
    Abandons(b.body + [b.last]) || !Says(b.body) || !StaysOpen(v, b.last.sys)
  }

  /** The writes of a batch, without the saves. */
  function Raw(ops: seq<Op>): Bytes {
    if ops == [] then [] else (if ops[0].DoWrite? then ops[0].data else []) + Raw(ops[1..])
  }

  lemma {:induction false} TextAfterSave(ops: seq<Op>)
    ensures Text(ops, true) == Raw(ops)
  {
    if ops != [] {
      TextAfterSave(ops[1..]);
    }
  }

  /** A message is the writes of its batch in order; if the cursor was backed up, one save stands
      where that first happened and the restore is at the end. */
  lemma {:induction false} TextShape(ops: seq<Op>) returns (k: nat)
    ensures !Backs(ops) ==> Text(ops, false) == Raw(ops)
    ensures Backs(ops) ==> k < |ops| && ops[k].DoBackup? && !Backs(ops[..k])
                           && Text(ops, false) == Raw(ops[..k]) + SAVE + Raw(ops[k..])
  {
    k := 0;
    if ops == [] {
    } else if ops[0].DoBackup? {
      TextAfterSave(ops[1..]);
      RawCons(ops);
      assert Raw(ops[..0]) == [] && ops[0..] == ops;
      assert Text(ops, false) == SAVE + Text(ops[1..], true);
    } else {
      var j := TextShape(ops[1..]);
      assert Backs(ops) <==> Backs(ops[1..]);
      RawCons(ops);
      if Backs(ops) {
        k := j + 1;
        ShiftPrefix(ops, j);
      }
    }
  }

  lemma {:induction false} ShiftPrefix(ops: seq<Op>, j: nat)
    requires ops != [] && !ops[0].DoBackup? && j < |ops[1..]| && !Backs(ops[1..][..j])
    requires Text(ops[1..], false) == Raw(ops[1..][..j]) + SAVE + Raw(ops[1..][j..])
    ensures !Backs(ops[..j + 1]) && Text(ops, false) == Raw(ops[..j + 1]) + SAVE + Raw(ops[j + 1..])
  {
    var head := if ops[0].DoWrite? then ops[0].data else [];
    assert ops[..j + 1][1..] == ops[1..][..j] && ops[1..][j..] == ops[j + 1..];
    assert ops[..j + 1] == [ops[0]] + ops[1..][..j];
    RawCons(ops[..j + 1]);
    assert Text(ops, false) == head + Text(ops[1..], false);
    var a, b := Raw(ops[1..][..j]), Raw(ops[j + 1..]);
    JoinMore(head, a + SAVE, b);
    JoinMore(head, a, SAVE);
  }

  lemma {:induction false} RawCons(ops: seq<Op>)
    requires ops != []
    ensures Raw(ops) == (if ops[0].DoWrite? then ops[0].data else []) + Raw(ops[1..])
  {
  }

  /** The shape of a whole message. */
  lemma {:induction false} MessageShape(b: Batch)
    ensures !Backs(b.body) ==> Message(b) == Raw(b.body)
    ensures Backs(b.body) ==> exists k :: 0 <= k < |b.body| && b.body[k].DoBackup? && !Backs(b.body[..k])
                                && Message(b) == Raw(b.body[..k]) + SAVE + Raw(b.body[k..]) + RESTORE
  {
    var k := TextShape(b.body);
  }

  lemma {:induction false} RawSilent(ops: seq<Op>)
    ensures Raw(ops) == [] <==> !Says(ops)
  {
    if ops != [] {
      RawSilent(ops[1..]);
      assert Says(ops) <==> (ops[0].DoWrite? && ops[0].data != []) || Says(ops[1..]) by {
        if Says(ops[1..]) {
          var i :| 0 <= i < |ops[1..]| && ops[1..][i].DoWrite? && ops[1..][i].data != [];
          assert ops[i + 1].DoWrite?;
        }
      }
    }
  }

  lemma {:induction false} TextLength(ops: seq<Op>, saved: bool)
    ensures |Text(ops, saved)| == |Raw(ops)| + if !saved && Backs(ops) then 2 else 0
  {
    if ops != [] {
      TextLength(ops[1..], saved || ops[0].DoBackup?);
      assert Backs(ops) <==> ops[0].DoBackup? || Backs(ops[1..]);
    }
  }

  /** The world after a stretch of operations inside a batch: only the back buffer has grown. */
  ghost function Grown(v: World, ops: seq<Op>): World {
    v.(io := v.io.(corked := Nesting(ops, v.io.corked),
                   back := v.io.back + Text(ops, v.io.restoreCursor),
                   restoreCursor := v.io.restoreCursor || Backs(ops),
                   tainted := v.io.tainted || Abandons(ops)))
  }

  /** A step inside a batch, where nothing is flushed. */
  function StepInside(v: World, op: Op): World {
    v.(io := v.io.(corked := NestingStep(op, v.io.corked),
                   back := v.io.back + Piece(op, v.io.restoreCursor),
                   restoreCursor := v.io.restoreCursor || op.DoBackup?,
                   tainted := v.io.tainted || op.DoAbandon?))
  }

  lemma {:induction false} StepIsInside(v: World, op: Op)
    requires NestingStep(op, v.io.corked) >= 1
    ensures Step(v, op) == StepInside(v, op)
  {
  }

  lemma {:induction false} GrownStep(v: World, ops: seq<Op>)
    requires ops != []
    ensures Grown(StepInside(v, ops[0]), ops[1..]) == Grown(v, ops)
  {
    AbandonsCons(ops);
    assert Backs(ops) <==> ops[0].DoBackup? || Backs(ops[1..]);
    TextStep(v, ops);
  }

  lemma {:induction false} TextStep(v: World, ops: seq<Op>)
    requires ops != []
    ensures StepInside(v, ops[0]).io.back + Text(ops[1..], StepInside(v, ops[0]).io.restoreCursor)
         == v.io.back + Text(ops, v.io.restoreCursor)
  {
    JoinMore(v.io.back, Piece(ops[0], v.io.restoreCursor), Text(ops[1..], v.io.restoreCursor || ops[0].DoBackup?));
  }

  lemma {:induction false} BodyRun(v: World, ops: seq<Op>)
    requires Inside(ops, v.io.corked)
    ensures Run(v, ops) == Grown(v, ops)
    decreases |ops|
  {
    if ops != [] {
      assert Inside(ops[1..], NestingStep(ops[0], v.io.corked));
      StepIsInside(v, ops[0]);
      GrownStep(v, ops);
      BodyRun(StepInside(v, ops[0]), ops[1..]);
    }
  }

  lemma {:induction false} AbandonsCons(ops: seq<Op>)
    requires ops != []
    ensures Abandons(ops) <==> ops[0].DoAbandon? || Abandons(ops[1..])
  {
    if Abandons(ops[1..]) {
      var i :| 0 <= i < |ops[1..]| && ops[1..][i].DoAbandon?;
      assert ops[i + 1].DoAbandon?;
    }
  }

  lemma {:induction false} RunConcat(v: World, a: seq<Op>, b: seq<Op>)
    ensures Run(v, a + b) == Run(Run(v, a), b)
    decreases |a|
  {
    if a == [] {
      assert a + b == b;
    } else {
      RunConcat(Step(v, a[0]), a[1..], b);
      assert (a + b)[1..] == a[1..] + b;
    }
  }

  lemma {:induction false} AbandonsLast(ops: seq<Op>, op: Op)
    ensures Abandons(ops + [op]) <==> Abandons(ops) || op.DoAbandon?
  {
    if Abandons(ops) {
      var i :| 0 <= i < |ops| && ops[i].DoAbandon?;
      assert (ops + [op])[i].DoAbandon?;
    }
    if op.DoAbandon? {
      assert (ops + [op])[|ops|].DoAbandon?;
    }
  }

  /** What the log gains from a batch: after the wait for an earlier write, the whole message or
      nothing. */
  ghost function Sending(v: World, b: Batch): seq<Event>
    requires b.Proper()
  {
    if Dropped(v, b) then []
    else [Wrote(Message(b))] + (if b.last.sys.write.BrokenPipe? then [CloseAsked] else [])
  }

  /** A flush of a buffer that ends a batch: nothing is left over, and the buffer is sent if it is not
      tainted, says something and the output is open.  The output stays open unless the wait fails or
      the pipe is broken, and a write is pending exactly if this one is. */
  lemma {:induction false} FlushOutcome(v: World, sys: System)
    ensures var v' := Flush(v, sys);
            var message := v.io.back + if v.io.restoreCursor then RESTORE else [];
            var sent := !v.io.tainted && |message| > (if v.io.restoreCursor then 4 else 0) && StaysOpen(v, sys);
            && v'.io.corked == v.io.corked && v'.io.back == [] && !v'.io.restoreCursor && !v'.io.tainted
            && v'.io.front == message
            && (v'.io.open <==> StaysOpen(v, sys) && !(sent && sys.write.BrokenPipe?))
            && (v'.io.pending <==> sent && sys.write.Pending?)
            && v'.log == v.log + Waits(v, sys)
                         + if !sent then [] else [Wrote(message)] + if sys.write.BrokenPipe? then [CloseAsked] else []
  {
    assert v.log + [] == v.log;
  }

  /** What a batch leaves behind. */
  ghost predicate Outcome(v: World, b: Batch, v': World)
    requires b.Proper()
  {
    && Idle(v') && v'.io.front == Message(b)
    && v'.log == v.log + Waits(v, b.last.sys) + Sending(v, b)
    && (v'.io.open <==> StaysOpen(v, b.last.sys) && !(!Dropped(v, b) && b.last.sys.write.BrokenPipe?))
    && (v'.io.pending <==> !Dropped(v, b) && b.last.sys.write.Pending?)
  }

  /** The end of a batch. */
  lemma {:induction false} LastStep(v: World, b: Batch)
    requires Idle(v) && b.Proper()
    ensures Outcome(v, b, Step(Grown(Open(v), b.body), b.last))
  {
    var v2 := Grown(Open(v), b.body);
    assert v2.io.back == Text(b.body, false) && v2.io.corked == 1;
    AbandonsLast(b.body, b.last);
    RawSilent(b.body);
    TextLength(b.body, false);
    assert |Message(b)| == |Raw(b.body)| + if Backs(b.body) then 4 else 0;
    var v3 := if b.last.DoAbandon? then Taint(v2) else v2;
    FlushOutcome(v3.(io := v3.io.(corked := 0)), b.last.sys);
  }

  /** Each outermost batch is sent whole and once, or not at all, and leaves everything ready for the
      next. */
  lemma {:induction false} BatchOutcome(v: World, b: Batch)
    requires Idle(v) && b.Proper()
    ensures Outcome(v, b, Run(v, b.Ops()))
  {
    BodyRun(Open(v), b.body);
    RunConcat(v, [DoOpen] + b.body, [b.last]);
    RunConcat(v, [DoOpen], b.body);
    RunOne(v, DoOpen);
    RunOne(Run(v, [DoOpen] + b.body), b.last);
    LastStep(v, b);
  }

  lemma {:induction false} RunOne(v: World, op: Op)
    ensures Run(v, [op]) == Step(v, op)
  {
    assert Run(v, [op]) == Run(Step(v, op), [op][1..]);
  }

  /** The messages handed to WriteFile, in order. */
  function Sent(log: seq<Event>): seq<Bytes> {
    if log == [] then [] else (if log[0].Wrote? then [log[0].data] else []) + Sent(log[1..])
  }

  lemma {:induction false} SentConcat(a: seq<Event>, b: seq<Event>)
    ensures Sent(a + b) == Sent(a) + Sent(b)
  {
    if a == [] {
      assert a + b == b;
    } else {
      SentConcat(a[1..], b);
      assert (a + b)[1..] == a[1..] + b;
      var head := if a[0].Wrote? then [a[0].data] else [];
      assert Sent(a + b) == head + (Sent(a[1..]) + Sent(b));
      assert Sent(a) == head + Sent(a[1..]);
    }
  }

  function AllOps(bs: seq<Batch>): seq<Op> {
    if bs == [] then [] else bs[0].Ops() + AllOps(bs[1..])
  }

  ghost predicate AllProper(bs: seq<Batch>) {
    forall i :: 0 <= i < |bs| ==> bs[i].Proper()
  }

  /** The messages of the batches that are not dropped, in order. */
  ghost function Messages(v: World, bs: seq<Batch>): seq<Bytes>
    requires AllProper(bs)
    decreases |bs|
  {
    if bs == [] then []
    else (if Dropped(v, bs[0]) then [] else [Message(bs[0])]) + Messages(Run(v, bs[0].Ops()), bs[1..])
  }

  /** Over any run of batches, however their writers nest, the output receives exactly the messages of
      the batches that were not dropped, each whole, once and in order. */
  lemma {:induction false} SentInOrder(v: World, bs: seq<Batch>)
    requires Idle(v) && AllProper(bs)
    ensures Idle(Run(v, AllOps(bs)))
    ensures Sent(Run(v, AllOps(bs)).log) == Sent(v.log) + Messages(v, bs)
    decreases |bs|
  {
    if bs != [] {
      var first, rest := bs[0].Ops(), AllOps(bs[1..]);
      BatchSent(v, bs[0]);
      assert AllOps(bs) == first + rest;
      RunConcat(v, first, rest);
      var v1 := Run(v, first);
      SentInOrder(v1, bs[1..]);
      var m := if Dropped(v, bs[0]) then [] else [Message(bs[0])];
      assert Messages(v, bs) == m + Messages(v1, bs[1..]);
      assert Sent(v.log) + m + Messages(v1, bs[1..]) == Sent(v.log) + (m + Messages(v1, bs[1..]));
    }
  }

  /** The messages of the batches that say something and abandon no writer. */
  ghost function Told(bs: seq<Batch>): seq<Bytes> {
    if bs == [] then []
    else (if Says(bs[0].body) && !Abandons(bs[0].body + [bs[0].last]) then [Message(bs[0])] else []) + Told(bs[1..])
  }

  /** No wait fails and no write breaks the pipe. */
  ghost predicate Works(bs: seq<Batch>) {
    forall i :: 0 <= i < |bs| ==> Ends(bs[i].last) && bs[i].last.sys.waitOk && !bs[i].last.sys.write.BrokenPipe?
  }

  /** While the output is open and the system works, every batch that says something and abandons no writer is
      sent. */
  lemma {:induction false} AllAreSent(v: World, bs: seq<Batch>)
    requires Idle(v) && v.io.open && AllProper(bs) && Works(bs)
    ensures Run(v, AllOps(bs)).io.open && Sent(Run(v, AllOps(bs)).log) == Sent(v.log) + Told(bs)
    decreases |bs|
  {
    SentInOrder(v, bs);
    if bs != [] {
      var v1 := Run(v, bs[0].Ops());
      BatchOutcome(v, bs[0]);
      RunConcat(v, bs[0].Ops(), AllOps(bs[1..]));
      AllAreSent(v1, bs[1..]);
      MessagesTold(v, bs);
    }
  }

  lemma {:induction false} MessagesTold(v: World, bs: seq<Batch>)
    requires Idle(v) && v.io.open && AllProper(bs) && Works(bs)
    ensures Messages(v, bs) == Told(bs)
    decreases |bs|
  {
    if bs != [] {
      BatchOutcome(v, bs[0]);
      MessagesTold(Run(v, bs[0].Ops()), bs[1..]);
    }
  }

  lemma {:induction false} BatchSent(v: World, b: Batch)
    requires Idle(v) && b.Proper()
    ensures Idle(Run(v, b.Ops()))
    ensures Sent(Run(v, b.Ops()).log) == Sent(v.log) + if Dropped(v, b) then [] else [Message(b)]
  {
    BatchOutcome(v, b);
    var waits := Waits(v, b.last.sys);
    SentConcat(v.log, waits);
    SentConcat(v.log + waits, Sending(v, b));
    SentWaits(waits);
    SentSending(v, b);
  }

  lemma {:induction false} SentWaits(waits: seq<Event>)
    requires waits == [] || waits == [Waited] || waits == [Waited, CloseAsked]
    ensures Sent(waits) == []
  {
    if waits != [] {
      assert waits[1..] == [] || waits[1..] == [CloseAsked];
      assert Sent([CloseAsked]) == Sent([CloseAsked][1..]);
    }
  }

  lemma {:induction false} SentSending(v: World, b: Batch)
    requires b.Proper()
    ensures Sent(Sending(v, b)) == if Dropped(v, b) then [] else [Message(b)]
  {
    if !Dropped(v, b) {
      var rest := if b.last.sys.write.BrokenPipe? then [CloseAsked] else [];
      SentConcat([Wrote(Message(b))], rest);
      assert Sent([Wrote(Message(b))]) == [Message(b)] + Sent([Wrote(Message(b))][1..]);
      assert rest != [] ==> Sent(rest) == Sent(rest[1..]);
    }
  }

  // ----- the front buffer belongs to the system while a write is pending

  /** The buffer of the last write. */
  function LastWrote(log: seq<Event>): Bytes {
    if log == [] then []
    else if log[|log| - 1].Wrote? then log[|log| - 1].data
    else LastWrote(log[..|log| - 1])
  }

  ghost predicate FrontIntact(v: World) {
    v.io.pending ==> v.io.front == LastWrote(v.log)
  }

  lemma {:induction false} LastWrotePush(log: seq<Event>, e: Event)
    ensures LastWrote(log + [e]) == if e.Wrote? then e.data else LastWrote(log)
  {
    assert (log + [e])[..|log|] == log;
  }

  /** No operation, in any state, changes the front buffer during a pending write: it either leaves it
      alone or waits first. */
  lemma {:induction false} FrontKept(v: World, op: Op)
    requires FrontIntact(v)
    ensures FrontIntact(Step(v, op))
    ensures var v' := Step(v, op);
            v.io.pending && v'.io.front != v.io.front ==> |v'.log| > |v.log| && v'.log[|v.log|] == Waited
    ensures v.log <= Step(v, op).log
  {
    if Ends(op) {
      var w := if op.DoAbandon? then Taint(v) else v;
      FlushFront(w.(io := w.io.(corked := w.io.corked - 1)), op.sys);
    }
  }

  lemma {:induction false} FlushFront(v: World, sys: System)
    ensures FrontIntact(Flush(v, sys)) && v.log <= Flush(v, sys).log
    ensures v.io.pending ==> |Flush(v, sys).log| > |v.log| && Flush(v, sys).log[|v.log|] == Waited
  {
    var v1 := if v.io.restoreCursor then v.(io := v.io.(restoreCursor := false, back := v.io.back + RESTORE)) else v;
    var v2 := AwaitPending(v1, sys);
    var v3 := v2.(io := v2.io.(front := v2.io.back, back := []));
    LastWrotePush(v3.log, Wrote(v3.io.front));
  }

  lemma {:induction false} FrontKeptAlways(v: World, ops: seq<Op>)
    requires FrontIntact(v)
    ensures FrontIntact(Run(v, ops))
    decreases |ops|
  {
    if ops != [] {
      FrontKept(v, ops[0]);
      FrontKeptAlways(Step(v, ops[0]), ops[1..]);
    }
  }
}
