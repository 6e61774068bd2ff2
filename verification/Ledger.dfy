/** The ledger: request queues between callers and clerks, replies, crash recovery and reaping. */
module LedgerProtocol {
  import Common

  const CLERK_COUNT: nat := 5
  const MAX_FD: nat := 256

  const FS_PID: nat := 1
  const REAPER_PID: nat := 2
  const GUI_PID: nat := 3
  const DOC_PID: nat := 4

  datatype Status = Pending | InProgress | Complete | Terminated | Failed

  /** The operations that the ledger tells apart. */
  datatype Operation = OpRead | OpWrite | OpCreate | OpOpen | OpList | OpOther

  /** `ticket` stands for the identity of the request object. */
  datatype Request = Request(ticket: nat, caller: nat, op: Operation, status: Status, key: nat, buf: seq<nat>)

  datatype Slot = Empty | Held(req: Request)

  datatype Queue = Queue(table: seq<Slot>, last: int)

  datatype Reply = Error | GotKey(key: nat) | GotBuffer(buf: seq<nat>) | Done

  datatype TaskState = Ready | Running | Blocked | Sleeping | Dead

  /** Where a caller is: between requests, blocked on one, resumed and about to collect, or blocked on nothing. */
  datatype Phase =
    | Idle
    | Waiting(clerk: nat, slot: nat, ticket: nat)
    | Answered(clerk: nat, slot: nat, ticket: nat)
    | Refused(clerk: nat, ticket: nat)
    | Stuck(clerk: nat, ticket: nat)

  /** What a caller submits: to the file system, the window system, the doctor, or a clerk that is to free a task. */
  datatype Call =
    | FsCall(op: Operation, fd: nat, hasBuf: bool)
    | GuiCall(op: Operation, hasPixels: bool, hasBuf: bool)
    | DocCall(op: Operation)
    | FreeCall(clerk: nat, target: nat)

  /** Which of the allocations that a submission may make succeed. */
  datatype Memory = Memory(request: bool, pixels: bool, buf: bool)

  /** A caller blocks before it submits, after it has submitted, or only once its submission is known to be accepted. */
  datatype Order = BlockFirst | SubmitFirst | CheckFirst

  function ClerkOf(call: Call): nat {
    match call
    case FsCall(_, _, _) => FS_PID
    case GuiCall(_, _, _) => GUI_PID
    case DocCall(_) => DOC_PID
    case FreeCall(clerk, _) => clerk
  }

  /** A request to free a task is none of the operations that hand anything over. */
  function OpOf(call: Call): (op: Operation)
    ensures if call.FreeCall? then op !in {OpCreate, OpOpen, OpRead, OpList} else op == call.op
  {
    if call.FreeCall? then OpOther else call.op
  }

  /** Reading and writing need a descriptor in range; a task to be freed needs a number in range. */
  predicate WellFormed(call: Call) {
    match call
    case FsCall(op, fd, _) => op == OpRead || op == OpWrite ==> 2 <= fd <= MAX_FD
    case FreeCall(_, target) => target < Common.MAX_TASKS
    case _ => true
  }

  predicate Allocates(call: Call, memory: Memory) {
    && memory.request
    && (call.GuiCall? && call.hasPixels ==> memory.pixels)
    && (call.FsCall? || call.GuiCall? ==> (call.hasBuf ==> memory.buf))
  }

  ghost predicate HasRoom(queues: map<nat, Queue>, c: nat) {
    c in queues && exists j :: 0 <= j < |queues[c].table| && queues[c].table[j].Empty?
  }

  /** A submission is accepted. */
  ghost predicate Accepted(queues: map<nat, Queue>, call: Call, memory: Memory) {
    WellFormed(call) && Allocates(call, memory) && HasRoom(queues, ClerkOf(call))
  }

  /** The conditions one by one, clerk by clerk. */
  lemma AcceptedMeans(queues: map<nat, Queue>, call: Call, memory: Memory)
    ensures Accepted(queues, call, memory) <==>
              && memory.request
              && match call
                 case FsCall(op, fd, hasBuf) =>
                   (op in {OpRead, OpWrite} ==> 2 <= fd <= 256) && (hasBuf ==> memory.buf) && HasRoom(queues, 1)
                 case GuiCall(_, hasPixels, hasBuf) =>
                   (hasPixels ==> memory.pixels) && (hasBuf ==> memory.buf) && HasRoom(queues, 3)
                 case DocCall(_) => HasRoom(queues, 4)
                 case FreeCall(clerk, target) => target < Common.MAX_TASKS && HasRoom(queues, clerk)
  {}

  /** A refusal that does not wake the caller: a request to free a task that was never built. */
  predicate Silent(call: Call, memory: Memory) { call.FreeCall? && !(WellFormed(call) && Allocates(call, memory)) }

  /** A refused caller blocks with nothing left to wake it. */
  predicate Strands(call: Call, memory: Memory, order: Order) {
    order == SubmitFirst || (order == BlockFirst && Silent(call, memory))
  }

  function AfterRefusal(st: TaskState, call: Call, memory: Memory, order: Order): TaskState {
    if Strands(call, memory, order) then Blocked else if Silent(call, memory) then st else Ready
  }

  predicate Is(s: Slot, status: Status) { s.Held? && s.req.status == status }

  predicate Live(s: Slot) { s.Held? && s.req.status != Terminated }

  predicate Open(s: Slot) { Is(s, Pending) || Is(s, InProgress) }

  /** Collecting hands over the key of CREATE and OPEN, the buffer of LIST and READ, or just success. */
  function ReplyOf(r: Request): Reply {
    if r.status != Complete then Error
    else match r.op
      case OpCreate => GotKey(r.key)
      case OpOpen => GotKey(r.key)
      case OpList => GotBuffer(r.buf)
      case OpRead => GotBuffer(r.buf)
      case _ => Done
  }

  // ---------------------------------------------------------------- invariants

  /** At most one request is in progress, and the recovery index points at it; a serving clerk has one. */
  ghost predicate QueueOk(q: Queue, serving: bool) {
    && -1 <= q.last < |q.table|
    && (forall i :: 0 <= i < |q.table| && Is(q.table[i], InProgress) ==> i == q.last)
    && (serving ==> q.last >= 0 && Is(q.table[q.last], InProgress))
  }

  ghost predicate QueuesOk(queues: map<nat, Queue>, serving: set<nat>) {
    && (forall c :: c in queues ==> c < CLERK_COUNT && QueueOk(queues[c], c in serving))
    && serving <= queues.Keys
  }

  ghost predicate LiveOf(queues: map<nat, Queue>, c: nat, i: nat, p: nat) {
    c in queues && i < |queues[c].table| && Live(queues[c].table[i]) && queues[c].table[i].req.caller == p
  }

  ghost predicate NoneLive(queues: map<nat, Queue>, p: nat) { forall c, i :: !LiveOf(queues, c, i, p) }

  /** The caller's one live request is ticket `t` in slot `i` of clerk `c`. */
  ghost predicate OneLive(queues: map<nat, Queue>, p: nat, c: nat, i: nat, t: nat) {
    && LiveOf(queues, c, i, p) && queues[c].table[i].req.ticket == t
    && forall d, j :: LiveOf(queues, d, j, p) ==> d == c && j == i
  }

  ghost predicate PhaseOk(queues: map<nat, Queue>, answers: map<nat, Reply>, p: nat, ph: Phase) {
    match ph
    case Idle => NoneLive(queues, p)
    case Waiting(c, i, t) => OneLive(queues, p, c, i, t) && Open(queues[c].table[i]) && t !in answers
    case Answered(c, i, t) => OneLive(queues, p, c, i, t) && !Open(queues[c].table[i]) && t in answers
        && answers[t] == ReplyOf(queues[c].table[i].req)
    case Refused(c, t) => NoneLive(queues, p) && t in answers && answers[t] == Error
    case Stuck(c, t) => NoneLive(queues, p) && t !in answers
  }

  ghost predicate PhasesOk(queues: map<nat, Queue>, answers: map<nat, Reply>, phase: map<nat, Phase>) {
    && (forall p :: p in phase ==> PhaseOk(queues, answers, p, phase[p]))
    && (forall p, q :: p in phase && q in phase && p != q && !phase[p].Idle? && !phase[q].Idle? ==>
        phase[p].ticket != phase[q].ticket)
  }

  predicate Blocking(ph: Phase) { ph.Waiting? || ph.Stuck? }

  /** Callers are tasks other than the clerks, and are blocked exactly while their request is open or they are stuck. */
  ghost predicate TasksOk(queues: map<nat, Queue>, tasks: map<nat, TaskState>, phase: map<nat, Phase>) {
    forall p :: p in phase ==>
        p in tasks && p < Common.MAX_TASKS && p !in queues && (tasks[p] == Blocked <==> Blocking(phase[p]))
  }

  /** Every live request belongs to a caller, and tickets are handed out in order. */
  ghost predicate TicketsOk(queues: map<nat, Queue>, answers: map<nat, Reply>, phase: map<nat, Phase>, next: nat) {
    && (forall c, i :: c in queues && 0 <= i < |queues[c].table| && Live(queues[c].table[i]) ==>
        queues[c].table[i].req.caller in phase)
    && (forall p :: p in phase && !phase[p].Idle? ==> phase[p].ticket < next)
    && (forall t :: t in answers ==> t < next)
  }

  // ---------------------------------------------------------------- one slot changes

  function Put(queues: map<nat, Queue>, c: nat, i: nat, s: Slot): map<nat, Queue>
    requires c in queues && i < |queues[c].table|
  {
    queues[c := queues[c].(table := queues[c].table[i := s])]
  }

  function WithStatus(s: Slot, status: Status): Slot
    requires s.Held?
  {
    Held(s.req.(status := status))
  }

  ghost predicate HasOpen(queues: map<nat, Queue>, c: nat) {
    c in queues && exists j :: 0 <= j < |queues[c].table| && Open(queues[c].table[j])
  }

  /** Nothing is in progress, and nothing before `i` is pending. */
  ghost predicate FirstPending(table: seq<Slot>, i: nat) {
    forall j :: 0 <= j < |table| ==> !Is(table[j], InProgress) && (j < i ==> !Is(table[j], Pending))
  }

  /** The request in slot `i` is in progress, and the index is recorded. */
  function Fetched(queues: map<nat, Queue>, c: nat, i: nat): map<nat, Queue>
    requires c in queues && i < |queues[c].table| && queues[c].table[i].Held?
  {
    queues[c := Queue(queues[c].table[i := WithStatus(queues[c].table[i], InProgress)], i)]
  }

  lemma PutLive(queues: map<nat, Queue>, c: nat, i: nat, s: Slot, d: nat, j: nat, p: nat)
    requires c in queues && i < |queues[c].table|
    ensures LiveOf(Put(queues, c, i, s), d, j, p) <==>
              if d == c && j == i then Live(s) && s.req.caller == p else LiveOf(queues, d, j, p)
  {}

  /** A caller with no live request in the slot, before or after, notices nothing. */
  lemma PutOther(queues: map<nat, Queue>, answers: map<nat, Reply>, answers': map<nat, Reply>, c: nat, i: nat, s: Slot,
                 p: nat, ph: Phase)
    requires c in queues && i < |queues[c].table| && PhaseOk(queues, answers, p, ph)
    requires !LiveOf(queues, c, i, p) && !(Live(s) && s.req.caller == p)
    requires !ph.Idle? ==>
               && (ph.ticket in answers' <==> ph.ticket in answers)
               && (ph.ticket in answers ==> answers'[ph.ticket] == answers[ph.ticket])
    ensures PhaseOk(Put(queues, c, i, s), answers', p, ph)
  {
    var queues' := Put(queues, c, i, s);
    forall d, j ensures LiveOf(queues', d, j, p) <==> LiveOf(queues, d, j, p) { PutLive(queues, c, i, s, d, j, p); }
  }

  lemma PutNone(queues: map<nat, Queue>, c: nat, i: nat, s: Slot, p: nat)
    requires c in queues && i < |queues[c].table| && !Live(s)
    requires forall d, j :: LiveOf(queues, d, j, p) ==> d == c && j == i
    ensures NoneLive(Put(queues, c, i, s), p)
  {
    forall d, j ensures !LiveOf(Put(queues, c, i, s), d, j, p) { PutLive(queues, c, i, s, d, j, p); }
  }

  lemma PutOne(queues: map<nat, Queue>, c: nat, i: nat, s: Slot, p: nat)
    requires c in queues && i < |queues[c].table| && Live(s) && s.req.caller == p
    requires forall d, j :: LiveOf(queues, d, j, p) ==> d == c && j == i
    ensures OneLive(Put(queues, c, i, s), p, c, i, s.req.ticket)
  {
    var queues' := Put(queues, c, i, s);
    forall d, j ensures LiveOf(queues', d, j, p) <==> d == c && j == i { PutLive(queues, c, i, s, d, j, p); }
  }

  // ---------------------------------------------------------------- steps on the phases

  /** The caller of the slot moves to `ph`, everybody else stays. */
  lemma MovesOne(queues: map<nat, Queue>, answers: map<nat, Reply>, answers': map<nat, Reply>, phase: map<nat, Phase>,
                 next: nat, next': nat,
                 c: nat, i: nat, s: Slot, p: nat, ph: Phase)
    requires PhasesOk(queues, answers, phase) && TicketsOk(queues, answers, phase, next) && next <= next'
    requires c in queues && i < |queues[c].table| && p in phase
    requires Live(queues[c].table[i]) ==> queues[c].table[i].req.caller == p
    requires Live(s) ==> s.req.caller == p
    requires PhaseOk(Put(queues, c, i, s), answers', p, ph)
    requires !ph.Idle? ==> ph.ticket < next' && (ph.ticket >= next || (!phase[p].Idle? && ph.ticket == phase[p].ticket))
    requires forall t :: t in answers' ==> t < next'
    requires forall t :: t < next && (phase[p].Idle? || t != phase[p].ticket) ==>
              (t in answers' <==> t in answers) && (t in answers ==> answers'[t] == answers[t])
    ensures PhasesOk(Put(queues, c, i, s), answers', phase[p := ph])
    ensures TicketsOk(Put(queues, c, i, s), answers', phase[p := ph], next')
  {
    hide PhaseOk, Live;
    var queues', phase' := Put(queues, c, i, s), phase[p := ph];
    forall q | q in phase' ensures PhaseOk(queues', answers', q, phase'[q]) {
      if q != p {
        assert PhaseOk(queues, answers, q, phase[q]);
        PutOther(queues, answers, answers', c, i, s, q, phase[q]);
      }
    }
  }

  /** An open request means that its caller waits for it. */
  lemma OpenIsWaiting(queues: map<nat, Queue>, answers: map<nat, Reply>, phase: map<nat, Phase>, next: nat, c: nat,
                      i: nat)
    requires PhasesOk(queues, answers, phase) && TicketsOk(queues, answers, phase, next)
    requires c in queues && i < |queues[c].table| && Open(queues[c].table[i])
    ensures var r := queues[c].table[i].req; r.caller in phase && phase[r.caller] == Waiting(c, i, r.ticket)
  {
    var r := queues[c].table[i].req;
    assert Live(queues[c].table[i]);
    assert PhaseOk(queues, answers, r.caller, phase[r.caller]) && LiveOf(queues, c, i, r.caller);
  }

  function Woken(tasks: map<nat, TaskState>, pid: nat): map<nat, TaskState> {
    if pid < Common.MAX_TASKS && pid in tasks then tasks[pid := Ready] else tasks
  }

  /**
   * What a submission does: an accepted request enters the first empty slot, a refused one at most wakes its caller.
   */
  ghost predicate Submitted(queues: map<nat, Queue>, tasks: map<nat, TaskState>, urgent: set<nat>, r: Request,
                            call: Call,
                            memory: Memory, ok: bool, i: nat, queues': map<nat, Queue>, tasks': map<nat, TaskState>,
                            urgent': set<nat>)
  {
    var c := ClerkOf(call);
    && (ok <==> Accepted(queues, call, memory))
    && (ok ==> FirstSlot(queues[c].table, (s: Slot) => s.Empty?, i))
    && (ok ==> queues' == Put(queues, c, i, Held(r)) && tasks' == Woken(tasks, c))
    && (!ok ==> queues' == queues && tasks' == if Silent(call, memory) then tasks else Woken(tasks, r.caller))
    && urgent' == if ok && c in tasks && c != REAPER_PID && c != DOC_PID then urgent + {c} else urgent
  }

  /** `i` is the first slot that satisfies the test. */
  ghost predicate FirstSlot(table: seq<Slot>, test: Slot -> bool, i: nat) {
    i < |table| && test(table[i]) && forall j :: 0 <= j < i ==> !test(table[j])
  }

  predicate Collectable(s: Slot, caller: nat) {
    s.Held? && s.req.caller == caller && (s.req.status == Complete || s.req.status == Failed)
  }

  /** Every terminated request is removed. */
  function Reaped(table: seq<Slot>): (r: seq<Slot>)
    ensures |r| == |table|
  {
    seq(|table|, i requires 0 <= i < |table| => if Is(table[i], Terminated) then Empty else table[i])
  }

  function CountTerminated(table: seq<Slot>, n: nat): nat
    requires n <= |table|
  {
    if n == 0 then 0 else CountTerminated(table, n - 1) + if Is(table[n - 1], Terminated) then 1 else 0
  }

  ghost function TerminatedSlots(table: seq<Slot>, n: nat): (r: set<nat>)
    requires n <= |table|
    ensures forall i: nat :: i in r <==> i < n && table[i].Held? && table[i].req.status == Terminated
  {
    set i: nat | i < n && table[i].Held? && table[i].req.status == Terminated
  }

  /** The count is the number of terminated slots. */
  lemma {:induction false} CountMeans(table: seq<Slot>, n: nat)
    requires n <= |table|
    ensures CountTerminated(table, n) == |TerminatedSlots(table, n)|
  {
    hide TerminatedSlots;
    if n == 0 {
      assert TerminatedSlots(table, 0) == {};
    } else {
      CountMeans(table, n - 1);
      var a, b := TerminatedSlots(table, n - 1), TerminatedSlots(table, n);
      if Is(table[n - 1], Terminated) {
        assert b == a + {n - 1};
      } else {
        assert b == a;
      }
    }
  }

  function TotalTerminated(queues: map<nat, Queue>, n: nat): nat {
    if n == 0 then 0
    else if n - 1 !in queues then TotalTerminated(queues, n - 1)
    else TotalTerminated(queues, n - 1) + CountTerminated(queues[n - 1].table, |queues[n - 1].table|)
  }

  function ReapedQueues(queues: map<nat, Queue>, n: nat): map<nat, Queue> {
    map c | c in queues :: if c < n then queues[c].(table := Reaped(queues[c].table)) else queues[c]
  }

  /** How a slot may change in one step: a request enters an empty slot, advances, or leaves once terminated. */
  predicate SlotStep(a: Slot, b: Slot) {
    || a == b
    || (a.Empty? && Is(b, Pending))
    || (Is(a, Terminated) && b.Empty?)
    || (a.Held? && b.Held? && a.req.ticket == b.req.ticket && a.req.caller == b.req.caller && a.req.op == b.req.op
        && Advances(a.req.status, b.req.status))
  }

  predicate Advances(a: Status, b: Status) {
    match a
    case Pending => b == InProgress
    case InProgress => b == Complete || b == Failed || b == Terminated
    case Complete => b == Terminated
    case Failed => b == Terminated
    case Terminated => false
  }

  ghost predicate QueuesStep(a: map<nat, Queue>, b: map<nat, Queue>) {
    && a.Keys == b.Keys
    && (forall c :: c in a ==> |a[c].table| == |b[c].table|)
    && (forall c, i :: c in a && 0 <= i < |a[c].table| ==> SlotStep(a[c].table[i], b[c].table[i]))
  }

  lemma PutStep(queues: map<nat, Queue>, c: nat, i: nat, s: Slot, last: int)
    requires c in queues && i < |queues[c].table| && SlotStep(queues[c].table[i], s)
    ensures QueuesStep(queues, Put(queues, c, i, s)) && QueuesStep(queues, queues)
    ensures QueuesStep(queues, queues[c := Queue(queues[c].table[i := s], last)])
  {}

  lemma ReapStep(queues: map<nat, Queue>, answers: map<nat, Reply>, phase: map<nat, Phase>, tasks: map<nat, TaskState>,
                 serving: set<nat>, next: nat)
    requires QueuesOk(queues, serving) && PhasesOk(queues, answers, phase) && TasksOk(queues, tasks, phase)
    requires TicketsOk(queues, answers, phase, next)
    ensures var q := ReapedQueues(queues, CLERK_COUNT);
            && QueuesOk(q, serving) && PhasesOk(q, answers, phase) && TasksOk(q, tasks, phase)
            && TicketsOk(q, answers, phase, next) && QueuesStep(queues, q)
  {
    var queues' := ReapedQueues(queues, CLERK_COUNT);
    forall p | p in phase ensures PhaseOk(queues', answers, p, phase[p]) {
      assert PhaseOk(queues, answers, p, phase[p]);
      forall d, j ensures LiveOf(queues', d, j, p) <==> LiveOf(queues, d, j, p) {}
    }
  }

  predicate IndexOk(queues: map<nat, Queue>, c: nat) { c in queues ==> queues[c].last < |queues[c].table| }

  /** There is a request at the recorded index. */
  predicate Hit(queues: map<nat, Queue>, c: nat)
    requires IndexOk(queues, c)
  {
    c in queues && queues[c].last >= 0 && queues[c].table[queues[c].last].Held?
  }

  function Checked(queues: map<nat, Queue>, c: nat): map<nat, Queue>
    requires IndexOk(queues, c)
  {
    if Hit(queues, c) then Put(queues, c, queues[c].last, WithStatus(queues[c].table[queues[c].last], Terminated))
    else queues
  }

  /** The tasks after recovery: the caller of the request at the recorded index is woken, whatever became of it. */
  function Rewoken(queues: map<nat, Queue>, tasks: map<nat, TaskState>, c: nat): map<nat, TaskState>
    requires IndexOk(queues, c)
  {
    if Hit(queues, c) then Woken(tasks, queues[c].table[queues[c].last].req.caller) else tasks
  }

  ghost predicate AllOk(queues: map<nat, Queue>, answers: map<nat, Reply>, phase: map<nat, Phase>,
                        tasks: map<nat, TaskState>, serving: set<nat>, next: nat)
  {
    && QueuesOk(queues, serving) && PhasesOk(queues, answers, phase)
    && TasksOk(queues, tasks, phase) && TicketsOk(queues, answers, phase, next)
  }

  /** The slot at the recorded index of a clerk, if any. */
  function LastSlot(queues: map<nat, Queue>, c: nat): Slot
    requires IndexOk(queues, c)
  {
    if c in queues && queues[c].last >= 0 then queues[c].table[queues[c].last] else Empty
  }

  /** The request is over, and its caller is blocked: on another request, or on nothing. */
  predicate WaitsElsewhere(s: Slot, phase: map<nat, Phase>) {
    Is(s, Terminated) && s.req.caller in phase && phase[s.req.caller].Waiting?
  }

  predicate StuckSince(s: Slot, phase: map<nat, Phase>) {
    Is(s, Terminated) && s.req.caller in phase && phase[s.req.caller].Stuck?
  }

  /** A crash between requests touches no live request and wakes no blocked caller. */
  predicate Harmless(queues: map<nat, Queue>, phase: map<nat, Phase>, c: nat)
    requires IndexOk(queues, c)
  {
    var s := LastSlot(queues, c);
    s.Empty? || (Is(s, Terminated) && !WaitsElsewhere(s, phase) && !StuckSince(s, phase))
  }

  /** It takes back no answer and wakes no caller that waits for another request. */
  predicate Tolerable(queues: map<nat, Queue>, phase: map<nat, Phase>, c: nat)
    requires IndexOk(queues, c)
  {
    var s := LastSlot(queues, c);
    !Is(s, Complete) && !WaitsElsewhere(s, phase)
  }

  /**
   * Where callers and answers are after such a crash: the caller of a live request is refused, an open request being
   * answered with an error; a stuck caller whose earlier request is at the index is woken, and finds an error too.
   */
  function SettledPhase(queues: map<nat, Queue>, phase: map<nat, Phase>, c: nat): map<nat, Phase>
    requires IndexOk(queues, c)
  {
    var s := LastSlot(queues, c);
    if Live(s) then phase[s.req.caller := Refused(c, s.req.ticket)]
    else if StuckSince(s, phase) then Rescued(phase, s.req.caller)
    else phase
  }

  function SettledAnswers(queues: map<nat, Queue>, answers: map<nat, Reply>, phase: map<nat, Phase>,
                          c: nat): map<nat, Reply>
    requires IndexOk(queues, c)
  {
    var s := LastSlot(queues, c);
    if Open(s) then answers[s.req.ticket := Error]
    else if StuckSince(s, phase) then answers[phase[s.req.caller].ticket := Error]
    else answers
  }

  function Rescued(phase: map<nat, Phase>, p: nat): map<nat, Phase>
    requires p in phase && phase[p].Stuck?
  {
    phase[p := Refused(phase[p].clerk, phase[p].ticket)]
  }

  /** Callers stay where they were or are refused their request; no answer changes. */
  ghost predicate Settles(answers: map<nat, Reply>, phase: map<nat, Phase>, answers': map<nat, Reply>,
                          phase': map<nat, Phase>)
  {
    && AnswersKept(answers, answers') && phase'.Keys == phase.Keys
    && forall p :: p in phase ==>
         || phase'[p] == phase[p]
         || (!phase[p].Idle? && phase'[p] == Refused(phase[p].clerk, phase[p].ticket))
  }

  /** No other clerk's table or index changed. */
  ghost predicate OnlyClerk(a: map<nat, Queue>, b: map<nat, Queue>, c: nat) {
    forall d :: d in a && d != c ==> d in b && b[d] == a[d]
  }

  ghost predicate SameLast(a: map<nat, Queue>, b: map<nat, Queue>) {
    a.Keys == b.Keys && forall c :: c in a ==> b[c].last == a[c].last
  }

  datatype Op =
    | SubmitOp(p: nat, call: Call, memory: Memory, order: Order)
    | ServeOp(c: nat)
    | FinishOp(c: nat, ok: bool, key: nat, buf: seq<nat>)
    | AbandonOp(c: nat)
    | CrashOp(c: nat)
    | ResumeOp(p: nat)
    | ReapOp

  // ---------------------------------------------------------------- what was asked, and what is owed for it

  /** How a request ended: its handler finished it, or it was refused or given up. */
  datatype Outcome = Finished(ok: bool, key: nat, buf: seq<nat>) | Dropped

  /** What was asked with each ticket, and how it ended. */
  datatype Book = Book(asked: map<nat, Operation>, ended: map<nat, Outcome>)

  /** The reply that is owed for an operation that ended so. */
  predicate Owed(op: Operation, end: Outcome, reply: Reply) {
    && (end.Dropped? ==> reply == Error)
    && (end.Finished? && !end.ok ==> reply == Error)
    && (end.Finished? && end.ok && op in {OpCreate, OpOpen} ==> reply == GotKey(end.key))
    && (end.Finished? && end.ok && op in {OpRead, OpList} ==> reply == GotBuffer(end.buf))
    && (end.Finished? && end.ok && op in {OpWrite, OpOther} ==> reply == Done)
  }

  /** Requests in the tables are those asked for, and every answer is the one that is owed. */
  ghost predicate BookOk(queues: map<nat, Queue>, answers: map<nat, Reply>, next: nat, book: Book) {
    && (forall t: nat :: t in book.asked <==> t < next)
    && (forall c, i :: c in queues && 0 <= i < |queues[c].table| ==> InBook(queues[c].table[i], book))
    && book.ended.Keys == answers.Keys
    && (forall t :: t in answers ==> t in book.asked && Owed(book.asked[t], book.ended[t], answers[t]))
  }

  predicate InBook(s: Slot, book: Book) {
    s.Held? ==> s.req.ticket in book.asked && book.asked[s.req.ticket] == s.req.op
  }

  /** Every request was there before, with its ticket and operation, or is the one with ticket `t`. */
  ghost predicate NoneNewBut(a: map<nat, Queue>, b: map<nat, Queue>, t: nat, op: Operation) {
    && a.Keys == b.Keys
    && (forall c :: c in a ==> |a[c].table| == |b[c].table|)
    && (forall c, i :: c in a && 0 <= i < |a[c].table| ==>
        || SameRequest(a[c].table[i], b[c].table[i])
        || (b[c].table[i].Held? && b[c].table[i].req.ticket == t && b[c].table[i].req.op == op))
  }

  ghost predicate NoneNew(a: map<nat, Queue>, b: map<nat, Queue>) {
    && a.Keys == b.Keys
    && (forall c :: c in a ==> |a[c].table| == |b[c].table|)
    && (forall c, i :: c in a && 0 <= i < |a[c].table| ==> SameRequest(a[c].table[i], b[c].table[i]))
  }

  predicate SameRequest(a: Slot, b: Slot) {
    b.Held? ==> a.Held? && b.req.ticket == a.req.ticket && b.req.op == a.req.op
  }

  lemma PutNoneNew(queues: map<nat, Queue>, c: nat, i: nat, s: Slot, last: int)
    requires c in queues && i < |queues[c].table|
    ensures SameRequest(queues[c].table[i], s) ==> NoneNew(queues, Put(queues, c, i, s)) && NoneNew(queues, queues)
    ensures SameRequest(queues[c].table[i], s) ==> NoneNew(queues, queues[c := Queue(queues[c].table[i := s], last)])
  {}

  lemma OneNew(queues: map<nat, Queue>, c: nat, i: nat, r: Request)
    requires c in queues && i < |queues[c].table|
    ensures NoneNewBut(queues, Put(queues, c, i, Held(r)), r.ticket, r.op)
  {}

  lemma NothingNew(queues: map<nat, Queue>, t: nat, op: Operation)
    ensures NoneNew(queues, queues) && NoneNewBut(queues, queues, t, op)
  {}

  lemma BookKept(queues: map<nat, Queue>, queues': map<nat, Queue>, answers: map<nat, Reply>, next: nat, book: Book)
    requires BookOk(queues, answers, next, book) && NoneNew(queues, queues')
    ensures BookOk(queues', answers, next, book)
  {
    forall c, i | c in queues' && 0 <= i < |queues'[c].table| ensures InBook(queues'[c].table[i], book) {
      assert InBook(queues[c].table[i], book) && SameRequest(queues[c].table[i], queues'[c].table[i]);
    }
  }

  /** A new answer is booked with the way its request ended. */
  lemma BookAnswer(queues: map<nat, Queue>, answers: map<nat, Reply>, next: nat, book: Book, t: nat, reply: Reply,
                   end: Outcome)
    requires BookOk(queues, answers, next, book) && t < next && (t in book.asked ==> Owed(book.asked[t], end, reply))
    ensures BookOk(queues, answers[t := reply], next, book.(ended := book.ended[t := end]))
  {
    var book' := book.(ended := book.ended[t := end]);
    forall c, i | c in queues && 0 <= i < |queues[c].table| ensures InBook(queues[c].table[i], book') {
      assert InBook(queues[c].table[i], book);
    }
  }

  /** A submission is booked, whether its request is in a table or not. */
  lemma BookSubmit(queues: map<nat, Queue>, queues': map<nat, Queue>, answers: map<nat, Reply>, next: nat, book: Book,
                   op: Operation)
    requires BookOk(queues, answers, next, book) && NoneNewBut(queues, queues', next, op)
    ensures BookOk(queues', answers, next + 1, book.(asked := book.asked[next := op]))
  {
    var book' := book.(asked := book.asked[next := op]);
    forall c, i | c in queues' && 0 <= i < |queues'[c].table| ensures InBook(queues'[c].table[i], book') {
      assert InBook(queues[c].table[i], book);
    }
  }

  lemma BookOp(queues: map<nat, Queue>, answers: map<nat, Reply>, next: nat, book: Book, c: nat, i: nat)
    requires BookOk(queues, answers, next, book) && c in queues && i < |queues[c].table|
    ensures InBook(queues[c].table[i], book)
    ensures queues[c].table[i].Held? ==> queues[c].table[i].req.ticket < next
  {}

  lemma BookReply(queues: map<nat, Queue>, answers: map<nat, Reply>, next: nat, book: Book, t: nat)
    requires BookOk(queues, answers, next, book) && t in answers
    ensures t in book.asked && t in book.ended && Owed(book.asked[t], book.ended[t], answers[t])
  {}

  /** The reply of a finished request is the one owed for its operation. */
  lemma OwedReply(r: Request, ok: bool)
    requires r.status == if ok then Complete else Failed
    ensures Owed(r.op, Finished(ok, r.key, r.buf), ReplyOf(r))
  {}

  lemma BookFinish(queues: map<nat, Queue>, answers: map<nat, Reply>, next: nat, book: Book, c: nat, i: nat, r: Request,
                   ok: bool)
    requires BookOk(queues, answers, next, book) && c in queues && i < |queues[c].table|
    requires SameRequest(queues[c].table[i], Held(r)) && r.status == if ok then Complete else Failed
    ensures BookOk(Put(queues, c, i, Held(r)), answers[r.ticket := ReplyOf(r)], next,
                   book.(ended := book.ended[r.ticket := Finished(ok, r.key, r.buf)]))
  {
    hide BookOk, NoneNew, ReplyOf, Owed;
    BookOp(queues, answers, next, book, c, i);
    PutNoneNew(queues, c, i, Held(r), 0);
    BookKept(queues, Put(queues, c, i, Held(r)), answers, next, book);
    OwedReply(r, ok);
    BookAnswer(Put(queues, c, i, Held(r)), answers, next, book, r.ticket, ReplyOf(r), Finished(ok, r.key, r.buf));
  }

  /** The tickets that a crash answers, with an error: of the open request at the index, or of a caller stuck since. */
  function Given(queues: map<nat, Queue>, phase: map<nat, Phase>, c: nat): Common.Option<nat>
    requires IndexOk(queues, c)
  {
    var s := LastSlot(queues, c);
    if Open(s) then Common.Some(s.req.ticket)
    else if StuckSince(s, phase) then Common.Some(phase[s.req.caller].ticket)
    else Common.None
  }

  ghost function Dropping(book: Book, t: Common.Option<nat>): Book {
    if t.Some? then book.(ended := book.ended[t.value := Dropped]) else book
  }

  lemma BookCrash(queues: map<nat, Queue>, answers: map<nat, Reply>, next: nat, book: Book, phase: map<nat, Phase>,
                  c: nat)
    requires BookOk(queues, answers, next, book) && IndexOk(queues, c) && c in queues
    requires forall p :: p in phase && !phase[p].Idle? ==> phase[p].ticket < next
    ensures BookOk(Checked(queues, c), SettledAnswers(queues, answers, phase, c), next,
                   Dropping(book, Given(queues, phase, c)))
  {
    hide BookOk, NoneNew;
    var s := LastSlot(queues, c);
    if s.Held? {
      BookOp(queues, answers, next, book, c, queues[c].last);
      PutNoneNew(queues, c, queues[c].last, WithStatus(s, Terminated), 0);
      BookKept(queues, Checked(queues, c), answers, next, book);
      var t := Given(queues, phase, c);
      if t.Some? { BookAnswer(Checked(queues, c), answers, next, book, t.value, Error, Dropped); }
    }
  }

  lemma ReapedNoneNew(queues: map<nat, Queue>)
    ensures NoneNew(queues, ReapedQueues(queues, CLERK_COUNT))
  {}

  /** The book only grows: a new ticket comes from a submission, a new end from the handler or from a refusal. */
  ghost predicate Explains(ops: seq<Op>, book: Book, book': Book) {
    && (forall t :: t in book.asked ==> t in book'.asked && book'.asked[t] == book.asked[t])
    && (forall t :: t in book.ended ==> t in book'.ended && book'.ended[t] == book.ended[t])
    && (forall t :: t in book'.asked && t !in book.asked ==> exists i :: 0 <= i < |ops| && Asks(ops[i], book'.asked[t]))
    && (forall t :: t in book'.ended && t !in book.ended && book'.ended[t].Finished? ==>
        exists i :: 0 <= i < |ops| && Ends(ops[i], book'.ended[t]))
  }

  predicate Asks(op: Op, o: Operation) { op.SubmitOp? && OpOf(op.call) == o }

  predicate Ends(op: Op, e: Outcome) { op.FinishOp? && e == Finished(op.ok, op.key, op.buf) }

  lemma ExplainsMore(ops: seq<Op>, op: Op, a: Book, b: Book, c: Book)
    requires Explains(ops, a, b) && Explains([op], b, c)
    ensures Explains(ops + [op], a, c)
  {
    var all := ops + [op];
    assert all[|ops|] == op;
    forall t | t in c.asked && t !in a.asked ensures exists i :: 0 <= i < |all| && Asks(all[i], c.asked[t]) {
      if t in b.asked {
        var i :| 0 <= i < |ops| && Asks(ops[i], b.asked[t]);
        assert Asks(all[i], c.asked[t]);
      } else {
        assert Asks(all[|ops|], c.asked[t]);
      }
    }
    forall t | t in c.ended && t !in a.ended && c.ended[t].Finished?
      ensures exists i :: 0 <= i < |all| && Ends(all[i], c.ended[t])
    {
      if t in b.ended {
        var i :| 0 <= i < |ops| && Ends(ops[i], b.ended[t]);
        assert Ends(all[i], c.ended[t]);
      } else {
        assert Ends(all[|ops|], c.ended[t]);
      }
    }
  }

  lemma ExplainsNothing(ops: seq<Op>, book: Book)
    ensures Explains(ops, book, book)
  {}

  /** The book after a submission, refused at once or not. */
  ghost function Submitting(book: Book, next: nat, op: Operation, refused: bool): Book {
    var b := book.(asked := book.asked[next := op]);
    if refused then b.(ended := b.ended[next := Dropped]) else b
  }

  /** A submission keeps the book. */
  lemma SubmitBooked(op: Op, queues: map<nat, Queue>, queues': map<nat, Queue>, answers: map<nat, Reply>, next: nat,
                     book: Book, refused: bool)
    requires op.SubmitOp? && BookOk(queues, answers, next, book)
    requires NoneNewBut(queues, queues', next, OpOf(op.call)) && forall t :: t in answers ==> t < next
    ensures var book' := Submitting(book, next, OpOf(op.call), refused);
            && BookOk(queues', if refused then answers[next := Error] else answers, next + 1, book')
            && Explains([op], book, book')
  {
    assert next !in book.asked && next !in book.ended;
    var b := book.(asked := book.asked[next := OpOf(op.call)]);
    assert Asks([op][0], OpOf(op.call));
    hide BookOk, NoneNewBut, OpOf;
    BookSubmit(queues, queues', answers, next, book, OpOf(op.call));
    if refused { BookAnswer(queues', answers, next + 1, b, next, Error, Dropped); }
  }

  /** A step that adds no request and no answer keeps the book. */
  lemma QuietBooked(op: Op, queues: map<nat, Queue>, queues': map<nat, Queue>, answers: map<nat, Reply>, next: nat,
                    book: Book)
    requires BookOk(queues, answers, next, book) && NoneNew(queues, queues')
    ensures BookOk(queues', answers, next, book) && Explains([op], book, book)
  {
    hide BookOk, NoneNew;
    BookKept(queues, queues', answers, next, book);
    ExplainsNothing([op], book);
  }

  ghost function Finishing(book: Book, t: nat, op: Op): Book
    requires op.FinishOp?
  {
    book.(ended := book.ended[t := Finished(op.ok, op.key, op.buf)])
  }

  lemma FinishBooked(op: Op, queues: map<nat, Queue>, answers: map<nat, Reply>, next: nat, book: Book, i: nat,
                     r: Request)
    requires op.FinishOp? && BookOk(queues, answers, next, book) && op.c in queues && i < |queues[op.c].table|
    requires SameRequest(queues[op.c].table[i], Held(r)) && r.status == (if op.ok then Complete else Failed)
    requires r.key == op.key && r.buf == op.buf && r.ticket !in answers
    ensures var book' := Finishing(book, r.ticket, op);
            && BookOk(Put(queues, op.c, i, Held(r)), answers[r.ticket := ReplyOf(r)], next, book')
            && Explains([op], book, book')
  {
    assert r.ticket !in book.ended;
    assert Ends([op][0], Finished(op.ok, op.key, op.buf));
    hide BookOk, ReplyOf;
    BookFinish(queues, answers, next, book, op.c, i, r, op.ok);
  }

  lemma CrashBooked(op: Op, queues: map<nat, Queue>, answers: map<nat, Reply>, next: nat, book: Book,
                    phase: map<nat, Phase>, c: nat)
    requires BookOk(queues, answers, next, book) && IndexOk(queues, c) && c in queues
    requires PhasesOk(queues, answers, phase) && TicketsOk(queues, answers, phase, next)
    ensures var book' := Dropping(book, Given(queues, phase, c));
            && BookOk(Checked(queues, c), SettledAnswers(queues, answers, phase, c), next, book')
            && Explains([op], book, book')
  {
    GivenFresh(queues, answers, phase, next, c);
    FreshTicket(answers, phase, queues, next);
    var t := Given(queues, phase, c);
    assert t.Some? ==> t.value !in book.ended;
    hide BookOk, PhasesOk, TicketsOk, Given;
    BookCrash(queues, answers, next, book, phase, c);
  }

  lemma GivenFresh(queues: map<nat, Queue>, answers: map<nat, Reply>, phase: map<nat, Phase>, next: nat, c: nat)
    requires PhasesOk(queues, answers, phase) && TicketsOk(queues, answers, phase, next) && IndexOk(queues, c)
    ensures var t := Given(queues, phase, c); t.Some? ==> t.value !in answers
  {
    var s := LastSlot(queues, c);
    if Open(s) {
      OpenIsWaiting(queues, answers, phase, next, c, queues[c].last);
    }
    if s.Held? && s.req.caller in phase { assert PhaseOk(queues, answers, s.req.caller, phase[s.req.caller]); }
  }

  /** A crash while serving drops the request that is served. */
  lemma ServingCrash(queues: map<nat, Queue>, answers: map<nat, Reply>, phase: map<nat, Phase>, c: nat)
    requires IndexOk(queues, c) && c in queues && queues[c].last >= 0 && Is(queues[c].table[queues[c].last], InProgress)
    ensures var i, r := queues[c].last, queues[c].table[queues[c].last].req;
            && Checked(queues, c) == Put(queues, c, i, Held(r.(status := Terminated)))
            && SettledAnswers(queues, answers, phase, c) == answers[r.ticket := Error]
  {}

  /** What a caller collected for which request. */
  datatype Receipt = Receipt(caller: nat, ticket: nat, reply: Reply)

  ghost predicate AnswersKept(a: map<nat, Reply>, b: map<nat, Reply>) { forall t :: t in a ==> t in b && b[t] == a[t] }

  /** A caller keeps its ticket or takes the next one. */
  ghost predicate TicketsMove(a: map<nat, Phase>, next: nat, b: map<nat, Phase>) {
    forall p :: p in b && p in a && !b[p].Idle? ==> b[p].ticket == next || (!a[p].Idle? && b[p].ticket == a[p].ticket)
  }

  /** The stuck callers that the step wakes: the one whose earlier request a resting clerk's crash recovery finds. */
  ghost function Woke(op: Op, queues: map<nat, Queue>, serving: set<nat>, phase: map<nat, Phase>): set<nat> {
    if && op.CrashOp? && op.c in queues && op.c !in serving && IndexOk(queues, op.c)
       && StuckSince(LastSlot(queues, op.c), phase)
    then {LastSlot(queues, op.c).req.caller} else {}
  }

  /** A resting clerk crashes, and recovery does to the tables what it does, where that can be tolerated. */
  ghost predicate Recovers(op: Op, queues: map<nat, Queue>, serving: set<nat>, phase: map<nat, Phase>,
                           queues': map<nat, Queue>)
  {
    && op.CrashOp? && op.c in queues && op.c !in serving && IndexOk(queues, op.c)
    && Tolerable(queues, phase, op.c) && queues' == Checked(queues, op.c)
  }

  /** A stuck caller stays stuck, apart from those woken. */
  ghost predicate StuckStay(a: map<nat, Phase>, b: map<nat, Phase>, woken: set<nat>) {
    forall p :: p in a && a[p].Stuck? && p !in woken ==> p in b && b[p] == a[p]
  }

  /** The log holds answers, one for each of its tickets, and no caller still holds a ticket of the log. */
  ghost predicate LogOk(log: seq<Receipt>, answers: map<nat, Reply>, phase: map<nat, Phase>, next: nat) {
    && (forall k :: 0 <= k < |log| ==>
        log[k].ticket in answers && log[k].reply == answers[log[k].ticket] && log[k].ticket < next)
    && (forall j, k :: 0 <= j < k < |log| ==> log[j].ticket != log[k].ticket)
    && (forall k, p :: 0 <= k < |log| && p in phase && !phase[p].Idle? ==> phase[p].ticket != log[k].ticket)
  }

  lemma EmptyLog(answers: map<nat, Reply>, phase: map<nat, Phase>, next: nat)
    ensures LogOk([], answers, phase, next)
  {}

  lemma LogFacts(log: seq<Receipt>, answers: map<nat, Reply>, phase: map<nat, Phase>, next: nat)
    requires LogOk(log, answers, phase, next)
    ensures forall k :: 0 <= k < |log| ==> log[k].ticket in answers && log[k].reply == answers[log[k].ticket]
    ensures forall j, k :: 0 <= j < k < |log| ==> log[j].ticket != log[k].ticket
  {}

  ghost predicate GotOk(got: Common.Option<Receipt>, answers: map<nat, Reply>, phase: map<nat, Phase>,
                        phase': map<nat, Phase>) {
    got.Some? ==> var r := got.value;
                  && r.caller in phase && r.caller in phase' && phase'[r.caller].Idle? && !phase[r.caller].Idle?
                  && r.ticket == phase[r.caller].ticket && r.ticket in answers && r.reply == answers[r.ticket]
  }

  lemma LogStep(log: seq<Receipt>, answers: map<nat, Reply>, phase: map<nat, Phase>, next: nat,
                answers': map<nat, Reply>, phase': map<nat, Phase>, next': nat, got: Common.Option<Receipt>)
    requires LogOk(log, answers, phase, next) && AnswersKept(answers, answers') && TicketsMove(phase, next, phase')
    requires next <= next'
    requires phase'.Keys == phase.Keys && GotOk(got, answers', phase, phase')
    requires forall p :: p in phase && !phase[p].Idle? ==> phase[p].ticket < next
    requires forall p, q :: p in phase && q in phase && p != q && !phase[p].Idle? && !phase[q].Idle? ==>
               phase[p].ticket != phase[q].ticket
    ensures LogOk(if got.Some? then log + [got.value] else log, answers', phase', next')
  {}

  lemma OwnTickets(answers: map<nat, Reply>, phase: map<nat, Phase>, queues: map<nat, Queue>)
    requires PhasesOk(queues, answers, phase)
    ensures forall p, q :: p in phase && q in phase && p != q && !phase[p].Idle? && !phase[q].Idle? ==>
              phase[p].ticket != phase[q].ticket
  {}

  lemma FreshTicket(answers: map<nat, Reply>, phase: map<nat, Phase>, queues: map<nat, Queue>, next: nat)
    requires TicketsOk(queues, answers, phase, next)
    ensures next !in answers && (forall t :: t in answers ==> t < next)
    ensures forall p :: p in phase && !phase[p].Idle? ==> phase[p].ticket < next
  {}

  class Ledger {
    var queues: map<nat, Queue>
    var tasks: map<nat, TaskState>
    /** What the callers are doing, which clerks are handling a request, and the next ticket. */
    var phase: map<nat, Phase>
    var serving: set<nat>
    var next: nat
    /** The clerks that were raised to high priority and have not finished a request since. */
    var urgent: set<nat>
    /** The reply given to each ticket so far. */
    ghost var answers: map<nat, Reply>

    ghost predicate Valid()
      reads this
    {
      && QueuesOk(queues, serving)
      && PhasesOk(queues, answers, phase)
      && TasksOk(queues, tasks, phase)
      && TicketsOk(queues, answers, phase, next)
    }

    /** Empty tables, no recovery index, and callers that have asked for nothing yet. */
    constructor (sizes: map<nat, nat>, states: map<nat, TaskState>, callers: set<nat>)
      requires forall c :: c in sizes ==> c < CLERK_COUNT
      requires forall p :: p in callers ==> p in states && p < Common.MAX_TASKS && p !in sizes && states[p] != Blocked
      ensures Valid() && queues.Keys == sizes.Keys && tasks == states && phase.Keys == callers && serving == {}
      ensures urgent == {} && answers == map[] && BookOk(queues, answers, next, Book(map[], map[]))
      ensures forall c :: c in queues ==> queues[c] == Queue(seq(sizes[c], _ => Empty), -1)
      ensures forall p :: p in phase ==> phase[p] == Idle
    {
      queues := map c | c in sizes :: Queue(seq(sizes[c], _ => Empty), -1);
      tasks, serving, next, urgent := states, {}, 0, {};
      phase := map p | p in callers :: Idle;
      answers := map[];
    }

    // -------------------------------------------------------------- the source's operations

    /** The task is ready afterwards, and no other task changes; a number without a task changes nothing. */
    method Wake(pid: nat)
      modifies this`tasks
      ensures tasks.Keys == old(tasks).Keys && forall p :: p in tasks && p != pid ==> tasks[p] == old(tasks)[p]
      ensures pid in tasks ==> tasks[pid] == if pid < Common.MAX_TASKS then Ready else old(tasks)[pid]
    {
      if pid < Common.MAX_TASKS && pid in tasks {
        tasks := tasks[pid := Ready];
      }
    }

    /** Wakes a clerk; the file system and window clerks also become urgent. */
    method WakeClerk(clerk: nat)
      modifies this`tasks, this`urgent
      ensures tasks == Woken(old(tasks), clerk)
      ensures urgent == if clerk in old(tasks) && clerk != REAPER_PID && clerk != DOC_PID then old(urgent) + {clerk}
                        else old(urgent)
    {
      if clerk in tasks && clerk != REAPER_PID && clerk != DOC_PID {
        urgent := urgent + {clerk};
      }
      Wake(clerk);
    }

    /** Places a request in the first empty slot and wakes the clerk; without one the caller is woken instead. */
    method QueueReq(clerk: nat, r: Request) returns (ok: bool, i: nat)
      modifies this`queues, this`tasks, this`urgent
      ensures ok <==> HasRoom(old(queues), clerk)
      ensures ok ==> FirstSlot(old(queues)[clerk].table, (s: Slot) => s.Empty?, i)
      ensures ok ==> queues == Put(old(queues), clerk, i, Held(r)) && tasks == Woken(old(tasks), clerk)
      ensures !ok ==> queues == old(queues) && tasks == Woken(old(tasks), r.caller)
      ensures urgent ==
              if ok && clerk in old(tasks) && clerk != REAPER_PID && clerk != DOC_PID then old(urgent) + {clerk}
              else old(urgent)
    {
      i := 0;
      if clerk !in queues {
        Wake(r.caller);
        return false, i;
      }
      var table := queues[clerk].table;
      while i < |table|
        invariant 0 <= i <= |table| && queues == old(queues) && tasks == old(tasks) && urgent == old(urgent)
        invariant forall j :: 0 <= j < i ==> !table[j].Empty?
      {
        if table[i].Empty? {
          queues := Put(queues, clerk, i, Held(r));
          WakeClerk(clerk);
          return true, i;
        }
        i := i + 1;
      }
      Wake(r.caller);
      ok := false;
    }

    method CountAll(clerk: nat) returns (n: nat)
      requires clerk in queues
      ensures n <= |queues[clerk].table| && (n == |queues[clerk].table| <==> !HasRoom(queues, clerk))
    {
      var table := queues[clerk].table;
      n := 0;
      var i := 0;
      while i < |table|
        invariant 0 <= n <= i <= |table| && (n == i <==> forall j :: 0 <= j < i ==> table[j].Held?)
      {
        if table[i].Held? {
          n := n + 1;
        }
        i := i + 1;
      }
    }

    method AddFsReq(r: Request, call: Call, memory: Memory) returns (ok: bool, i: nat)
      requires call.FsCall?
      modifies this`queues, this`tasks, this`urgent
      ensures Submitted(old(queues), old(tasks), old(urgent), r, call, memory, ok, i, queues, tasks, urgent)
    {
      i := 0;
      if FS_PID in queues {
        var n := CountAll(FS_PID);
        if n >= |queues[FS_PID].table| {
          Wake(r.caller);
          return false, i;
        }
      }
      if (call.fd < 2 || call.fd > MAX_FD) && (call.op == OpRead || call.op == OpWrite) {
        Wake(r.caller);
        return false, i;
      }
      if !memory.request {
        Wake(r.caller);
        return false, i;
      }
      if call.hasBuf && !memory.buf {
        Wake(r.caller);
        return false, i;
      }
      ok, i := QueueReq(FS_PID, r);
    }

    method AddGuiReq(r: Request, call: Call, memory: Memory) returns (ok: bool, i: nat)
      requires call.GuiCall?
      modifies this`queues, this`tasks, this`urgent
      ensures Submitted(old(queues), old(tasks), old(urgent), r, call, memory, ok, i, queues, tasks, urgent)
    {
      i := 0;
      if GUI_PID in queues {
        var n := CountAll(GUI_PID);
        if n >= |queues[GUI_PID].table| {
          Wake(r.caller);
          return false, i;
        }
      }
      if !memory.request {
        Wake(r.caller);
        return false, i;
      }
      if call.hasPixels && !memory.pixels {
        Wake(r.caller);
        return false, i;
      }
      if call.hasBuf && !memory.buf {
        Wake(r.caller);
        return false, i;
      }
      ok, i := QueueReq(GUI_PID, r);
    }

    method AddDocReq(r: Request, call: Call, memory: Memory) returns (ok: bool, i: nat)
      requires call.DocCall?
      modifies this`queues, this`tasks, this`urgent
      ensures Submitted(old(queues), old(tasks), old(urgent), r, call, memory, ok, i, queues, tasks, urgent)
    {
      i := 0;
      if !memory.request {
        Wake(r.caller);
        return false, i;
      }
      ok, i := QueueReq(DOC_PID, r);
    }

    /** Unlike the others, it does not wake the caller when the request cannot be built. */
    method QueueFreeReq(r: Request, call: Call, memory: Memory) returns (ok: bool, i: nat)
      requires call.FreeCall? && r.caller < Common.MAX_TASKS
      modifies this`queues, this`tasks, this`urgent
      ensures Submitted(old(queues), old(tasks), old(urgent), r, call, memory, ok, i, queues, tasks, urgent)
    {
      i := 0;
      if call.target >= Common.MAX_TASKS {
        return false, i;
      }
      if !memory.request {
        return false, i;
      }
      ok, i := QueueReq(call.clerk, r);
    }

    /** A request in progress first, else the first pending one, which is then in progress; the index is recorded. */
    method FetchNext(clerk: nat) returns (found: bool, i: nat)
      modifies this`queues
      ensures found <==> HasOpen(old(queues), clerk)
      ensures found ==> i < |old(queues)[clerk].table| && Open(old(queues)[clerk].table[i])
      ensures found && Is(old(queues)[clerk].table[i], Pending) ==> FirstPending(old(queues)[clerk].table, i)
      ensures queues == if found then Fetched(old(queues), clerk, i) else old(queues)
    {
      i := 0;
      if clerk !in queues {
        return false, i;
      }
      var table := queues[clerk].table;
      while i < |table|
        invariant 0 <= i <= |table| && queues == old(queues)
        invariant forall j :: 0 <= j < i ==> !Is(table[j], InProgress)
      {
        if Is(table[i], InProgress) {
          assert table[i := WithStatus(table[i], InProgress)] == table;
          queues := queues[clerk := Queue(table, i)];
          return true, i;
        }
        i := i + 1;
      }
      i := 0;
      while i < |table|
        invariant 0 <= i <= |table| && queues == old(queues)
        invariant forall j :: 0 <= j < i ==> !Is(table[j], Pending)
      {
        if Is(table[i], Pending) {
          queues := queues[clerk := Queue(table[i := WithStatus(table[i], InProgress)], i)];
          return true, i;
        }
        i := i + 1;
      }
      found := false;
    }

    /** Crash recovery: the request at the recorded index is terminated, whatever its status, and its caller woken. */
    method CheckRequest(clerk: nat)
      requires IndexOk(queues, clerk)
      modifies this`queues, this`tasks
      ensures queues == Checked(old(queues), clerk)
      ensures tasks == Rewoken(old(queues), old(tasks), clerk)
    {
      if clerk !in queues || queues[clerk].last < 0 {
        return;
      }
      var i := queues[clerk].last;
      var entry := queues[clerk].table[i];
      if entry.Held? {
        queues := Put(queues, clerk, i, WithStatus(entry, Terminated));
        Wake(entry.req.caller);
      }
    }

    /** Takes the first finished request of the caller, hands over its result and leaves it terminated. */
    method Collect(caller: nat, clerk: nat) returns (reply: Reply, ghost i: int)
      modifies this`queues
      ensures i >= 0 ==>
                clerk in old(queues) && FirstSlot(old(queues)[clerk].table, (s: Slot) => Collectable(s, caller), i)
      ensures i >= 0 ==>
                && reply == ReplyOf(old(queues)[clerk].table[i].req)
                && queues == Put(old(queues), clerk, i, WithStatus(old(queues)[clerk].table[i], Terminated))
      ensures i >= 0 ==>
                var r := old(queues)[clerk].table[i].req;
                Owed(r.op, Finished(r.status == Complete, r.key, r.buf), reply)
      ensures i < 0 ==> reply == Error && queues == old(queues)
      ensures i < 0 && clerk in queues ==>
                forall j :: 0 <= j < |queues[clerk].table| ==> !Collectable(queues[clerk].table[j], caller)
    {
      i := -1;
      if clerk !in queues {
        return Error, i;
      }
      var table := queues[clerk].table;
      var j := 0;
      while j < |table|
        invariant 0 <= j <= |table| && queues == old(queues)
        invariant forall k :: 0 <= k < j ==> !Collectable(table[k], caller)
      {
        if table[j].Held? && table[j].req.caller == caller {
          var r := table[j].req;
          if r.status == Complete {
            queues := Put(queues, clerk, j, WithStatus(table[j], Terminated));
            i := j;
            match r.op {
              case OpCreate => return GotKey(r.key), i;
              case OpOpen => return GotKey(r.key), i;
              case OpList => return GotBuffer(r.buf), i;
              case OpRead => return GotBuffer(r.buf), i;
              case _ => return Done, i;
            }
          } else if r.status == Failed {
            queues := Put(queues, clerk, j, WithStatus(table[j], Terminated));
            return Error, j;
          }
        }
        j := j + 1;
      }
      reply := Error;
    }

    /** Frees the terminated requests of one queue. */
    method ReapQueue(c: nat) returns (kills: nat)
      requires c in queues
      modifies this`queues
      ensures queues == old(queues)[c := old(queues)[c].(table := Reaped(old(queues)[c].table))]
      ensures kills == CountTerminated(old(queues)[c].table, |old(queues)[c].table|)
    {
      kills := 0;
      var table := queues[c].table;
      var i := 0;
      while i < |table|
        invariant 0 <= i <= |table| && kills == CountTerminated(table, i)
        invariant c in queues && queues == old(queues)[c := queues[c]] && queues[c].last == old(queues)[c].last
        invariant |queues[c].table| == |table|
        invariant forall j :: 0 <= j < |table| ==> queues[c].table[j] == if j < i then Reaped(table)[j] else table[j]
      {
        if Is(queues[c].table[i], Terminated) {
          queues := Put(queues, c, i, Empty);
          kills := kills + 1;
        }
        i := i + 1;
      }
      assert queues[c].table == Reaped(table);
    }

    /** Frees every terminated request of every clerk, and counts them. */
    method RemoveRequests() returns (kills: nat)
      requires forall c :: c in queues ==> c < CLERK_COUNT
      modifies this`queues
      ensures queues == ReapedQueues(old(queues), CLERK_COUNT) && kills == TotalTerminated(old(queues), CLERK_COUNT)
    {
      kills := 0;
      var c := 0;
      while c < CLERK_COUNT
        invariant 0 <= c <= CLERK_COUNT && queues == ReapedQueues(old(queues), c)
        invariant kills == TotalTerminated(old(queues), c)
      {
        if c in queues {
          var n := ReapQueue(c);
          kills := kills + n;
        }
        c := c + 1;
      }
    }

    // -------------------------------------------------------------- steps of callers and clerks

    method AddRequest(r: Request, call: Call, memory: Memory) returns (ok: bool, i: nat)
      requires r.caller < Common.MAX_TASKS
      modifies this`queues, this`tasks, this`urgent
      ensures Submitted(old(queues), old(tasks), old(urgent), r, call, memory, ok, i, queues, tasks, urgent)
    {
      match call {
        case FsCall(_, _, _) => ok, i := AddFsReq(r, call, memory);
        case GuiCall(_, _, _) => ok, i := AddGuiReq(r, call, memory);
        case DocCall(_) => ok, i := AddDocReq(r, call, memory);
        case FreeCall(_, _) => ok, i := QueueFreeReq(r, call, memory);
      }
    }

    /** The request is queued and the caller's state set, in the order of the system call. */
    method Issue(r: Request, call: Call, memory: Memory, order: Order) returns (ok: bool, i: nat)
      requires r.caller in tasks && r.caller < Common.MAX_TASKS && r.caller !in queues
      modifies this`queues, this`tasks, this`urgent
      ensures ok <==> Accepted(old(queues), call, memory)
      ensures ok ==> var c := ClerkOf(call);
                     && c in old(queues) && i < |old(queues)[c].table| && old(queues)[c].table[i].Empty?
                     && queues == Put(old(queues), c, i, Held(r)) && tasks == Woken(old(tasks)[r.caller := Blocked], c)
      ensures !ok ==>
                && queues == old(queues)
                && tasks == old(tasks)[r.caller := AfterRefusal(old(tasks)[r.caller], call, memory, order)]
    {
      if order == BlockFirst {
        tasks := tasks[r.caller := Blocked];
      }
      ok, i := AddRequest(r, call, memory);
      if order == SubmitFirst || (order == CheckFirst && ok) {
        tasks := tasks[r.caller := Blocked];
      }
      assert ok ==> tasks == Woken(old(tasks)[r.caller := Blocked], ClerkOf(call));
    }

    /**
     * A caller submits and blocks, in the order of its system call. It is left blocked without a request if and only if
     * the submission is refused and either it blocked after submitting, or it was not woken by the refusal.
     */
    method Submit(p: nat, call: Call, memory: Memory, order: Order) returns (ok: bool)
      requires Valid() && p in phase && phase[p].Idle?
      modifies this
      ensures Valid() && QueuesStep(old(queues), queues) && SameLast(old(queues), queues) && next == old(next) + 1
      ensures serving == old(serving)
      ensures ok <==> Accepted(old(queues), call, memory)
      ensures phase.Keys == old(phase).Keys && forall q :: q in phase && q != p ==> phase[q] == old(phase)[q]
      ensures phase[p].Waiting? <==> ok
      ensures phase[p].Stuck? <==> !ok && Strands(call, memory, order)
      ensures phase[p].Idle? <==> !ok && order == CheckFirst
      ensures !phase[p].Idle? ==> phase[p].ticket == old(next) && phase[p].clerk == ClerkOf(call)
      ensures answers == if phase[p].Refused? then old(answers)[old(next) := Error] else old(answers)
      ensures NoneLive(queues, p) <==> !ok
      ensures !ok ==> queues == old(queues)
      ensures OnlyClerk(old(queues), queues, ClerkOf(call)) && NoneNewBut(old(queues), queues, old(next), OpOf(call))
      ensures p in tasks && (tasks[p] == Blocked <==> phase[p].Waiting? || phase[p].Stuck?)
    {
      hide PhasesOk, TicketsOk, QueuesOk, QueuesStep, TasksOk, NoneLive, Accepted, Silent, Woken, Put, SameLast,
           AfterRefusal, OnlyClerk, OpOf, NoneNewBut, NoneNew;
      var clerk := ClerkOf(call);
      var r := Request(next, p, OpOf(call), Pending, 0, []);
      PhaseKnown(queues, answers, phase, p);
      TasksKnown(queues, tasks, phase, p);
      var i;
      ok, i := Issue(r, call, memory, order);
      NothingNew(old(queues), next, r.op);
      if ok {
        OneNew(old(queues), clerk, i, r);
        AcceptStep(old(queues), answers, phase, old(tasks), serving, next, clerk, i, r);
        phase := phase[p := Waiting(clerk, i, next)];
      } else {
        var ph := if order == CheckFirst then Idle
                  else if Strands(call, memory, order) then Stuck(clerk, next)
                  else Refused(clerk, next);
        RefuseStep(queues, answers, phase, next, p, ph);
        RefuseTasks(queues, old(tasks), phase, p, ph, call, memory, order);
        phase := phase[p := ph];
        answers := if ph.Refused? then answers[next := Error] else answers;
      }
      next := next + 1;
      TasksKnown(queues, tasks, phase, p);
    }

    /** A clerk that is not handling a request looks for one. */
    method Serve(clerk: nat) returns (found: bool)
      requires Valid() && clerk in queues && clerk !in serving
      modifies this`queues, this`serving
      ensures Valid() && QueuesStep(old(queues), queues) && OnlyClerk(old(queues), queues, clerk)
      ensures found <==> HasOpen(old(queues), clerk)
      ensures NoneNew(old(queues), queues)
      ensures serving == if found then old(serving) + {clerk} else old(serving)
    {
      hide PhasesOk, TicketsOk, QueuesOk, QueuesStep, TasksOk, NoneNew;
      var i;
      NothingNew(queues, 0, OpOther);
      found, i := FetchNext(clerk);
      if found {
        PutNoneNew(old(queues), clerk, i, WithStatus(old(queues)[clerk].table[i], InProgress), i);
        ServeStep(old(queues), answers, phase, tasks, serving, next, clerk, i);
        serving := serving + {clerk};
      } else {
        NoStep(queues);
      }
    }

    /** The handler is done: the result is in place, and the caller is woken to collect it. */
    method Finish(clerk: nat, ok: bool, key: nat, buf: seq<nat>)
      requires Valid() && clerk in serving
      modifies this`queues, this`tasks, this`phase, this`serving, this`answers, this`urgent
      ensures Valid() && QueuesStep(old(queues), queues) && serving == old(serving) - {clerk}
      ensures urgent == old(urgent) - {clerk}
      ensures clerk in old(queues) && 0 <= old(queues)[clerk].last < |old(queues)[clerk].table|
      ensures Is(old(queues)[clerk].table[old(queues)[clerk].last], InProgress)
      ensures var i := old(queues)[clerk].last;
              var r := old(queues)[clerk].table[i].req;
              var r' := r.(status := if ok then Complete else Failed, key := key, buf := buf);
              && r.caller in old(phase) && old(phase)[r.caller] == Waiting(clerk, i, r.ticket)
              && r.ticket !in old(answers)
              && queues == Put(old(queues), clerk, i, Held(r')) && tasks == old(tasks)[r.caller := Ready]
              && phase == old(phase)[r.caller := Answered(clerk, i, r.ticket)]
              && answers == old(answers)[r.ticket := ReplyOf(r')]
              && Owed(r.op, Finished(ok, key, buf), answers[r.ticket])
    {
      hide PhasesOk, TicketsOk, QueuesOk, QueuesStep, TasksOk, Woken, ReplyOf, Owed;
      ServingFacts(queues, answers, phase, serving, next, clerk);
      var i: nat := queues[clerk].last;
      var r := queues[clerk].table[i].req;
      var r' := r.(status := if ok then Complete else Failed, key := key, buf := buf);
      FinishStep(queues, answers, phase, serving, next, clerk, r');
      OwedReply(r', ok);
      queues := Put(queues, clerk, i, Held(r'));
      TasksMove(old(queues), queues, tasks, phase, r.caller, Answered(clerk, i, r.ticket), Ready);
      urgent := urgent - {clerk};
      Wake(r.caller);
      assert tasks == old(tasks)[r.caller := Ready];
      serving, phase := serving - {clerk}, phase[r.caller := Answered(clerk, i, r.ticket)];
      answers := answers[r.ticket := ReplyOf(r')];
    }

    /** The handler returned without an answer: the request stays in progress and will be fetched again. */
    method Abandon(clerk: nat)
      requires Valid() && clerk in serving
      modifies this`serving
      ensures Valid() && serving == old(serving) - {clerk}
    {
      serving := serving - {clerk};
    }

    /**
     * A crash of a serving clerk terminates exactly the request it was handling and wakes exactly the blocked caller.
     */
    method Crash(clerk: nat)
      requires Valid() && clerk in serving
      modifies this`queues, this`tasks, this`phase, this`serving, this`answers
      ensures Valid() && QueuesStep(old(queues), queues) && serving == old(serving) - {clerk}
      ensures clerk in old(queues) && 0 <= old(queues)[clerk].last < |old(queues)[clerk].table|
      ensures Is(old(queues)[clerk].table[old(queues)[clerk].last], InProgress)
      ensures var i := old(queues)[clerk].last;
              var r := old(queues)[clerk].table[i].req;
              && r.caller in old(phase) && old(phase)[r.caller] == Waiting(clerk, i, r.ticket)
              && r.ticket !in old(answers)
              && queues == Put(old(queues), clerk, i, Held(r.(status := Terminated)))
              && tasks == old(tasks)[r.caller := Ready]
              && phase == old(phase)[r.caller := Refused(clerk, r.ticket)] && answers == old(answers)[r.ticket := Error]
    {
      hide PhasesOk, TicketsOk, QueuesOk, QueuesStep, TasksOk;
      ServingFacts(queues, answers, phase, serving, next, clerk);
      ghost var i: nat := queues[clerk].last;
      var r := queues[clerk].table[queues[clerk].last].req;
      SettleStep(queues, answers, phase, serving, next, clerk);
      PutStep(queues, clerk, i, Held(r.(status := Terminated)), 0);
      CheckRequest(clerk);
      TasksMove(old(queues), queues, old(tasks), phase, r.caller, Refused(clerk, r.ticket), Ready);
      serving := serving - {clerk};
      phase, answers := phase[r.caller := Refused(clerk, r.ticket)], answers[r.ticket := Error];
    }

    /**
     * A crash between requests, where it can be tolerated: the request at the recorded index is terminated and its
     * caller woken, and if the caller was still waiting for it, or for its failure, it is refused.
     */
    method CrashAtRest(clerk: nat)
      requires Valid() && clerk in queues && clerk !in serving
      requires IndexOk(queues, clerk) && Tolerable(queues, phase, clerk)
      modifies this`queues, this`tasks, this`phase, this`answers
      ensures Valid() && queues == Checked(old(queues), clerk) && tasks == Rewoken(old(queues), old(tasks), clerk)
      ensures phase == SettledPhase(old(queues), old(phase), clerk)
      ensures answers == SettledAnswers(old(queues), old(answers), old(phase), clerk)
      ensures Settles(old(answers), old(phase), answers, phase)
      ensures StuckStay(old(phase), phase, Woke(CrashOp(clerk), old(queues), serving, old(phase)))
      ensures TicketsMove(old(phase), next, phase)
    {
      hide PhasesOk, TicketsOk, QueuesOk, QueuesStep, TasksOk;
      TolerateStep(queues, answers, phase, tasks, serving, next, clerk);
      ghost var a := SettledAnswers(queues, answers, phase, clerk);
      phase := SettledPhase(queues, phase, clerk);
      answers := a;
      CheckRequest(clerk);
    }

    /** A resumed caller collects: it gets the one reply given to its own request. */
    method Resume(p: nat) returns (reply: Reply)
      requires Valid() && p in phase && (phase[p].Answered? || phase[p].Refused?)
      modifies this`queues, this`phase
      ensures Valid() && QueuesStep(old(queues), queues) && SameLast(old(queues), queues)
      ensures old(phase)[p].ticket in answers && reply == answers[old(phase)[p].ticket]
      ensures phase == old(phase)[p := Idle] && OnlyClerk(old(queues), queues, old(phase)[p].clerk)
      ensures NoneNew(old(queues), queues)
    {
      ghost var i;
      hide PhasesOk, TicketsOk, QueuesOk, QueuesStep, TasksOk, NoneNew;
      NothingNew(queues, 0, OpOther);
      PhaseKnown(queues, answers, phase, p);
      reply, i := Collect(p, phase[p].clerk);
      CollectStep(old(queues), answers, phase, serving, next, p, i);
      if i >= 0 {
        PutNoneNew(old(queues), phase[p].clerk, i, WithStatus(old(queues)[phase[p].clerk].table[i], Terminated), 0);
      }
      TasksIdle(old(queues), queues, tasks, phase, p);
      phase := phase[p := Idle];
    }

    /** The reaper empties the terminated slots. */
    method Reap() returns (kills: nat)
      requires Valid()
      modifies this`queues
      ensures Valid() && QueuesStep(old(queues), queues) && SameLast(old(queues), queues)
      ensures kills == TotalTerminated(old(queues), CLERK_COUNT) && NoneNew(old(queues), queues)
      ensures forall c, i :: c in queues && 0 <= i < |queues[c].table| ==> !Is(queues[c].table[i], Terminated)
    {
      ReapStep(queues, answers, phase, tasks, serving, next);
      ReapedNoneNew(queues);
      hide NoneNew, PhasesOk, TicketsOk, QueuesStep, TasksOk;
      kills := RemoveRequests();
    }

    /**
     * One step of the system; a step that is not possible now does nothing. `got` is what a caller collected, and the
     * book tells what is owed for it.
     */
    method Step(op: Op, ghost book: Book) returns (got: Common.Option<Receipt>, ghost book': Book)
      requires Valid() && BookOk(queues, answers, next, book)
      modifies this
      ensures Valid() && AnswersKept(old(answers), answers)
      ensures QueuesStep(old(queues), queues) || Recovers(op, old(queues), old(serving), old(phase), queues)
      ensures next >= old(next) && phase.Keys == old(phase).Keys && TicketsMove(old(phase), old(next), phase)
      ensures StuckStay(old(phase), phase, Woke(op, old(queues), old(serving), old(phase)))
      ensures GotOk(got, answers, old(phase), phase)
      ensures BookOk(queues, answers, next, book') && Explains([op], book, book')
    {
      hide PhasesOk, TicketsOk, QueuesOk, QueuesStep, TasksOk, Woken, ReplyOf, Put, Checked, Rewoken, SettledPhase,
           SettledAnswers, Tolerable, StuckSince, LastSlot, BookOk, Explains, NoneNew, NoneNewBut, OpOf, Recovers;
      got, book' := Common.None, book;
      NoStep(queues);
      ExplainsNothing([op], book);
      FreshTicket(answers, phase, queues, next);
      match op {
        case SubmitOp(p, call, memory, order) =>
          if p in phase && phase[p].Idle? {
            var ok := Submit(p, call, memory, order);
            book' := Submitting(book, old(next), OpOf(call), phase[p].Refused?);
            SubmitBooked(op, old(queues), queues, old(answers), old(next), book, phase[p].Refused?);
          }
        case ServeOp(c) =>
          if c in queues && c !in serving {
            var found := Serve(c);
            QuietBooked(op, old(queues), queues, answers, next, book);
          }
        case FinishOp(c, ok, key, buf) =>
          if c in serving {
            book' := Served(op, book);
            Finish(c, ok, key, buf);
          }
        case AbandonOp(c) =>
          if c in serving {
            Abandon(c);
          }
        case CrashOp(c) =>
          book' := StepCrash(op, book);
        case ResumeOp(p) =>
          if p in phase && (phase[p].Answered? || phase[p].Refused?) {
            var t := phase[p].ticket;
            var reply := Resume(p);
            QuietBooked(op, old(queues), queues, answers, next, book);
            got := Common.Some(Receipt(p, t, reply));
          }
        case ReapOp =>
          var kills := Reap();
          QuietBooked(op, old(queues), queues, answers, next, book);
      }
    }

    /** A clerk crashes, while it serves or between requests. */
    method StepCrash(op: Op, ghost book: Book) returns (ghost book': Book)
      requires Valid() && op.CrashOp? && BookOk(queues, answers, next, book)
      modifies this`queues, this`tasks, this`phase, this`serving, this`answers
      ensures Valid() && AnswersKept(old(answers), answers)
      ensures QueuesStep(old(queues), queues) || Recovers(op, old(queues), old(serving), old(phase), queues)
      ensures phase.Keys == old(phase).Keys && TicketsMove(old(phase), next, phase)
      ensures StuckStay(old(phase), phase, Woke(op, old(queues), old(serving), old(phase)))
      ensures BookOk(queues, answers, next, book') && Explains([op], book, book')
    {
      hide PhasesOk, TicketsOk, QueuesOk, QueuesStep, TasksOk, Put, Checked, Rewoken, SettledPhase, SettledAnswers,
           Tolerable, StuckSince, LastSlot, BookOk, Explains, Given;
      NoStep(queues);
      ExplainsNothing([op], book);
      book' := book;
      var c := op.c;
      if c in queues {
        IndexKnown(queues, serving, c);
        CrashBooked(op, queues, answers, next, book, phase, c);
        if c in serving {
          book' := Dropping(book, Given(queues, phase, c));
          Crash(c);
          ServingCrash(old(queues), old(answers), old(phase), c);
        } else if Tolerable(queues, phase, c) {
          book' := Dropping(book, Given(queues, phase, c));
          CrashAtRest(c);
        }
      }
    }

    /** The book once the request that a clerk serves is finished. */
    ghost method Served(op: Op, book: Book) returns (book': Book)
      requires Valid() && op.FinishOp? && op.c in serving && BookOk(queues, answers, next, book)
      ensures op.c in queues && 0 <= queues[op.c].last < |queues[op.c].table|
      ensures queues[op.c].table[queues[op.c].last].Held?
      ensures var i, r := queues[op.c].last, queues[op.c].table[queues[op.c].last].req;
              var r' := r.(status := if op.ok then Complete else Failed, key := op.key, buf := op.buf);
              BookOk(Put(queues, op.c, i, Held(r')), answers[r.ticket := ReplyOf(r')], next, book')
      ensures Explains([op], book, book')
    {
      hide PhasesOk, TicketsOk, QueuesOk, TasksOk, BookOk, Explains, ReplyOf, Put;
      ServingFacts(queues, answers, phase, serving, next, op.c);
      var i, r := queues[op.c].last, queues[op.c].table[queues[op.c].last].req;
      var r' := r.(status := if op.ok then Complete else Failed, key := op.key, buf := op.buf);
      FinishBooked(op, queues, answers, next, book, i, r');
      book' := Finishing(book, r.ticket, op);
    }

    /**
     * Over any run every submission is answered at most once, with what is owed for its operation and the way its
     * handler ended it, and its caller collects that answer at most once; a stuck caller is woken by nothing but the
     * recovery of a resting clerk.
     */
    method Run(ops: seq<Op>, ghost book: Book) returns (log: seq<Receipt>, ghost woken: set<nat>, ghost book': Book)
      requires Valid() && BookOk(queues, answers, next, book)
      modifies this
      ensures Valid() && phase.Keys == old(phase).Keys && AnswersKept(old(answers), answers)
      ensures StuckStay(old(phase), phase, woken) && ((forall i :: 0 <= i < |ops| ==> !ops[i].CrashOp?) ==> woken == {})
      ensures forall k :: 0 <= k < |log| ==> log[k].ticket in answers && log[k].reply == answers[log[k].ticket]
      ensures forall j, k :: 0 <= j < k < |log| ==> log[j].ticket != log[k].ticket
      ensures BookOk(queues, answers, next, book') && Explains(ops, book, book')
      ensures forall k :: 0 <= k < |log| ==>
                && log[k].ticket in book'.asked && log[k].ticket in book'.ended
                && Owed(book'.asked[log[k].ticket], book'.ended[log[k].ticket], log[k].reply)
    {
      hide PhasesOk, TicketsOk, QueuesOk, QueuesStep, TasksOk, LogOk, TicketsMove, BookOk, Explains, Owed;
      log, woken, book' := [], {}, book;
      var n := 0;
      EmptyLog(answers, phase, next);
      ExplainsNothing([], book);
      assert ops[..0] == [];
      while n < |ops|
        invariant 0 <= n <= |ops| && Valid() && phase.Keys == old(phase).Keys && AnswersKept(old(answers), answers)
        invariant StuckStay(old(phase), phase, woken)
        invariant (forall i :: 0 <= i < n ==> !ops[i].CrashOp?) ==> woken == {}
        invariant LogOk(log, answers, phase, next)
        invariant BookOk(queues, answers, next, book') && Explains(ops[..n], book, book')
      {
        FreshTicket(answers, phase, queues, next);
        OwnTickets(answers, phase, queues);
        ghost var answers0, phase0, next0, book0 := answers, phase, next, book';
        woken := woken + Woke(ops[n], queues, serving, phase);
        var got;
        got, book' := Step(ops[n], book');
        ExplainsMore(ops[..n], ops[n], book, book0, book');
        assert ops[..n] + [ops[n]] == ops[..n + 1];
        LogStep(log, answers0, phase0, next0, answers, phase, next, got);
        FreshTicket(answers, phase, queues, next);
        log := if got.Some? then log + [got.value] else log;
        n := n + 1;
      }
      assert ops[..n] == ops;
      LogFacts(log, answers, phase, next);
      forall k | 0 <= k < |log|
        ensures && log[k].ticket in book'.asked && log[k].ticket in book'.ended
                && Owed(book'.asked[log[k].ticket], book'.ended[log[k].ticket], log[k].reply)
      {
        BookReply(queues, answers, next, book', log[k].ticket);
      }
    }
  }

  lemma TasksMove(queues: map<nat, Queue>, queues': map<nat, Queue>, tasks: map<nat, TaskState>, phase: map<nat, Phase>,
                  p: nat, ph: Phase, st: TaskState)
    requires TasksOk(queues, tasks, phase) && queues'.Keys == queues.Keys && p in phase
    requires (st == Blocked <==> Blocking(ph))
    ensures TasksOk(queues', tasks[p := st], phase[p := ph]) && p in tasks && p < Common.MAX_TASKS
    ensures Woken(tasks[p := Blocked], p) == tasks[p := Ready] == Woken(tasks, p)
  {}

  lemma TasksKnown(queues: map<nat, Queue>, tasks: map<nat, TaskState>, phase: map<nat, Phase>, p: nat)
    requires TasksOk(queues, tasks, phase) && p in phase
    ensures p in tasks && p < Common.MAX_TASKS && p !in queues && (tasks[p] == Blocked <==> Blocking(phase[p]))
  {}

  lemma TasksClerk(queues: map<nat, Queue>, tasks: map<nat, TaskState>, phase: map<nat, Phase>, c: nat)
    requires TasksOk(queues, tasks, phase) && c in queues
    ensures TasksOk(queues, Woken(tasks, c), phase)
  {}

  lemma SubmitStep(queues: map<nat, Queue>, answers: map<nat, Reply>, phase: map<nat, Phase>, serving: set<nat>,
                   next: nat, c: nat, i: nat, r: Request)
    requires QueuesOk(queues, serving) && PhasesOk(queues, answers, phase) && TicketsOk(queues, answers, phase, next)
    requires c in queues && i < |queues[c].table| && queues[c].table[i].Empty? && r.caller in phase
    requires phase[r.caller].Idle? && r.status == Pending && r.ticket == next
    ensures var q, ph := Put(queues, c, i, Held(r)), phase[r.caller := Waiting(c, i, next)];
            && QueuesOk(q, serving) && PhasesOk(q, answers, ph) && TicketsOk(q, answers, ph, next + 1)
            && QueuesStep(queues, q) && !NoneLive(q, r.caller)
  {
    assert PhaseOk(queues, answers, r.caller, phase[r.caller]);
    PutOne(queues, c, i, Held(r), r.caller);
    PutStep(queues, c, i, Held(r), 0);
    MovesOne(queues, answers, answers, phase, next, next + 1, c, i, Held(r), r.caller, Waiting(c, i, next));
  }

  lemma AcceptStep(queues: map<nat, Queue>, answers: map<nat, Reply>, phase: map<nat, Phase>,
                   tasks: map<nat, TaskState>,
                   serving: set<nat>, next: nat, c: nat, i: nat, r: Request)
    requires QueuesOk(queues, serving) && PhasesOk(queues, answers, phase) && TicketsOk(queues, answers, phase, next)
    requires TasksOk(queues, tasks, phase)
    requires c in queues && i < |queues[c].table| && queues[c].table[i].Empty? && r.caller in phase
    requires phase[r.caller].Idle? && r.status == Pending && r.ticket == next
    ensures var q, ph := Put(queues, c, i, Held(r)), phase[r.caller := Waiting(c, i, next)];
            && QueuesOk(q, serving) && PhasesOk(q, answers, ph) && TicketsOk(q, answers, ph, next + 1)
            && TasksOk(q, Woken(tasks[r.caller := Blocked], c), ph)
            && QueuesStep(queues, q) && SameLast(queues, q) && !NoneLive(q, r.caller) && OnlyClerk(queues, q, c)
  {
    hide PhasesOk, TicketsOk, QueuesOk, QueuesStep, TasksOk, NoneLive;
    var q, ph := Put(queues, c, i, Held(r)), phase[r.caller := Waiting(c, i, next)];
    SubmitStep(queues, answers, phase, serving, next, c, i, r);
    TasksMove(queues, q, tasks, phase, r.caller, Waiting(c, i, next), Blocked);
    TasksClerk(q, tasks[r.caller := Blocked], ph, c);
  }

  lemma RefuseTasks(queues: map<nat, Queue>, tasks: map<nat, TaskState>, phase: map<nat, Phase>, p: nat, ph: Phase,
                    call: Call, memory: Memory, order: Order)
    requires TasksOk(queues, tasks, phase) && p in phase && phase[p].Idle? && p in tasks
    requires ph.Stuck? <==> Strands(call, memory, order)
    requires !ph.Waiting?
    ensures OnlyClerk(queues, queues, ClerkOf(call))
    ensures TasksOk(queues, tasks[p := AfterRefusal(tasks[p], call, memory, order)], phase[p := ph])
    ensures SameLast(queues, queues)
  {
    TasksMove(queues, queues, tasks, phase, p, ph, AfterRefusal(tasks[p], call, memory, order));
  }

  /** A refused caller has no request. */
  lemma RefuseStep(queues: map<nat, Queue>, answers: map<nat, Reply>, phase: map<nat, Phase>, next: nat, p: nat,
                   ph: Phase)
    requires PhasesOk(queues, answers, phase) && TicketsOk(queues, answers, phase, next) && p in phase && phase[p].Idle?
    requires ph.Idle? || ((ph.Refused? || ph.Stuck?) && ph.ticket == next)
    ensures var a, phase' := if ph.Refused? then answers[next := Error] else answers, phase[p := ph];
            && PhasesOk(queues, a, phase') && TicketsOk(queues, a, phase', next + 1) && QueuesStep(queues, queues)
            && NoneLive(queues, p)
  {
    var a, phase' := if ph.Refused? then answers[next := Error] else answers, phase[p := ph];
    assert PhaseOk(queues, answers, p, phase[p]);
    forall q | q in phase' ensures PhaseOk(queues, a, q, phase'[q]) { assert PhaseOk(queues, answers, q, phase[q]); }
  }

  lemma NoStep(queues: map<nat, Queue>)
    ensures QueuesStep(queues, queues)
  {}

  lemma PhaseKnown(queues: map<nat, Queue>, answers: map<nat, Reply>, phase: map<nat, Phase>, p: nat)
    requires PhasesOk(queues, answers, phase) && p in phase
    ensures PhaseOk(queues, answers, p, phase[p])
  {}

  lemma TasksIdle(queues: map<nat, Queue>, queues': map<nat, Queue>, tasks: map<nat, TaskState>, phase: map<nat, Phase>,
                  p: nat)
    requires TasksOk(queues, tasks, phase) && queues'.Keys == queues.Keys && p in phase && !Blocking(phase[p])
    ensures TasksOk(queues', tasks, phase[p := Idle])
  {}

  lemma ServeStep(queues: map<nat, Queue>, answers: map<nat, Reply>, phase: map<nat, Phase>, tasks: map<nat, TaskState>,
                  serving: set<nat>, next: nat, c: nat, i: nat)
    requires QueuesOk(queues, serving) && PhasesOk(queues, answers, phase) && TasksOk(queues, tasks, phase)
    requires TicketsOk(queues, answers, phase, next)
    requires c in queues && i < |queues[c].table| && Open(queues[c].table[i])
    requires Is(queues[c].table[i], Pending) ==>
               forall j :: 0 <= j < |queues[c].table| ==> !Is(queues[c].table[j], InProgress)
    ensures var q := Fetched(queues, c, i);
            && QueuesOk(q, serving + {c}) && PhasesOk(q, answers, phase) && TasksOk(q, tasks, phase)
            && TicketsOk(q, answers, phase, next) && QueuesStep(queues, q)
  {
    ServePhases(queues, answers, phase, next, c, i);
    ServeQueues(queues, serving, c, i);
    PutStep(queues, c, i, WithStatus(queues[c].table[i], InProgress), i);
    hide PhasesOk, TicketsOk, QueuesStep, QueuesOk;
  }

  lemma ServeQueues(queues: map<nat, Queue>, serving: set<nat>, c: nat, i: nat)
    requires QueuesOk(queues, serving) && c in queues && i < |queues[c].table| && Open(queues[c].table[i])
    requires Is(queues[c].table[i], Pending) ==>
               forall j :: 0 <= j < |queues[c].table| ==> !Is(queues[c].table[j], InProgress)
    ensures QueuesOk(Fetched(queues, c, i), serving + {c})
  {
    assert QueueOk(queues[c], c in serving);
    var table := queues[c].table[i := WithStatus(queues[c].table[i], InProgress)];
    assert QueueOk(Queue(table, i), true);
  }

  lemma ServePhases(queues: map<nat, Queue>, answers: map<nat, Reply>, phase: map<nat, Phase>, next: nat, c: nat,
                    i: nat)
    requires PhasesOk(queues, answers, phase) && TicketsOk(queues, answers, phase, next)
    requires c in queues && i < |queues[c].table| && Open(queues[c].table[i])
    ensures var q := Fetched(queues, c, i);
            PhasesOk(q, answers, phase) && TicketsOk(q, answers, phase, next)
  {
    var s := WithStatus(queues[c].table[i], InProgress);
    var r := s.req;
    OpenIsWaiting(queues, answers, phase, next, c, i);
    PhaseKnown(queues, answers, phase, r.caller);
    PutOne(queues, c, i, s, r.caller);
    MovesOne(queues, answers, answers, phase, next, next, c, i, s, r.caller, phase[r.caller]);
    hide PhasesOk, TicketsOk;
    assert phase[r.caller := phase[r.caller]] == phase;
    var p := Put(queues, c, i, s);
    assert p[c := Queue(p[c].table, i)] == queues[c := Queue(queues[c].table[i := s], i)];
    LastAny(p, answers, phase, next, c, i);
  }

  /** Phases and tickets do not depend on the recovery index. */
  lemma LastAny(queues: map<nat, Queue>, answers: map<nat, Reply>, phase: map<nat, Phase>, next: nat, c: nat, last: int)
    requires PhasesOk(queues, answers, phase) && TicketsOk(queues, answers, phase, next) && c in queues
    ensures var q := queues[c := Queue(queues[c].table, last)];
            PhasesOk(q, answers, phase) && TicketsOk(q, answers, phase, next)
  {
    var q := queues[c := Queue(queues[c].table, last)];
    forall p | p in phase ensures PhaseOk(q, answers, p, phase[p]) {
      assert PhaseOk(queues, answers, p, phase[p]);
      forall d, j ensures LiveOf(q, d, j, p) <==> LiveOf(queues, d, j, p) {}
    }
  }

  lemma ServingFacts(queues: map<nat, Queue>, answers: map<nat, Reply>, phase: map<nat, Phase>, serving: set<nat>,
                     next: nat, c: nat)
    requires QueuesOk(queues, serving) && PhasesOk(queues, answers, phase) && TicketsOk(queues, answers, phase, next)
    requires c in serving
    ensures c in queues && 0 <= queues[c].last < |queues[c].table| && Is(queues[c].table[queues[c].last], InProgress)
    ensures var r := queues[c].table[queues[c].last].req;
            r.caller in phase && phase[r.caller] == Waiting(c, queues[c].last, r.ticket) && r.ticket !in answers
  {
    OpenIsWaiting(queues, answers, phase, next, c, queues[c].last);
    var r := queues[c].table[queues[c].last].req;
    assert PhaseOk(queues, answers, r.caller, phase[r.caller]);
  }

  /** The served request gets status, key and buffer. */
  lemma FinishStep(queues: map<nat, Queue>, answers: map<nat, Reply>, phase: map<nat, Phase>, serving: set<nat>,
                   next: nat, c: nat, r: Request)
    requires QueuesOk(queues, serving) && PhasesOk(queues, answers, phase) && TicketsOk(queues, answers, phase, next)
    requires c in serving
    requires c in queues && 0 <= queues[c].last < |queues[c].table| && queues[c].table[queues[c].last].Held?
    requires var o := queues[c].table[queues[c].last].req;
             o.ticket == r.ticket && o.caller == r.caller && o.op == r.op
    requires r.status == Complete || r.status == Failed
    ensures var i := queues[c].last;
            var q, a, ph := Put(queues, c, i, Held(r)), answers[r.ticket := ReplyOf(r)],
                phase[r.caller := Answered(c, i, r.ticket)];
            QueuesOk(q, serving - {c}) && PhasesOk(q, a, ph) && TicketsOk(q, a, ph, next) && QueuesStep(queues, q)
  {
    var i: nat := queues[c].last;
    ServingFacts(queues, answers, phase, serving, next, c);
    assert PhaseOk(queues, answers, r.caller, phase[r.caller]);
    PutOne(queues, c, i, Held(r), r.caller);
    PutStep(queues, c, i, Held(r), 0);
    MovesOne(queues, answers, answers[r.ticket := ReplyOf(r)], phase, next, next, c, i, Held(r), r.caller,
             Answered(c, i, r.ticket));
  }

  /** A request that is not complete is terminated, and its caller refused. */
  lemma SettleStep(queues: map<nat, Queue>, answers: map<nat, Reply>, phase: map<nat, Phase>, serving: set<nat>,
                   next: nat, c: nat)
    requires QueuesOk(queues, serving) && PhasesOk(queues, answers, phase) && TicketsOk(queues, answers, phase, next)
    requires IndexOk(queues, c) && Hit(queues, c)
    requires !Is(LastSlot(queues, c), Terminated) && !Is(LastSlot(queues, c), Complete)
    ensures var q, ph := Checked(queues, c), SettledPhase(queues, phase, c);
            var a := SettledAnswers(queues, answers, phase, c);
            QueuesOk(q, serving - {c}) && PhasesOk(q, a, ph) && TicketsOk(q, a, ph, next) && AnswersKept(answers, a)
  {
    var i: nat := queues[c].last;
    var r := queues[c].table[i].req;
    var s := Held(r.(status := Terminated));
    LastIsLive(queues, answers, phase, next, c);
    assert PhaseOk(queues, answers, r.caller, phase[r.caller]);
    PutNone(queues, c, i, s, r.caller);
    assert QueueOk(queues[c], c in serving);
    var a := SettledAnswers(queues, answers, phase, c);
    MovesOne(queues, answers, a, phase, next, next, c, i, s, r.caller, Refused(c, r.ticket));
  }

  lemma IndexKnown(queues: map<nat, Queue>, serving: set<nat>, c: nat)
    requires QueuesOk(queues, serving) && c in queues
    ensures IndexOk(queues, c) && -1 <= queues[c].last
  {
    assert QueueOk(queues[c], c in serving);
  }

  /** A live request at the recorded index is its caller's one request; its phase says how far it is. */
  lemma LastIsLive(queues: map<nat, Queue>, answers: map<nat, Reply>, phase: map<nat, Phase>, next: nat, c: nat)
    requires PhasesOk(queues, answers, phase) && TicketsOk(queues, answers, phase, next)
    requires IndexOk(queues, c) && Hit(queues, c) && !Is(LastSlot(queues, c), Terminated)
    ensures var s, i := LastSlot(queues, c), queues[c].last;
            && s.req.caller in phase && LiveOf(queues, c, i, s.req.caller)
            && (if Open(s) then phase[s.req.caller] == Waiting(c, i, s.req.ticket) && s.req.ticket !in answers
                else && phase[s.req.caller] == Answered(c, i, s.req.ticket)
                     && s.req.ticket in answers && answers[s.req.ticket] == ReplyOf(s.req))
  {
    var s, i := LastSlot(queues, c), queues[c].last;
    assert LiveOf(queues, c, i, s.req.caller);
    assert PhaseOk(queues, answers, s.req.caller, phase[s.req.caller]);
  }

  /** Terminating a request that is terminated already changes no table. */
  lemma CheckedSame(queues: map<nat, Queue>, c: nat)
    requires IndexOk(queues, c)
    ensures (!Hit(queues, c) || Is(LastSlot(queues, c), Terminated)) ==> Checked(queues, c) == queues
  {
    if Hit(queues, c) && Is(LastSlot(queues, c), Terminated) {
      var i := queues[c].last;
      assert WithStatus(queues[c].table[i], Terminated) == queues[c].table[i];
      assert queues[c].table[i := queues[c].table[i]] == queues[c].table;
    }
  }

  lemma RewokenOk(queues: map<nat, Queue>, phase: map<nat, Phase>, tasks: map<nat, TaskState>, c: nat)
    requires TasksOk(queues, tasks, phase) && IndexOk(queues, c) && Hit(queues, c)
    ensures var p := LastSlot(queues, c).req.caller;
            TasksOk(queues, Rewoken(queues, tasks, c), phase) <==> (p in phase ==> !Blocking(phase[p]))
  {
    var p := LastSlot(queues, c).req.caller;
    if p in phase && Blocking(phase[p]) { assert Rewoken(queues, tasks, c)[p] == Ready; }
  }

  /**
   * Recovery after a crash between requests leaves a sound ledger, with every caller where it was, if and only if the
   * recorded index is unset, or names an empty slot, or a terminated one whose caller is not blocked.
   */
  lemma HarmlessIff(queues: map<nat, Queue>, answers: map<nat, Reply>, phase: map<nat, Phase>,
                    tasks: map<nat, TaskState>, serving: set<nat>, next: nat, c: nat)
    requires AllOk(queues, answers, phase, tasks, serving, next) && c in queues && c !in serving
    ensures IndexOk(queues, c)
    ensures AllOk(Checked(queues, c), answers, phase, Rewoken(queues, tasks, c), serving, next) <==>
              Harmless(queues, phase, c)
  {
    hide QueuesOk, PhasesOk, TasksOk, TicketsOk;
    IndexKnown(queues, serving, c);
    CheckedSame(queues, c);
    if Hit(queues, c) {
      if Is(LastSlot(queues, c), Terminated) {
        RewokenOk(queues, phase, tasks, c);
      } else {
        LastIsLive(queues, answers, phase, next, c);
        TerminatedGone(queues, answers, phase, c);
      }
    }
  }

  /** A stuck caller that is woken finds nothing to collect, which it reads as an error. */
  lemma RescueStep(queues: map<nat, Queue>, answers: map<nat, Reply>, phase: map<nat, Phase>, next: nat, p: nat)
    requires PhasesOk(queues, answers, phase) && TicketsOk(queues, answers, phase, next)
    requires p in phase && phase[p].Stuck?
    ensures var a := answers[phase[p].ticket := Error];
            && PhasesOk(queues, a, Rescued(phase, p)) && TicketsOk(queues, a, Rescued(phase, p), next)
            && AnswersKept(answers, a)
  {
    var a, ph := answers[phase[p].ticket := Error], Rescued(phase, p);
    assert PhaseOk(queues, answers, p, phase[p]);
    forall q | q in ph ensures PhaseOk(queues, a, q, ph[q]) { assert PhaseOk(queues, answers, q, phase[q]); }
  }

  lemma TolerateStep(queues: map<nat, Queue>, answers: map<nat, Reply>, phase: map<nat, Phase>,
                     tasks: map<nat, TaskState>, serving: set<nat>, next: nat, c: nat)
    requires AllOk(queues, answers, phase, tasks, serving, next) && c in queues && c !in serving
    requires IndexOk(queues, c) && Tolerable(queues, phase, c)
    ensures var a, ph := SettledAnswers(queues, answers, phase, c), SettledPhase(queues, phase, c);
            && AllOk(Checked(queues, c), a, ph, Rewoken(queues, tasks, c), serving, next)
            && Settles(answers, phase, a, ph) && StuckStay(phase, ph, Woke(CrashOp(c), queues, serving, phase))
            && TicketsMove(phase, next, ph)
  {
    hide QueuesOk, PhasesOk, TasksOk, TicketsOk;
    CheckedSame(queues, c);
    if Hit(queues, c) {
      if StuckSince(LastSlot(queues, c), phase) {
        TolerateStuck(queues, answers, phase, tasks, serving, next, c);
      } else if Is(LastSlot(queues, c), Terminated) {
        RewokenOk(queues, phase, tasks, c);
      } else {
        TolerateLive(queues, answers, phase, tasks, serving, next, c);
      }
    }
  }

  lemma TolerateStuck(queues: map<nat, Queue>, answers: map<nat, Reply>, phase: map<nat, Phase>,
                      tasks: map<nat, TaskState>, serving: set<nat>, next: nat, c: nat)
    requires AllOk(queues, answers, phase, tasks, serving, next)
    requires IndexOk(queues, c) && Hit(queues, c) && StuckSince(LastSlot(queues, c), phase)
    ensures var a, ph := SettledAnswers(queues, answers, phase, c), SettledPhase(queues, phase, c);
            AllOk(Checked(queues, c), a, ph, Rewoken(queues, tasks, c), serving, next) && Settles(answers, phase, a, ph)
  {
    hide QueuesOk, PhasesOk, TasksOk, TicketsOk;
    CheckedSame(queues, c);
    var p := LastSlot(queues, c).req.caller;
    TasksKnown(queues, tasks, phase, p);
    RescueStep(queues, answers, phase, next, p);
    TasksMove(queues, queues, tasks, phase, p, Rescued(phase, p)[p], Ready);
  }

  lemma TolerateLive(queues: map<nat, Queue>, answers: map<nat, Reply>, phase: map<nat, Phase>,
                     tasks: map<nat, TaskState>, serving: set<nat>, next: nat, c: nat)
    requires AllOk(queues, answers, phase, tasks, serving, next) && c !in serving
    requires IndexOk(queues, c) && Hit(queues, c) && Live(LastSlot(queues, c)) && !Is(LastSlot(queues, c), Complete)
    ensures var a, ph := SettledAnswers(queues, answers, phase, c), SettledPhase(queues, phase, c);
            AllOk(Checked(queues, c), a, ph, Rewoken(queues, tasks, c), serving, next) && Settles(answers, phase, a, ph)
    ensures var p := LastSlot(queues, c).req.caller; p in phase && !phase[p].Stuck? && !phase[p].Idle?
    ensures phase[LastSlot(queues, c).req.caller].ticket == LastSlot(queues, c).req.ticket
  {
    hide QueuesOk, PhasesOk, TasksOk, TicketsOk;
    var r := LastSlot(queues, c).req;
    LastIsLive(queues, answers, phase, next, c);
    SettleStep(queues, answers, phase, serving, next, c);
    TasksMove(queues, Checked(queues, c), tasks, phase, r.caller, Refused(c, r.ticket), Ready);
    assert serving - {c} == serving;
  }

  /**
   * Some reply to the callers makes up for the crash, without taking an answer back, if and only if the request at the
   * index is not complete, and not a terminated one whose caller waits for another request.
   */
  lemma TolerableIff(queues: map<nat, Queue>, answers: map<nat, Reply>, phase: map<nat, Phase>,
                     tasks: map<nat, TaskState>, serving: set<nat>, next: nat, c: nat)
    requires AllOk(queues, answers, phase, tasks, serving, next) && c in queues && c !in serving
    ensures IndexOk(queues, c)
    ensures (exists a, ph ::
               && Settles(answers, phase, a, ph)
               && AllOk(Checked(queues, c), a, ph, Rewoken(queues, tasks, c), serving, next)) <==>
              Tolerable(queues, phase, c)
  {
    hide QueuesOk, PhasesOk, TasksOk, TicketsOk, Settles;
    IndexKnown(queues, serving, c);
    if Tolerable(queues, phase, c) {
      TolerateStep(queues, answers, phase, tasks, serving, next, c);
    } else {
      forall a, ph | Settles(answers, phase, a, ph)
        ensures !AllOk(Checked(queues, c), a, ph, Rewoken(queues, tasks, c), serving, next)
      {
        NotTolerable(queues, answers, phase, tasks, next, c, a, ph);
      }
    }
  }

  lemma NotTolerable(queues: map<nat, Queue>, answers: map<nat, Reply>, phase: map<nat, Phase>,
                     tasks: map<nat, TaskState>, next: nat, c: nat, a: map<nat, Reply>, ph: map<nat, Phase>)
    requires PhasesOk(queues, answers, phase) && TasksOk(queues, tasks, phase)
    requires TicketsOk(queues, answers, phase, next)
    requires IndexOk(queues, c) && !Tolerable(queues, phase, c) && Settles(answers, phase, a, ph)
    ensures !PhasesOk(Checked(queues, c), a, ph) || !TasksOk(Checked(queues, c), Rewoken(queues, tasks, c), ph)
  {
    var s, q := LastSlot(queues, c), Checked(queues, c);
    var p := s.req.caller;
    assert Hit(queues, c);
    if Is(s, Complete) {
      LastIsLive(queues, answers, phase, next, c);
      assert !LiveOf(q, c, queues[c].last, p);
      assert !PhaseOk(q, a, p, ph[p]);
    } else {
      CheckedSame(queues, c);
      assert Rewoken(queues, tasks, c)[p] == Ready;
      if PhasesOk(q, a, ph) {
        assert PhaseOk(queues, answers, p, phase[p]) && PhaseOk(q, a, p, ph[p]);
        assert phase[p].Waiting? ==> LiveOf(queues, phase[p].clerk, phase[p].slot, p);
        assert Blocking(ph[p]);
      }
    }
  }

  /** Once its request is terminated, a waiting or answered caller cannot stay where it was. */
  lemma TerminatedGone(queues: map<nat, Queue>, answers: map<nat, Reply>, phase: map<nat, Phase>, c: nat)
    requires IndexOk(queues, c) && Hit(queues, c)
    requires var p := LastSlot(queues, c).req.caller;
             && p in phase && (phase[p].Waiting? || phase[p].Answered?)
             && phase[p].clerk == c && phase[p].slot == queues[c].last
    ensures !PhasesOk(Checked(queues, c), answers, phase)
  {
    var p := LastSlot(queues, c).req.caller;
    assert !LiveOf(Checked(queues, c), c, queues[c].last, p);
    assert !PhaseOk(Checked(queues, c), answers, p, phase[p]);
  }

  /** Collecting finds the caller's one finished request, if it has one, and nobody else's. */
  lemma CollectStep(queues: map<nat, Queue>, answers: map<nat, Reply>, phase: map<nat, Phase>, serving: set<nat>,
                    next: nat, p: nat, i: int)
    requires QueuesOk(queues, serving) && PhasesOk(queues, answers, phase) && TicketsOk(queues, answers, phase, next)
    requires p in phase && (phase[p].Answered? || phase[p].Refused?)
    requires i >= 0 ==>
               && phase[p].clerk in queues && i < |queues[phase[p].clerk].table|
               && Collectable(queues[phase[p].clerk].table[i], p)
    requires i < 0 && phase[p].clerk in queues ==>
               forall j :: 0 <= j < |queues[phase[p].clerk].table| ==> !Collectable(queues[phase[p].clerk].table[j], p)
    ensures phase[p].ticket in answers
    ensures i < 0 ==>
              && answers[phase[p].ticket] == Error && PhasesOk(queues, answers, phase[p := Idle])
              && TicketsOk(queues, answers, phase[p := Idle], next)
    ensures i >= 0 ==> var c := phase[p].clerk;
                       var s := queues[c].table[i];
                       var q := Put(queues, c, i, WithStatus(s, Terminated));
                       && answers[phase[p].ticket] == ReplyOf(s.req) && QueuesStep(queues, q)
                       && QueuesOk(q, serving) && PhasesOk(q, answers, phase[p := Idle])
                       && TicketsOk(q, answers, phase[p := Idle], next)
    ensures QueuesStep(queues, queues)
  {
    var c := phase[p].clerk;
    assert PhaseOk(queues, answers, p, phase[p]);
    if i >= 0 {
      assert LiveOf(queues, c, i, p);
      var s := WithStatus(queues[c].table[i], Terminated);
      PutNone(queues, c, i, s, p);
      PutStep(queues, c, i, s, 0);
      MovesOne(queues, answers, answers, phase, next, next, c, i, s, p, Idle);
    } else {
      RefusedOnly(queues, answers, p, phase[p]);
    }
  }

  lemma RefusedOnly(queues: map<nat, Queue>, answers: map<nat, Reply>, p: nat, ph: Phase)
    requires PhaseOk(queues, answers, p, ph) && (ph.Answered? || ph.Refused?)
    requires ph.clerk in queues ==>
               forall j :: 0 <= j < |queues[ph.clerk].table| ==> !Collectable(queues[ph.clerk].table[j], p)
    ensures ph.Refused?
  {
    assert ph.Answered? ==> LiveOf(queues, ph.clerk, ph.slot, p);
  }

  /** Two callers and a clerk with room for one request. */
  method TwoCallers() returns (l: Ledger)
    ensures fresh(l) && l.Valid() && FS_PID in l.queues && l.queues[FS_PID] == Queue([Empty], -1) && l.serving == {}
    ensures l.phase == map[10 := Idle, 11 := Idle]
  {
    l := new Ledger(map[FS_PID := 1], map[FS_PID := Sleeping, 10 := Running, 11 := Running], {10, 11});
    assert l.queues[FS_PID].table == [Empty];
  }

  /** A caller opens a file. */
  method OpenFile(l: Ledger, p: nat)
    requires l.Valid() && FS_PID in l.queues && l.queues[FS_PID].table == [Empty] && p in l.phase && l.phase[p].Idle?
    modifies l
    ensures l.Valid() && FS_PID in l.queues && |l.queues[FS_PID].table| == 1 && SameLast(old(l.queues), l.queues)
    ensures l.serving == old(l.serving) && OnlyClerk(old(l.queues), l.queues, FS_PID)
    ensures l.phase.Keys == old(l.phase).Keys && forall q :: q in l.phase && q != p ==> l.phase[q] == old(l.phase)[q]
    ensures p in l.phase && l.phase[p].Waiting? && l.phase[p].clerk == FS_PID
  {
    hide NoneNew, NoneNewBut, PhasesOk, TicketsOk, QueuesOk, TasksOk, QueueOk, LiveOf, QueuesStep, NoneLive;
    assert l.queues[FS_PID].table[0].Empty?;
    ghost var q := l.queues;
    var ok := l.Submit(p, FsCall(OpOpen, 0, false), Memory(true, true, true), BlockFirst);
    SameSize(q, l.queues, FS_PID);
  }

  /** One caller has been served; its slot is empty again and the clerk is at rest, with the index still on the slot. */
  method ServedOnce() returns (l: Ledger)
    ensures fresh(l) && l.Valid() && 1 in l.queues && l.queues[1] == Queue([Empty], 0) && l.serving == {}
    ensures l.phase == map[10 := Idle, 11 := Idle]
  {
    hide NoneNew, NoneNewBut, PhasesOk, TicketsOk, QueuesOk, TasksOk, QueueOk, LiveOf, QueuesStep, SlotStep,
         TotalTerminated;
    l := TwoCallers();
    OpenFile(l, 10);
    WaitingIsOpen(l.queues, l.answers, l.phase, 10);
    ghost var q := l.queues;
    var ok := l.Serve(1);
    SameSize(q, l.queues, 1);
    ServeAndClear(l);
  }

  /** The served caller is answered, collects, and its slot is reaped. */
  method ServeAndClear(l: Ledger)
    requires l.Valid() && 1 in l.queues && |l.queues[1].table| == 1 && l.serving == {1}
    requires 10 in l.phase && l.phase[10].Waiting? && forall p :: p in l.phase && p != 10 ==> l.phase[p].Idle?
    modifies l
    ensures l.Valid() && 1 in l.queues && l.queues[1] == Queue([Empty], 0) && l.serving == {}
    ensures l.phase.Keys == old(l.phase).Keys && forall p :: p in l.phase ==> l.phase[p].Idle?
  {
    hide NoneNew, NoneNewBut, PhasesOk, TicketsOk, QueuesOk, TasksOk, QueueOk, LiveOf, QueuesStep, SlotStep,
         TotalTerminated;
    l.Finish(1, true, 0, []);
    assert l.queues[1].last == 0 && |l.queues[1].table| == 1;
    ghost var q := l.queues;
    var reply := l.Resume(10);
    SameSize(q, l.queues, 1);
    q := l.queues;
    var kills := l.Reap();
    SameSize(q, l.queues, 1);
    NobodyLive(l.queues, l.answers, l.phase, l.next);
    assert !Is(l.queues[1].table[0], Terminated) && !Live(l.queues[1].table[0]);
    assert l.queues[1].table == [Empty];
  }

  lemma SameSize(a: map<nat, Queue>, b: map<nat, Queue>, c: nat)
    requires QueuesStep(a, b) && c in a
    ensures c in b && |b[c].table| == |a[c].table|
  {}

  lemma WaitingIsOpen(queues: map<nat, Queue>, answers: map<nat, Reply>, phase: map<nat, Phase>, p: nat)
    requires PhasesOk(queues, answers, phase) && p in phase && phase[p].Waiting?
    ensures var ph := phase[p];
            && ph.clerk in queues && ph.slot < |queues[ph.clerk].table| && Open(queues[ph.clerk].table[ph.slot])
            && queues[ph.clerk].table[ph.slot].req.caller == p
            && queues[ph.clerk].table[ph.slot].req.ticket == ph.ticket && ph.ticket !in answers
  {
    PhaseKnown(queues, answers, phase, p);
  }

  lemma NobodyLive(queues: map<nat, Queue>, answers: map<nat, Reply>, phase: map<nat, Phase>, next: nat)
    requires PhasesOk(queues, answers, phase) && TicketsOk(queues, answers, phase, next)
    requires forall p :: p in phase ==> phase[p].Idle?
    ensures forall c, i :: c in queues && 0 <= i < |queues[c].table| ==> !Live(queues[c].table[i])
  {
    forall c, i | c in queues && 0 <= i < |queues[c].table| ensures !Live(queues[c].table[i]) {
      if Live(queues[c].table[i]) {
        var p := queues[c].table[i].req.caller;
        PhaseKnown(queues, answers, phase, p);
        assert LiveOf(queues, c, i, p);
        assert false;
      }
    }
  }

  /**
   * A crash between requests is not exact: the recorded index may name a slot that was reaped and taken by a new
   * request, which is then terminated although it was never handled.
   */
  method StaleCrash() returns (l: Ledger)
    ensures fresh(l) && 1 !in l.serving && !l.Valid()
    ensures 1 in l.queues && |l.queues[1].table| == 1 && Is(l.queues[1].table[0], Terminated)
    ensures l.queues[1].table[0].req.caller == 11
    ensures 11 in l.phase && l.phase[11].Waiting? && l.phase[11].ticket == l.queues[1].table[0].req.ticket
    ensures l.phase[11].ticket !in l.answers
  {
    hide NoneNew, NoneNewBut, PhasesOk, TicketsOk, QueuesOk, TasksOk, QueueOk, LiveOf, QueuesStep, SlotStep;
    l := ServedOnce();
    OpenFile(l, 11);
    WaitingIsOpen(l.queues, l.answers, l.phase, 11);
    LedgerIndexed(l);
    l.CheckRequest(1);
    NotWaiting(l.queues, l.answers, l.phase, 11);
  }

  /** A caller, and two clerks with room for one request each. */
  method TwoClerks() returns (l: Ledger)
    ensures fresh(l) && l.Valid() && l.serving == {} && l.phase == map[10 := Idle]
    ensures FS_PID in l.queues && GUI_PID in l.queues
    ensures l.queues[FS_PID] == Queue([Empty], -1) && l.queues[GUI_PID] == Queue([Empty], -1)
  {
    l := new Ledger(map[FS_PID := 1, GUI_PID := 1], map[FS_PID := Sleeping, GUI_PID := Sleeping, 10 := Running], {10});
    assert l.queues[FS_PID].table == [Empty] && l.queues[GUI_PID].table == [Empty];
  }

  /** The caller's file has been opened, it knows, and the file system clerk is at rest. */
  method FileOpened() returns (l: Ledger)
    ensures fresh(l) && l.Valid() && l.serving == {} && l.phase.Keys == {10} && l.phase[10].Answered?
    ensures l.phase[10].ticket in l.answers && l.answers[l.phase[10].ticket] != Error
    ensures FS_PID in l.queues && l.queues[FS_PID].last == 0 && |l.queues[FS_PID].table| == 1
    ensures l.phase[10] == Answered(FS_PID, 0, l.phase[10].ticket)
    ensures Is(l.queues[FS_PID].table[0], Complete) && l.queues[FS_PID].table[0].req.caller == 10
    ensures GUI_PID in l.queues && l.queues[GUI_PID] == Queue([Empty], -1)
  {
    hide NoneNew, NoneNewBut, PhasesOk, TicketsOk, QueuesOk, TasksOk, QueueOk, LiveOf, QueuesStep, SlotStep;
    l := TwoClerks();
    OpenFile(l, 10);
    WaitingIsOpen(l.queues, l.answers, l.phase, 10);
    ghost var q := l.queues;
    var ok := l.Serve(FS_PID);
    SameSize(q, l.queues, FS_PID);
    l.Finish(FS_PID, true, 7, []);
  }

  /** A crash after a reply was given and before it is collected takes it back: the caller collects an error instead. */
  method LostReply() returns (l: Ledger, reply: Reply)
    ensures fresh(l) && !l.Valid() && FS_PID !in l.serving && 10 in l.phase && l.phase[10].Answered? && reply == Error
    ensures l.phase[10].ticket in l.answers && l.answers[l.phase[10].ticket] != Error
  {
    hide NoneNew, NoneNewBut, PhasesOk, TicketsOk, QueuesOk, TasksOk, QueueOk, LiveOf, QueuesStep, SlotStep;
    l := FileOpened();
    LedgerIndexed(l);
    l.CheckRequest(FS_PID);
    ghost var i;
    reply, i := l.Collect(10, FS_PID);
    NotAnswered(l.queues, l.answers, l.phase, 10);
  }

  /**
   * A crash with the index on a request that is over wakes its caller although it waits for another request: it
   * collects an error while that request stays open.
   */
  method WrongWake() returns (l: Ledger, reply: Reply)
    ensures fresh(l) && !l.Valid() && FS_PID !in l.serving && reply == Error
    ensures 10 in l.tasks && l.tasks[10] == Ready && 10 in l.phase && l.phase[10].Waiting?
    ensures l.phase[10].clerk == GUI_PID && GUI_PID in l.queues && l.phase[10].slot < |l.queues[GUI_PID].table|
    ensures Open(l.queues[GUI_PID].table[l.phase[10].slot])
  {
    hide NoneNew, NoneNewBut, PhasesOk, TicketsOk, QueuesOk, TasksOk, QueueOk, LiveOf, QueuesStep, SlotStep, NoneLive;
    l := FileOpened();
    ghost var q := l.queues;
    reply := l.Resume(10);
    NowOver(q, l.queues, l.answers, l.phase, 10);
    assert l.queues[GUI_PID].table[0].Empty?;
    q := l.queues;
    var ok := l.Submit(10, GuiCall(OpCreate, false, false), Memory(true, true, true), CheckFirst);
    SameSize(q, l.queues, GUI_PID);
    WaitingIsOpen(l.queues, l.answers, l.phase, 10);
    TasksKnown(l.queues, l.tasks, l.phase, 10);
    LedgerIndexed(l);
    l.CheckRequest(FS_PID);
    ghost var i;
    reply, i := l.Collect(10, GUI_PID);
    NotBlocked(l.queues, l.tasks, l.phase, 10);
  }

  /** A complete request whose caller has none left is terminated. */
  lemma NowOver(a: map<nat, Queue>, b: map<nat, Queue>, answers: map<nat, Reply>, phase: map<nat, Phase>, p: nat)
    requires QueuesStep(a, b) && PhasesOk(b, answers, phase) && p in phase && phase[p].Idle?
    requires FS_PID in a && |a[FS_PID].table| == 1 && Is(a[FS_PID].table[0], Complete)
    requires a[FS_PID].table[0].req.caller == p
    ensures FS_PID in b && |b[FS_PID].table| == 1 && Is(b[FS_PID].table[0], Terminated)
    ensures b[FS_PID].table[0].req.caller == p
  {
    PhaseKnown(b, answers, phase, p);
    assert SlotStep(a[FS_PID].table[0], b[FS_PID].table[0]) && !LiveOf(b, FS_PID, 0, p);
  }

  lemma NotBlocked(queues: map<nat, Queue>, tasks: map<nat, TaskState>, phase: map<nat, Phase>, p: nat)
    requires p in phase && Blocking(phase[p]) && p in tasks && tasks[p] != Blocked
    ensures !TasksOk(queues, tasks, phase)
  {}

  lemma NotAnswered(queues: map<nat, Queue>, answers: map<nat, Reply>, phase: map<nat, Phase>, p: nat)
    requires p in phase && phase[p].Answered? && phase[p].clerk in queues
    requires phase[p].slot < |queues[phase[p].clerk].table| && !Live(queues[phase[p].clerk].table[phase[p].slot])
    ensures !PhasesOk(queues, answers, phase)
  {
    assert !PhaseOk(queues, answers, p, phase[p]);
  }

  lemma LedgerIndexed(l: Ledger)
    requires l.Valid()
    ensures IndexOk(l.queues, 1)
  {
    assert 1 in l.queues ==> QueueOk(l.queues[1], 1 in l.serving);
  }

  lemma NotWaiting(queues: map<nat, Queue>, answers: map<nat, Reply>, phase: map<nat, Phase>, p: nat)
    requires p in phase && phase[p].Waiting? && phase[p].clerk in queues
    requires phase[p].slot < |queues[phase[p].clerk].table|
    requires !Open(queues[phase[p].clerk].table[phase[p].slot])
    ensures !PhasesOk(queues, answers, phase)
  {
    assert !PhaseOk(queues, answers, p, phase[p]);
  }

  /** Writing to descriptor 0 leaves the writer blocked without a request, although the clerk's table is empty. */
  method WriteToZero() returns (l: Ledger)
    ensures fresh(l) && l.Valid() && FS_PID in l.queues && l.queues[FS_PID].table == [Empty]
    ensures 10 in l.phase && l.phase[10].Stuck? && 10 in l.tasks && l.tasks[10] == Blocked && NoneLive(l.queues, 10)
  {
    hide NoneNew, NoneNewBut, PhasesOk, TicketsOk, QueuesOk, TasksOk, QueueOk, LiveOf, SlotStep, NoneLive;
    l := TwoCallers();
    var ok := l.Submit(10, FsCall(OpWrite, 0, true), Memory(true, true, true), SubmitFirst);
  }
}
