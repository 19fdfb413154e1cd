/**
 * The server as an interleaved step system: the main thread of `aesdsocket.c` accepting, inserting,
 * starting and reaping, and any number of workers running `threadfunc` of `threading.c`.
 *
 * A step is one action of one thread.  Every run, that is every interleaving, is a sequence of steps.
 */
module Server {
  import opened Bytes
  import opened DeviceLog
  import opened ClientSession
  import ClientText

  type Tid = nat

  /**
   * How far a worker has come.  A `Locked` worker is reading its socket, a `Heard` one is done with
   * that, and `Sampled` lies between a write's early count and its locked body.
   */
  datatype WorkerPc =
    | Created
    | Started
    | Locked
    | Heard
    | Sampled(writeCount: nat)
    | Echoing(buffer: seq<byte>)
    | Finished
    | Unlocked
    | Flagged
    | Returned

  /** How often main has closed the socket, and freed its number, the `thread_data` and the handle. */
  datatype Life = Life(closed: nat, sockFreed: nat, dataFreed: nat, handleFreed: nat)

  const UNTOUCHED := Life(0, 0, 0, 0)
  const RELEASED := Life(1, 1, 1, 1)

  datatype Worker = Worker(pc: WorkerPc, fPos: nat, sent: Option<seq<byte>>, life: Life)

  const NEW_WORKER := Worker(Created, 0, None, UNTOUCHED)

  datatype MainPc =
    | Accepting
    | Inserting(tid: Tid)
    | Starting(tid: Tid)
    | Scanning(at: nat)
    | Closing(tid: Tid)
    | Joining(tid: Tid)
    | FreeingSock(tid: Tid)
    | FreeingData(tid: Tid)
    | FreeingHandle(tid: Tid)

  /**
   * `order` and `history` record who took the mutex, in order, and with what input; `base` is the
   * device when the server came up.  `fault` marks a run that left defined behaviour.
   */
  datatype State = State(
    base: Log, dev: Phys, mutex: Option<Tid>, clients: seq<Client>, workers: seq<Worker>,
    order: seq<Tid>, history: seq<Client>, list: seq<Tid>, main: MainPc, fault: bool)

  datatype Step =
    | Accept(client: Client)
    | Insert
    | Start
    | Scan
    | Close
    | Join
    | FreeSock
    | FreeData
    | FreeHandle
    | Lock(t: Tid)
    | Hear(t: Tid)
    | Submit(t: Tid)
    | WriteLocked(t: Tid)
    | Read(t: Tid, succeeds: bool)
    | Unlock(t: Tid)
    | SetFlag(t: Tid)
    | Return(t: Tid)

  predicate IsFlagSet(pc: WorkerPc) {
    pc.Flagged? || pc.Returned?
  }

  /** In the mutex, and not yet through with the one action that may change the device. */
  predicate BeforeRequest(pc: WorkerPc) {
    pc.Locked? || pc.Heard? || pc.Sampled?
  }

  /** Between taking and releasing the mutex. */
  predicate InSession(pc: WorkerPc) {
    BeforeRequest(pc) || pc.Echoing? || pc.Finished?
  }

  predicate HasReleased(pc: WorkerPc) {
    pc.Unlocked? || IsFlagSet(pc)
  }

  /** Every number in the state names something that exists; reachable states always satisfy this. */
  predicate InRange(s: State) {
    && |s.workers| == |s.clients|
    && |s.dev.buf| == MAX_WRITE_SIZE && s.dev.idx <= MAX_WRITE_SIZE
    && (!s.main.Accepting? && !s.main.Scanning? ==> s.main.tid < |s.workers|)
    && (forall i :: 0 <= i < |s.list| ==> s.list[i] < |s.workers|)
  }

  predicate Enabled(s: State, step: Step) {
    && InRange(s)
    && !s.fault
    && match step
       case Accept(_) => s.main.Accepting?
       case Insert => s.main.Inserting?
       case Start => s.main.Starting?
       case Scan => s.main.Scanning?
       case Close => s.main.Closing?
       case Join => s.main.Joining? && s.workers[s.main.tid].pc.Returned?
       case FreeSock => s.main.FreeingSock?
       case FreeData => s.main.FreeingData?
       case FreeHandle => s.main.FreeingHandle?
       case Lock(t) => t < |s.workers| && s.workers[t].pc.Started? && s.mutex == None
       case Hear(t) => t < |s.workers| && s.workers[t].pc.Locked?
       case Submit(t) => t < |s.workers| && s.workers[t].pc.Heard?
       case WriteLocked(t) => t < |s.workers| && s.workers[t].pc.Sampled?
       case Read(t, _) => t < |s.workers| && s.workers[t].pc.Echoing?
       case Unlock(t) => t < |s.workers| && s.workers[t].pc.Finished?
       case SetFlag(t) => t < |s.workers| && s.workers[t].pc.Unlocked?
       case Return(t) => t < |s.workers| && s.workers[t].pc.Flagged?
  }

  function WithWorker(s: State, t: Tid, w: Worker): State
    requires t < |s.workers|
  {
    s.(workers := s.workers[t := w])
  }

  function WithLife(s: State, t: Tid, life: Life, main: MainPc): State
    requires t < |s.workers|
  {
    WithWorker(s, t, s.workers[t].(life := life)).(main := main)
  }

  /** The receive loop is over: its client ended a line or the connection, or sent more than an `int` counts. */
  function AfterHear(s: State, t: Tid): State
    requires Enabled(s, Hear(t))
  {
    if Overflows(s.clients[t].chunks) then s.(fault := true)
    else WithWorker(s, t, s.workers[t].(pc := Heard))
  }

  /** The first thing a session does with the device: sample the write count, or seek. */
  function AfterSubmit(s: State, t: Tid): State
    requires Enabled(s, Submit(t))
  {
    var w, c := s.workers[t], s.clients[t];
    match RequestOf(c)
    case Write(data) => WithWorker(s, t, w.(pc := Sampled(SampleWriteCount(s.dev, |data|))))
    case Seek(slot, offset) =>
      var target := SeekTarget(Abs(s.dev), slot, offset);
      if c.seekInterrupted || target.None? then WithWorker(s, t, w.(pc := Finished))
      else WithWorker(s, t, w.(pc := Echoing([]), fPos := target.value))
    case Undefined => s.(fault := true)
  }

  function AfterWriteLocked(s: State, t: Tid): State
    requires Enabled(s, WriteLocked(t))
  {
    var w, c := s.workers[t], s.clients[t];
    match RequestOf(c)
    case Write(data) =>
      var outcome := WriteBody(s.dev, w.pc.writeCount, data, c.writeEnv);
      if outcome.None? then s.(fault := true)
      else
        var (dev, r) := outcome.value;
        WithWorker(s, t, w.(pc := if r < 0 then Finished else Echoing([]))).(dev := dev)
    case _ => s
  }

  /** One `read` of the echo loop; the read of nothing ends the loop and sends the reply. */
  function AfterRead(s: State, t: Tid): State
    requires Enabled(s, Read(t, true))
  {
    var w := s.workers[t];
    var piece := ReadPiece(Stored(Abs(s.dev)), w.fPos, FSIZE);
    if piece == [] then WithWorker(s, t, w.(pc := Finished, sent := Some(CString(w.pc.buffer))))
    else WithWorker(s, t, w.(pc := Echoing(w.pc.buffer + piece), fPos := w.fPos + |piece|))
  }

  /** One visit of `check_list`; reaching the end sends main back to `accept`. */
  function AfterScan(s: State): State
    requires Enabled(s, Scan)
  {
    var i := s.main.at;
    if i >= |s.list| then s.(main := Accepting)
    else if IsFlagSet(s.workers[s.list[i]].pc) then
      s.(list := s.list[..i] + s.list[i + 1..], main := Closing(s.list[i]))
    else s.(main := Scanning(i + 1))
  }

  function Apply(s: State, step: Step): State
    requires Enabled(s, step)
  {
    match step
    case Accept(c) =>
      s.(clients := s.clients + [c], workers := s.workers + [NEW_WORKER], main := Inserting(|s.workers|))
    case Insert => s.(list := [s.main.tid] + s.list, main := Starting(s.main.tid))
    case Start => WithWorker(s, s.main.tid, s.workers[s.main.tid].(pc := Started)).(main := Scanning(0))
    case Scan => AfterScan(s)
    case Close =>
      var life := s.workers[s.main.tid].life;
      WithLife(s, s.main.tid, life.(closed := life.closed + 1), Joining(s.main.tid))
    case Join => s.(main := FreeingSock(s.main.tid))
    case FreeSock =>
      var life := s.workers[s.main.tid].life;
      WithLife(s, s.main.tid, life.(sockFreed := life.sockFreed + 1), FreeingData(s.main.tid))
    case FreeData =>
      var life := s.workers[s.main.tid].life;
      WithLife(s, s.main.tid, life.(dataFreed := life.dataFreed + 1), FreeingHandle(s.main.tid))
    case FreeHandle =>
      var life := s.workers[s.main.tid].life;
      WithLife(s, s.main.tid, life.(handleFreed := life.handleFreed + 1), Scanning(0))
    case Lock(t) =>
      WithWorker(s, t, s.workers[t].(pc := Locked))
        .(mutex := Some(t), order := s.order + [t], history := s.history + [s.clients[t]])
    case Hear(t) => AfterHear(s, t)
    case Submit(t) => AfterSubmit(s, t)
    case WriteLocked(t) => AfterWriteLocked(s, t)
    case Read(t, succeeds) => if succeeds then AfterRead(s, t) else s
    case Unlock(t) => WithWorker(s, t, s.workers[t].(pc := Unlocked)).(mutex := None)
    case SetFlag(t) => WithWorker(s, t, s.workers[t].(pc := Flagged))
    case Return(t) => WithWorker(s, t, s.workers[t].(pc := Returned))
  }

  ghost predicate Initial(s: State) {
    && PhysValid(s.dev) && s.dev.idx < MAX_WRITE_SIZE
    && s.base == Abs(s.dev) && Shaped(s.base) && NulFree(s.base)
    && s.mutex == None && s.clients == [] && s.workers == []
    && s.order == [] && s.history == [] && s.list == []
    && s.main == Accepting && !s.fault
  }

  ghost predicate IsRun(s: State, steps: seq<Step>, s': State)
    decreases |steps|
  {
    if steps == [] then s' == s
    else Enabled(s, steps[0]) && IsRun(Apply(s, steps[0]), steps[1..], s')
  }

  ghost predicate Reachable(s: State) {
    exists s0, steps :: Initial(s0) && IsRun(s0, steps, s)
  }

  /** A server may come up on any device some run of writes has left, as long as it is free of NULs. */
  lemma InitialExists(l: Log)
    requires Shaped(l) && NulFree(l)
    ensures exists s :: Initial(s) && s.base == l
  {
    var buf := l.pending + seq(MAX_WRITE_SIZE - |l.pending|, i => NUL);
    assert buf[..|l.pending|] == l.pending;
    var s := State(l, Phys(buf, |l.pending|, l.committed), None, [], [], [], [], [], Accepting, false);
    assert Initial(s);
  }

  // ---------------------------------------------------------------------------------------
  // The sequential meaning of a history
  // ---------------------------------------------------------------------------------------

  /** Whole sessions run one after the other. */
  function LogAfter(base: Log, history: seq<Client>): Log {
    if history == [] then base
    else Session(LogAfter(base, history[..|history| - 1]), history[|history| - 1]).0
  }

  /** The reply of the `k`-th session in that sequential run. */
  function ReplyOf(base: Log, history: seq<Client>, k: nat): Option<seq<byte>>
    requires k < |history|
  {
    Session(LogAfter(base, history[..k]), history[k]).1
  }

  lemma {:induction false} LogAfterKeeps(base: Log, history: seq<Client>)
    requires Shaped(base) && NulFree(base)
    ensures Shaped(LogAfter(base, history)) && NulFree(LogAfter(base, history))
  {
    if history != [] {
      LogAfterKeeps(base, history[..|history| - 1]);
      SessionKeeps(LogAfter(base, history[..|history| - 1]), history[|history| - 1]);
    }
  }

  lemma LogAfterStep(base: Log, history: seq<Client>, c: Client)
    ensures LogAfter(base, history + [c]) == Session(LogAfter(base, history), c).0
  {
  }

  // ---------------------------------------------------------------------------------------
  // The invariant
  // ---------------------------------------------------------------------------------------

  /** Who is in the mutex, and who has been. */
  ghost predicate MutexInv(s: State) {
    && |s.workers| == |s.clients|
    && |s.order| == |s.history|
    && (forall k :: 0 <= k < |s.order| ==> s.order[k] < |s.workers| && s.history[k] == s.clients[s.order[k]])
    && (forall j, k :: 0 <= j < k < |s.order| ==> s.order[j] != s.order[k])
    && (forall k :: 0 <= k < |s.order| ==>
          var pc := s.workers[s.order[k]].pc; InSession(pc) || HasReleased(pc))
    && (forall t :: 0 <= t < |s.workers| && t !in s.order ==>
          !InSession(s.workers[t].pc) && !HasReleased(s.workers[t].pc))
    && (s.mutex.Some? ==>
          s.order != [] && s.mutex.value == s.order[|s.order| - 1] && InSession(s.workers[s.mutex.value].pc))
    && (forall t :: 0 <= t < |s.workers| && InSession(s.workers[t].pc) ==> s.mutex == Some(t))
  }

  /** The `k`-th session meant something to the device it met, and `sent` is its reply. */
  ghost predicate SessionEnded(base: Log, history: seq<Client>, k: nat, sent: Option<seq<byte>>)
    requires k < |history|
  {
    sent == ReplyOf(base, history, k) && !Meaningless(LogAfter(base, history[..k]), history[k])
  }

  /** Where the session of the mutex holder stands, `l` being the device before it. */
  ghost predicate HolderInv(l: Log, c: Client, dev: Phys, w: Worker)
    requires PhysValid(dev)
  {
    match w.pc
    case Locked => Abs(dev) == l && w.fPos == 0 && w.sent == None
    case Heard => Abs(dev) == l && w.fPos == 0 && w.sent == None && !Overflows(c.chunks)
    case Sampled(writeCount) =>
      && Abs(dev) == l && w.fPos == 0 && w.sent == None
      && RequestOf(c).Write?
      && writeCount == SampleWriteCount(dev, |RequestOf(c).data|)
    case Echoing(buffer) =>
      var (l', start) := ClientSession.Submit(l, c);
      && Abs(dev) == l' && w.sent == None
      && start.Some? && start.value <= w.fPos <= |Contents(l')|
      && buffer == Contents(l')[start.value..w.fPos]
      && !Meaningless(l, c)
    case Finished => (Abs(dev), w.sent) == Session(l, c) && !Meaningless(l, c)
    case _ => true
  }

  /** The device and the replies agree with the sequential run of the history. */
  ghost predicate SerialInv(s: State)
    requires MutexInv(s)
  {
    && PhysValid(s.dev) && s.dev.idx < MAX_WRITE_SIZE
    && Shaped(s.base) && NulFree(s.base)
    && (s.mutex == None ==> Abs(s.dev) == LogAfter(s.base, s.history))
    && (s.mutex.Some? ==>
          HolderInv(LogAfter(s.base, s.history[..|s.history| - 1]), s.clients[s.mutex.value], s.dev,
                    s.workers[s.mutex.value]))
    && (forall k :: 0 <= k < |s.order| && HasReleased(s.workers[s.order[k]].pc) ==>
          SessionEnded(s.base, s.history, k, s.workers[s.order[k]].sent))
    && (forall t :: 0 <= t < |s.workers| && t !in s.order ==> s.workers[t].fPos == 0 && s.workers[t].sent == None)
  }

  /** What main has done to worker `t` so far, read off its program counter and the list. */
  function ExpectedLife(main: MainPc, list: seq<Tid>, t: Tid): Life {
    if main == Joining(t) || main == FreeingSock(t) then Life(1, 0, 0, 0)
    else if main == FreeingData(t) then Life(1, 1, 0, 0)
    else if main == FreeingHandle(t) then Life(1, 1, 1, 0)
    else if t in list || main == Inserting(t) || main == Closing(t) then UNTOUCHED
    else RELEASED
  }

  /** How far worker `t` must have come for main to be where it is. */
  predicate PcFits(main: MainPc, list: seq<Tid>, t: Tid, pc: WorkerPc) {
    if main == Inserting(t) || main == Starting(t) then pc.Created?
    else if main == Closing(t) || main == Joining(t) then IsFlagSet(pc)
    else if t in list then !pc.Created?
    else pc.Returned?
  }

  ghost predicate LifeInv(s: State) {
    && (forall i, j :: 0 <= i < j < |s.list| ==> s.list[i] != s.list[j])
    && (forall i :: 0 <= i < |s.list| ==> s.list[i] < |s.workers|)
    && (!s.main.Accepting? && !s.main.Scanning? ==>
          s.main.tid < |s.workers| && (s.main.tid in s.list <==> s.main.Starting?))
    && (forall t :: 0 <= t < |s.workers| ==>
          && s.workers[t].life == ExpectedLife(s.main, s.list, t)
          && PcFits(s.main, s.list, t, s.workers[t].pc))
  }

  /** A run leaves defined behaviour only in the mutex, on a client that means nothing to the device as it is. */
  ghost predicate FaultInv(s: State)
    requires MutexInv(s) && SerialInv(s)
  {
    s.fault ==>
      && s.mutex.Some?
      && BeforeRequest(s.workers[s.mutex.value].pc)
      && Meaningless(Abs(s.dev), s.clients[s.mutex.value])
  }

  ghost predicate Inv(s: State) {
    MutexInv(s) && SerialInv(s) && LifeInv(s) && FaultInv(s)
  }

  lemma InitialInv(s: State)
    requires Initial(s)
    ensures Inv(s)
  {
  }

  // ---------------------------------------------------------------------------------------
  // Main's steps
  // ---------------------------------------------------------------------------------------

  /** `s'` is as `s` for everyone but main: new workers are untouched, created ones may have started. */
  ghost predicate OnlyMainMoved(s: State, s': State) {
    && (s'.base, s'.dev, s'.mutex, s'.order, s'.history, s'.fault)
       == (s.base, s.dev, s.mutex, s.order, s.history, s.fault)
    && |s'.workers| == |s'.clients| && |s.workers| <= |s'.workers| && s.clients <= s'.clients
    && (forall t :: 0 <= t < |s.workers| ==>
          && s'.workers[t].fPos == s.workers[t].fPos && s'.workers[t].sent == s.workers[t].sent
          && (s'.workers[t].pc == s.workers[t].pc || (s.workers[t].pc.Created? && s'.workers[t].pc.Started?)))
    && (forall t :: |s.workers| <= t < |s'.workers| ==> s'.workers[t] == NEW_WORKER)
  }

  lemma MainKeepsMutex(s: State, s': State)
    requires MutexInv(s) && OnlyMainMoved(s, s')
    ensures MutexInv(s')
  {
    forall t | 0 <= t < |s'.workers|
      ensures InSession(s'.workers[t].pc) <==> t < |s.workers| && InSession(s.workers[t].pc)
      ensures HasReleased(s'.workers[t].pc) <==> t < |s.workers| && HasReleased(s.workers[t].pc)
    {
    }
    hide InSession, HasReleased;
    forall k | 0 <= k < |s'.order|
      ensures s'.order[k] < |s'.workers| && s'.history[k] == s'.clients[s'.order[k]]
      ensures InSession(s'.workers[s'.order[k]].pc) || HasReleased(s'.workers[s'.order[k]].pc)
    {
      assert s.order[k] < |s.workers|;
    }
  }

  lemma HolderIgnoresLife(l: Log, c: Client, dev: Phys, w: Worker, life: Life)
    requires PhysValid(dev) && HolderInv(l, c, dev, w)
    ensures HolderInv(l, c, dev, w.(life := life))
  {
    hide Session, ClientSession.Submit, Meaningless, RequestOf, Contents, Abs, SampleWriteCount;
  }

  lemma MainKeepsSerial(s: State, s': State)
    requires MutexInv(s) && SerialInv(s) && OnlyMainMoved(s, s') && MutexInv(s')
    ensures SerialInv(s')
  {
    hide LogAfter, Shaped, NulFree, HolderInv, SessionEnded, Abs;
    if s.mutex.Some? {
      var t := s.mutex.value;
      var w' := s'.workers[t];
      HolderIgnoresLife(LogAfter(s.base, s.history[..|s.history| - 1]), s.clients[t], s.dev, s.workers[t], w'.life);
      assert w' == s.workers[t].(life := w'.life);
    }
    forall k | 0 <= k < |s'.order| && HasReleased(s'.workers[s'.order[k]].pc)
      ensures SessionEnded(s'.base, s'.history, k, s'.workers[s'.order[k]].sent)
    {
      assert HasReleased(s.workers[s.order[k]].pc);
    }
  }

  lemma AcceptKeepsLife(s: State, c: Client)
    requires LifeInv(s) && Enabled(s, Accept(c))
    ensures LifeInv(Apply(s, Accept(c)))
  {
  }

  lemma InsertKeepsLife(s: State)
    requires LifeInv(s) && Enabled(s, Insert)
    ensures LifeInv(Apply(s, Insert))
  {
  }

  lemma StartKeepsLife(s: State)
    requires LifeInv(s) && Enabled(s, Start)
    ensures LifeInv(Apply(s, Start))
  {
  }

  lemma ScanKeepsLife(s: State)
    requires LifeInv(s) && Enabled(s, Scan)
    ensures LifeInv(Apply(s, Scan))
  {
    var i := s.main.at;
    if i < |s.list| && IsFlagSet(s.workers[s.list[i]].pc) {
      FoundKeepsLife(s, i);
    }
  }

  /** `check_list` takes the completed worker off the list and makes it main's next business. */
  lemma FoundKeepsLife(s: State, i: nat)
    requires LifeInv(s) && s.main == Scanning(i) && i < |s.list|
    requires IsFlagSet(s.workers[s.list[i]].pc)
    ensures LifeInv(s.(list := s.list[..i] + s.list[i + 1..], main := Closing(s.list[i])))
  {
  }

  lemma CloseKeepsLife(s: State, step: Step)
    requires LifeInv(s) && Enabled(s, step)
    requires step.Close? || step.Join?
    ensures LifeInv(Apply(s, step))
  {
  }

  lemma FreeKeepsLife(s: State, step: Step)
    requires LifeInv(s) && Enabled(s, step)
    requires step.FreeSock? || step.FreeData? || step.FreeHandle?
    ensures LifeInv(Apply(s, step))
  {
  }

  // ---------------------------------------------------------------------------------------
  // Workers' steps
  // ---------------------------------------------------------------------------------------

  /** Only worker `t` moved, and forward past its start. */
  ghost predicate OnlyWorkerMoved(s: State, s': State, t: Tid) {
    && t < |s.workers| && |s'.workers| == |s.workers|
    && s'.main == s.main && s'.list == s.list && s'.clients == s.clients && s'.base == s.base
    && s'.workers == s.workers[t := s'.workers[t]]
    && s'.workers[t].life == s.workers[t].life
    && !s.workers[t].pc.Created? && !s'.workers[t].pc.Created? && !s.workers[t].pc.Returned?
    && (IsFlagSet(s.workers[t].pc) ==> IsFlagSet(s'.workers[t].pc))
  }

  lemma WorkerKeepsLife(s: State, s': State, t: Tid)
    requires LifeInv(s) && OnlyWorkerMoved(s, s', t)
    ensures LifeInv(s')
  {
  }

  /** The mutex holder moves within its session. */
  lemma HolderMoves(s: State, t: Tid, dev: Phys, w: Worker)
    requires MutexInv(s) && SerialInv(s) && t < |s.workers|
    requires InSession(s.workers[t].pc) && InSession(w.pc)
    requires PhysValid(dev) && dev.idx < MAX_WRITE_SIZE
    requires HolderInv(LogAfter(s.base, s.history[..|s.history| - 1]), s.clients[t], dev, w)
    ensures
      var s' := WithWorker(s, t, w).(dev := dev);
      MutexInv(s') && SerialInv(s')
  {
    hide Session, ClientSession.Submit, LogAfter, Shaped, NulFree, HolderInv;
    var s' := WithWorker(s, t, w).(dev := dev);
    assert s.mutex == Some(t);
    forall k | 0 <= k < |s'.order| && HasReleased(s'.workers[s'.order[k]].pc)
      ensures SessionEnded(s'.base, s'.history, k, s'.workers[s'.order[k]].sent)
    {
      assert s.order[k] != t;
    }
  }

  lemma LockKeepsMutex(s: State, t: Tid)
    requires MutexInv(s) && Enabled(s, Lock(t))
    ensures MutexInv(Apply(s, Lock(t)))
  {
  }

  lemma LockKeepsSerial(s: State, t: Tid)
    requires MutexInv(s) && SerialInv(s) && Enabled(s, Lock(t))
    requires MutexInv(Apply(s, Lock(t)))
    ensures SerialInv(Apply(s, Lock(t)))
  {
    hide Session, ClientSession.Submit, LogAfter, Shaped, NulFree, RequestOf, Contents, SampleWriteCount;
    var s' := Apply(s, Lock(t));
    assert t !in s.order;
    assert s'.history[..|s'.history| - 1] == s.history;
    forall k | 0 <= k < |s'.order| && HasReleased(s'.workers[s'.order[k]].pc)
      ensures SessionEnded(s'.base, s'.history, k, s'.workers[s'.order[k]].sent)
    {
      assert s'.history[..k] == s.history[..k];
    }
  }

  /** What is recorded when the holder's session is over. */
  lemma FinishedEnds(s: State, t: Tid)
    requires MutexInv(s) && SerialInv(s) && t < |s.workers| && s.workers[t].pc.Finished?
    ensures s.mutex == Some(t) && s.history != [] && s.order[|s.order| - 1] == t
    ensures Abs(s.dev) == LogAfter(s.base, s.history)
    ensures SessionEnded(s.base, s.history, |s.history| - 1, s.workers[t].sent)
  {
    hide Session, ClientSession.Submit, LogAfter, Shaped, NulFree, Meaningless, RequestOf, Contents;
    var n := |s.history| - 1;
    assert s.history == s.history[..n] + [s.clients[t]];
    LogAfterStep(s.base, s.history[..n], s.clients[t]);
  }

  lemma UnlockKeeps(s: State, t: Tid)
    requires MutexInv(s) && SerialInv(s) && Enabled(s, Unlock(t))
    ensures MutexInv(Apply(s, Unlock(t))) && SerialInv(Apply(s, Unlock(t)))
  {
    hide LogAfter, Shaped, NulFree, HolderInv, SessionEnded;
    FinishedEnds(s, t);
    var s', n := Apply(s, Unlock(t)), |s.history| - 1;
    forall k | 0 <= k < |s'.order| && HasReleased(s'.workers[s'.order[k]].pc)
      ensures SessionEnded(s'.base, s'.history, k, s'.workers[s'.order[k]].sent)
    {
      if k < n {
        assert s.order[k] != t;
      }
    }
  }

  /** After the mutex is released a worker touches neither the device nor its reply. */
  lemma EpilogueKeeps(s: State, t: Tid, pc: WorkerPc)
    requires MutexInv(s) && SerialInv(s) && t < |s.workers|
    requires HasReleased(s.workers[t].pc) && HasReleased(pc)
    ensures
      var s' := WithWorker(s, t, s.workers[t].(pc := pc));
      MutexInv(s') && SerialInv(s')
  {
    hide Session, ClientSession.Submit, LogAfter, Shaped, NulFree, HolderInv, SessionEnded;
  }

  lemma SubmitHolds(l: Log, c: Client, dev: Phys, w: Worker)
    requires PhysValid(dev) && w.pc.Heard? && HolderInv(l, c, dev, w)
    ensures match RequestOf(c)
      case Write(data) => HolderInv(l, c, dev, w.(pc := Sampled(SampleWriteCount(dev, |data|))))
      case Seek(slot, offset) =>
        var target := SeekTarget(Abs(dev), slot, offset);
        if c.seekInterrupted || target.None? then HolderInv(l, c, dev, w.(pc := Finished))
        else HolderInv(l, c, dev, w.(pc := Echoing([]), fPos := target.value))
      case Undefined => Meaningless(Abs(dev), c)
  {
    if RequestOf(c).Seek? {
      var target := SeekTarget(Abs(dev), RequestOf(c).slot, RequestOf(c).offset);
      if target.Some? {
        SeekLands(l, RequestOf(c).slot, RequestOf(c).offset, 0);
        assert Contents(l)[target.value..target.value] == [];
      }
    }
  }

  /** The sampled count is still fresh when the body runs, so the body is the atomic write. */
  lemma WriteLockedHolds(l: Log, c: Client, dev: Phys, w: Worker)
    requires PhysValid(dev) && dev.idx < MAX_WRITE_SIZE && Shaped(l)
    requires w.pc.Sampled? && HolderInv(l, c, dev, w)
    ensures
      var outcome := WriteBody(dev, w.pc.writeCount, RequestOf(c).data, c.writeEnv);
      && (outcome.Some? <==> !Meaningless(l, c))
      && (outcome.Some? ==>
            var (dev', r) := outcome.value;
            && PhysValid(dev') && dev'.idx < MAX_WRITE_SIZE
            && HolderInv(l, c, dev', w.(pc := if r < 0 then Finished else Echoing([]))))
  {
    hide WriteBody, AtomicWrite, Defined;
    var data := RequestOf(c).data;
    assert data == Message(c);
    FreshSampleRefines(dev, data, c.writeEnv);
    FreshSampleDefinedIff(dev, data, c.writeEnv);
    AtomicWriteKeepsShape(l, data, c.writeEnv);
    var outcome := WriteBody(dev, w.pc.writeCount, data, c.writeEnv);
    if outcome.Some? {
      var (dev', r) := outcome.value;
      assert |Abs(dev').pending| < MAX_WRITE_SIZE;
      assert Contents(Abs(dev'))[0..0] == [];
    }
  }

  lemma ReadHolds(l: Log, c: Client, dev: Phys, w: Worker)
    requires PhysValid(dev) && w.pc.Echoing? && HolderInv(l, c, dev, w)
    ensures
      var piece := ReadPiece(Stored(Abs(dev)), w.fPos, FSIZE);
      HolderInv(l, c, dev,
        if piece == [] then w.(pc := Finished, sent := Some(CString(w.pc.buffer)))
        else w.(pc := Echoing(w.pc.buffer + piece), fPos := w.fPos + |piece|))
  {
    hide ReadPiece, Flatten, CString, ClientSession.Submit, Stored, Meaningless;
    var (l', start) := ClientSession.Submit(l, c);
    var flat := Contents(l');
    ReadPieceIsSlice(Stored(l'), w.fPos, FSIZE);
    var piece := ReadPiece(Stored(l'), w.fPos, FSIZE);
    SliceExtends(flat, start.value, w.fPos, w.fPos + |piece|);
    assert flat[start.value..|flat|] == flat[start.value..];
  }

  // ---------------------------------------------------------------------------------------
  // Every step, every run
  // ---------------------------------------------------------------------------------------

  predicate IsMainStep(step: Step) {
    step.Accept? || step.Insert? || step.Start? || step.Scan? || step.Close? || step.Join?
    || step.FreeSock? || step.FreeData? || step.FreeHandle?
  }

  lemma MainStepKeepsLife(s: State, step: Step)
    requires LifeInv(s) && Enabled(s, step) && IsMainStep(step)
    ensures LifeInv(Apply(s, step))
  {
    hide LifeInv, Apply;
    match step {
      case Accept(c) => AcceptKeepsLife(s, c);
      case Insert => InsertKeepsLife(s);
      case Start => StartKeepsLife(s);
      case Scan => ScanKeepsLife(s);
      case Close => CloseKeepsLife(s, step);
      case Join => CloseKeepsLife(s, step);
      case FreeSock => FreeKeepsLife(s, step);
      case FreeData => FreeKeepsLife(s, step);
      case FreeHandle => FreeKeepsLife(s, step);
    }
  }

  lemma MainStepMovesMain(s: State, step: Step)
    requires LifeInv(s) && Enabled(s, step) && IsMainStep(step)
    ensures OnlyMainMoved(s, Apply(s, step))
  {
  }

  lemma MainStepKeepsInv(s: State, step: Step)
    requires Inv(s) && Enabled(s, step) && IsMainStep(step)
    ensures Inv(Apply(s, step))
  {
    hide LifeInv, OnlyMainMoved, MutexInv, SerialInv, Apply;
    var s' := Apply(s, step);
    MainStepKeepsLife(s, step);
    MainStepMovesMain(s, step);
    MainKeepsMutex(s, s');
    MainKeepsSerial(s, s');
    OnlyMainMovedFault(s, s');
  }

  lemma OnlyMainMovedFault(s: State, s': State)
    requires OnlyMainMoved(s, s')
    ensures s'.fault == s.fault
  {
  }

  /** A step into a fault changes nothing else. */
  lemma FaultKeeps(s: State)
    requires MutexInv(s) && SerialInv(s) && LifeInv(s)
    ensures
      var s' := s.(fault := true);
      MutexInv(s') && SerialInv(s') && LifeInv(s')
  {
    hide HolderInv, SessionEnded, LogAfter, Shaped, NulFree, Abs;
  }

  /** What the invariant says about whoever is in a session. */
  lemma HolderStands(s: State, t: Tid)
    requires MutexInv(s) && SerialInv(s) && t < |s.workers| && InSession(s.workers[t].pc)
    ensures s.mutex == Some(t) && t < |s.clients| && s.history != []
    ensures PhysValid(s.dev) && s.dev.idx < MAX_WRITE_SIZE
    ensures
      var l := LogAfter(s.base, s.history[..|s.history| - 1]);
      Shaped(l) && NulFree(l) && HolderInv(l, s.clients[t], s.dev, s.workers[t])
  {
    hide LogAfter, HolderInv, Shaped, NulFree;
    LogAfterKeeps(s.base, s.history[..|s.history| - 1]);
  }

  lemma HearKeepsInv(s: State, t: Tid)
    requires Inv(s) && Enabled(s, Hear(t))
    ensures Inv(Apply(s, Hear(t)))
  {
    hide LogAfter, MutexInv, SerialInv, LifeInv, Overflows, Abs, Shaped, NulFree;
    HolderStands(s, t);
    var l, s' := LogAfter(s.base, s.history[..|s.history| - 1]), Apply(s, Hear(t));
    if s'.fault {
      FaultKeeps(s);
    } else {
      HolderMoves(s, t, s.dev, s'.workers[t]);
      assert s' == WithWorker(s, t, s'.workers[t]).(dev := s.dev);
      WorkerKeepsLife(s, s', t);
    }
  }

  lemma SubmitKeepsInv(s: State, t: Tid)
    requires Inv(s) && Enabled(s, Submit(t))
    ensures Inv(Apply(s, Submit(t)))
  {
    hide LogAfter, HolderInv, MutexInv, SerialInv, LifeInv, RequestOf, SeekTarget, Meaningless;
    HolderStands(s, t);
    var l, s' := LogAfter(s.base, s.history[..|s.history| - 1]), Apply(s, Submit(t));
    SubmitHolds(l, s.clients[t], s.dev, s.workers[t]);
    if s'.fault {
      FaultKeeps(s);
    } else {
      HolderMoves(s, t, s.dev, s'.workers[t]);
      assert s' == WithWorker(s, t, s'.workers[t]).(dev := s.dev);
      WorkerKeepsLife(s, s', t);
    }
  }

  lemma WriteLockedKeepsInv(s: State, t: Tid)
    requires Inv(s) && Enabled(s, WriteLocked(t))
    ensures Inv(Apply(s, WriteLocked(t)))
  {
    hide LogAfter, MutexInv, SerialInv, LifeInv, WriteBody, Session, Shaped, NulFree, Meaningless;
    HolderStands(s, t);
    var l, s' := LogAfter(s.base, s.history[..|s.history| - 1]), Apply(s, WriteLocked(t));
    WriteLockedHolds(l, s.clients[t], s.dev, s.workers[t]);
    assert RequestOf(s.clients[t]).Write? && Abs(s.dev) == l;
    hide HolderInv, RequestOf;
    if s'.fault {
      FaultKeeps(s);
    } else {
      HolderMoves(s, t, s'.dev, s'.workers[t]);
      assert s' == WithWorker(s, t, s'.workers[t]).(dev := s'.dev);
      WorkerKeepsLife(s, s', t);
    }
  }

  lemma ReadKeepsInv(s: State, t: Tid, succeeds: bool)
    requires Inv(s) && Enabled(s, Read(t, succeeds))
    ensures Inv(Apply(s, Read(t, succeeds)))
  {
    hide LogAfter, HolderInv, MutexInv, SerialInv, LifeInv, ReadPiece, CString;
    HolderStands(s, t);
    var l, s' := LogAfter(s.base, s.history[..|s.history| - 1]), Apply(s, Read(t, succeeds));
    if succeeds {
      ReadHolds(l, s.clients[t], s.dev, s.workers[t]);
      HolderMoves(s, t, s.dev, s'.workers[t]);
      assert s' == WithWorker(s, t, s'.workers[t]).(dev := s.dev);
      WorkerKeepsLife(s, s', t);
    }
  }

  lemma WorkerStepKeepsInv(s: State, step: Step)
    requires Inv(s) && Enabled(s, step)
    requires step.Lock? || step.Unlock? || step.SetFlag? || step.Return?
    ensures Inv(Apply(s, step))
  {
    hide LogAfter, HolderInv, LifeInv, MutexInv, SerialInv;
    var t := step.t;
    match step {
      case Lock(_) =>
        LockKeepsMutex(s, t);
        LockKeepsSerial(s, t);
      case Unlock(_) => UnlockKeeps(s, t);
      case SetFlag(_) => EpilogueKeeps(s, t, Flagged);
      case Return(_) => EpilogueKeeps(s, t, Returned);
    }
    WorkerKeepsLife(s, Apply(s, step), t);
  }

  lemma StepKeepsInv(s: State, step: Step)
    requires Inv(s) && Enabled(s, step)
    ensures Inv(Apply(s, step))
  {
    hide Inv, Enabled, Apply;
    if IsMainStep(step) {
      MainStepKeepsInv(s, step);
    } else {
      match step {
        case Hear(t) => HearKeepsInv(s, t);
        case Submit(t) => SubmitKeepsInv(s, t);
        case WriteLocked(t) => WriteLockedKeepsInv(s, t);
        case Read(t, succeeds) => ReadKeepsInv(s, t, succeeds);
        case _ => WorkerStepKeepsInv(s, step);
      }
    }
  }

  lemma {:induction false} RunKeepsInv(s: State, steps: seq<Step>, s': State)
    requires Inv(s) && IsRun(s, steps, s')
    ensures Inv(s')
    decreases |steps|
  {
    hide Inv, Apply, Enabled;
    if steps != [] {
      StepKeepsInv(s, steps[0]);
      RunKeepsInv(Apply(s, steps[0]), steps[1..], s');
    }
  }

  lemma ReachableInv(s: State)
    requires Reachable(s)
    ensures Inv(s)
  {
    var s0, steps :| Initial(s0) && IsRun(s0, steps, s);
    InitialInv(s0);
    RunKeepsInv(s0, steps, s);
  }

  // ---------------------------------------------------------------------------------------
  // What holds in every reachable state
  // ---------------------------------------------------------------------------------------

  /** The bounds that `Enabled` asks for exclude no step: every reachable state is in range. */
  lemma ReachableInRange(s: State)
    requires Reachable(s)
    ensures InRange(s)
  {
    ReachableInv(s);
  }

  /** The sessions that have done to the device what they do: all, but for a holder still before its request. */
  function Settled(s: State): seq<Client>
    requires s.mutex.Some? ==> s.mutex.value < |s.workers| && s.history != []
  {
    if s.mutex.Some? && BeforeRequest(s.workers[s.mutex.value].pc) then s.history[..|s.history| - 1]
    else s.history
  }

  /**
   * Serializability: the device is always what running the settled sessions one at a time in the
   * order of acquisition gives, and each worker that is out has sent exactly the reply of its session
   * in that sequential run.
   */
  lemma Serializable(s: State)
    requires Reachable(s)
    ensures |s.order| == |s.history| && s.dev.idx <= |s.dev.buf|
    ensures forall k :: 0 <= k < |s.order| ==> s.order[k] < |s.workers| && s.order[k] < |s.clients|
    ensures forall k :: 0 <= k < |s.order| ==> s.history[k] == s.clients[s.order[k]]
    ensures forall j, k :: 0 <= j < k < |s.order| ==> s.order[j] != s.order[k]
    ensures Shaped(s.base) && NulFree(s.base)
    ensures s.mutex.Some? ==>
      s.mutex.value < |s.workers| && s.history != [] && s.order[|s.order| - 1] == s.mutex.value
    ensures Abs(s.dev) == LogAfter(s.base, Settled(s))
    ensures forall k :: 0 <= k < |s.order| && HasReleased(s.workers[s.order[k]].pc) ==>
      s.workers[s.order[k]].sent == ReplyOf(s.base, s.history, k)
  {
    hide LogAfter, HolderInv, LifeInv, Reachable, FaultInv, Shaped, NulFree, ReplyOf, Meaningless;
    ReachableInv(s);
    if s.mutex.Some? {
      HolderDevice(s);
    }
  }

  lemma HolderDevice(s: State)
    requires MutexInv(s) && SerialInv(s) && s.mutex.Some?
    ensures s.history != [] && Abs(s.dev) == LogAfter(s.base, Settled(s))
  {
    hide LogAfter, HolderInv, Shaped, NulFree;
    var t := s.mutex.value;
    assert s.history[|s.history| - 1] == s.clients[t];
    HolderStands(s, t);
    hide MutexInv, SerialInv;
    HolderBeforeOrAfter(LogAfter(s.base, s.history[..|s.history| - 1]), s.clients[t], s.dev, s.workers[t]);
    HistorySplit(s.base, s.history);
  }

  lemma HistorySplit(base: Log, history: seq<Client>)
    requires history != []
    ensures LogAfter(base, history) ==
            Session(LogAfter(base, history[..|history| - 1]), history[|history| - 1]).0
  {
  }

  /** A session changes the device in one step. */
  lemma HolderBeforeOrAfter(l: Log, c: Client, dev: Phys, w: Worker)
    requires PhysValid(dev) && InSession(w.pc) && HolderInv(l, c, dev, w)
    ensures Abs(dev) == if BeforeRequest(w.pc) then l else Session(l, c).0
  {
  }

  lemma WriterReply(base: Log, history: seq<Client>, k: nat)
    requires Shaped(base) && NulFree(base)
    requires k < |history| && RequestOf(history[k]).Write?
    ensures
      var before, c := LogAfter(base, history[..k]), history[k];
      var (after, r) := AtomicWrite(before, CString(ClientText.Received(c.chunks)), c.writeEnv);
      && after == LogAfter(base, history[..k + 1])
      && ReplyOf(base, history, k) == if r < 0 then None else Some(Contents(after))
  {
    hide Session, AtomicWrite, LogAfter, RequestOf, NulFree, Shaped;
    LogAfterKeeps(base, history[..k]);
    WriterSeesWholeDevice(LogAfter(base, history[..k]), history[k]);
    LogAfterStep(base, history[..k], history[k]);
    assert history[..k + 1] == history[..k] + [history[k]];
  }

  /** Every successful writer is sent exactly the device as it is right after its own write. */
  lemma WritersSeeTheirWrite(s: State, k: nat)
    requires Reachable(s)
    requires k < |s.order| && k < |s.history| && s.order[k] < |s.workers|
    requires HasReleased(s.workers[s.order[k]].pc) && RequestOf(s.history[k]).Write?
    ensures
      var before, c := LogAfter(s.base, s.history[..k]), s.history[k];
      var (after, r) := AtomicWrite(before, CString(ClientText.Received(c.chunks)), c.writeEnv);
      && after == LogAfter(s.base, s.history[..k + 1])
      && s.workers[s.order[k]].sent == if r < 0 then None else Some(Contents(after))
  {
    hide *;
    Serializable(s);
    WriterReply(s.base, s.history, k);
  }

  lemma SeekerReply(base: Log, history: seq<Client>, k: nat, x: nat, y: nat)
    requires Shaped(base) && NulFree(base)
    requires k < |history| && RequestOf(history[k]) == Seek(x, y)
    ensures
      var l, c := LogAfter(base, history[..k]), history[k];
      var target := SeekTarget(l, x, y);
      && LogAfter(base, history[..k + 1]) == l
      && ReplyOf(base, history, k) ==
         if c.seekInterrupted || target.None? then None
         else Some(Contents(l)[Min(target.value, |Contents(l)|)..])
    ensures
      var l, c := LogAfter(base, history[..k]), history[k];
      && (c.seekInterrupted || x >= 10 || x >= |l.committed| ==> ReplyOf(base, history, k) == None)
      && forall i :: |Evicted(l)| <= i < |l.committed| && i % 10 == x ==>
           ReplyOf(base, history, k) ==
           if c.seekInterrupted || y >= |l.committed[i]| then None
           else Some(l.committed[i][y..] + Flatten(l.committed[i + 1..]))
  {
    hide Session, SeekTarget, LogAfter, RequestOf, NulFree, Shaped, Evicted, Flatten, Contents;
    LogAfterKeeps(base, history[..k]);
    SeekerSeesSuffix(LogAfter(base, history[..k]), history[k], x, y);
    LogAfterStep(base, history[..k], history[k]);
    assert history[..k + 1] == history[..k] + [history[k]];
  }

  /**
   * Every seeker is sent the rest of the command it asked for and all younger ones, as they stood at its
   * turn, and changes nothing.  Command `i` of the log is in slot `i` modulo ten.
   */
  lemma SeekersSeeSuffix(s: State, k: nat, x: nat, y: nat)
    requires Reachable(s)
    requires k < |s.order| && k < |s.history| && s.order[k] < |s.workers|
    requires HasReleased(s.workers[s.order[k]].pc) && RequestOf(s.history[k]) == Seek(x, y)
    ensures
      var l, c := LogAfter(s.base, s.history[..k]), s.history[k];
      var target := SeekTarget(l, x, y);
      && LogAfter(s.base, s.history[..k + 1]) == l
      && s.workers[s.order[k]].sent ==
         if c.seekInterrupted || target.None? then None
         else Some(Contents(l)[Min(target.value, |Contents(l)|)..])
    ensures
      var l, c := LogAfter(s.base, s.history[..k]), s.history[k];
      && (c.seekInterrupted || x >= 10 || x >= |l.committed| ==> s.workers[s.order[k]].sent == None)
      && forall i :: |Evicted(l)| <= i < |l.committed| && i % 10 == x ==>
           s.workers[s.order[k]].sent ==
           if c.seekInterrupted || y >= |l.committed[i]| then None
           else Some(l.committed[i][y..] + Flatten(l.committed[i + 1..]))
  {
    hide *;
    Serializable(s);
    SeekerReply(s.base, s.history, k, x, y);
  }

  /** A client that sent one line and met no failure has its line committed, and was sent the device with it. */
  lemma LinesAreCommitted(s: State, k: nat, line: seq<byte>)
    requires Reachable(s)
    requires k < |s.order| && k < |s.history| && s.order[k] < |s.workers|
    requires HasReleased(s.workers[s.order[k]].pc) && SendsLine(s.history[k], line)
    requires |LogAfter(s.base, s.history[..k]).pending + line| < 128
    ensures
      var before := LogAfter(s.base, s.history[..k]);
      var after := Log(before.committed + [before.pending + line], []);
      && LogAfter(s.base, s.history[..k + 1]) == after
      && s.workers[s.order[k]].sent == Some(Contents(after))
  {
    hide *;
    Serializable(s);
    LogAfterKeeps(s.base, s.history[..k]);
    LineIsCommitted(LogAfter(s.base, s.history[..k]), s.history[k], line);
    SessionOf(s.base, s.history, k);
  }

  lemma SessionOf(base: Log, history: seq<Client>, k: nat)
    requires k < |history|
    ensures (LogAfter(base, history[..k + 1]), ReplyOf(base, history, k))
            == Session(LogAfter(base, history[..k]), history[k])
  {
    hide Session;
    LogAfterStep(base, history[..k], history[k]);
    assert history[..k + 1] == history[..k] + [history[k]];
  }

  /** A client that sent a printed seek command was sent byte `y` of slot `x` and everything after it. */
  lemma SeeksAreAnswered(s: State, k: nat, x: nat, y: nat, i: nat)
    requires Reachable(s)
    requires k < |s.order| && k < |s.history| && s.order[k] < |s.workers|
    requires HasReleased(s.workers[s.order[k]].pc) && SendsSeek(s.history[k], x, y)
    requires |Evicted(LogAfter(s.base, s.history[..k]))| <= i < |LogAfter(s.base, s.history[..k]).committed|
    requires i % 10 == x
    ensures
      var l := LogAfter(s.base, s.history[..k]);
      s.workers[s.order[k]].sent ==
      if y < |l.committed[i]| then Some(l.committed[i][y..] + Flatten(l.committed[i + 1..])) else None
  {
    hide *;
    Serializable(s);
    LogAfterKeeps(s.base, s.history[..k]);
    SeekIsAnswered(LogAfter(s.base, s.history[..k]), s.history[k], x, y, i);
    SessionOf(s.base, s.history, k);
  }

  /** In every interleaving, even in the middle of a session, the device is well shaped, NUL-free and small. */
  lemma DeviceStaysShaped(s: State)
    requires Reachable(s)
    ensures PhysValid(s.dev) && s.dev.idx < MAX_WRITE_SIZE
    ensures Shaped(Abs(s.dev)) && NulFree(Abs(s.dev)) && |Contents(Abs(s.dev))| <= 1270
  {
    hide Shaped, NulFree, LogAfter, LifeInv, Reachable, FaultInv, Contents;
    ReachableInv(s);
    LogAfterKeeps(s.base, s.history);
    if s.mutex.Some? {
      HolderStands(s, s.mutex.value);
      SessionKeeps(LogAfter(s.base, s.history[..|s.history| - 1]), s.clients[s.mutex.value]);
    }
    ShapedBound(Abs(s.dev));
  }

  lemma ShapedBound(l: Log)
    requires Shaped(l)
    ensures |Contents(l)| <= 1270
  {
    ContentsBound(l);
  }

  /** At most one worker is inside a session, and it is the mutex holder. */
  lemma MutualExclusion(s: State, t: Tid, u: Tid)
    requires Reachable(s) && t < |s.workers| && u < |s.workers|
    requires InSession(s.workers[t].pc) && InSession(s.workers[u].pc)
    ensures t == u && s.mutex == Some(t)
  {
    ReachableInv(s);
  }

  /** Whatever a session has read so far fits the 4096-byte buffer with room for the terminator. */
  lemma EchoFitsBuffer(s: State, t: Tid)
    requires Reachable(s) && t < |s.workers| && s.workers[t].pc.Echoing?
    ensures PhysValid(s.dev)
    ensures |s.workers[t].pc.buffer| + |ReadPiece(Stored(Abs(s.dev)), s.workers[t].fPos, FSIZE)| <= 1270 < FSIZE
  {
    DeviceStaysShaped(s);
    hide Reachable, LifeInv, LogAfter, FaultInv, ReadPiece, Contents, Stored, Shaped, NulFree;
    ReachableInv(s);
    HolderStands(s, t);
    EchoPosition(LogAfter(s.base, s.history[..|s.history| - 1]), s.clients[t], s.dev, s.workers[t]);
  }

  lemma EchoPosition(l: Log, c: Client, dev: Phys, w: Worker)
    requires PhysValid(dev) && w.pc.Echoing? && HolderInv(l, c, dev, w)
    ensures |w.pc.buffer| <= w.fPos <= |Contents(Abs(dev))|
    ensures w.fPos + |ReadPiece(Stored(Abs(dev)), w.fPos, FSIZE)| <= |Contents(Abs(dev))|
  {
    hide ReadPiece, Flatten, RequestOf, AtomicWrite, SeekTarget;
    ReadPieceIsSlice(Stored(Abs(dev)), w.fPos, FSIZE);
  }

  /**
   * Between a write's sample and its body nobody moves the index: the sampled count is the index
   * plus the length when the body runs, and the body stays inside the write buffer.
   */
  lemma SampleStaysFresh(s: State, t: Tid)
    requires Reachable(s) && t < |s.workers| && s.workers[t].pc.Sampled?
    ensures t < |s.clients| && RequestOf(s.clients[t]).Write?
    ensures
      var data := RequestOf(s.clients[t]).data;
      && PhysValid(s.dev)
      && s.workers[t].pc.writeCount == SampleWriteCount(s.dev, |data|)
      && (Defined(Abs(s.dev), data, s.clients[t].writeEnv) ==>
            Refines(s.dev, s.workers[t].pc.writeCount, data, s.clients[t].writeEnv))
  {
    hide Reachable, LifeInv, FaultInv, LogAfter, RequestOf, Refines, WriteBody, Defined, SampleWriteCount;
    ReachableInv(s);
    HolderStands(s, t);
    FreshSampleRefines(s.dev, RequestOf(s.clients[t]).data, s.clients[t].writeEnv);
    FreshSampleDefinedIff(s.dev, RequestOf(s.clients[t]).data, s.clients[t].writeEnv);
  }

  // ---------------------------------------------------------------------------------------
  // When a run leaves defined behaviour
  // ---------------------------------------------------------------------------------------

  lemma SubmitFaultIff(s: State, t: Tid)
    requires Reachable(s) && Enabled(s, Submit(t))
    ensures Apply(s, Submit(t)).fault <==> UnparsableSeek(s.clients[t])
    ensures !Overflows(s.clients[t].chunks)
  {
    hide Reachable, LifeInv, LogAfter, SeekTarget, SampleWriteCount, Overflows, UnparsableSeek, RequestOf;
    ReachableInv(s);
    HolderStands(s, t);
    UndefinedIff(s.clients[t]);
  }

  lemma WriteLockedFaultIff(s: State, t: Tid)
    requires Reachable(s) && Enabled(s, WriteLocked(t))
    ensures Apply(s, WriteLocked(t)).fault <==> Meaningless(Abs(s.dev), s.clients[t])
    ensures RequestOf(s.clients[t]).Write?
  {
    hide Reachable, Refines, Shaped, NulFree, Contents;
    DeviceStaysShaped(s);
    SampleStaysFresh(s, t);
    FreshSampleDefinedIff(s.dev, RequestOf(s.clients[t]).data, s.clients[t].writeEnv);
    hide RequestOf, WriteBody, Defined, SampleWriteCount;
  }

  /**
   * A step leaves defined behaviour exactly when it receives more than an `int` counts, parses a seek
   * command that, with `tmp_str` as it is, has no defined numbers, or carries through a write of
   * nothing onto an empty fragment.
   */
  lemma FaultIff(s: State, step: Step)
    requires Reachable(s) && Enabled(s, step)
    ensures Apply(s, step).fault <==>
      || (step.Hear? && Overflows(s.clients[step.t].chunks))
      || (step.Submit? && UnparsableSeek(s.clients[step.t]))
      || (step.WriteLocked? &&
          var c := s.clients[step.t];
          && Message(c) == [] && Abs(s.dev).pending == []
          && !c.writeEnv.interrupted && c.writeEnv.copyFault.None?)
  {
    hide Reachable, RequestOf, WriteBody, ReadPiece, SeekTarget, Message, Meaningless, CString, SampleWriteCount,
      Overflows, UnparsableSeek;
    match step {
      case Submit(t) => SubmitFaultIff(s, t);
      case WriteLocked(t) =>
        WriteLockedFaultIff(s, t);
        MeaninglessIff(Abs(s.dev), s.clients[t]);
        UndefinedIff(s.clients[t]);
      case _ =>
    }
  }

  /** The fault is the mutex holder's, on a device no session but the earlier ones has touched. */
  lemma FaultIsTheHolders(s: State)
    requires Reachable(s) && s.fault
    ensures s.mutex.Some? && s.mutex.value < |s.workers| && s.mutex.value < |s.clients|
    ensures s.history != [] && s.history[|s.history| - 1] == s.clients[s.mutex.value]
    ensures BeforeRequest(s.workers[s.mutex.value].pc)
    ensures Meaningless(LogAfter(s.base, s.history[..|s.history| - 1]), s.clients[s.mutex.value])
  {
    hide Reachable, LifeInv, LogAfter, Meaningless, HolderInv, Shaped, NulFree;
    ReachableInv(s);
    HolderDevice(s);
  }

  /** Nobody gets out of the mutex whose session meant nothing to the device it met. */
  lemma EndedSessionsMeantSomething(s: State, k: nat)
    requires Reachable(s)
    requires k < |s.order| && k < |s.history| && s.order[k] < |s.workers| && HasReleased(s.workers[s.order[k]].pc)
    ensures !Meaningless(LogAfter(s.base, s.history[..k]), s.history[k])
  {
    hide Reachable, LifeInv, LogAfter, FaultInv, ReplyOf, Meaningless, HolderInv, Shaped, NulFree;
    ReachableInv(s);
  }

  // ---------------------------------------------------------------------------------------
  // Which histories runs can bring about
  // ---------------------------------------------------------------------------------------

  ghost predicate CanReach(s: State, s': State) {
    exists steps :: IsRun(s, steps, s')
  }

  lemma {:induction false} RunConcat(s: State, a: seq<Step>, m: State, b: seq<Step>, s': State)
    requires IsRun(s, a, m) && IsRun(m, b, s')
    ensures IsRun(s, a + b, s')
    decreases |a|
  {
    hide Enabled, Apply;
    if a == [] {
      assert a + b == b;
    } else {
      assert (a + b)[0] == a[0] && (a + b)[1..] == a[1..] + b;
      RunConcat(Apply(s, a[0]), a[1..], m, b, s');
    }
  }

  lemma Stay(s: State)
    ensures CanReach(s, s)
  {
    assert IsRun(s, [], s);
  }

  lemma Extend(s: State, m: State, step: Step)
    requires CanReach(s, m) && Enabled(m, step)
    ensures CanReach(s, Apply(m, step))
  {
    hide Enabled, Apply;
    var steps :| IsRun(s, steps, m);
    var s' := Apply(m, step);
    assert [step][0] == step && [step][1..] == [] && IsRun(s', [], s');
    assert IsRun(m, [step], s');
    RunConcat(s, steps, m, [step], s');
  }

  lemma Chain(s: State, m: State, s': State)
    requires CanReach(s, m) && CanReach(m, s')
    ensures CanReach(s, s')
  {
    var a :| IsRun(s, a, m);
    var b :| IsRun(m, b, s');
    RunConcat(s, a, m, b, s');
  }

  lemma StepKeepsBase(s: State, step: Step)
    requires Enabled(s, step)
    ensures Apply(s, step).base == s.base
  {
  }

  lemma {:induction false} RunKeepsBase(s: State, steps: seq<Step>, s': State)
    requires IsRun(s, steps, s')
    ensures s'.base == s.base
    decreases |steps|
  {
    hide Enabled, Apply;
    if steps != [] {
      StepKeepsBase(s, steps[0]);
      RunKeepsBase(Apply(s, steps[0]), steps[1..], s');
    }
  }

  /** Client `c` has been accepted, put on the list and started. */
  function Arrived(s: State, c: Client): State {
    s.(clients := s.clients + [c], workers := s.workers + [NEW_WORKER.(pc := Started)],
       list := [|s.workers|] + s.list, main := Scanning(0))
  }

  lemma Arrives(s: State, c: Client)
    requires InRange(s) && !s.fault && s.main.Accepting?
    ensures CanReach(s, Arrived(s, c)) && InRange(Arrived(s, c))
  {
    hide CanReach;
    Stay(s);
    var s1 := Apply(s, Accept(c));
    Extend(s, s, Accept(c));
    var s2 := Apply(s1, Insert);
    Extend(s, s1, Insert);
    Extend(s, s2, Start);
    assert Apply(s2, Start) == Arrived(s, c);
  }

  /** The echo loop, run to its end. */
  lemma {:induction false} EchoRuns(s: State, t: Tid) returns (w: Worker)
    requires InRange(s) && !s.fault && t < |s.workers| && s.workers[t].pc.Echoing?
    ensures w.pc.Finished? && w.life == s.workers[t].life
    ensures CanReach(s, WithWorker(s, t, w))
    decreases |Contents(Abs(s.dev))| - s.workers[t].fPos
  {
    hide CanReach, ReadPiece, Contents, Stored, CString, Abs;
    Stay(s);
    Extend(s, s, Read(t, true));
    var s1 := Apply(s, Read(t, true));
    EchoAdvances(s.dev, s.workers[t].fPos);
    if s1.workers[t].pc.Finished? {
      w := s1.workers[t];
      assert s1 == WithWorker(s, t, w);
    } else {
      w := EchoRuns(s1, t);
      Chain(s, s1, WithWorker(s1, t, w));
      assert WithWorker(s1, t, w) == WithWorker(s, t, w);
    }
  }

  lemma EchoAdvances(dev: Phys, p: nat)
    requires dev.idx <= |dev.buf|
    ensures
      var piece := ReadPiece(Stored(Abs(dev)), p, FSIZE);
      piece != [] ==> p < |Contents(Abs(dev))|
  {
    ReadPieceIsSlice(Stored(Abs(dev)), p, FSIZE);
  }

  /** A request that means something is carried out. */
  lemma RequestRuns(s: State, t: Tid) returns (w: Worker, dev: Phys)
    requires InRange(s) && !s.fault && t < |s.workers| && s.workers[t].pc.Heard?
    requires !Meaningless(Abs(s.dev), s.clients[t])
    ensures (w.pc.Echoing? || w.pc.Finished?) && w.life == s.workers[t].life
    ensures PhysValid(dev) && CanReach(s, WithWorker(s, t, w).(dev := dev))
  {
    hide CanReach, RequestOf, Defined, WriteBody, SampleWriteCount, SeekTarget, AtomicWrite, Abs;
    var c := s.clients[t];
    Stay(s);
    Extend(s, s, Submit(t));
    var s1 := Apply(s, Submit(t));
    if RequestOf(c).Write? {
      FreshSampleRefines(s.dev, RequestOf(c).data, c.writeEnv);
      FreshSampleDefinedIff(s.dev, RequestOf(c).data, c.writeEnv);
      Extend(s, s1, WriteLocked(t));
      var s2 := Apply(s1, WriteLocked(t));
      w, dev := s2.workers[t], s2.dev;
      assert s2 == WithWorker(s, t, w).(dev := dev);
    } else {
      w, dev := s1.workers[t], s.dev;
      assert s1 == WithWorker(s, t, w).(dev := dev);
    }
  }

  /** A worker alone with the mutex, from its start to its end. */
  lemma WorkerRuns(s: State, t: Tid) returns (w: Worker, dev: Phys)
    requires InRange(s) && !s.fault && t < |s.workers| && s.workers[t].pc.Started? && s.mutex == None
    requires !Meaningless(Abs(s.dev), s.clients[t])
    ensures w.pc.Returned? && w.life == s.workers[t].life && PhysValid(dev)
    ensures CanReach(s, WithWorker(s, t, w).(dev := dev, order := s.order + [t], history := s.history + [s.clients[t]]))
  {
    hide CanReach, Meaningless, Overflows, RequestOf, Abs;
    MeaninglessIff(Abs(s.dev), s.clients[t]);
    Stay(s);
    Extend(s, s, Lock(t));
    var s1 := Apply(s, Lock(t));
    Extend(s, s1, Hear(t));
    var s2 := Apply(s1, Hear(t));
    var w1;
    w1, dev := RequestRuns(s2, t);
    var s3 := WithWorker(s2, t, w1).(dev := dev);
    Chain(s, s2, s3);
    var w2 := w1;
    if w1.pc.Echoing? {
      w2 := EchoRuns(s3, t);
    } else {
      assert WithWorker(s3, t, w1) == s3;
      Stay(s3);
    }
    var s4 := WithWorker(s3, t, w2);
    Chain(s, s3, s4);
    w := w2.(pc := Returned);
    WorkerLeaves(s, s4, t);
    assert WithWorker(s4, t, w).(mutex := None) ==
           WithWorker(s, t, w).(dev := dev, order := s.order + [t], history := s.history + [s.clients[t]]);
  }

  lemma WorkerLeaves(s: State, m: State, t: Tid)
    requires CanReach(s, m) && InRange(m) && !m.fault && t < |m.workers| && m.workers[t].pc.Finished?
    ensures CanReach(s, WithWorker(m, t, m.workers[t].(pc := Returned)).(mutex := None))
  {
    hide CanReach;
    Extend(s, m, Unlock(t));
    var m1 := Apply(m, Unlock(t));
    Extend(s, m1, SetFlag(t));
    var m2 := Apply(m1, SetFlag(t));
    Extend(s, m2, Return(t));
    assert Apply(m2, Return(t)) == WithWorker(m, t, m.workers[t].(pc := Returned)).(mutex := None);
  }

  /** Main reaps the one worker on its list and goes back to `accept`. */
  lemma MainReaps(s: State, t: Tid)
    requires InRange(s) && !s.fault && s.main == Scanning(0) && s.list == [t] && t < |s.workers|
    requires s.workers[t].pc.Returned? && s.workers[t].life == UNTOUCHED
    ensures CanReach(s, WithLife(s, t, RELEASED, Accepting).(list := []))
  {
    hide CanReach;
    Stay(s);
    Extend(s, s, Scan);
    var s1 := Apply(s, Scan);
    assert s1.list == [];
    Extend(s, s1, Close);
    var s2 := Apply(s1, Close);
    Extend(s, s2, Join);
    var s3 := Apply(s2, Join);
    MainFrees(s, s3, t);
    assert WithLife(s3, t, RELEASED, Accepting) == WithLife(s, t, RELEASED, Accepting).(list := []);
  }

  lemma MainFrees(s: State, m: State, t: Tid)
    requires CanReach(s, m) && InRange(m) && !m.fault && m.main == FreeingSock(t) && m.list == []
    requires m.workers[t].life == Life(1, 0, 0, 0)
    ensures CanReach(s, WithLife(m, t, RELEASED, Accepting))
  {
    hide CanReach;
    Extend(s, m, FreeSock);
    var m1 := Apply(m, FreeSock);
    Extend(s, m1, FreeData);
    var m2 := Apply(m1, FreeData);
    Extend(s, m2, FreeHandle);
    var m3 := Apply(m2, FreeHandle);
    Extend(s, m3, Scan);
    assert Apply(m3, Scan) == WithLife(m, t, RELEASED, Accepting);
  }

  /** Nobody is being served, and everybody who was has been reaped. */
  ghost predicate Quiet(s: State) {
    InRange(s) && !s.fault && s.mutex == None && s.main == Accepting && s.list == []
  }

  /** One more client, served from its arrival until main is back at `accept`. */
  lemma ServesOne(s: State, c: Client) returns (s': State)
    requires Quiet(s) && !Meaningless(Abs(s.dev), c)
    ensures CanReach(s, s') && Quiet(s') && s'.history == s.history + [c]
  {
    hide CanReach, Meaningless, Abs;
    var t := |s.workers|;
    Arrives(s, c);
    var s1 := Arrived(s, c);
    var w, dev := WorkerRuns(s1, t);
    var s2 := WithWorker(s1, t, w).(dev := dev, order := s1.order + [t], history := s1.history + [c]);
    Chain(s, s1, s2);
    MainReaps(s2, t);
    s' := WithLife(s2, t, RELEASED, Accepting).(list := []);
    Chain(s, s2, s');
  }

  /** A quiet server shows the device that the history so far leaves. */
  lemma QuietDevice(s0: State, s: State)
    requires Initial(s0) && CanReach(s0, s) && Quiet(s)
    ensures Reachable(s) && Abs(s.dev) == LogAfter(s0.base, s.history)
  {
    hide Initial, Abs, LogAfter;
    var steps :| IsRun(s0, steps, s);
    RunKeepsBase(s0, steps, s);
    Serializable(s);
  }

  /** Every session of the history meant something to the device it met. */
  ghost predicate AllMeant(base: Log, history: seq<Client>) {
    forall k :: 0 <= k < |history| ==> !Meaningless(LogAfter(base, history[..k]), history[k])
  }

  lemma {:induction false} ServesAll(s0: State, history: seq<Client>) returns (s: State)
    requires Initial(s0) && AllMeant(s0.base, history)
    ensures CanReach(s0, s) && Quiet(s) && s.history == history
    decreases |history|
  {
    hide CanReach, Meaningless, LogAfter, Abs, Shaped, NulFree;
    if history == [] {
      s := s0;
      Stay(s0);
    } else {
      var n := |history| - 1;
      var before := history[..n];
      forall k | 0 <= k < |before| ensures !Meaningless(LogAfter(s0.base, before[..k]), before[k]) {
        assert before[..k] == history[..k] && before[k] == history[k];
      }
      var m := ServesAll(s0, before);
      QuietDevice(s0, m);
      s := ServesOne(m, history[n]);
      Chain(s0, m, s);
      assert history == before + [history[n]];
    }
  }

  /** In a reachable state every session is over, but for the holder's. */
  lemma EarlierSessionsEnded(s: State, k: nat)
    requires Reachable(s) && k < |s.history| && (s.mutex.Some? ==> k < |s.history| - 1)
    ensures !Meaningless(LogAfter(s.base, s.history[..k]), s.history[k])
  {
    hide Reachable, LifeInv, LogAfter, Meaningless, HolderInv, Shaped, NulFree, FaultInv, SerialInv;
    ReachableInv(s);
    EndedSessionsMeantSomething(s, k);
  }

  lemma ServedMeant(s0: State, run: seq<Step>, s: State)
    requires Initial(s0) && IsRun(s0, run, s) && s.mutex == None
    ensures AllMeant(s0.base, s.history)
  {
    hide Initial, IsRun, Meaningless, LogAfter;
    RunKeepsBase(s0, run, s);
    assert Reachable(s);
    hide Reachable;
    forall k | 0 <= k < |s.history| ensures !Meaningless(LogAfter(s0.base, s.history[..k]), s.history[k]) {
      EarlierSessionsEnded(s, k);
    }
  }

  /** Which histories some run serves to the end: exactly those whose every session meant something. */
  lemma HistoryServedIff(s0: State, history: seq<Client>)
    requires Initial(s0)
    ensures AllMeant(s0.base, history) <==>
      exists run, s :: IsRun(s0, run, s) && s.history == history && Quiet(s)
  {
    hide Initial, IsRun, AllMeant;
    if AllMeant(s0.base, history) {
      var s := ServesAll(s0, history);
      var run :| IsRun(s0, run, s);
      assert IsRun(s0, run, s) && s.history == history && Quiet(s);
    }
    if run, s :| IsRun(s0, run, s) && s.history == history && Quiet(s) {
      ServedMeant(s0, run, s);
    }
  }

  /** Whenever the mutex is free, all who ever took it are out and have been answered as in the sequential run. */
  lemma FreeMutexMeansAllAnswered(s: State)
    requires Reachable(s) && s.mutex == None
    ensures |s.order| == |s.history|
    ensures forall k :: 0 <= k < |s.order| ==> s.order[k] < |s.workers|
    ensures forall k :: 0 <= k < |s.order| ==>
      HasReleased(s.workers[s.order[k]].pc) && s.workers[s.order[k]].sent == ReplyOf(s.base, s.history, k)
  {
    hide Reachable, LifeInv, LogAfter, FaultInv, ReplyOf, HolderInv, Meaningless, Shaped, NulFree;
    ReachableInv(s);
    Serializable(s);
  }

  /** A client that means nothing to a quiet server's device takes the server out of defined behaviour. */
  lemma MeaninglessClientFaults(s: State, c: Client) returns (s': State)
    requires Quiet(s) && Meaningless(Abs(s.dev), c)
    ensures CanReach(s, s') && s'.fault && s'.history == s.history + [c]
  {
    hide CanReach, Overflows, RequestOf, WriteBody, Defined, SampleWriteCount, Abs;
    var t := |s.workers|;
    Arrives(s, c);
    var s1 := Arrived(s, c);
    Extend(s, s1, Lock(t));
    var s2 := Apply(s1, Lock(t));
    Extend(s, s2, Hear(t));
    s' := Apply(s2, Hear(t));
    if !s'.fault {
      Extend(s, s', Submit(t));
      var s4 := Apply(s', Submit(t));
      if RequestOf(c).Write? {
        FreshSampleDefinedIff(s.dev, RequestOf(c).data, c.writeEnv);
        Extend(s, s4, WriteLocked(t));
        s' := Apply(s4, WriteLocked(t));
      } else {
        s' := s4;
      }
    }
  }

  lemma FaultedMeant(s0: State, run: seq<Step>, s: State, history: seq<Client>, c: Client)
    requires Initial(s0) && IsRun(s0, run, s) && s.fault && s.history == history + [c]
    ensures AllMeant(s0.base, history) && Meaningless(LogAfter(s0.base, history), c)
  {
    hide Initial, IsRun, Meaningless, LogAfter;
    RunKeepsBase(s0, run, s);
    assert Reachable(s);
    hide Reachable;
    FaultIsTheHolders(s);
    assert s.history[..|history|] == history;
    forall k | 0 <= k < |history| ensures !Meaningless(LogAfter(s0.base, history[..k]), history[k]) {
      EarlierSessionsEnded(s, k);
      assert s.history[..k] == history[..k] && s.history[k] == history[k];
    }
  }

  /**
   * After which history, and on which client, runs leave defined behaviour: every earlier session
   * meant something to the device it met, and this client means nothing to the device they leave.
   */
  lemma HistoryFaultsIff(s0: State, history: seq<Client>, c: Client)
    requires Initial(s0)
    ensures
      AllMeant(s0.base, history) && Meaningless(LogAfter(s0.base, history), c)
      <==> exists run, s :: IsRun(s0, run, s) && s.fault && s.history == history + [c]
  {
    hide Initial, IsRun, Meaningless, LogAfter, Quiet, Abs, AllMeant;
    if AllMeant(s0.base, history) && Meaningless(LogAfter(s0.base, history), c) {
      var m := ServesAll(s0, history);
      QuietDevice(s0, m);
      var s := MeaninglessClientFaults(m, c);
      Chain(s0, m, s);
      var run :| IsRun(s0, run, s);
      assert IsRun(s0, run, s) && s.fault && s.history == history + [c];
    }
    forall run, s | IsRun(s0, run, s) && s.fault && s.history == history + [c]
      ensures AllMeant(s0.base, history) && Meaningless(LogAfter(s0.base, history), c)
    {
      FaultedMeant(s0, run, s, history, c);
    }
  }

  /** Whether the first session can fault depends on nothing but its client and the device the server found. */
  lemma FirstSessionFaultsIff(s0: State, c: Client)
    requires Initial(s0)
    ensures Meaningless(s0.base, c) <==> exists run, s :: IsRun(s0, run, s) && s.fault && s.history == [c]
  {
    hide Initial, IsRun, Meaningless;
    HistoryFaultsIff(s0, [], c);
    assert [] + [c] == [c];
  }

  /** A client that connects and closes without sending anything. */
  const SILENT_CLIENT := Client([], seq(ClientText.TMP_SIZE, i => NUL), CALM, false)

  const SPACES := seq(255, i => 32 as byte)

  /** A client that sends more than two gigabytes without ever ending a line. */
  const ENDLESS_CLIENT := Client(seq(0x81_0000, i => SPACES), seq(ClientText.TMP_SIZE, i => NUL), CALM, false)

  lemma {:induction false} CarriedSpaces(n: nat)
    ensures ClientText.Carried(seq(n, i => SPACES)) == 255 * n
  {
    if n > 0 {
      assert seq(n, i => SPACES)[1..] == seq(n - 1, i => SPACES);
      CarriedSpaces(n - 1);
    }
  }

  /** Either faults the server that comes up on an empty device. */
  lemma FaultsOccur(c: Client)
    requires c == SILENT_CLIENT || c == ENDLESS_CLIENT
    ensures exists s :: Reachable(s) && s.fault && s.history == [c]
  {
    var dev := Phys(seq(MAX_WRITE_SIZE, i => NUL), 0, []);
    var s0 := State(EMPTY_LOG, dev, None, [], [], [], [], [], Accepting, false);
    assert Initial(s0);
    hide Initial, IsRun, Meaningless, Message;
    if c == ENDLESS_CLIENT {
      CarriedSpaces(0x81_0000);
    } else {
      assert Message(c) == [] by {
        SilenceIsEmpty();
      }
    }
    MeaninglessIff(EMPTY_LOG, c);
    FirstSessionFaultsIff(s0, c);
  }

  lemma SilenceIsEmpty()
    ensures Message(SILENT_CLIENT) == []
  {
  }

  /**
   * Object lifetime: nothing of a worker is closed or freed twice, nothing before the worker has
   * released the mutex and set its flag, and its `thread_data` and handle only after it returned.
   */
  lemma LifetimeSafe(s: State, t: Tid)
    requires Reachable(s) && t < |s.workers|
    ensures
      var life := s.workers[t].life;
      && life.closed <= 1 && life.sockFreed <= 1 && life.dataFreed <= 1 && life.handleFreed <= 1
      && (life != UNTOUCHED ==> IsFlagSet(s.workers[t].pc))
      && (life.sockFreed + life.dataFreed + life.handleFreed > 0 ==> s.workers[t].pc.Returned?)
      && life.handleFreed <= life.dataFreed <= life.sockFreed <= life.closed
  {
    hide MutexInv, SerialInv, FaultInv, Reachable;
    ReachableInv(s);
  }

  /** No leak: back at `accept`, every worker is still listed and untouched, or wholly released. */
  lemma ReapedOrListed(s: State, t: Tid)
    requires Reachable(s) && s.main.Accepting? && t < |s.workers|
    ensures if t in s.list then s.workers[t].life == UNTOUCHED else s.workers[t].life == RELEASED
  {
    hide MutexInv, SerialInv, FaultInv, Reachable;
    ReachableInv(s);
  }

  /** The steps in which a worker uses its `thread_data`, its socket or its device file. */
  predicate UsesThreadData(step: Step, t: Tid) {
    && (step.Lock? || step.Hear? || step.Submit? || step.WriteLocked? || step.Read? || step.Unlock? || step.SetFlag?)
    && step.t == t
  }

  /** A worker never uses what main has closed or freed. */
  lemma NoUseAfterFree(s: State, step: Step, t: Tid)
    requires Reachable(s) && Enabled(s, step) && UsesThreadData(step, t)
    ensures s.workers[t].life == UNTOUCHED
  {
    ReachableInv(s);
    hide MutexInv, SerialInv;
    LifetimeSafe(s, t);
  }

  /** Main, too, only reads, closes and frees what is still there, be it at hand or on the list. */
  lemma MainFreesLive(s: State, step: Step)
    requires Reachable(s) && Enabled(s, step)
    ensures step.Scan? && s.main.at < |s.list| ==> s.workers[s.list[s.main.at]].life == UNTOUCHED
    ensures step.Insert? || step.Start? || step.Close? ==> s.workers[s.main.tid].life == UNTOUCHED
    ensures step.Join? || step.FreeSock? || step.FreeData? || step.FreeHandle? ==>
      var life := s.workers[s.main.tid].life;
      && (step.Join? || step.FreeSock? ==> life.sockFreed == life.dataFreed == life.handleFreed == 0)
      && (step.FreeData? ==> life.dataFreed == life.handleFreed == 0)
      && (step.FreeHandle? ==> life.handleFreed == 0)
  {
    hide MutexInv, SerialInv, FaultInv, Reachable;
    ReachableInv(s);
  }

  // ---------------------------------------------------------------------------------------
  // Conservation across interleavings
  // ---------------------------------------------------------------------------------------

  /** The write requests of a history, in order. */
  function WritesOf(history: seq<Client>): seq<WriteOp> {
    if history == [] then []
    else
      var c := history[|history| - 1];
      WritesOf(history[..|history| - 1])
      + if RequestOf(c).Write? then [WriteOp(RequestOf(c).data, c.writeEnv)] else []
  }

  lemma {:induction false} LogAfterIsRunOfWrites(base: Log, history: seq<Client>)
    ensures LogAfter(base, history) == RunWrites(base, WritesOf(history))
  {
    if history != [] {
      var before, c := history[..|history| - 1], history[|history| - 1];
      LogAfterIsRunOfWrites(base, before);
      var last := if RequestOf(c).Write? then [WriteOp(RequestOf(c).data, c.writeEnv)] else [];
      RunWritesConcat(base, WritesOf(before), last);
      LastRequest(LogAfter(base, before), c);
    }
  }

  lemma LastRequest(l: Log, c: Client)
    ensures
      Session(l, c).0 ==
      RunWrites(l, if RequestOf(c).Write? then [WriteOp(RequestOf(c).data, c.writeEnv)] else [])
  {
  }

  /** What a device holds, read off its parts. */
  lemma CommittedIsEvictedAndStored(l: Log)
    ensures Flatten(l.committed) == Flatten(Evicted(l)) + Contents(l)
  {
    assert l.committed == Evicted(l) + Stored(l);
    FlattenConcat(Evicted(l), Stored(l));
  }

  /**
   * At every moment of every interleaving the device has evicted, stores and holds pending exactly
   * what it had when the server came up, followed by what the settled sessions' writes were told was
   * accepted, in order of acquisition.
   */
  lemma ServerConserves(s: State)
    requires Reachable(s)
    ensures s.dev.idx <= |s.dev.buf|
    ensures s.mutex.Some? ==> s.mutex.value < |s.workers| && s.history != []
    ensures
      var l, b := Abs(s.dev), s.base;
      Flatten(Evicted(l)) + Contents(l) + l.pending
      == Flatten(Evicted(b)) + Contents(b) + b.pending + Accepted(b, WritesOf(Settled(s)))
  {
    hide *;
    Serializable(s);
    var l, b, ops := Abs(s.dev), s.base, WritesOf(Settled(s));
    LogAfterIsRunOfWrites(b, Settled(s));
    RunConserves(b, ops);
    CommittedIsEvictedAndStored(l);
    CommittedIsEvictedAndStored(b);
  }

  // ---------------------------------------------------------------------------------------
  // Progress
  // ---------------------------------------------------------------------------------------

  /** Steps a worker takes on its own; what it hears depends on its client. */
  predicate Moves(step: Step, t: Tid) {
    !IsMainStep(step) && !step.Hear? && step.t == t
  }

  /**
   * What can be stuck, and on whom: the mutex holder can move unless it waits for its client, and main
   * can move unless it waits for a new client, any that comes, or for a worker that can.
   */
  lemma NoDeadlock(s: State)
    requires Reachable(s) && !s.fault
    ensures s.mutex.Some? ==> s.mutex.value < |s.workers|
    ensures s.mutex.Some? ==>
      ((exists step :: Enabled(s, step) && Moves(step, s.mutex.value)) <==> !s.workers[s.mutex.value].pc.Locked?)
    ensures s.mutex.Some? && s.workers[s.mutex.value].pc.Locked? ==> Enabled(s, Hear(s.mutex.value))
    ensures s.main.Accepting? ==> forall c :: Enabled(s, Accept(c))
    ensures !s.main.Accepting? ==>
      exists step ::
        Enabled(s, step) && (IsMainStep(step) || (s.main.Joining? && step == Return(s.main.tid)))
  {
    hide *;
    ReachableInRange(s);
    if s.mutex.Some? {
      HolderInSession(s);
      WorkerCanMoveIff(s, s.mutex.value);
      HolderIsStarted(s.workers[s.mutex.value].pc);
    }
    AcceptsAnyone(s);
    if !s.main.Accepting? {
      ReachableLife(s);
      MainCanMove(s);
    }
  }

  lemma HolderInSession(s: State)
    requires Reachable(s) && s.mutex.Some?
    ensures s.mutex.value < |s.workers| && InSession(s.workers[s.mutex.value].pc)
  {
    hide SerialInv, Reachable, FaultInv, LifeInv, InSession;
    ReachableInv(s);
  }

  lemma ReachableLife(s: State)
    requires Reachable(s)
    ensures LifeInv(s)
  {
    ReachableInv(s);
  }

  lemma HolderIsStarted(pc: WorkerPc)
    requires InSession(pc)
    ensures !pc.Created? && !pc.Started? && !pc.Returned?
  {
  }

  lemma AcceptsAnyone(s: State)
    requires InRange(s) && !s.fault
    ensures s.main.Accepting? ==> forall c :: Enabled(s, Accept(c))
  {
  }

  /**
   * When worker `t` can move: it has been started and not returned, and waits neither for its client nor
   * for a mutex that is taken.  Nobody else's turn matters, so waiting workers may go in any order.
   */
  lemma WorkerCanMoveIff(s: State, t: Tid)
    requires InRange(s) && !s.fault && t < |s.workers|
    ensures
      var pc := s.workers[t].pc;
      (exists step :: Enabled(s, step) && Moves(step, t))
      <==> !pc.Created? && !pc.Returned? && !pc.Locked? && (pc.Started? ==> s.mutex == None)
    ensures s.workers[t].pc.Locked? ==> Enabled(s, Hear(t))
  {
    match s.workers[t].pc {
      case Started =>
        if s.mutex == None {
          assert Enabled(s, Lock(t));
        }
      case Heard => assert Enabled(s, Submit(t));
      case Sampled(_) => assert Enabled(s, WriteLocked(t));
      case Echoing(_) => assert Enabled(s, Read(t, true));
      case Finished => assert Enabled(s, Unlock(t));
      case Unlocked => assert Enabled(s, SetFlag(t));
      case Flagged => assert Enabled(s, Return(t));
      case _ =>
    }
  }

  lemma MainCanMove(s: State)
    requires InRange(s) && !s.fault && LifeInv(s) && !s.main.Accepting?
    ensures exists step ::
      Enabled(s, step) && (IsMainStep(step) || (s.main.Joining? && step == Return(s.main.tid)))
  {
    match s.main {
      case Inserting(_) => assert Enabled(s, Insert);
      case Starting(_) => assert Enabled(s, Start);
      case Scanning(_) => assert Enabled(s, Scan);
      case Closing(_) => assert Enabled(s, Close);
      case Joining(t) =>
        assert IsFlagSet(s.workers[t].pc);
        if s.workers[t].pc.Returned? {
          assert Enabled(s, Join);
        } else {
          assert Enabled(s, Return(t));
        }
      case FreeingSock(_) => assert Enabled(s, FreeSock);
      case FreeingData(_) => assert Enabled(s, FreeData);
      case FreeingHandle(_) => assert Enabled(s, FreeHandle);
    }
  }

  /** Since `s0` the mutex has been with `t`, which waits for its client; nobody else got in, out or an answer. */
  ghost predicate HeldUp(s0: State, s: State, t: Tid) {
    && s.mutex == Some(t) && t < |s.workers| && s.workers[t].pc.Locked? && !s.fault
    && (s.dev, s.order, s.history) == (s0.dev, s0.order, s0.history) && |s0.workers| <= |s.workers|
    && (forall u :: 0 <= u < |s.workers| && u != t ==>
          && !InSession(s.workers[u].pc)
          && (HasReleased(s.workers[u].pc) ==> u < |s0.workers| && HasReleased(s0.workers[u].pc)))
    && (forall u :: 0 <= u < |s.workers| ==>
          s.workers[u].sent == if u < |s0.workers| then s0.workers[u].sent else None)
  }

  lemma MainStepKeepsHeldUp(s0: State, s: State, t: Tid, step: Step)
    requires HeldUp(s0, s, t) && LifeInv(s) && Enabled(s, step) && IsMainStep(step)
    ensures HeldUp(s0, Apply(s, step), t)
  {
    if step.Start? {
      assert PcFits(s.main, s.list, s.main.tid, s.workers[s.main.tid].pc);
    }
  }

  lemma WorkerStepKeepsHeldUp(s0: State, s: State, t: Tid, step: Step)
    requires HeldUp(s0, s, t) && Enabled(s, step) && !IsMainStep(step) && step != Hear(t)
    ensures HeldUp(s0, Apply(s, step), t)
  {
    hide WriteBody, ReadPiece, RequestOf, SeekTarget, CString, Overflows;
    var u := step.t;
    assert u != t && (step.SetFlag? || step.Return?);
  }

  lemma StepKeepsHeldUp(s0: State, s: State, t: Tid, step: Step)
    requires HeldUp(s0, s, t) && LifeInv(s) && Enabled(s, step) && step != Hear(t)
    ensures HeldUp(s0, Apply(s, step), t)
  {
    hide HeldUp, Enabled, Apply, LifeInv;
    if IsMainStep(step) {
      MainStepKeepsHeldUp(s0, s, t, step);
    } else {
      WorkerStepKeepsHeldUp(s0, s, t, step);
    }
  }

  lemma {:induction false} RunKeepsHeldUp(s0: State, s: State, t: Tid, steps: seq<Step>, s': State)
    requires HeldUp(s0, s, t) && Inv(s) && IsRun(s, steps, s') && Hear(t) !in steps
    ensures HeldUp(s0, s', t)
    decreases |steps|
  {
    hide HeldUp, Enabled, Apply, LifeInv, MutexInv, SerialInv, FaultInv;
    if steps != [] {
      StepKeepsInv(s, steps[0]);
      StepKeepsHeldUp(s0, s, t, steps[0]);
      RunKeepsHeldUp(s0, Apply(s, steps[0]), t, steps[1..], s');
    }
  }

  /**
   * A client that neither ends its line nor its connection holds up all others: until its worker has
   * heard it out, no run takes the mutex from that worker, lets another into a session, changes the
   * device or answers anyone.
   */
  lemma UnheardHoldsUpAll(s: State, t: Tid, steps: seq<Step>, s': State)
    requires Reachable(s) && !s.fault && t < |s.workers| && s.workers[t].pc.Locked?
    requires IsRun(s, steps, s') && Hear(t) !in steps
    ensures s'.mutex == Some(t) && t < |s'.workers| && s'.workers[t].pc.Locked? && !s'.fault
    ensures s'.dev == s.dev && s'.order == s.order && s'.history == s.history && |s.workers| <= |s'.workers|
    ensures forall u :: 0 <= u < |s'.workers| && u != t ==> !InSession(s'.workers[u].pc)
    ensures forall u :: 0 <= u < |s'.workers| && HasReleased(s'.workers[u].pc) ==>
      u < |s.workers| && HasReleased(s.workers[u].pc)
    ensures forall u :: 0 <= u < |s'.workers| ==>
      s'.workers[u].sent == if u < |s.workers| then s.workers[u].sent else None
  {
    hide IsRun, SerialInv, LifeInv, FaultInv, Reachable;
    ReachableInv(s);
    RunKeepsHeldUp(s, s, t, steps, s');
  }

  /** A pass over a list on which nobody is complete. */
  lemma {:induction false} ScansPast(s: State)
    requires InRange(s) && !s.fault && s.main.Scanning?
    requires forall i :: 0 <= i < |s.list| ==> !IsFlagSet(s.workers[s.list[i]].pc)
    ensures CanReach(s, s.(main := Accepting))
    decreases |s.list| - s.main.at
  {
    hide CanReach;
    Stay(s);
    Extend(s, s, Scan);
    if s.main.at < |s.list| {
      var s1 := Apply(s, Scan);
      ScansPast(s1);
      Chain(s, s1, s.(main := Accepting));
    }
  }

  /** Worker 0 waits for its client in the mutex and everybody after it for the mutex. */
  ghost predicate AllWait(s: State) {
    && InRange(s) && !s.fault && s.main == Accepting && s.mutex == Some(0) && s.workers != []
    && s.workers[0].pc.Locked?
    && (forall u :: 1 <= u < |s.workers| ==> s.workers[u].pc.Started?)
  }

  /** That comes about on every device, whoever comes first, and with any number of clients behind. */
  lemma {:induction false} OneCanHoldUpAny(s0: State, first: Client, others: seq<Client>) returns (s: State)
    requires Initial(s0)
    ensures CanReach(s0, s) && AllWait(s) && s.clients == [first] + others
    decreases |others|
  {
    hide CanReach, Shaped, NulFree;
    if others == [] {
      Arrives(s0, first);
      var s1 := Arrived(s0, first);
      Extend(s0, s1, Lock(0));
      var s2 := Apply(s1, Lock(0));
      ScansPast(s2);
      s := s2.(main := Accepting);
      Chain(s0, s2, s);
    } else {
      var before, last := others[..|others| - 1], others[|others| - 1];
      var m := OneCanHoldUpAny(s0, first, before);
      Arrives(m, last);
      var m1 := Arrived(m, last);
      Chain(s0, m, m1);
      ScansPast(m1);
      s := m1.(main := Accepting);
      Chain(s0, m1, s);
      assert others == before + [last];
    }
  }

  /** Work left in the drain loop for the worker at hand and the rest of the pass. */
  function PassLeft(main: MainPc, list: seq<Tid>): nat {
    match main
    case Accepting => 0
    case Scanning(at) => if at <= |list| then |list| - at + 1 else 1
    case FreeingHandle(_) => |list| + 2
    case FreeingData(_) => |list| + 3
    case FreeingSock(_) => |list| + 4
    case Joining(_) => |list| + 5
    case Closing(_) => |list| + 6
    case Starting(_) => |list| + 7
    case Inserting(_) => |list| + 8
  }

  /** The drain loop terminates: each of its steps shortens the list, or keeps it and shortens the pass. */
  lemma DrainTerminates(s: State, step: Step)
    requires Enabled(s, step) && IsMainStep(step) && !step.Accept? && !step.Insert?
    ensures
      var s' := Apply(s, step);
      || |s'.list| < |s.list|
      || (s'.list == s.list && PassLeft(s'.main, s'.list) < PassLeft(s.main, s.list))
  {
  }

  /** Along this run from `s`, main looks at worker `t` on its list and finds it not yet complete. */
  ghost predicate Visited(s: State, steps: seq<Step>, t: Tid)
    decreases |steps|
  {
    && steps != [] && Enabled(s, steps[0])
    && (|| (steps[0].Scan? && s.main.at < |s.list| && s.list[s.main.at] == t && !IsFlagSet(s.workers[t].pc))
        || Visited(Apply(s, steps[0]), steps[1..], t))
  }

  /** Workers leave main and its list alone, and a flag that is set stays set. */
  lemma StepFrame(s: State, step: Step)
    requires Enabled(s, step)
    ensures !IsMainStep(step) ==> Apply(s, step).main == s.main && Apply(s, step).list == s.list
    ensures forall t :: 0 <= t < |s.workers| && IsFlagSet(s.workers[t].pc) ==>
      t < |Apply(s, step).workers| && (!step.Start? ==> IsFlagSet(Apply(s, step).workers[t].pc))
  {
    hide WriteBody, ReadPiece, RequestOf, SeekTarget, CString;
  }

  /** A pass that is over, or has found someone, moves on only by accepting or closing. */
  lemma {:induction false} PassEnded(s: State, steps: seq<Step>, s': State)
    requires IsRun(s, steps, s') && (s.main.Accepting? || s.main.Closing?)
    requires forall i :: 0 <= i < |steps| ==> !steps[i].Close? && !steps[i].Accept?
    ensures s'.main == s.main && s'.list == s.list
    decreases |steps|
  {
    hide Apply;
    if steps != [] {
      StepFrame(s, steps[0]);
      PassEnded(Apply(s, steps[0]), steps[1..], s');
    }
  }

  /** The rest of a last pass, from entry `at` on. */
  lemma {:induction false} PassVisits(s: State, steps: seq<Step>, s': State)
    requires s.main.Scanning? && IsRun(s, steps, s') && s'.main == Accepting
    requires forall i :: 0 <= i < |steps| ==> !steps[i].Close? && !steps[i].Accept?
    ensures s'.list == s.list
    ensures forall i :: s.main.at <= i < |s.list| ==> Visited(s, steps, s.list[i])
    decreases |steps|
  {
    var s1 := Apply(s, steps[0]);
    StepFrame(s, steps[0]);
    if s1.main.Scanning? {
      PassVisits(s1, steps[1..], s');
    } else {
      PassEnded(s1, steps[1..], s');
    }
  }

  /**
   * When main returns to `accept`, its last pass has kept the list as it was and has looked at every
   * entry on it, finding each incomplete at that moment.
   */
  lemma LastPassVisitsEveryone(s: State, steps: seq<Step>, s': State)
    requires s.main == Scanning(0) && IsRun(s, steps, s') && s'.main == Accepting
    requires forall i :: 0 <= i < |steps| ==> !steps[i].Close? && !steps[i].Accept?
    ensures s'.list == s.list
    ensures forall i :: 0 <= i < |s.list| ==> Visited(s, steps, s.list[i])
  {
    PassVisits(s, steps, s');
  }

  /** Within a pass, whoever is found incomplete was so all the time before: completion is never taken back. */
  lemma {:induction false} VisitedWasIncomplete(s: State, steps: seq<Step>, t: Tid)
    requires Visited(s, steps, t) && t < |s.workers|
    requires s.main.Scanning? || s.main.Closing? || s.main.Accepting?
    requires forall i :: 0 <= i < |steps| ==> !steps[i].Close? && !steps[i].Accept?
    ensures !IsFlagSet(s.workers[t].pc)
    decreases |steps|
  {
    if IsFlagSet(s.workers[t].pc) {
      StepFrame(s, steps[0]);
      VisitedWasIncomplete(Apply(s, steps[0]), steps[1..], t);
    }
  }

  /** So nobody left on the list was complete when the last pass began. */
  lemma LastPassMissesNobody(s: State, steps: seq<Step>, s': State)
    requires InRange(s) && s.main == Scanning(0)
    requires IsRun(s, steps, s') && s'.main == Accepting
    requires forall i :: 0 <= i < |steps| ==> !steps[i].Close? && !steps[i].Accept?
    ensures forall i :: 0 <= i < |s'.list| ==> s'.list[i] < |s.workers| && !IsFlagSet(s.workers[s'.list[i]].pc)
  {
    hide IsRun, Visited;
    LastPassVisitsEveryone(s, steps, s');
    forall i | 0 <= i < |s'.list| ensures s'.list[i] < |s.workers| && !IsFlagSet(s.workers[s'.list[i]].pc) {
      VisitedWasIncomplete(s, steps, s'.list[i]);
    }
  }

  /** A run splits into a part up to the start of a pass, and that pass, which is its last. */
  ghost predicate HasLastPass(s: State, steps: seq<Step>, s': State) {
    exists k, m: State :: 0 <= k <= |steps|
      && IsRun(s, steps[..k], m) && m.main == Scanning(0) && IsRun(m, steps[k..], s')
      && forall i :: k <= i < |steps| ==> !steps[i].Close? && !steps[i].Accept?
  }

  lemma LastPassShifts(s: State, steps: seq<Step>, s': State)
    requires steps != [] && Enabled(s, steps[0]) && HasLastPass(Apply(s, steps[0]), steps[1..], s')
    ensures HasLastPass(s, steps, s')
  {
    hide Enabled, Apply;
    var rest := steps[1..];
    var k, m :| 0 <= k <= |rest|
      && IsRun(Apply(s, steps[0]), rest[..k], m) && m.main == Scanning(0) && IsRun(m, rest[k..], s')
      && forall i :: k <= i < |rest| ==> !rest[i].Close? && !rest[i].Accept?;
    assert steps[..k + 1][0] == steps[0] && steps[..k + 1][1..] == rest[..k] && steps[k + 1..] == rest[k..];
    assert IsRun(s, steps[..k + 1], m);
    forall i | k + 1 <= i < |steps| ensures !steps[i].Close? && !steps[i].Accept? {
      assert steps[i] == rest[i - 1];
    }
  }

  lemma LastPassBegins(s: State, steps: seq<Step>, s': State)
    requires steps != [] && Enabled(s, steps[0]) && Apply(s, steps[0]).main == Scanning(0)
    requires IsRun(Apply(s, steps[0]), steps[1..], s')
    requires forall i :: 1 <= i < |steps| ==> !steps[i].Close? && !steps[i].Accept?
    ensures HasLastPass(s, steps, s')
  {
    hide Enabled, Apply;
    var m := Apply(s, steps[0]);
    assert steps[..1][0] == steps[0] && steps[..1][1..] == [] && IsRun(m, [], m);
    assert IsRun(s, steps[..1], m);
  }

  /** A run to `accept` has a last pass, or is the end of one. */
  lemma {:induction false} LastPassOrWithin(s: State, steps: seq<Step>, s': State)
    requires IsRun(s, steps, s') && s'.main == Accepting
    ensures
      || HasLastPass(s, steps, s')
      || ((s.main.Accepting? || s.main.Scanning?)
          && forall i :: 0 <= i < |steps| ==> !steps[i].Close? && !steps[i].Accept?)
    decreases |steps|
  {
    hide HasLastPass;
    if steps != [] {
      var s1, rest := Apply(s, steps[0]), steps[1..];
      StepFrame(s, steps[0]);
      LastPassOrWithin(s1, rest, s');
      if HasLastPass(s1, rest, s') {
        LastPassShifts(s, steps, s');
      } else {
        forall i | 1 <= i < |steps| ensures !steps[i].Close? && !steps[i].Accept? {
          assert steps[i] == rest[i - 1];
        }
        if steps[0].Start? || steps[0].FreeHandle? {
          LastPassBegins(s, steps, s');
        }
      }
    }
  }

  /** Every run that takes main from a new client, or from one being reaped, to `accept` ends in such a pass. */
  lemma EveryReturnEndsInLastPass(s: State, steps: seq<Step>, s': State)
    requires IsRun(s, steps, s') && s'.main == Accepting && !s.main.Accepting? && !s.main.Scanning?
    ensures exists k, m: State ::
      && 0 <= k <= |steps|
      && IsRun(s, steps[..k], m) && m.main == Scanning(0) && IsRun(m, steps[k..], s')
      && s'.list == m.list
      && forall i :: 0 <= i < |s'.list| ==> Visited(m, steps[k..], s'.list[i])
  {
    hide IsRun, Visited;
    LastPassOrWithin(s, steps, s');
    var k, m :| 0 <= k <= |steps|
      && IsRun(s, steps[..k], m) && m.main == Scanning(0) && IsRun(m, steps[k..], s')
      && forall i :: k <= i < |steps| ==> !steps[i].Close? && !steps[i].Accept?;
    LastPassVisitsEveryone(m, steps[k..], s');
  }

  /** The echo loop terminates: each successful read that does not end it moves the position towards the end. */
  lemma EchoTerminates(s: State, t: Tid)
    requires Reachable(s) && Enabled(s, Read(t, true))
    ensures
      var s' := Apply(s, Read(t, true));
      || s'.workers[t].pc == Finished
      || s.workers[t].fPos < s'.workers[t].fPos <= |Contents(Abs(s.dev))|
  {
    hide Reachable, LifeInv, LogAfter, FaultInv, ReadPiece, Flatten, Meaningless, RequestOf, Shaped, NulFree;
    ReachableInv(s);
    HolderStands(s, t);
    ReadPieceIsSlice(Stored(Abs(s.dev)), s.workers[t].fPos, FSIZE);
  }
}
