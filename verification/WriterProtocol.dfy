/**
 The single-writer protocol of a connection: any number of threads call `write`, block writes
 complete on worker threads, and one flag under a recursive mutex keeps at most one block in flight.
 Every statement that touches shared state is a step of its own.
 */
module WriterProtocol {
  import opened Common

  type Data = seq<int>

  const BLOCK: nat := 2048

  /** Where a `write` returns to: its caller, or the user's write handler that called it. */
  datatype Back = Home | Handler

  /** Who spawned the writer. */
  datatype Caller = ByWrite(back: Back) | ByCompletion

  /** What a thread does next. */
  datatype Pc =
    | Idle
    | WriteEnter(src: Data, back: Back)
    | WriteAppend(src: Data, back: Back)
    | WriteCheck(ok: bool, back: Back)
    | WriteLeave(back: Back)
    | SpawnEnter(caller: Caller)
    | SpawnCheck(caller: Caller)
    | SpawnExtract(caller: Caller)
    | SpawnSet(block: Data, caller: Caller)
    | SpawnLeave(block: Data, caller: Caller)
    | SpawnQuit(caller: Caller)
    | SpawnIssue(block: Data, caller: Caller)
    | Dispatch
    | ClearEnter
    | ClearFlag
    | ClearLeave

  datatype Owner = Nobody | Thread(id: nat)

  /**
   `queue`, `writing`, `owner` and `depth` are the connection's fields.  `kernel` is the block handed
   to the system and not yet completed.  The rest is history: bytes completed, the block taken out and
   not completed, a block whose write failed, everything appended.  `starved`: memory ran out, for an
   append or for a writer, and bytes were left behind without a writer.
   */
  datatype State = State(
    queue: Data, writing: bool, owner: Owner, depth: nat, threads: seq<Pc>, cancelled: bool,
    kernel: Data, sent: Data, inflight: Data, lost: Data, appended: Data, starved: bool)

  /** `Append` and `Refuse` are where memory can run out: part of the bytes fits, no writer is made. */
  datatype Step =
    | BeginWrite(t: nat, src: Data)
    | Advance(t: nat)
    | Append(t: nat, fits: nat)
    | Refuse(t: nat)
    | Issue(t: nat, ok: bool)
    | Complete(t: nat, ok: bool)
    | Cancel

  function Initial(n: nat): State {
    State([], false, Nobody, 0, seq(n, _ => Idle), false, [], [], [], [], [], false)
  }

  predicate CanEnter(s: State, t: nat) {
    s.owner == Nobody || s.owner == Thread(t)
  }

  function Enter(s: State, t: nat): State {
    s.(owner := Thread(t), depth := s.depth + 1)
  }

  function Leave(s: State): State {
    if s.depth <= 1 then s.(owner := Nobody, depth := 0) else s.(depth := s.depth - 1)
  }

  function At(s: State, t: nat, pc: Pc): State
    requires t < |s.threads|
  {
    s.(threads := s.threads[t := pc])
  }

  /** Where a thread goes when the writer's constructor is through. */
  function AfterSpawn(caller: Caller): Pc {
    match caller
    case ByWrite(back) => WriteLeave(back)
    case ByCompletion => Idle
  }

  function AfterWrite(back: Back): Pc {
    match back
    case Home => Idle
    case Handler => Dispatch
  }

  predicate Enabled(s: State, e: Step) {
    match e
    case BeginWrite(t, src) => t < |s.threads| && (s.threads[t].Idle? || s.threads[t].Dispatch?)
    case Advance(t) =>
      && t < |s.threads|
      && (InWrite(s.threads[t]) || InSpawn(s.threads[t]) || InCompletion(s.threads[t]))
      && (s.threads[t].WriteEnter? || s.threads[t].SpawnEnter? || s.threads[t].ClearEnter? ==> CanEnter(s, t))
    case Append(t, fits) => t < |s.threads| && s.threads[t].WriteAppend? && fits <= |s.threads[t].src|
    case Refuse(t) => t < |s.threads| && s.threads[t].SpawnEnter?
    case Issue(t, ok) => t < |s.threads| && s.threads[t].SpawnIssue?
    case Complete(t, ok) => t < |s.threads| && s.threads[t].Idle? && s.kernel != []
    case Cancel => true
  }

  predicate InWrite(pc: Pc) {
    pc.WriteEnter? || pc.WriteCheck? || pc.WriteLeave?
  }

  predicate InSpawn(pc: Pc) {
    pc.SpawnEnter? || pc.SpawnCheck? || pc.SpawnExtract? || pc.SpawnSet? || pc.SpawnLeave? || pc.SpawnQuit?
  }

  predicate InCompletion(pc: Pc) {
    pc.Dispatch? || pc.ClearEnter? || pc.ClearFlag? || pc.ClearLeave?
  }

  /** `connection::write`, but for the append itself. */
  function WriteStep(s: State, t: nat): State
    requires t < |s.threads| && InWrite(s.threads[t])
  {
    match s.threads[t]
    case WriteEnter(src, back) => At(Enter(s, t), t, WriteAppend(src, back))
    case WriteCheck(ok, back) =>
      if ok && !s.writing then At(s, t, SpawnEnter(ByWrite(back)))
      else At(s.(starved := s.starved || (s.queue != [] && !s.writing)), t, WriteLeave(back))
    case WriteLeave(back) => At(Leave(s), t, AfterWrite(back))
  }

  /** The constructor of `owriter`, up to the system call. */
  function SpawnStep(s: State, t: nat): State
    requires t < |s.threads| && InSpawn(s.threads[t])
  {
    match s.threads[t]
    case SpawnEnter(caller) => At(Enter(s, t), t, SpawnCheck(caller))
    case SpawnCheck(caller) => At(s, t, if s.writing then SpawnQuit(caller) else SpawnExtract(caller))
    case SpawnExtract(caller) => Extracted(s, t, caller)
    case SpawnSet(block, caller) => At(s.(writing := true), t, SpawnLeave(block, caller))
    case SpawnLeave(block, caller) => At(Leave(s), t, SpawnIssue(block, caller))
    case SpawnQuit(caller) => At(Leave(s), t, AfterSpawn(caller))
  }

  function Extracted(s: State, t: nat, caller: Caller): State
    requires t < |s.threads|
  {
    var n := Min(BLOCK, |s.queue|);
    if n == 0 then At(s, t, SpawnQuit(caller))
    else At(s.(queue := s.queue[n..], inflight := s.queue[..n], starved := false), t, SpawnSet(s.queue[..n], caller))
  }

  /** `connection::on_write`, up to the call of `spawn_writer`. */
  function CompletionStep(s: State, t: nat): State
    requires t < |s.threads| && InCompletion(s.threads[t])
  {
    match s.threads[t]
    case Dispatch => At(s, t, ClearEnter)
    case ClearEnter => At(Enter(s, t), t, ClearFlag)
    case ClearFlag => At(s.(writing := false), t, ClearLeave)
    case ClearLeave => At(Leave(s), t, SpawnEnter(ByCompletion))
  }

  /** `spawn_writer` gets no memory for a writer: nobody looks at the queue. */
  function Refused(s: State, t: nat): State
    requires t < |s.threads| && s.threads[t].SpawnEnter?
  {
    var strands := s.queue != [] && !s.writing && s.inflight == [];
    At(s.(starved := s.starved || strands), t, AfterSpawn(s.threads[t].caller))
  }

  function Do(s: State, e: Step): State
    requires Enabled(s, e)
  {
    match e
    case BeginWrite(t, src) => At(s, t, WriteEnter(src, if s.threads[t].Idle? then Home else Handler))
    case Advance(t) =>
      if InWrite(s.threads[t]) then WriteStep(s, t)
      else if InSpawn(s.threads[t]) then SpawnStep(s, t)
      else CompletionStep(s, t)
    case Append(t, fits) =>
      var pc := s.threads[t];
      At(s.(queue := s.queue + pc.src[..fits], appended := s.appended + pc.src[..fits]), t,
        WriteCheck(fits == |pc.src|, pc.back))
    case Refuse(t) => Refused(s, t)
    case Issue(t, ok) =>
      var pc := s.threads[t];
      if ok then At(s.(kernel := pc.block), t, AfterSpawn(pc.caller))
      else At(s.(lost := pc.block, cancelled := true), t, AfterSpawn(pc.caller))
    case Complete(t, ok) =>
      if ok then At(s.(sent := s.sent + s.kernel, kernel := [], inflight := []), t, Dispatch)
      else s.(lost := s.kernel, kernel := [], cancelled := true)
    case Cancel => s.(cancelled := true)
  }

  ghost predicate IsRun(states: seq<State>, steps: seq<Step>) {
    && |states| == |steps| + 1
    && (exists n: nat :: states[0] == Initial(n))
    && forall i :: 0 <= i < |steps| ==> Enabled(states[i], steps[i]) && states[i + 1] == Do(states[i], steps[i])
  }

  // ----- the mutex -----

  function DepthBy(caller: Caller): nat {
    if caller.ByWrite? then 1 else 0
  }

  /** How often a thread at `pc` has entered the mutex. */
  function Depth(pc: Pc): nat {
    match pc
    case Idle => 0
    case WriteEnter(_, _) => 0
    case WriteAppend(_, _) => 1
    case WriteCheck(_, _) => 1
    case WriteLeave(_) => 1
    case SpawnEnter(caller) => DepthBy(caller)
    case SpawnCheck(caller) => DepthBy(caller) + 1
    case SpawnExtract(caller) => DepthBy(caller) + 1
    case SpawnSet(_, caller) => DepthBy(caller) + 1
    case SpawnLeave(_, caller) => DepthBy(caller) + 1
    case SpawnQuit(caller) => DepthBy(caller) + 1
    case SpawnIssue(_, caller) => DepthBy(caller)
    case Dispatch => 0
    case ClearEnter => 0
    case ClearFlag => 1
    case ClearLeave => 1
  }

  /** The mutex belongs to the one thread inside it, as deep as that thread went. */
  ghost predicate Locked(s: State) {
    && (s.owner == Nobody ==> s.depth == 0)
    && (s.owner.Thread? ==> s.owner.id < |s.threads| && s.depth == Depth(s.threads[s.owner.id]) > 0)
    && (forall t :: 0 <= t < |s.threads| && Depth(s.threads[t]) > 0 ==> s.owner == Thread(t))
  }

  /** A step of thread `t` that leaves the mutex alone, enters it or leaves it. */
  ghost predicate LockMove(s: State, r: State, t: nat) {
    && t < |s.threads| == |r.threads|
    && (forall i :: 0 <= i < |s.threads| && i != t ==> r.threads[i] == s.threads[i])
    && var d, d' := Depth(s.threads[t]), Depth(r.threads[t]);
      || (d' == d && r.owner == s.owner && r.depth == s.depth)
      || (CanEnter(s, t) && d' == d + 1 && r.owner == Thread(t) && r.depth == s.depth + 1)
      || (d > 0 && d' == d - 1 && r.owner == Leave(s).owner && r.depth == Leave(s).depth)
  }

  lemma LockMoveKeeps(s: State, r: State, t: nat)
    requires Locked(s) && LockMove(s, r, t)
    ensures Locked(r)
  {
  }

  lemma SameLock(s: State, r: State)
    requires Locked(s) && r.owner == s.owner && r.depth == s.depth && r.threads == s.threads
    ensures Locked(r)
  {
  }

  lemma WriteMovesLock(s: State, t: nat)
    requires Locked(s) && t < |s.threads| && InWrite(s.threads[t])
    requires s.threads[t].WriteEnter? ==> CanEnter(s, t)
    ensures LockMove(s, WriteStep(s, t), t)
  {
  }

  lemma SpawnMovesLock(s: State, t: nat)
    requires Locked(s) && t < |s.threads| && InSpawn(s.threads[t])
    requires s.threads[t].SpawnEnter? ==> CanEnter(s, t)
    ensures LockMove(s, SpawnStep(s, t), t)
  {
    if s.threads[t].SpawnEnter? {
    } else if s.threads[t].SpawnLeave? || s.threads[t].SpawnQuit? {
      SpawnLeavesLock(s, t);
    } else {
      SpawnLeavesLockAlone(s, t);
    }
  }

  lemma SpawnLeavesLock(s: State, t: nat)
    requires t < |s.threads| && (s.threads[t].SpawnLeave? || s.threads[t].SpawnQuit?)
    ensures LockMove(s, SpawnStep(s, t), t)
  {
  }

  lemma SpawnLeavesLockAlone(s: State, t: nat)
    requires t < |s.threads| && (s.threads[t].SpawnCheck? || s.threads[t].SpawnExtract? || s.threads[t].SpawnSet?)
    ensures LockMove(s, SpawnStep(s, t), t)
  {
  }

  lemma CompletionMovesLock(s: State, t: nat)
    requires Locked(s) && t < |s.threads| && InCompletion(s.threads[t])
    requires s.threads[t].ClearEnter? ==> CanEnter(s, t)
    ensures LockMove(s, CompletionStep(s, t), t)
  {
  }

  /** Every step keeps the mutex exclusive and counts its depth right. */
  lemma LockedKept(s: State, e: Step)
    requires Locked(s) && Enabled(s, e)
    ensures Locked(Do(s, e))
  {
    hide Locked;
    if e.Advance? {
      if InWrite(s.threads[e.t]) { WriteMovesLock(s, e.t); }
      else if InSpawn(s.threads[e.t]) { SpawnMovesLock(s, e.t); }
      else { CompletionMovesLock(s, e.t); }
    }
    if e.Cancel? || (e.Complete? && !e.ok) {
      SameLock(s, Do(s, e));
    } else {
      LockMoveKeeps(s, Do(s, e), e.t);
    }
  }

  // ----- the right to write -----

  /** A thread at `pc` answers for the block taken out last: it carries it, or has yet to clear the flag for it. */
  predicate Answers(pc: Pc) {
    match pc
    case WriteEnter(_, back) => back == Handler
    case WriteAppend(_, back) => back == Handler
    case WriteCheck(_, back) => back == Handler
    case WriteLeave(back) => back == Handler
    case SpawnSet(_, _) => true
    case SpawnLeave(_, _) => true
    case SpawnIssue(_, _) => true
    case Dispatch => true
    case ClearEnter => true
    case ClearFlag => true
    case _ => false
  }

  function Carried(pc: Pc): Data {
    if pc.SpawnSet? || pc.SpawnLeave? || pc.SpawnIssue? then pc.block else []
  }

  /** Who answers for the block taken out last. */
  datatype Place = Nowhere | WithThread(t: nat) | InKernel | Lost

  /** A write called from the user's handler never spawns a writer of its own. */
  predicate SpawnsForHandler(pc: Pc) {
    && (InSpawn(pc) || pc.SpawnIssue?)
    && pc.caller == ByWrite(Handler)
  }

  /** The block in flight is in one place only, and the flag says whether there is such a place. */
  ghost predicate Placed(s: State, p: Place) {
    && (p.WithThread? ==> p.t < |s.threads|)
    && (forall t :: 0 <= t < |s.threads| ==> (Answers(s.threads[t]) <==> p == WithThread(t)))
    && (s.kernel != [] <==> p == InKernel)
    && (s.lost != [] <==> p == Lost)
    && (s.writing <==> p != Nowhere && !(p.WithThread? && s.threads[p.t].SpawnSet?))
    && s.inflight == match p
      case Nowhere => []
      case WithThread(t) => Carried(s.threads[t])
      case InKernel => s.kernel
      case Lost => s.lost
  }

  predicate WellShaped(pc: Pc, writing: bool) {
    && !SpawnsForHandler(pc)
    && (pc.SpawnExtract? ==> !writing)
    && (pc.SpawnSet? || pc.SpawnLeave? || pc.SpawnIssue? ==> 0 < |pc.block| <= BLOCK)
  }

  ghost predicate WellSpawned(s: State) {
    forall t :: 0 <= t < |s.threads| ==> WellShaped(s.threads[t], s.writing)
  }

  ghost predicate Exclusive(s: State, p: Place) {
    Locked(s) && Placed(s, p) && WellSpawned(s)
  }

  /** While a thread is about to extract, nobody answers for a block. */
  lemma NobodyWhileExtracting(s: State, p: Place, t: nat)
    requires Exclusive(s, p) && t < |s.threads| && s.threads[t].SpawnExtract?
    ensures p == Nowhere
  {
    assert WellShaped(s.threads[t], s.writing);
    if p.WithThread? && p.t != t {
      OnlyOneInside(s, t, p.t);
    }
  }

  lemma OnlyOneInside(s: State, t: nat, u: nat)
    requires Locked(s) && t < |s.threads| && u < |s.threads| && t != u
    requires Depth(s.threads[t]) > 0
    ensures Depth(s.threads[u]) == 0
  {
  }

  ghost predicate Moved(s: State, r: State, t: nat) {
    t < |s.threads| == |r.threads| && forall i :: 0 <= i < |s.threads| && i != t ==> r.threads[i] == s.threads[i]
  }

  /** A step that neither takes a block out nor hands it on. */
  lemma SamePlace(s: State, r: State, t: nat, p: Place)
    requires Placed(s, p) && Moved(s, r, t)
    requires r.kernel == s.kernel && r.lost == s.lost && r.inflight == s.inflight && r.writing == s.writing
    requires Answers(r.threads[t]) == Answers(s.threads[t]) && Carried(r.threads[t]) == Carried(s.threads[t])
    requires r.threads[t].SpawnSet? == s.threads[t].SpawnSet?
    ensures Placed(r, p)
  {
  }

  /** A step that does not set the flag. */
  lemma ShapeMove(s: State, r: State, t: nat)
    requires WellSpawned(s) && Moved(s, r, t)
    requires r.writing ==> s.writing
    requires WellShaped(r.threads[t], r.writing)
    ensures WellSpawned(r)
  {
    forall i | 0 <= i < |r.threads| ensures WellShaped(r.threads[i], r.writing) {
      assert WellShaped(s.threads[i], s.writing);
    }
  }

  /** A step of `t` that neither takes a block out, hands it on, nor touches the flag. */
  ghost predicate QuietStep(s: State, r: State, t: nat) {
    && Moved(s, r, t) && r.kernel == s.kernel && r.lost == s.lost && r.inflight == s.inflight && r.writing == s.writing
    && Answers(r.threads[t]) == Answers(s.threads[t]) && Carried(r.threads[t]) == Carried(s.threads[t])
    && r.threads[t].SpawnSet? == s.threads[t].SpawnSet? && WellShaped(r.threads[t], r.writing)
  }

  lemma QuietKeepsPlace(s: State, r: State, t: nat, p: Place)
    requires Placed(s, p) && WellSpawned(s) && QuietStep(s, r, t)
    ensures Placed(r, p) && WellSpawned(r)
  {
    hide Placed, WellSpawned;
    SamePlace(s, r, t, p);
    ShapeMove(s, r, t);
  }

  lemma WriteIsQuiet(s: State, p: Place, t: nat)
    requires Exclusive(s, p) && t < |s.threads| && InWrite(s.threads[t])
    ensures QuietStep(s, WriteStep(s, t), t)
  {
    if s.threads[t].WriteCheck? {
      CheckIsQuiet(s, p, t);
    } else {
      hide Exclusive;
    }
  }

  /** A write called from a handler finds the flag of the handler's own block still set, and makes no writer. */
  lemma CheckIsQuiet(s: State, p: Place, t: nat)
    requires Exclusive(s, p) && t < |s.threads| && s.threads[t].WriteCheck?
    ensures QuietStep(s, WriteStep(s, t), t)
  {
    assert s.threads[t].back == Handler ==> p == WithThread(t) && s.writing;
    hide Exclusive;
  }

  lemma WriteKeepsPlace(s: State, p: Place, t: nat)
    requires Exclusive(s, p) && t < |s.threads| && InWrite(s.threads[t])
    ensures Placed(WriteStep(s, t), p) && WellSpawned(WriteStep(s, t))
  {
    hide Placed, WellSpawned, QuietStep, WriteStep;
    WriteIsQuiet(s, p, t);
    QuietKeepsPlace(s, WriteStep(s, t), t, p);
  }

  lemma ExtractKeepsPlace(s: State, p: Place, t: nat)
    requires Exclusive(s, p) && t < |s.threads| && s.threads[t].SpawnExtract?
    ensures var r := Extracted(s, t, s.threads[t].caller);
      Placed(r, if s.queue == [] then p else WithThread(t)) && WellSpawned(r)
  {
    NobodyWhileExtracting(s, p, t);
    assert WellShaped(s.threads[t], s.writing);
    ShapeMove(s, Extracted(s, t, s.threads[t].caller), t);
  }

  /** Setting the flag: nobody else is about to extract, for this thread is inside the mutex. */
  lemma SetKeepsPlace(s: State, p: Place, t: nat)
    requires Exclusive(s, p) && t < |s.threads| && s.threads[t].SpawnSet?
    ensures Placed(SpawnStep(s, t), p) && WellSpawned(SpawnStep(s, t))
  {
    var r := SpawnStep(s, t);
    forall u | 0 <= u < |s.threads| ensures WellShaped(r.threads[u], r.writing) {
      assert WellShaped(s.threads[u], s.writing);
      if u != t { OnlyOneInside(s, t, u); }
    }
  }

  /** The other steps of a spawn. */
  lemma RestIsQuiet(s: State, t: nat)
    requires WellSpawned(s) && t < |s.threads| && InSpawn(s.threads[t])
    requires !s.threads[t].SpawnExtract? && !s.threads[t].SpawnSet?
    ensures QuietStep(s, SpawnStep(s, t), t)
  {
    assert WellShaped(s.threads[t], s.writing);
  }

  lemma SpawnKeepsPlace(s: State, p: Place, t: nat) returns (p': Place)
    requires Exclusive(s, p) && t < |s.threads| && InSpawn(s.threads[t])
    ensures Placed(SpawnStep(s, t), p') && WellSpawned(SpawnStep(s, t))
  {
    p' := p;
    assert WellShaped(s.threads[t], s.writing);
    if s.threads[t].SpawnExtract? {
      ExtractKeepsPlace(s, p, t);
      p' := if s.queue == [] then p else WithThread(t);
    } else if s.threads[t].SpawnSet? {
      SetKeepsPlace(s, p, t);
    } else {
      RestIsQuiet(s, t);
      QuietKeepsPlace(s, SpawnStep(s, t), t, p);
    }
  }

  lemma ClearKeepsPlace(s: State, p: Place, t: nat)
    requires Exclusive(s, p) && t < |s.threads| && s.threads[t].ClearFlag?
    ensures Placed(CompletionStep(s, t), Nowhere)
  {
  }

  lemma CompletionKeepsPlace(s: State, p: Place, t: nat) returns (p': Place)
    requires Exclusive(s, p) && t < |s.threads| && InCompletion(s.threads[t])
    ensures Placed(CompletionStep(s, t), p') && WellSpawned(CompletionStep(s, t))
  {
    p' := p;
    if s.threads[t].ClearFlag? {
      ShapeMove(s, CompletionStep(s, t), t);
      ClearKeepsPlace(s, p, t);
      p' := Nowhere;
    } else {
      CompletionIsQuiet(s, t);
      QuietKeepsPlace(s, CompletionStep(s, t), t, p);
      hide Placed, WellSpawned, QuietStep, CompletionStep;
    }
  }

  lemma CompletionIsQuiet(s: State, t: nat)
    requires WellSpawned(s) && t < |s.threads| && InCompletion(s.threads[t]) && !s.threads[t].ClearFlag?
    ensures QuietStep(s, CompletionStep(s, t), t)
  {
    assert WellShaped(s.threads[t], s.writing);
  }

  lemma IssueKeepsPlace(s: State, p: Place, t: nat, ok: bool)
    requires Exclusive(s, p) && t < |s.threads| && s.threads[t].SpawnIssue?
    ensures var r := Do(s, Issue(t, ok)); Placed(r, if ok then InKernel else Lost) && WellSpawned(r)
  {
    assert WellShaped(s.threads[t], s.writing);
    ShapeMove(s, Do(s, Issue(t, ok)), t);
  }

  lemma CompleteKeepsPlace(s: State, p: Place, t: nat, ok: bool)
    requires Exclusive(s, p) && Enabled(s, Complete(t, ok))
    ensures var r := Do(s, Complete(t, ok)); Placed(r, if ok then WithThread(t) else Lost) && WellSpawned(r)
  {
    ShapeMove(s, Do(s, Complete(t, ok)), t);
  }

  lemma RefusalKeepsPlace(s: State, p: Place, t: nat)
    requires Exclusive(s, p) && t < |s.threads| && s.threads[t].SpawnEnter?
    ensures Placed(Refused(s, t), p) && WellSpawned(Refused(s, t))
  {
    RefusalIsQuiet(s, t);
    QuietKeepsPlace(s, Refused(s, t), t, p);
    hide Placed, WellSpawned, QuietStep, Refused;
  }

  lemma RefusalIsQuiet(s: State, t: nat)
    requires WellSpawned(s) && t < |s.threads| && s.threads[t].SpawnEnter?
    ensures QuietStep(s, Refused(s, t), t)
  {
    assert WellShaped(s.threads[t], s.writing);
  }

  /** Every step keeps the block in one place; the result says which. */
  lemma ExclusiveKept(s: State, p: Place, e: Step) returns (p': Place)
    requires Exclusive(s, p) && Enabled(s, e)
    ensures Exclusive(Do(s, e), p')
  {
    LockedKept(s, e);
    p' := p;
    match e
    case Advance(t) =>
      if InWrite(s.threads[t]) {
        WriteKeepsPlace(s, p, t);
      } else if InSpawn(s.threads[t]) {
        p' := SpawnKeepsPlace(s, p, t);
      } else {
        p' := CompletionKeepsPlace(s, p, t);
      }
    case Issue(t, ok) =>
      IssueKeepsPlace(s, p, t, ok);
      p' := if ok then InKernel else Lost;
    case Complete(t, ok) =>
      CompleteKeepsPlace(s, p, t, ok);
      p' := if ok then WithThread(t) else Lost;
    case Cancel =>
    case Refuse(t) => RefusalKeepsPlace(s, p, t);
    case _ =>
      SamePlace(s, Do(s, e), e.t, p);
      ShapeMove(s, Do(s, e), e.t);
  }

  // ----- bytes, in order -----

  /** What was completed, then what is in flight, then what is queued, is everything appended. */
  ghost predicate InOrder(s: State) {
    s.sent + s.inflight + s.queue == s.appended
  }

  lemma ExtractKeepsOrder(s: State, p: Place, t: nat)
    requires Exclusive(s, p) && InOrder(s) && t < |s.threads| && s.threads[t].SpawnExtract?
    ensures InOrder(Extracted(s, t, s.threads[t].caller))
  {
    NobodyWhileExtracting(s, p, t);
    assert s.queue[..Min(BLOCK, |s.queue|)] + s.queue[Min(BLOCK, |s.queue|)..] == s.queue;
  }

  lemma AppendKeepsOrder(sent: Data, inflight: Data, queue: Data, more: Data)
    ensures sent + inflight + (queue + more) == (sent + inflight + queue) + more
  {
  }

  lemma AdvanceKeepsOrder(s: State, p: Place, t: nat)
    requires Exclusive(s, p) && InOrder(s) && Enabled(s, Advance(t))
    ensures InOrder(Do(s, Advance(t)))
  {
    if s.threads[t].SpawnExtract? {
      ExtractKeepsOrder(s, p, t);
    }
  }

  lemma InOrderKept(s: State, p: Place, e: Step)
    requires Exclusive(s, p) && InOrder(s) && Enabled(s, e)
    ensures InOrder(Do(s, e))
  {
    match e
    case Advance(t) => AdvanceKeepsOrder(s, p, t);
    case Append(t, fits) => AppendKeepsOrder(s.sent, s.inflight, s.queue, s.threads[t].src[..fits]);
    case Complete(t, ok) => assert s.inflight == s.kernel;
    case _ =>
  }

  // ----- no lost wakeup -----

  /** A thread at `pc` will look at the queue, or has just taken a block out of it. */
  predicate Pending(pc: Pc) {
    pc.WriteCheck? || pc.SpawnEnter? || pc.SpawnCheck? || pc.SpawnExtract? || pc.SpawnSet? || pc.ClearLeave?
  }

  ghost predicate SomePending(s: State) {
    exists t :: 0 <= t < |s.threads| && Pending(s.threads[t])
  }

  /** Bytes left without a writer are about to be looked at, or were left behind when memory ran out. */
  ghost predicate Awake(s: State) {
    && (s.queue != [] && !s.writing ==> s.starved || SomePending(s))
    && (s.starved ==> s.queue != [] && !s.writing)
    && (s.starved ==> forall t :: 0 <= t < |s.threads| ==> !s.threads[t].SpawnSet?)
    && (s.lost != [] ==> s.cancelled)
  }

  /** A step of `t` after which `t` is pending, or nothing needs attention. */
  lemma StaysAwake(s: State, r: State, t: nat)
    requires Awake(s) && Moved(s, r, t)
    requires Pending(s.threads[t]) && r.queue != [] && !r.writing && !r.starved ==> Pending(r.threads[t])
    requires r.queue != [] && !r.writing && !r.starved ==>
      (s.queue != [] && !s.writing && !s.starved) || Pending(r.threads[t])
    ensures r.queue != [] && !r.writing ==> r.starved || SomePending(r)
  {
    if r.queue != [] && !r.writing && !r.starved {
      if Pending(r.threads[t]) {
        assert 0 <= t < |r.threads|;
      } else {
        var w :| 0 <= w < |s.threads| && Pending(s.threads[w]);
        assert r.threads[w] == s.threads[w];
      }
    }
  }

  lemma AdvanceAwake(s: State, p: Place, t: nat)
    requires Exclusive(s, p) && Awake(s) && Enabled(s, Advance(t))
    ensures Awake(Do(s, Advance(t)))
  {
    hide Exclusive, Awake, WriteStep, SpawnStep, CompletionStep;
    if InWrite(s.threads[t]) {
      WriteAwake(s, p, t);
    } else if InSpawn(s.threads[t]) {
      SpawnAwake(s, p, t);
    } else {
      CompletionAwake(s, p, t);
    }
  }

  lemma AwakeKept(s: State, p: Place, e: Step)
    requires Exclusive(s, p) && Awake(s) && Enabled(s, e)
    ensures Awake(Do(s, e))
  {
    match e
    case Advance(t) => AdvanceAwake(s, p, t);
    case Cancel =>
      assert SomePending(s) ==> SomePending(Do(s, e)) by {
        if SomePending(s) {
          var w :| 0 <= w < |s.threads| && Pending(s.threads[w]);
          assert Pending(Do(s, e).threads[w]);
        }
      }
    case Complete(t, ok) =>
      if ok { StaysAwake(s, Do(s, e), t); }
    case Refuse(t) => RefusalAwake(s, p, t);
    case _ => StaysAwake(s, Do(s, e), e.t);
  }

  /** A block taken out without the flag is with a thread that is about to set it. */
  lemma TakenOutIsPending(s: State, p: Place)
    requires Exclusive(s, p) && !s.writing
    ensures s.inflight != [] ==> p.WithThread? && s.threads[p.t].SpawnSet?
    ensures s.inflight == [] ==> forall t :: 0 <= t < |s.threads| ==> !s.threads[t].SpawnSet?
  {
    hide Locked;
    forall t | 0 <= t < |s.threads| && s.threads[t].SpawnSet? ensures s.inflight != [] {
      assert WellShaped(s.threads[t], s.writing) && Answers(s.threads[t]);
    }
  }

  lemma RefusalAwake(s: State, p: Place, t: nat)
    requires Exclusive(s, p) && Awake(s) && t < |s.threads| && s.threads[t].SpawnEnter?
    ensures Awake(Refused(s, t))
  {
    if !s.writing {
      TakenOutIsPending(s, p);
      if s.inflight != [] { assert Pending(Refused(s, t).threads[p.t]); }
    }
    hide Exclusive;
  }

  lemma WriteAwake(s: State, p: Place, t: nat)
    requires Exclusive(s, p) && Awake(s) && t < |s.threads| && InWrite(s.threads[t])
    ensures Awake(WriteStep(s, t))
  {
    StaysAwake(s, WriteStep(s, t), t);
    if s.threads[t].WriteCheck? {
      forall u | 0 <= u < |s.threads| ensures !s.threads[u].SpawnSet? {
        if u != t { OnlyOneInside(s, t, u); }
      }
    }
  }

  lemma SpawnAwake(s: State, p: Place, t: nat)
    requires Exclusive(s, p) && Awake(s) && t < |s.threads| && InSpawn(s.threads[t])
    ensures Awake(SpawnStep(s, t))
  {
    StaysAwake(s, SpawnStep(s, t), t);
  }

  lemma CompletionAwake(s: State, p: Place, t: nat)
    requires Exclusive(s, p) && Awake(s) && t < |s.threads| && InCompletion(s.threads[t])
    ensures Awake(CompletionStep(s, t))
  {
    StaysAwake(s, CompletionStep(s, t), t);
  }
}
