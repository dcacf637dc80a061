/**
 What the single-writer protocol guarantees over every run: one block in flight, bytes in order, no
 lost wakeup but for want of memory, no deadlock.
 */
module WriterRuns {
  import opened WriterProtocol

  // ----- every run -----

  ghost predicate Good(s: State) {
    (exists p :: Exclusive(s, p)) && InOrder(s) && Awake(s)
  }

  lemma {:induction false} RunIsGood(states: seq<State>, steps: seq<Step>, n: nat)
    requires IsRun(states, steps) && n < |states|
    ensures Good(states[n])
  {
    if n == 0 {
      assert Exclusive(states[0], Nowhere);
    } else {
      RunIsGood(states, steps, n - 1);
      var s, e := states[n - 1], steps[n - 1];
      var p :| Exclusive(s, p);
      InOrderKept(s, p, e);
      AwakeKept(s, p, e);
      var p' := ExclusiveKept(s, p, e);
    }
  }

  /** A block that was taken out is with this thread. */
  predicate Carries(pc: Pc) {
    pc.SpawnSet? || pc.SpawnLeave? || pc.SpawnIssue?
  }

  /**
   At most one block is in flight: with one thread, or handed to the system, or lost.  Bytes leave in
   the order they were appended, and none is lost or repeated.
   */
  lemma OneBlockInFlight(states: seq<State>, steps: seq<Step>, n: nat)
    requires IsRun(states, steps) && n < |states|
    ensures var s := states[n];
      && s.sent + s.inflight + s.queue == s.appended
      && (s.kernel != [] ==> s.inflight == s.kernel && s.lost == [])
      && (forall t :: 0 <= t < |s.threads| && Carries(s.threads[t]) ==>
            s.inflight == s.threads[t].block && s.kernel == [] && s.lost == [])
      && (forall t, u :: 0 <= t < u < |s.threads| ==> !(Carries(s.threads[t]) && Carries(s.threads[u])))
  {
    RunIsGood(states, steps, n);
    var p :| Exclusive(states[n], p);
    OnePlace(states[n], p);
    hide Exclusive, Awake, IsRun;
  }

  lemma OnePlace(s: State, p: Place)
    requires Exclusive(s, p)
    ensures s.kernel != [] ==> s.inflight == s.kernel && s.lost == []
    ensures forall t :: 0 <= t < |s.threads| && Carries(s.threads[t]) ==>
      s.inflight == s.threads[t].block && s.kernel == [] && s.lost == []
    ensures forall t, u :: 0 <= t < u < |s.threads| ==> !(Carries(s.threads[t]) && Carries(s.threads[u]))
  {
    hide Locked, WellShaped;
  }

  /** A block takes all bytes that wait, or 2048 of them: those in front. */
  lemma BlockTakesAll(s: State, e: Step)
    requires Enabled(s, e) && TakesOut(s, e)
    ensures var r := Do(s, e);
      && r.threads[e.t].SpawnSet? && r.threads[e.t].block == r.inflight && r.inflight + r.queue == s.queue
      && (|r.inflight| == 2048 || (0 < |r.inflight| < 2048 && r.queue == []))
  {
    var n := if 2048 < |s.queue| then 2048 else |s.queue|;
    assert s.queue[..n] + s.queue[n..] == s.queue;
  }

  // ----- bytes, by what the callers wrote -----

  /** What thread `t` was asked to write last. */
  ghost function LastWrite(steps: seq<Step>, n: nat, t: nat): Data
    requires n <= |steps|
  {
    if n == 0 then []
    else if steps[n - 1].BeginWrite? && steps[n - 1].t == t then steps[n - 1].src
    else LastWrite(steps, n - 1, t)
  }

  /** Of every write, in the order of the appends, as much as found memory. */
  ghost function Written(steps: seq<Step>, n: nat): Data
    requires n <= |steps|
  {
    if n == 0 then []
    else
      match steps[n - 1]
      case Append(t, fits) =>
        var src := LastWrite(steps, n - 1, t);
        Written(steps, n - 1) + (if fits <= |src| then src[..fits] else src)
      case _ => Written(steps, n - 1)
  }

  /** A thread that is about to append still has what it was asked to write. */
  predicate HasSource(pc: Pc, src: Data) {
    pc.WriteEnter? || pc.WriteAppend? ==> pc.src == src
  }

  lemma SourceKept(s: State, e: Step, t: nat, src: Data)
    requires Enabled(s, e) && t < |s.threads| && HasSource(s.threads[t], src)
    ensures t < |Do(s, e).threads|
    ensures HasSource(Do(s, e).threads[t], if e.BeginWrite? && e.t == t then e.src else src)
  {
    if e.Cancel? || e.t != t {
      OthersKeepPc(s, e, t);
      hide Do;
    } else if e.Advance? {
      AdvanceKeepsSource(s, t, src);
    }
  }

  lemma AdvanceKeepsSource(s: State, t: nat, src: Data)
    requires Enabled(s, Advance(t)) && HasSource(s.threads[t], src)
    ensures t < |Do(s, Advance(t)).threads| && HasSource(Do(s, Advance(t)).threads[t], src)
  {
    if InWrite(s.threads[t]) {
      assert HasSource(WriteStep(s, t).threads[t], src);
    } else if InSpawn(s.threads[t]) {
      assert HasSource(SpawnStep(s, t).threads[t], src);
    }
  }

  lemma {:induction false} SourceIsLastWrite(states: seq<State>, steps: seq<Step>, n: nat, t: nat)
    requires IsRun(states, steps) && n <= |steps| && t < |states[n].threads|
    ensures HasSource(states[n].threads[t], LastWrite(steps, n, t))
  {
    if n > 0 {
      var s, e := states[n - 1], steps[n - 1];
      assert Enabled(s, e) && states[n] == Do(s, e);
      hide Do, Enabled, HasSource, IsRun;
      SameThreads(s, e);
      SourceIsLastWrite(states, steps, n - 1, t);
      SourceKept(s, e, t, LastWrite(steps, n - 1, t));
    } else {
      assert states[0].threads[t].Idle?;
    }
  }

  lemma SameThreads(s: State, e: Step)
    requires Enabled(s, e)
    ensures |Do(s, e).threads| == |s.threads|
  {
    OthersKeepPc(s, e, if e.Cancel? then 0 else e.t + 1);
    hide Do;
  }

  lemma OthersAppendNothing(s: State, e: Step)
    requires Enabled(s, e) && !e.Append?
    ensures Do(s, e).appended == s.appended
  {
  }

  lemma {:induction false} AppendedIsWritten(states: seq<State>, steps: seq<Step>, n: nat)
    requires IsRun(states, steps) && n <= |steps|
    ensures states[n].appended == Written(steps, n)
  {
    if n > 0 {
      AppendedIsWritten(states, steps, n - 1);
      if steps[n - 1].Append? {
        SourceIsLastWrite(states, steps, n - 1, steps[n - 1].t);
      } else {
        OthersAppendNothing(states[n - 1], steps[n - 1]);
        hide Do, Enabled;
      }
    }
  }

  /** What was sent, what is in flight and what waits is exactly what the callers wrote, as far as memory went. */
  lemma SentIsWritten(states: seq<State>, steps: seq<Step>, n: nat)
    requires IsRun(states, steps) && n <= |steps|
    ensures var s := states[n]; s.sent + s.inflight + s.queue == Written(steps, n)
  {
    OneBlockInFlight(states, steps, n);
    AppendedIsWritten(states, steps, n);
    hide IsRun;
  }

  ghost predicate AllIdle(s: State) {
    forall t :: 0 <= t < |s.threads| ==> s.threads[t].Idle?
  }

  /** Memory runs out behind some bytes, for an append or for a writer, with no write under way. */
  predicate Starves(s: State, e: Step) {
    || (e.Append? && CutsOff(s, e.t, e.fits))
    || (e.Refuse? && Strands(s, e.t))
  }

  /** An append that runs out of memory, with bytes in the queue and no write under way. */
  predicate CutsOff(s: State, t: nat, fits: nat) {
    && t < |s.threads| && s.threads[t].WriteAppend? && fits < |s.threads[t].src|
    && (s.queue != [] || fits > 0) && !s.writing
  }

  /** A writer that is not made, with bytes in the queue, no write under way and no block just taken out. */
  predicate Strands(s: State, t: nat) {
    && t < |s.threads| && s.threads[t].SpawnEnter?
    && s.queue != [] && !s.writing && s.inflight == []
  }

  /** A step that takes bytes out of the queue. */
  predicate TakesOut(s: State, e: Step) {
    e.Advance? && e.t < |s.threads| && s.threads[e.t].SpawnExtract? && s.queue != []
  }

  /** The queue was starved, and nothing was taken out since. */
  ghost predicate StarvedBy(states: seq<State>, steps: seq<Step>, a: nat, n: nat)
    requires n <= |steps| < |states|
  {
    a < n && Starves(states[a], steps[a]) && forall j :: a < j < n ==> !TakesOut(states[j], steps[j])
  }

  ghost predicate WasStarved(states: seq<State>, steps: seq<Step>, n: nat)
    requires n <= |steps| < |states|
  {
    exists a: nat :: StarvedBy(states, steps, a, n)
  }

  /** A failed append has returned, or is about to. */
  predicate GivesUp(s: State, t: nat) {
    t < |s.threads| && s.threads[t].WriteCheck? && !s.threads[t].ok && s.queue != [] && !s.writing
  }

  ghost predicate Starving(s: State) {
    s.starved || exists t: nat :: GivesUp(s, t)
  }

  /** Only inside the mutex can a step touch the queue or the flag. */
  lemma OthersLeaveQueue(s: State, p: Place, e: Step, u: nat)
    requires Exclusive(s, p) && Enabled(s, e) && u < |s.threads| && Depth(s.threads[u]) > 0
    requires e.Cancel? || e.t != u
    ensures Do(s, e).queue == s.queue && Do(s, e).writing == s.writing && Do(s, e).threads[u] == s.threads[u]
    ensures !TakesOut(s, e) && !e.Append?
  {
    if !e.Cancel? && e.t < |s.threads| {
      OnlyOneInside(s, u, e.t);
    }
  }

  lemma StarvesThenGivesUp(s: State, e: Step)
    requires Enabled(s, e) && Starves(s, e)
    ensures Starving(Do(s, e))
  {
    assert e.Append? ==> GivesUp(Do(s, e), e.t);
  }

  /** Starving goes on until bytes are taken out. */
  lemma GoesOnStarving(s: State, p: Place, e: Step)
    requires Exclusive(s, p) && Awake(s) && Enabled(s, e) && Starving(s) && !TakesOut(s, e)
    ensures Starving(Do(s, e))
  {
    if s.starved {
      StaysStarved(s, p, e);
    } else {
      var u: nat :| GivesUp(s, u);
      if e.Cancel? || e.t != u {
        OthersLeaveQueue(s, p, e, u);
        assert GivesUp(Do(s, e), u);
      } else {
        assert e == Advance(u);
      }
    }
  }

  lemma StaysStarved(s: State, p: Place, e: Step)
    requires Exclusive(s, p) && Awake(s) && Enabled(s, e) && s.starved && !TakesOut(s, e)
    ensures Do(s, e).starved
  {
  }

  /** Starving begins when memory runs out, and ends when bytes are taken out. */
  lemma StarvingComesFrom(s: State, p: Place, e: Step)
    requires Exclusive(s, p) && Enabled(s, e) && Starving(Do(s, e))
    ensures Starves(s, e) || (Starving(s) && !TakesOut(s, e))
  {
    if Do(s, e).starved {
      StarvedComesFrom(s, p, e);
    } else {
      var u: nat :| GivesUp(Do(s, e), u);
      GivingUpComesFrom(s, p, e, u);
    }
  }

  lemma StarvedComesFrom(s: State, p: Place, e: Step)
    requires Exclusive(s, p) && Enabled(s, e) && Do(s, e).starved
    ensures Starves(s, e) || (Starving(s) && !TakesOut(s, e))
  {
    hide Exclusive;
    if !s.starved && !e.Refuse? {
      assert e.Advance? && s.threads[e.t].WriteCheck?;
      assert GivesUp(s, e.t);
    }
  }

  lemma GivingUpComesFrom(s: State, p: Place, e: Step, u: nat)
    requires Exclusive(s, p) && Enabled(s, e) && GivesUp(Do(s, e), u)
    ensures Starves(s, e) || (GivesUp(s, u) && !TakesOut(s, e))
  {
    if e.Cancel? || e.t != u {
      OthersKeepPc(s, e, u);
      hide Do;
      OthersLeaveQueue(s, p, e, u);
    } else {
      OwnStep(s, e);
    }
  }

  lemma OthersKeepPc(s: State, e: Step, u: nat)
    requires Enabled(s, e) && (e.Cancel? || e.t != u)
    ensures |Do(s, e).threads| == |s.threads| && (u < |s.threads| ==> Do(s, e).threads[u] == s.threads[u])
  {
    if e.Advance? {
      AdvanceMoves(s, e.t);
      hide WriteStep, SpawnStep, CompletionStep;
    }
  }

  lemma AdvanceMoves(s: State, t: nat)
    requires t < |s.threads|
    ensures InWrite(s.threads[t]) ==> Moved(s, WriteStep(s, t), t)
    ensures InSpawn(s.threads[t]) ==> Moved(s, SpawnStep(s, t), t)
    ensures InCompletion(s.threads[t]) ==> Moved(s, CompletionStep(s, t), t)
  {
  }

  /** The only step that leads to the end of a failed append is the append. */
  lemma OwnStep(s: State, e: Step)
    requires Enabled(s, e) && !e.Cancel? && GivesUp(Do(s, e), e.t)
    ensures Starves(s, e)
  {
  }

  /** What starves is exactly what was left behind for want of memory and nobody has taken out since. */
  lemma {:induction false} StarvingIff(states: seq<State>, steps: seq<Step>, n: nat)
    requires IsRun(states, steps) && n < |states|
    ensures Starving(states[n]) <==> WasStarved(states, steps, n)
  {
    if n > 0 {
      var m := n - 1;
      var s, e := states[m], steps[m];
      StarvingIff(states, steps, m);
      RunIsGood(states, steps, m);
      var p :| Exclusive(s, p);
      if WasStarved(states, steps, n) {
        var a: nat :| StarvedBy(states, steps, a, n);
        if a == m {
          StarvesThenGivesUp(s, e);
        } else {
          assert StarvedBy(states, steps, a, m);
          GoesOnStarving(s, p, e);
        }
      }
      if Starving(states[n]) {
        StarvingComesFrom(s, p, e);
        if Starves(s, e) {
          assert StarvedBy(states, steps, m, n);
        } else {
          var a: nat :| StarvedBy(states, steps, a, m);
          assert StarvedBy(states, steps, a, n);
        }
      }
    }
  }

  /**
   No wakeup is lost but for want of memory: when no thread is in the middle of a call, bytes wait
   without a write under way if and only if memory ran out behind them, for an append or for a writer,
   while no write was under way, and nothing was taken out since.
   */
  lemma NoLostWakeup(states: seq<State>, steps: seq<Step>, n: nat)
    requires IsRun(states, steps) && n < |states|
    requires AllIdle(states[n])
    ensures var s := states[n];
      && (s.queue != [] && !s.writing <==> WasStarved(states, steps, n))
      && (s.queue != [] && !WasStarved(states, steps, n) && !s.cancelled ==> s.kernel != [])
  {
    RunIsGood(states, steps, n);
    StarvingIff(states, steps, n);
    var p :| Exclusive(states[n], p);
    assert Starving(states[n]) <==> states[n].starved;
    hide WasStarved;
  }

  /** A run that ends in `s`. */
  ghost predicate Reaches(states: seq<State>, steps: seq<Step>, s: State) {
    IsRun(states, steps) && states[|steps|] == s
  }

  lemma RunMore(states: seq<State>, steps: seq<Step>, s: State, e: Step, r: State)
    returns (states': seq<State>, steps': seq<Step>)
    requires Reaches(states, steps, s) && Enabled(s, e) && Do(s, e) == r
    ensures Reaches(states', steps', r) && steps' == steps + [e]
  {
    states', steps' := states + [r], steps + [e];
  }

  /** The only thread takes its next step. */
  lemma Onward(states: seq<State>, steps: seq<Step>, s: State, e: Step)
    returns (states': seq<State>, steps': seq<Step>, r: State)
    requires Reaches(states, steps, s) && Enabled(s, e)
    ensures Reaches(states', steps', r) && steps' == steps + [e] && r == Do(s, e)
  {
    r := Do(s, e);
    states', steps' := RunMore(states, steps, s, e, r);
  }

  /** A write on the only thread, up to its append, for which memory suffices for `fits` bytes. */
  lemma Appends(states: seq<State>, steps: seq<Step>, s: State, src: Data, fits: nat)
    returns (states': seq<State>, steps': seq<Step>, r: State)
    requires Reaches(states, steps, s) && s.threads == [Idle] && s.owner == Nobody && s.depth == 0
    requires fits <= |src|
    ensures r == s.(queue := s.queue + src[..fits], appended := s.appended + src[..fits],
      owner := Thread(0), depth := 1, threads := [WriteCheck(fits == |src|, Home)])
    ensures Reaches(states', steps', r) && steps' == steps + [BeginWrite(0, src), Advance(0), Append(0, fits)]
  {
    hide Reaches;
    states', steps', r := Onward(states, steps, s, BeginWrite(0, src));
    states', steps', r := Onward(states', steps', r, Advance(0));
    states', steps', r := Onward(states', steps', r, Append(0, fits));
    assert r.threads == [WriteCheck(fits == |src|, Home)];
  }

  /** One thread, one write, memory for its first byte only: the byte waits, and nobody is going to write it. */
  lemma FailedAppendStrands() returns (states: seq<State>, steps: seq<Step>, s: State)
    ensures Reaches(states, steps, s)
    ensures steps == [BeginWrite(0, [7, 8]), Advance(0), Append(0, 1), Advance(0), Advance(0)]
    ensures AllIdle(s) && s.queue == [7] && !s.writing && !s.cancelled
  {
    assert Reaches([Initial(1)], [], Initial(1));
    hide Reaches;
    states, steps, s := Appends([Initial(1)], [], Initial(1), [7, 8], 1);
    states, steps, s := Onward(states, steps, s, Advance(0));
    states, steps, s := Onward(states, steps, s, Advance(0));
  }

  /** One thread, one write, memory for its byte but not for the writer: again the byte waits. */
  lemma RefusedWriterStrands() returns (states: seq<State>, steps: seq<Step>, s: State)
    ensures Reaches(states, steps, s)
    ensures steps == [BeginWrite(0, [7]), Advance(0), Append(0, 1), Advance(0), Refuse(0), Advance(0)]
    ensures AllIdle(s) && s.queue == [7] && !s.writing && !s.cancelled
  {
    assert Reaches([Initial(1)], [], Initial(1));
    hide Reaches;
    states, steps, s := Appends([Initial(1)], [], Initial(1), [7], 1);
    states, steps, s := Onward(states, steps, s, Advance(0));
    states, steps, s := Onward(states, steps, s, Refuse(0));
    states, steps, s := Onward(states, steps, s, Advance(0));
  }

  /** The only thread makes a writer, up to the block in the hands of the system, and returns. */
  lemma Writes(states: seq<State>, steps: seq<Step>, s: State, b: int)
    returns (states': seq<State>, steps': seq<Step>, r: State)
    requires Reaches(states, steps, s) && s.threads == [SpawnEnter(ByWrite(Home))] && s.owner == Thread(0)
    requires s.depth == 1 && !s.writing && s.queue == [b]
    ensures r.threads == [Idle] && r.owner == Nobody && r.depth == 0 && r.writing && r.queue == []
    ensures r.kernel == r.inflight == [b] && r.sent == s.sent && r.cancelled == s.cancelled
    ensures Reaches(states', steps', r)
  {
    hide Reaches;
    assert s.queue[..1] == [b] && s.queue[1..] == [];
    states', steps', r := Onward(states, steps, s, Advance(0));
    states', steps', r := Onward(states', steps', r, Advance(0));
    states', steps', r := Onward(states', steps', r, Advance(0));
    assert r.threads == [SpawnSet([b], ByWrite(Home))] && r.queue == [];
    states', steps', r := Onward(states', steps', r, Advance(0));
    states', steps', r := Onward(states', steps', r, Advance(0));
    states', steps', r := Onward(states', steps', r, Issue(0, true));
    states', steps', r := Onward(states', steps', r, Advance(0));
  }

  /** The only thread is told of the end of a write, and is about to make the next writer. */
  lemma Completes(states: seq<State>, steps: seq<Step>, s: State)
    returns (states': seq<State>, steps': seq<Step>, r: State)
    requires Reaches(states, steps, s) && s.threads == [Idle] && s.owner == Nobody && s.depth == 0 && s.kernel != []
    ensures r == s.(sent := s.sent + s.kernel, kernel := [], inflight := [], writing := false,
      threads := [SpawnEnter(ByCompletion)])
    ensures Reaches(states', steps', r)
  {
    hide Reaches;
    states', steps', r := Onward(states, steps, s, Complete(0, true));
    states', steps', r := Onward(states', steps', r, Advance(0));
    states', steps', r := Onward(states', steps', r, Advance(0));
    states', steps', r := Onward(states', steps', r, Advance(0));
    states', steps', r := Onward(states', steps', r, Advance(0));
    assert r.threads == [SpawnEnter(ByCompletion)];
  }

  /** The first block is written, and the writer for the byte that came meanwhile is not made: it waits. */
  lemma RefusedSuccessorStrands() returns (states: seq<State>, steps: seq<Step>, s: State)
    ensures Reaches(states, steps, s) && steps != [] && steps[|steps| - 1] == Refuse(0)
    ensures AllIdle(s) && s.sent == [7] && s.queue == [8] && !s.writing && !s.cancelled
  {
    assert Reaches([Initial(1)], [], Initial(1));
    hide Reaches;
    states, steps, s := Appends([Initial(1)], [], Initial(1), [7], 1);
    states, steps, s := Onward(states, steps, s, Advance(0));
    states, steps, s := Writes(states, steps, s, 7);
    states, steps, s := Appends(states, steps, s, [8], 1);
    states, steps, s := Onward(states, steps, s, Advance(0));
    states, steps, s := Onward(states, steps, s, Advance(0));
    states, steps, s := Completes(states, steps, s);
    states, steps, s := Onward(states, steps, s, Refuse(0));
  }

  /** A step that does not run out of memory: an append of all its bytes, or no refusal of a writer. */
  predicate FindsMemory(s: State, e: Step) {
    && (e.Append? && Enabled(s, e) ==> e.fits == |s.threads[e.t].src|)
    && !e.Refuse?
  }

  ghost predicate Fed(s: State) {
    !s.starved && forall t :: 0 <= t < |s.threads| && s.threads[t].WriteCheck? ==> s.threads[t].ok
  }

  lemma FedKept(s: State, e: Step)
    requires Fed(s) && Enabled(s, e) && FindsMemory(s, e)
    ensures Fed(Do(s, e))
  {
    if e.Advance? { AdvanceKeepsFed(s, e.t); }
  }

  lemma AdvanceKeepsFed(s: State, t: nat)
    requires Fed(s) && Enabled(s, Advance(t))
    ensures Fed(Do(s, Advance(t)))
  {
    if InWrite(s.threads[t]) {
      assert Fed(WriteStep(s, t));
    } else if InSpawn(s.threads[t]) {
      assert Fed(SpawnStep(s, t));
    }
  }

  /** As long as appends and writers find memory, nothing starves. */
  lemma {:induction false} NeverStarved(states: seq<State>, steps: seq<Step>, n: nat)
    requires IsRun(states, steps) && n < |states|
    requires forall i :: 0 <= i < |steps| ==> FindsMemory(states[i], steps[i])
    ensures Fed(states[n])
  {
    if n > 0 {
      NeverStarved(states, steps, n - 1);
      FedKept(states[n - 1], steps[n - 1]);
    }
  }

  /** The next step of a thread that is in the middle of a call. */
  function NextStep(s: State, t: nat): Step
    requires t < |s.threads|
  {
    if s.threads[t].WriteAppend? then Append(t, 0)
    else if s.threads[t].SpawnIssue? then Issue(t, true)
    else Advance(t)
  }

  /** The threads never block each other for good: while some call is under way, one of them can take its next step. */
  lemma NoDeadlock(states: seq<State>, steps: seq<Step>, n: nat) returns (t: nat)
    requires IsRun(states, steps) && n < |states|
    requires !AllIdle(states[n])
    ensures t < |states[n].threads| && !states[n].threads[t].Idle? && Enabled(states[n], NextStep(states[n], t))
  {
    RunIsGood(states, steps, n);
    var s := states[n];
    if s.owner.Thread? {
      t := s.owner.id;
    } else {
      t :| 0 <= t < |s.threads| && !s.threads[t].Idle?;
    }
  }
}
