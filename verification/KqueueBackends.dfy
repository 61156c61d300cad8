/** What the two back ends of the kqueue timing module have in common over every run, whatever the kernel
    refuses: one machine that mentions neither of them, which both refine. */
module KqueueBackends {
  import opened KqueuePeriod
  import opened KqueueProtocol
  import opened Options

  // ---------- The common machine ----------

  /** The period field, the rate timer as registered, whether the continuous event is registered, and the
      flag of the mode. */
  datatype Shared = Shared(period: nat, timer: Option<Knote>, signal: bool, continuous: bool)

  type SharedWorld = map<int, Shared>

  /** Operations with what the kernel decides where it is asked. */
  datatype SharedTimerOp =
    | DoSetRate(rate: nat, accepted: bool)
    | DoAck(quantity: nat, sampled: bool)
    | DoEnable(accepted: bool)
    | DoDisable
    | DoGetEvent
    | DoExpire(n: nat)

  datatype SharedOp =
    | DoOpen(handle: int, memory: bool, pipe: bool)
    | DoClose(handle: int)
    | DoOn(handle: int, op: SharedTimerOp)

  function SharedOnTimer(build: Build, c: Shared, op: SharedTimerOp): (Shared, Result, seq<Log>) {
    match op
    case DoSetRate(rate, accepted) =>
      if rate == 0 && c.period == 0 then (c, Status(0), [])
      else if rate == 0 then (c.(period := 0, timer := None), Status(0), LogIf(c.timer.None?, QueueError))
      else
        var period := ScaledPeriod(build, PeriodNs(rate));
        var knote := Knote(FinestUnit(build, PeriodNs(rate)), period, 0);
        (c.(period := period, timer := if accepted then Some(knote) else c.timer), Status(0),
         LogIf(!accepted, QueueError))
    case DoAck(quantity, sampled) =>
      if !sampled then (c, Status(-1), [SampleError])
      else if c.timer.None? then (c, Status(0), [])
      else (c.(timer := Some(c.timer.value.(fires := 0))), Status(0), MissedLog(c.timer.value.fires, quantity))
    case DoEnable(accepted) =>
      if c.continuous then (c, Status(0), [])
      else (c.(continuous := true, signal := accepted), Status(0), LogIf(!accepted, SignalError))
    case DoDisable =>
      if !c.continuous then (c, Status(0), [])
      else (c.(continuous := false, signal := false), Status(0), LogIf(!c.signal, ClearError))
    case DoGetEvent => (c, if c.continuous then Continuous else Expired, [])
    case DoExpire(n) =>
      (if c.timer.None? then c else c.(timer := Some(c.timer.value.(fires := c.timer.value.fires + n))), NoResult, [])
  }

  function SharedStep(build: Build, sw: SharedWorld, op: SharedOp): (SharedWorld, Result, seq<Log>) {
    match op
    case DoOpen(handle, memory, pipe) =>
      if !memory then (sw, Status(-1), [AllocError])
      else if handle < 0 then (sw, Status(-1), [CreateError])
      else if !pipe then (sw, Status(-1), [PipeError])
      else (sw[handle := Shared(0, None, false, false)], Status(handle), [])
    case DoClose(handle) => (sw - {handle}, NoResult, [])
    case DoOn(handle, top) =>
      if handle in sw then
        var (c, r, logs) := SharedOnTimer(build, sw[handle], top);
        (sw[handle := c], r, logs)
      else (sw, match top case DoGetEvent => Expired case DoExpire(_) => NoResult case _ => Status(-1), [])
  }

  // ---------- Each back end refines it ----------

  function Common(b: Backend, t: TimerState, q: Queue): Shared {
    Shared(t.period, if TimerKey(t) in q then Some(q[TimerKey(t)]) else None, ContinuousKey(b, t) in q, t.isContinuous)
  }

  function CommonWorld(b: Backend, w: World): SharedWorld {
    map h | h in w.slots :: Common(b, w.slots[h].t, w.slots[h].q)
  }

  /** An operation with the kernel's answers; an answer counts as favourable where the kernel is not
      asked for it. */
  function Decided(t: TimerState, op: TimerOp): SharedTimerOp {
    match op
    case SetRate(rate, addOk) => DoSetRate(rate, rate == 0 || addOk)
    case Ack(quantity, poll) => DoAck(quantity, poll.Delivers?)
    case Enable(addOk) => DoEnable(t.isContinuous || addOk)
    case Disable => DoDisable
    case GetEvent => DoGetEvent
    case Expire(n) => DoExpire(n)
  }

  /** For a handle that names no timer the kernel is asked for nothing. */
  function DecidedUnknown(op: TimerOp): SharedTimerOp {
    match op
    case SetRate(rate, _) => DoSetRate(rate, true)
    case Ack(quantity, poll) => DoAck(quantity, poll.Delivers?)
    case Enable(_) => DoEnable(true)
    case Disable => DoDisable
    case GetEvent => DoGetEvent
    case Expire(n) => DoExpire(n)
  }

  function Decision(env: Env, w: World, op: Op): SharedOp {
    match op
    case Open(handle, addr, pipe) =>
      DoOpen(handle, addr.Some?, addr.None? || handle < 0 || env.backend.UserEvent? || pipe.Some?)
    case Close(handle) => DoClose(handle)
    case On(handle, top) =>
      DoOn(handle, if handle in w.slots then Decided(w.slots[handle].t, top) else DecidedUnknown(top))
  }

  ghost predicate WorldSound(env: Env, w: World) {
    forall h :: h in w.slots ==>
      w.slots[h].t.handle == h && Sound(env.backend, w.slots[h].t, w.slots[h].q, w.eof)
  }

  lemma RateIsShared(env: Env, t: TimerState, q: Queue, eof: set<int>, rate: nat, addOk: bool)
    requires Sound(env.backend, t, q, eof)
    ensures StepIsShared(env, t, q, eof, SetRate(rate, addOk))
  {
    var period := if rate == 0 then 0 else ScaledPeriod(env.build, PeriodNs(rate));
    var units := if rate == 0 then Default else FinestUnit(env.build, PeriodNs(rate));
    SingleChange(q, Change(TimerKey(t), if rate == 0 then Delete else AddEnable, units, period), addOk, eof);
  }

  lemma AckIsShared(env: Env, t: TimerState, q: Queue, eof: set<int>, quantity: nat, batch: seq<Event>)
    requires Sound(env.backend, t, q, eof) && MayDeliver(q, batch, 2)
    ensures StepIsShared(env, t, q, eof, Ack(quantity, Delivers(batch)))
  {
    AckEffect(env, t, q, eof, quantity, batch);
  }

  ghost predicate StepIsShared(env: Env, t: TimerState, q: Queue, eof: set<int>, op: TimerOp) {
    var r := OnTimer(env, t, q, eof, op);
    && Sound(env.backend, r.slot.t, r.slot.q, eof) && r.slot.t.handle == t.handle
    && (Common(env.backend, r.slot.t, r.slot.q), r.result, r.logs) ==
       SharedOnTimer(env.build, Common(env.backend, t, q), Decided(t, op))
  }

  /** Every operation on a sound timer leaves it sound and is that of the common machine, whatever the
      kernel answers. */
  lemma StepRefinesShared(env: Env, t: TimerState, q: Queue, eof: set<int>, op: TimerOp)
    requires Sound(env.backend, t, q, eof)
    requires op.Ack? && op.poll.Delivers? ==> MayDeliver(q, op.poll.batch, 2)
    ensures StepIsShared(env, t, q, eof, op)
  {
    match op
    case SetRate(rate, addOk) => RateIsShared(env, t, q, eof, rate, addOk);
    case Enable(addOk) => EnableRegisters(env.backend, t, q, addOk, eof);
    case Disable => SingleChange(q, DisableChanges(env.backend, t)[0], true, eof);
    case Ack(quantity, Delivers(batch)) => AckIsShared(env, t, q, eof, quantity, batch);
    case _ =>
  }

  lemma WorldStepRefinesShared(env: Env, w: World, op: Op)
    requires WorldSound(env, w) && Feasible(w, op)
    ensures WorldSound(env, Step(env, w, op).w)
    ensures var r, c := Step(env, w, op), SharedStep(env.build, CommonWorld(env.backend, w), Decision(env, w, op));
            CommonWorld(env.backend, r.w) == c.0 && r.result == c.1 && r.logs == c.2
  {
    var r, c := Step(env, w, op), SharedStep(env.build, CommonWorld(env.backend, w), Decision(env, w, op));
    if op.On? && op.handle in w.slots {
      var h, slot := op.handle, w.slots[op.handle];
      StepRefinesShared(env, slot.t, slot.q, w.eof, op.op);
      assert r.w.slots[h] == OnTimer(env, slot.t, slot.q, w.eof, op.op).slot;
      assert forall k :: k in w.slots && k != h ==> r.w.slots[k] == w.slots[k];
    }
    assert CommonWorld(env.backend, r.w) == c.0;
  }

  // ---------- Runs ----------

  function SharedRun(build: Build, ops: seq<SharedOp>): SharedWorld {
    if ops == [] then map[] else SharedStep(build, SharedRun(build, ops[..|ops| - 1]), ops[|ops| - 1]).0
  }

  /** The i-th operation of a run with what the kernel decides where it is asked. */
  ghost function DecisionAt(env: Env, ops: seq<Op>, i: nat): SharedOp
    requires i < |ops|
  {
    Decision(env, Run(env, ops[..i]), ops[i])
  }

  ghost function Decisions(env: Env, ops: seq<Op>, n: nat): (ds: seq<SharedOp>)
    requires n <= |ops|
    ensures |ds| == n && forall i :: 0 <= i < n ==> ds[i] == DecisionAt(env, ops, i)
  {
    if n == 0 then [] else Decisions(env, ops, n - 1) + [DecisionAt(env, ops, n - 1)]
  }

  /** After every run that is possible at all, every timer is sound and the module is the common machine. */
  lemma {:induction false} RunRefinesShared(env: Env, ops: seq<Op>, n: nat)
    requires FeasibleRun(env, ops) && n <= |ops|
    ensures WorldSound(env, Run(env, ops[..n]))
    ensures CommonWorld(env.backend, Run(env, ops[..n])) == SharedRun(env.build, Decisions(env, ops, n))
  {
    if n == 0 {
      assert CommonWorld(env.backend, EMPTY) == map[];
    } else {
      var k := n - 1;
      RunRefinesShared(env, ops, k);
      RunSnoc(env, ops, k);
      WorldStepRefinesShared(env, Run(env, ops[..k]), ops[k]);
      assert Decisions(env, ops, n)[..k] == Decisions(env, ops, k);
    }
  }

  /** Every answer of such a run is that of the common machine. */
  lemma AnswersAreShared(env: Env, ops: seq<Op>, i: nat)
    requires FeasibleRun(env, ops) && i < |ops|
    ensures var r, sw := OutcomeAt(env, ops, i), SharedRun(env.build, Decisions(env, ops, i));
            var c := SharedStep(env.build, sw, DecisionAt(env, ops, i));
            r.result == c.1 && r.logs == c.2
  {
    RunRefinesShared(env, ops, i);
    WorldStepRefinesShared(env, Run(env, ops[..i]), ops[i]);
  }

  /** No event is ever spurious, whatever the kernel has refused. */
  lemma NothingIsSpurious(env: Env, ops: seq<Op>, i: nat)
    requires FeasibleRun(env, ops) && i < |ops|
    ensures forall l :: l in OutcomeAt(env, ops, i).logs ==> !l.SpuriousUser? && !l.SpuriousType?
  {
    AnswersAreShared(env, ops, i);
    SharedNeverSpurious(env.build, SharedRun(env.build, Decisions(env, ops, i)), DecisionAt(env, ops, i));
  }

  lemma SharedNeverSpurious(build: Build, sw: SharedWorld, op: SharedOp)
    ensures forall l :: l in SharedStep(build, sw, op).2 ==> !l.SpuriousUser? && !l.SpuriousType?
  {
  }

  /** The descriptor is readable exactly when the rate timer has fired or the continuous event is
      registered. */
  lemma SharedReadableIff(b: Backend, t: TimerState, q: Queue, eof: set<int>)
    requires Sound(b, t, q, eof)
    ensures var c := Common(b, t, q);
            Readable(q) <==> (c.timer.Some? && c.timer.value.fires > 0) || c.signal
  {
    if Readable(q) {
      var k :| k in q && q[k].fires > 0;
      assert k in q.Keys;
    }
    if ContinuousKey(b, t) in q {
      assert q[ContinuousKey(b, t)].fires > 0;
    } else if TimerKey(t) in q && q[TimerKey(t)].fires > 0 {
      assert Readable(q);
    }
  }

  ghost predicate SameDecisions(build: Build, userRun: seq<Op>, pipeRun: seq<Op>) {
    && |userRun| == |pipeRun|
    && forall i :: 0 <= i < |userRun| ==>
         DecisionAt(Env(UserEvent, build), userRun, i) == DecisionAt(Env(ClosedPipe, build), pipeRun, i)
  }

  /** The two back ends cannot be told apart: runs of the same requests, with the same answers where the
      kernel is asked for one, give the same results, messages and readiness, whatever the kernel refuses
      and whichever rates it accepts. */
  lemma BackendsAgree(build: Build, userRun: seq<Op>, pipeRun: seq<Op>)
    requires FeasibleRun(Env(UserEvent, build), userRun) && FeasibleRun(Env(ClosedPipe, build), pipeRun)
    requires SameDecisions(build, userRun, pipeRun)
    ensures var u, p := Env(UserEvent, build), Env(ClosedPipe, build);
            && (forall i :: 0 <= i < |userRun| ==>
                  OutcomeAt(u, userRun, i).result == OutcomeAt(p, pipeRun, i).result &&
                  OutcomeAt(u, userRun, i).logs == OutcomeAt(p, pipeRun, i).logs)
            && Run(u, userRun).slots.Keys == Run(p, pipeRun).slots.Keys
            && forall h :: h in Run(u, userRun).slots ==>
                 (Readable(Run(u, userRun).slots[h].q) <==> Readable(Run(p, pipeRun).slots[h].q))
  {
    var u, p, n := Env(UserEvent, build), Env(ClosedPipe, build), |userRun|;
    forall i | 0 <= i < n
      ensures OutcomeAt(u, userRun, i).result == OutcomeAt(p, pipeRun, i).result
      ensures OutcomeAt(u, userRun, i).logs == OutcomeAt(p, pipeRun, i).logs
    {
      assert Decisions(u, userRun, i) == Decisions(p, pipeRun, i);
      AnswersAreShared(u, userRun, i);
      AnswersAreShared(p, pipeRun, i);
    }
    assert Decisions(u, userRun, n) == Decisions(p, pipeRun, n);
    assert userRun[..n] == userRun && pipeRun[..n] == pipeRun;
    RunRefinesShared(u, userRun, n);
    RunRefinesShared(p, pipeRun, n);
    SameReadiness(u, Run(u, userRun), p, Run(p, pipeRun));
  }

  lemma SameReadiness(u: Env, wu: World, p: Env, wp: World)
    requires WorldSound(u, wu) && WorldSound(p, wp) && CommonWorld(u.backend, wu) == CommonWorld(p.backend, wp)
    ensures wu.slots.Keys == wp.slots.Keys
    ensures forall h :: h in wu.slots ==> (Readable(wu.slots[h].q) <==> Readable(wp.slots[h].q))
  {
    assert CommonWorld(u.backend, wu).Keys == wu.slots.Keys && CommonWorld(p.backend, wp).Keys == wp.slots.Keys;
    forall h | h in wu.slots
      ensures Readable(wu.slots[h].q) <==> Readable(wp.slots[h].q)
    {
      SharedReadableIff(u.backend, wu.slots[h].t, wu.slots[h].q, wu.eof);
      SharedReadableIff(p.backend, wp.slots[h].t, wp.slots[h].q, wp.eof);
      assert CommonWorld(u.backend, wu)[h] == CommonWorld(p.backend, wp)[h];
    }
  }

  /** The same request, and the same answers of the kernel but for descriptors, addresses and the events in
      a list; the pipe back end, which alone needs a pipe, gets one. */
  predicate SameAnswers(userOp: Op, pipeOp: Op) {
    match (userOp, pipeOp)
    case (Open(h, addr, _), Open(h', addr', pipe')) =>
      h == h' && addr.Some? == addr'.Some? && (addr.None? || h < 0 || pipe'.Some?)
    case (Close(h), Close(h')) => h == h'
    case (On(h, Ack(quantity, poll)), On(h', Ack(quantity', poll'))) =>
      h == h' && quantity == quantity' && poll.Delivers? == poll'.Delivers?
    case (On(h, op), On(h', op')) => h == h' && !op.Ack? && op == op'
    case _ => false
  }

  predicate SameAnswersTo(userRun: seq<Op>, pipeRun: seq<Op>, n: nat)
    requires n <= |userRun| && n <= |pipeRun|
  {
    forall i :: 0 <= i < n ==> SameAnswers(userRun[i], pipeRun[i])
  }

  /** In particular runs in which the kernel gives the same answers, asked or not. */
  lemma SameAnswersDecideAlike(build: Build, userRun: seq<Op>, pipeRun: seq<Op>)
    requires FeasibleRun(Env(UserEvent, build), userRun) && FeasibleRun(Env(ClosedPipe, build), pipeRun)
    requires |userRun| == |pipeRun| && SameAnswersTo(userRun, pipeRun, |userRun|)
    ensures SameDecisions(build, userRun, pipeRun)
  {
    var u, p := Env(UserEvent, build), Env(ClosedPipe, build);
    forall i | 0 <= i < |userRun|
      ensures DecisionAt(u, userRun, i) == DecisionAt(p, pipeRun, i)
    {
      AlikeBefore(build, userRun, pipeRun, i);
      AlikeNext(build, userRun, pipeRun, i);
    }
  }

  lemma {:induction false} AlikeBefore(build: Build, userRun: seq<Op>, pipeRun: seq<Op>, n: nat)
    requires FeasibleRun(Env(UserEvent, build), userRun) && FeasibleRun(Env(ClosedPipe, build), pipeRun)
    requires n <= |userRun| == |pipeRun| && SameAnswersTo(userRun, pipeRun, n)
    ensures Decisions(Env(UserEvent, build), userRun, n) == Decisions(Env(ClosedPipe, build), pipeRun, n)
  {
    if n > 0 {
      AlikeBefore(build, userRun, pipeRun, n - 1);
      AlikeNext(build, userRun, pipeRun, n - 1);
    }
  }

  lemma AlikeNext(build: Build, userRun: seq<Op>, pipeRun: seq<Op>, k: nat)
    requires FeasibleRun(Env(UserEvent, build), userRun) && FeasibleRun(Env(ClosedPipe, build), pipeRun)
    requires k < |userRun| == |pipeRun| && SameAnswers(userRun[k], pipeRun[k])
    requires Decisions(Env(UserEvent, build), userRun, k) == Decisions(Env(ClosedPipe, build), pipeRun, k)
    ensures DecisionAt(Env(UserEvent, build), userRun, k) == DecisionAt(Env(ClosedPipe, build), pipeRun, k)
  {
    var u, p := Env(UserEvent, build), Env(ClosedPipe, build);
    RunRefinesShared(u, userRun, k);
    RunRefinesShared(p, pipeRun, k);
    AlikeStep(build, Run(u, userRun[..k]), Run(p, pipeRun[..k]), userRun[k], pipeRun[k]);
  }

  lemma AlikeStep(build: Build, wu: World, wp: World, userOp: Op, pipeOp: Op)
    requires CommonWorld(UserEvent, wu) == CommonWorld(ClosedPipe, wp) && SameAnswers(userOp, pipeOp)
    ensures Decision(Env(UserEvent, build), wu, userOp) == Decision(Env(ClosedPipe, build), wp, pipeOp)
  {
    assert CommonWorld(UserEvent, wu).Keys == wu.slots.Keys && CommonWorld(ClosedPipe, wp).Keys == wp.slots.Keys;
    if userOp.On? && userOp.handle in wu.slots {
      assert CommonWorld(UserEvent, wu)[userOp.handle] == CommonWorld(ClosedPipe, wp)[userOp.handle];
    }
  }

  /** And good runs that differ only in the kernel's private answers (descriptors, addresses,
      the order of events). */
  lemma GoodRunsDecideAlike(build: Build, userRun: seq<Op>, pipeRun: seq<Op>)
    requires EraseRun(userRun) == EraseRun(pipeRun)
    requires GoodRun(Env(UserEvent, build), userRun) && GoodRun(Env(ClosedPipe, build), pipeRun)
    ensures SameDecisions(build, userRun, pipeRun)
  {
    var u, p := Env(UserEvent, build), Env(ClosedPipe, build);
    assert |userRun| == |EraseRun(userRun)| == |pipeRun|;
    forall i | 0 <= i < |userRun|
      ensures DecisionAt(u, userRun, i) == DecisionAt(p, pipeRun, i)
    {
      assert Erase(userRun[i]) == EraseRun(userRun)[i] == EraseRun(pipeRun)[i] == Erase(pipeRun[i]);
      GoodDecision(u, Run(u, userRun[..i]), userRun[i]);
      GoodDecision(p, Run(p, pipeRun[..i]), pipeRun[i]);
    }
  }

  /** What a cooperative kernel decides can be read from the operation alone. */
  function Favourable(op: AbsTimerOp): SharedTimerOp {
    match op
    case AbsSetRate(rate) => DoSetRate(rate, true)
    case AbsAck(quantity, sampled) => DoAck(quantity, sampled)
    case AbsEnable => DoEnable(true)
    case AbsDisable => DoDisable
    case AbsGetEvent => DoGetEvent
    case AbsExpire(n) => DoExpire(n)
  }

  lemma GoodDecision(env: Env, w: World, op: Op)
    requires Cooperative(env, w, op)
    ensures Decision(env, w, op) ==
            match Erase(op)
            case AbsOpen(handle) => DoOpen(handle, true, true)
            case AbsClose(handle) => DoClose(handle)
            case AbsOn(handle, top) => DoOn(handle, Favourable(top))
  {
  }
}
