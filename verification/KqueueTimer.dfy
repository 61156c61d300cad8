/** The kqueue timing module as it runs: timers are reference-counted objects in a container, and
    every operation looks one up, updates its fields and changes its kernel queue. Each method is
    proved to take the step that KqueueProtocol describes. */
module KqueueTimer {
  import opened KqueuePeriod
  import P = KqueueProtocol
  import opened KqueueProtocol
  import KqueueBackends
  import opened Options

  class Timer {
    const handle: int
    const addr: int
    var period: nat
    var continuousFd: int
    var continuousFdValid: bool
    var isContinuous: bool
    var refs: int
    // The kernel's event queue behind `handle`.
    var queue: Queue

    constructor (handle: int, addr: int)
      ensures State() == Slot(TimerState(handle, addr, 0, 0, false, false, 1), map[])
    {
      this.handle, this.addr, period := handle, addr, 0;
      continuousFd, continuousFdValid, isContinuous := 0, false, false;
      refs, queue := 1, map[];
    }

    function State(): Slot
      reads this
    {
      Slot(TimerState(handle, addr, period, continuousFd, continuousFdValid, isContinuous, refs), queue)
    }

    /** The state as it is while nobody but the container refers to the timer. */
    function Unreferenced(): Slot
      reads this
    {
      State().(t := State().t.(refs := 1))
    }

    /** kevent with a change list */
    method Kevent(changes: seq<Change>, addOk: bool, eof: set<int>) returns (rc: int)
      modifies this`queue
      ensures (queue, rc) == ApplyChanges(old(queue), changes, addOk, eof)
    {
      var (q, r) := ApplyChanges(queue, changes, addOk, eof);
      queue, rc := q, r;
    }

    /** The kernel's side of reading an event list: timer counts start over. */
    method Consume(batch: seq<Event>)
      modifies this`queue
      ensures queue == Consumed(old(queue), batch)
    {
      assert Consumed(queue, batch[..0]) == queue;
      var i := 0;
      while i < |batch|
        invariant 0 <= i <= |batch|
        invariant queue == Consumed(old(queue), batch[..i])
      {
        var k := batch[i].key;
        ConsumedSnoc(old(queue), batch, i);
        if k in queue && k.filter == TimerFilter {
          queue := queue[k := queue[k].(fires := 0)];
        }
        i := i + 1;
      }
      assert batch[..i] == batch;
    }

    /** The kernel's side of time passing: a registered timer event fires n times. */
    method Fire(n: nat, ghost env: Env, ghost eof: set<int>)
      modifies this`queue
      ensures TimerOutcome(Unreferenced(), NoResult, []) ==
              OnTimer(env, old(Unreferenced()).t, old(queue), eof, P.Expire(n))
    {
      var k := Key(handle, TimerFilter);
      if k in queue {
        queue := queue[k := queue[k].(fires := queue[k].fires + n)];
      }
    }

    /** kqueue_timer_set_rate, on the timer found */
    method ChangeRate(env: Env, rate: nat, addOk: bool, eof: set<int>) returns (res: Result, logs: seq<Log>)
      modifies this`queue, this`period
      ensures TimerOutcome(Unreferenced(), res, logs) ==
              OnTimer(env, old(Unreferenced()).t, old(queue), eof, P.SetRate(rate, addOk))
    {
      var flags, units := Delete, Default;
      if rate == 0 {
        if period == 0 {
          return Status(0), [];
        }
        period := 0;
      } else {
        flags := AddEnable;
        var periodNs := PeriodNs(rate);
        var scaled;
        scaled, units := ScalePeriod(env.build, periodNs);
        period := scaled;
      }
      var rc := Kevent([Change(Key(handle, TimerFilter), flags, units, period)], addOk, eof);
      logs := [];
      if rc == -1 {
        logs := logs + [QueueError];
      }
      res := Status(0);
    }

    /** kqueue_timer_ack, on the timer found, with what kevent hands back for an event list of two */
    method Sample(env: Env, quantity: nat, poll: Poll, ghost eof: set<int>) returns (res: Result, logs: seq<Log>)
      requires poll.Delivers? ==> MayDeliver(queue, poll.batch, 2)
      modifies this`queue
      ensures TimerOutcome(Unreferenced(), res, logs) ==
              OnTimer(env, old(Unreferenced()).t, old(queue), eof, P.Ack(quantity, poll))
    {
      if poll.PollFails? {
        return Status(-1), [SampleError];
      }
      var kev := poll.batch;
      Consume(kev);
      logs := [];
      var i := 0;
      while i < |kev|
        invariant 0 <= i <= |kev|
        invariant logs == AckLogs(ContinuousFilter(env.backend), isContinuous, kev[..i], quantity)
      {
        var filter := kev[i].key.filter;
        if filter == TimerFilter {
          if kev[i].data > quantity {
            logs := logs + [Missed(kev[i].data - quantity)];
          }
        } else if filter == ContinuousFilter(env.backend) {
          if !isContinuous {
            logs := logs + [SpuriousUser];
          }
        } else {
          logs := logs + [SpuriousType];
        }
        assert kev[..i + 1][..i] == kev[..i] && kev[..i + 1][i] == kev[i];
        i := i + 1;
      }
      assert kev[..i] == kev;
      res := Status(0);
    }

    /** kqueue_timer_enable_continuous, on the timer found */
    method TurnOn(env: Env, addOk: bool, eof: set<int>) returns (res: Result, logs: seq<Log>)
      modifies this`queue, this`isContinuous
      ensures TimerOutcome(Unreferenced(), res, logs) ==
              OnTimer(env, old(Unreferenced()).t, old(queue), eof, P.Enable(addOk))
    {
      logs := [];
      if !isContinuous {
        var rc := Kevent(EnableChanges(env.backend, State().t), addOk, eof);
        if rc == -1 {
          logs := logs + [SignalError];
        }
        isContinuous := true;
      }
      res := Status(0);
    }

    /** kqueue_timer_disable_continuous, on the timer found */
    method TurnOff(env: Env, eof: set<int>) returns (res: Result, logs: seq<Log>)
      modifies this`queue, this`isContinuous
      ensures TimerOutcome(Unreferenced(), res, logs) ==
              OnTimer(env, old(Unreferenced()).t, old(queue), eof, P.Disable)
    {
      logs := [];
      if isContinuous {
        var rc := Kevent(DisableChanges(env.backend, State().t), true, eof);
        if rc == -1 {
          logs := logs + [ClearError];
        }
        isContinuous := false;
      }
      res := Status(0);
    }
  }

  class TimingModule {
    const env: Env
    var timers: map<int, Timer>
    // Open write ends of pipes, with the read end each one feeds; read ends at end of file.
    var writers: map<int, int>
    var eof: set<int>
    // The fields and the queue of every timer in the container.
    ghost var slots: map<int, Slot>

    constructor (env: Env)
      ensures Valid() && View() == EMPTY && this.env == env && timers == map[]
    {
      this.env := env;
      timers, writers, eof, slots := map[], map[], {}, map[];
    }

    /** Between operations: each timer is filed under its handle and referenced by the container
        alone, and `slots` says what it holds. */
    ghost predicate Valid()
      reads this, timers.Values
    {
      && timers.Keys == slots.Keys
      && forall h :: h in timers ==> timers[h].handle == h && timers[h].refs == 1 && timers[h].State() == slots[h]
    }

    ghost function View(): World
      reads this
    {
      World(slots, eof)
    }

    method InitContinuousEvent(timer: Timer, pipe: Option<(int, int)>) returns (rc: int)
      modifies this`writers, this`eof, timer`continuousFd, timer`continuousFdValid
      ensures rc == if env.backend.UserEvent? || pipe.Some? then 0 else -1
      ensures if env.backend.ClosedPipe? && pipe.Some? then
                timer.continuousFd == pipe.value.0 && timer.continuousFdValid && eof == old(eof) + {pipe.value.0}
              else
                timer.State() == old(timer.State()) && eof == old(eof)
    {
      if env.backend.UserEvent? {
        return 0;
      }
      if pipe.None? {
        return -1;
      }
      var (readEnd, writeEnd) := pipe.value;
      writers := writers[writeEnd := readEnd];
      timer.continuousFd := readEnd;
      timer.continuousFdValid := true;
      CloseWriter(writeEnd);
      return 0;
    }

    /** close on the write end of a pipe: the read end is at end of file from now on. */
    method CloseWriter(fd: int)
      requires fd in writers
      modifies this`writers, this`eof
      ensures eof == old(eof) + {old(writers)[fd]} && writers == old(writers) - {fd}
    {
      eof := eof + {writers[fd]};
      writers := writers - {fd};
    }

    /** kqueue_timer_open. The address of the structure, the new handle and the pipe come from the
        system; no memory, a negative handle or no pipe is a failure. */
    method Open(handle: int, addr: Option<int>, pipe: Option<(int, int)>) returns (res: Result, logs: seq<Log>)
      requires Valid() && handle !in timers
      modifies this
      ensures Valid() && fresh(timers.Values - old(timers.Values))
      ensures Outcome(View(), res, logs) == OpenStep(env, old(View()), handle, addr, pipe)
    {
      if addr.None? {
        return Status(-1), [AllocError];
      }
      var timer := new Timer(handle, addr.value);
      if handle < 0 {
        timer.refs := timer.refs - 1;
        return Status(-1), [CreateError];
      }
      var rc := InitContinuousEvent(timer, pipe);
      if rc != 0 {
        timer.refs := timer.refs - 1;
        return Status(-1), [PipeError];
      }
      Link(timer);
      timer.refs := timer.refs - 1;
      slots := slots[handle := timer.State()];
      return Status(handle), [];
    }

    /** ao2_link: the container takes a reference of its own. */
    method Link(timer: Timer)
      modifies this`timers, timer`refs
      ensures timers == old(timers)[timer.handle := timer] && timer.refs == old(timer.refs) + 1
    {
      timers := timers[timer.handle := timer];
      timer.refs := timer.refs + 1;
    }

    /** kqueue_timer_close: the container's reference and the one just taken both go, so the timer is
        destroyed, and its queue with it. */
    method Close(handle: int)
      requires Valid()
      modifies this, timers.Values
      ensures Valid() && timers == old(timers) - {handle}
      ensures View() == CloseStep(old(View()), handle)
      ensures handle in old(timers) ==> old(timers)[handle].refs == 0
    {
      if handle !in timers {
        assert slots - {handle} == slots && timers - {handle} == timers;
        return;
      }
      var timer := timers[handle];
      timer.refs := timer.refs + 1;
      timers := timers - {handle};
      timer.refs := timer.refs - 1;
      timer.refs := timer.refs - 1;
      slots := slots - {handle};
    }

    /** While an operation holds a reference to a timer: nothing is said of its fields. */
    ghost predicate InUse(handle: int)
      reads this, timers.Values
    {
      && timers.Keys == slots.Keys && handle in timers
      && timers[handle].handle == handle && timers[handle].refs == 2
      && forall h :: h in timers && h != handle ==>
           timers[h].handle == h && timers[h].refs == 1 && timers[h].State() == slots[h]
    }

    /** The reference that looking a timer up takes */
    method Take(timer: Timer)
      requires Valid() && timer.handle in timers && timers[timer.handle] == timer
      modifies timer`refs
      ensures InUse(timer.handle) && timer.Unreferenced() == slots[timer.handle]
    {
      timer.refs := timer.refs + 1;
    }

    /** ao2_ref with -1, on the timer looked up */
    method Release(timer: Timer)
      requires InUse(timer.handle) && timers[timer.handle] == timer
      modifies this`slots, timer`refs
      ensures Valid() && slots == old(slots)[timer.handle := old(timer.Unreferenced())]
    {
      timer.refs := timer.refs - 1;
      slots := slots[timer.handle := timer.State()];
    }

    /** kqueue_timer_set_rate */
    method SetRate(handle: int, rate: nat, addOk: bool) returns (res: Result, logs: seq<Log>)
      requires Valid()
      modifies this, timers.Values
      ensures Valid() && timers == old(timers)
      ensures Outcome(View(), res, logs) == TimerStep(env, old(View()), handle, P.SetRate(rate, addOk))
    {
      if handle !in timers {
        return Status(-1), [];
      }
      var timer := timers[handle];
      Take(timer);
      res, logs := timer.ChangeRate(env, rate, addOk, eof);
      Release(timer);
    }

    /** kqueue_timer_ack */
    method Ack(handle: int, quantity: nat, poll: Poll) returns (res: Result, logs: seq<Log>)
      requires Valid()
      requires handle in timers && poll.Delivers? ==> MayDeliver(timers[handle].queue, poll.batch, 2)
      modifies this, timers.Values
      ensures Valid() && timers == old(timers)
      ensures Outcome(View(), res, logs) == TimerStep(env, old(View()), handle, P.Ack(quantity, poll))
    {
      if handle !in timers {
        return Status(-1), [];
      }
      var timer := timers[handle];
      Take(timer);
      res, logs := timer.Sample(env, quantity, poll, eof);
      Release(timer);
    }

    /** kqueue_timer_enable_continuous */
    method EnableContinuous(handle: int, addOk: bool) returns (res: Result, logs: seq<Log>)
      requires Valid()
      modifies this, timers.Values
      ensures Valid() && timers == old(timers)
      ensures Outcome(View(), res, logs) == TimerStep(env, old(View()), handle, P.Enable(addOk))
    {
      if handle !in timers {
        return Status(-1), [];
      }
      var timer := timers[handle];
      Take(timer);
      res, logs := timer.TurnOn(env, addOk, eof);
      Release(timer);
    }

    /** kqueue_timer_disable_continuous */
    method DisableContinuous(handle: int) returns (res: Result, logs: seq<Log>)
      requires Valid()
      modifies this, timers.Values
      ensures Valid() && timers == old(timers)
      ensures Outcome(View(), res, logs) == TimerStep(env, old(View()), handle, P.Disable)
    {
      if handle !in timers {
        return Status(-1), [];
      }
      var timer := timers[handle];
      Take(timer);
      res, logs := timer.TurnOff(env, eof);
      Release(timer);
    }

    /** Time passes for one timer. */
    method Expire(handle: int, n: nat)
      requires Valid()
      modifies this, timers.Values
      ensures Valid() && timers == old(timers)
      ensures Outcome(View(), NoResult, []) == TimerStep(env, old(View()), handle, P.Expire(n))
    {
      if handle in timers {
        var timer := timers[handle];
        timer.Fire(n, env, eof);
        slots := slots[handle := timer.State()];
      }
    }

    /** kqueue_timer_get_event */
    method GetEvent(handle: int) returns (res: Result)
      requires Valid()
      modifies this, timers.Values
      ensures Valid() && View() == old(View()) && timers == old(timers)
      ensures res == TimerStep(env, old(View()), handle, P.GetEvent).result
    {
      if handle !in timers {
        return Expired;
      }
      var timer := timers[handle];
      Take(timer);
      if timer.isContinuous {
        res := Continuous;
      } else {
        res := Expired;
      }
      Release(timer);
    }
  }

  // ---------- Runs ----------

  /** One operation, with the kernel's answers; Expire is the kernel's own. */
  method Perform(m: TimingModule, op: Op) returns (res: Result, logs: seq<Log>)
    requires m.Valid() && Feasible(m.View(), op)
    modifies m, m.timers.Values
    ensures m.Valid() && fresh(m.timers.Values - old(m.timers.Values))
    ensures Outcome(m.View(), res, logs) == Step(m.env, old(m.View()), op)
  {
    logs := [];
    match op
    case Open(handle, addr, pipe) =>
      res, logs := m.Open(handle, addr, pipe);
    case Close(handle) =>
      m.Close(handle);
      res := NoResult;
    case On(handle, SetRate(rate, addOk)) =>
      res, logs := m.SetRate(handle, rate, addOk);
    case On(handle, Ack(quantity, poll)) =>
      res, logs := m.Ack(handle, quantity, poll);
    case On(handle, Enable(addOk)) =>
      res, logs := m.EnableContinuous(handle, addOk);
    case On(handle, Disable) =>
      res, logs := m.DisableContinuous(handle);
    case On(handle, GetEvent) =>
      res := m.GetEvent(handle);
    case On(handle, Expire(n)) =>
      m.Expire(handle, n);
      res := NoResult;
  }

  ghost function AnswerAt(env: Env, ops: seq<Op>, i: nat): (Result, seq<Log>)
    requires i < |ops|
  {
    var r := OutcomeAt(env, ops, i);
    (r.result, r.logs)
  }

  method PerformNext(m: TimingModule, ops: seq<Op>, i: nat) returns (answer: (Result, seq<Log>))
    requires i < |ops| && FeasibleRun(m.env, ops) && m.Valid() && m.View() == Run(m.env, ops[..i])
    modifies m, m.timers.Values
    ensures m.Valid() && fresh(m.timers.Values - old(m.timers.Values))
    ensures m.View() == Run(m.env, ops[..i + 1]) && answer == AnswerAt(m.env, ops, i)
  {
    RunSnoc(m.env, ops, i);
    assert Feasible(Run(m.env, ops[..i]), ops[i]);
    var res, logs := Perform(m, ops[i]);
    answer := (res, logs);
  }

  /** The module run from empty on any operations the kernel may answer as they say: its state and its
      answers are those of the protocol. No event is ever spurious. Its timers are in step, and its messages
      explained, if every operation meets the condition of a single step; over a good run it is the
      abstract module. */
  method Replay(env: Env, ops: seq<Op>) returns (m: TimingModule, answers: seq<(Result, seq<Log>)>)
    requires FeasibleRun(env, ops)
    ensures fresh(m) && m.Valid() && m.env == env && m.View() == Run(env, ops)
    ensures AnswersOf(env, ops, answers)
    ensures NoneSpurious(answers)
    ensures KeepsStepTo(env, ops, |ops|) ==> WorldInStep(env, m.View())
    ensures AllExplained(env, ops, answers)
    ensures GoodRun(env, ops) ==>
              WorldInStep(env, m.View()) && AlphaWorld(m.View()) == AbsRun(env.build, EraseRun(ops))
  {
    m := new TimingModule(env);
    answers := [];
    assert ops[..0] == [];
    var i := 0;
    while i < |ops|
      invariant 0 <= i == |answers| <= |ops|
      invariant fresh(m) && fresh(m.timers.Values)
      invariant m.Valid() && m.env == env && m.View() == Run(env, ops[..i])
      invariant forall k :: 0 <= k < i ==> answers[k] == AnswerAt(env, ops, k)
    {
      var answer := PerformNext(m, ops, i);
      answers := answers + [answer];
      i := i + 1;
    }
    assert ops[..i] == ops;
    AnswersNeverSpurious(env, ops, answers);
    AnswersExplained(env, ops, answers);
    StateReached(env, ops);
  }

  // ---------- What the run theorems say of the objects ----------

  ghost predicate AnswersOf(env: Env, ops: seq<Op>, answers: seq<(Result, seq<Log>)>) {
    |answers| == |ops| && forall i :: 0 <= i < |ops| ==> answers[i] == AnswerAt(env, ops, i)
  }

  predicate NotSpurious(l: Log) {
    !l.SpuriousUser? && !l.SpuriousType?
  }

  ghost predicate NoneSpurious(answers: seq<(Result, seq<Log>)>) {
    forall i, l :: 0 <= i < |answers| && l in answers[i].1 ==> NotSpurious(l)
  }

  /** As long as the operations so far met the condition of a single step, each message is explained. */
  ghost predicate AllExplained(env: Env, ops: seq<Op>, answers: seq<(Result, seq<Log>)>)
    requires |answers| == |ops|
  {
    forall i, l :: 0 <= i < |ops| && KeepsStepTo(env, ops, i) && l in answers[i].1 ==> Explained(ops[i], l)
  }

  lemma AnswersNeverSpurious(env: Env, ops: seq<Op>, answers: seq<(Result, seq<Log>)>)
    requires FeasibleRun(env, ops) && AnswersOf(env, ops, answers)
    ensures NoneSpurious(answers)
  {
    forall i, l | 0 <= i < |answers| && l in answers[i].1
      ensures NotSpurious(l)
    {
      assert answers[i] == AnswerAt(env, ops, i);
      KqueueBackends.NothingIsSpurious(env, ops, i);
    }
  }

  lemma AnswersExplained(env: Env, ops: seq<Op>, answers: seq<(Result, seq<Log>)>)
    requires FeasibleRun(env, ops) && AnswersOf(env, ops, answers)
    ensures AllExplained(env, ops, answers)
  {
    forall i, l | 0 <= i < |ops| && KeepsStepTo(env, ops, i) && l in answers[i].1
      ensures Explained(ops[i], l)
    {
      assert answers[i] == AnswerAt(env, ops, i);
      MessagesOverRuns(env, ops, i);
    }
  }

  lemma StateReached(env: Env, ops: seq<Op>)
    requires FeasibleRun(env, ops)
    ensures KeepsStepTo(env, ops, |ops|) ==> WorldInStep(env, Run(env, ops))
    ensures GoodRun(env, ops) ==>
              WorldInStep(env, Run(env, ops)) && AlphaWorld(Run(env, ops)) == AbsRun(env.build, EraseRun(ops))
  {
    if KeepsStepTo(env, ops, |ops|) {
      PrefixInStep(env, ops, |ops|);
      assert ops[..|ops|] == ops;
    }
    if GoodRun(env, ops) {
      RunRefinesAbstract(env, ops);
    }
  }

  lemma ConsumedSnoc(q: Queue, batch: seq<Event>, i: nat)
    requires i < |batch|
    ensures var k, c := batch[i].key, Consumed(q, batch[..i]);
            Consumed(q, batch[..i + 1]) == if k in c && k.filter.TimerFilter? then c[k := c[k].(fires := 0)] else c
  {
    var p := batch[..i + 1];
    forall k
      ensures Listed(p, k) <==> Listed(batch[..i], k) || k == batch[i].key
    {
      assert p[i] == batch[i];
      if Listed(batch[..i], k) {
        var j :| 0 <= j < |batch[..i]| && batch[..i][j].key == k;
        assert p[j].key == k;
      }
      if Listed(p, k) && k != batch[i].key {
        var j :| 0 <= j < |p| && p[j].key == k;
        assert batch[..i][j].key == k;
      }
    }
  }
}
