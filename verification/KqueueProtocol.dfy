/** The kqueue timing module as a transition system: what each timer operation does to the timer's
    fields and to the events registered in its kernel queue, and what that guarantees over runs. */
module KqueueProtocol {
  import opened KqueuePeriod
  import opened Options

  // ---------- The kernel side ----------

  /** The two ways a timer signals "continuous": a user event that is triggered once, or a read
      event on a pipe whose write end is closed. */
  datatype Backend = UserEvent | ClosedPipe

  datatype Filter = TimerFilter | UserFilter | ReadFilter

  datatype Key = Key(ident: int, filter: Filter)

  /** A registered event. It is active while `fires` is positive. */
  datatype Knote = Knote(units: Units, data: nat, fires: nat)

  type Queue = map<Key, Knote>

  datatype Flags = AddEnable | Delete | Trigger

  datatype Change = Change(key: Key, flags: Flags, units: Units, data: nat)

  datatype Event = Event(key: Key, data: nat)

  /** Descriptors in `eof` are read ends at end of file: a read event on one is always active. */
  function InitialFires(q: Queue, k: Key, eof: set<int>): nat {
    match k.filter
    case TimerFilter => 0
    case UserFilter => if k in q then q[k].fires else 0
    case ReadFilter => if k.ident in eof then 1 else 0
  }

  function ApplyChange(q: Queue, c: Change, addOk: bool, eof: set<int>): Option<Queue> {
    match c.flags
    case AddEnable => if addOk then Some(q[c.key := Knote(c.units, c.data, InitialFires(q, c.key, eof))]) else None
    case Delete => if c.key in q then Some(q - {c.key}) else None
    case Trigger => if c.key in q then Some(q[c.key := q[c.key].(fires := 1)]) else None
  }

  /** kevent with a change list and no event list: it stops at the first change that fails. */
  function ApplyChanges(q: Queue, cs: seq<Change>, addOk: bool, eof: set<int>): (Queue, int)
    decreases |cs|
  {
    if cs == [] then (q, 0)
    else match ApplyChange(q, cs[0], addOk, eof)
      case None => (q, -1)
      case Some(q') => ApplyChanges(q', cs[1..], addOk, eof)
  }

  ghost predicate Listed(batch: seq<Event>, k: Key) {
    exists i :: 0 <= i < |batch| && batch[i].key == k
  }

  /** What kevent may put in an event list of `slots` entries: distinct active events, and all of
      them unless the list is full. */
  ghost predicate MayDeliver(q: Queue, batch: seq<Event>, slots: nat) {
    && |batch| <= slots
    && (forall i :: 0 <= i < |batch| ==>
          batch[i].key in q && q[batch[i].key].fires > 0 && batch[i].data == q[batch[i].key].fires)
    && (forall i, j :: 0 <= i < j < |batch| ==> batch[i].key != batch[j].key)
    && (|batch| < slots ==> forall k :: k in q && q[k].fires > 0 ==> Listed(batch, k))
  }

  /** Reading a timer event resets its count; the other filters are level-triggered. */
  ghost function Consumed(q: Queue, batch: seq<Event>): Queue {
    map k | k in q :: if k.filter.TimerFilter? && Listed(batch, k) then q[k].(fires := 0) else q[k]
  }

  ghost predicate Readable(q: Queue) {
    exists k :: k in q && q[k].fires > 0
  }

  // ---------- The timers ----------

  datatype Env = Env(backend: Backend, build: Build)

  datatype TimerState = TimerState(
    handle: int, addr: int, period: nat, continuousFd: int, continuousFdValid: bool,
    isContinuous: bool, refs: int)

  /** A timer and the kernel queue its handle names. */
  datatype Slot = Slot(t: TimerState, q: Queue)

  datatype World = World(slots: map<int, Slot>, eof: set<int>)

  datatype Poll = PollFails | Delivers(batch: seq<Event>)

  /** Operations on one timer, each with the kernel's answer. Expire is the passing of time. */
  datatype TimerOp =
    | SetRate(rate: nat, addOk: bool)
    | Ack(quantity: nat, poll: Poll)
    | Enable(addOk: bool)
    | Disable
    | GetEvent
    | Expire(n: nat)

  /** Open comes with the results of the allocation (the address), kqueue() and pipe(). */
  datatype Op =
    | Open(handle: int, addr: Option<int>, pipe: Option<(int, int)>)
    | Close(handle: int)
    | On(handle: int, op: TimerOp)

  datatype Log = QueueError | SampleError | Missed(n: nat) | SpuriousUser | SpuriousType | SignalError | ClearError
               | AllocError | CreateError | PipeError

  datatype Result = Status(code: int) | Expired | Continuous | NoResult

  datatype TimerOutcome = TimerOutcome(slot: Slot, result: Result, logs: seq<Log>)

  datatype Outcome = Outcome(w: World, result: Result, logs: seq<Log>)

  function TimerKey(t: TimerState): Key {
    Key(t.handle, TimerFilter)
  }

  function ContinuousFilter(b: Backend): Filter {
    match b
    case UserEvent => UserFilter
    case ClosedPipe => ReadFilter
  }

  function ContinuousKey(b: Backend, t: TimerState): Key {
    match b
    case UserEvent => Key(t.addr, UserFilter)
    case ClosedPipe => Key(t.continuousFd, ReadFilter)
  }

  function EnableChanges(b: Backend, t: TimerState): seq<Change> {
    var k := ContinuousKey(b, t);
    match b
    case UserEvent => [Change(k, AddEnable, Default, 0), Change(k, Trigger, Default, 0)]
    case ClosedPipe => [Change(k, AddEnable, Default, 0)]
  }

  function DisableChanges(b: Backend, t: TimerState): seq<Change> {
    [Change(ContinuousKey(b, t), Delete, Default, 0)]
  }

  function LogIf(failed: bool, l: Log): seq<Log> {
    if failed then [l] else []
  }

  /** The messages of kqueue_timer_ack for a batch of events. */
  function AckLogs(filter: Filter, isContinuous: bool, batch: seq<Event>, quantity: nat): seq<Log> {
    if batch == [] then []
    else
      var init, e := batch[..|batch| - 1], batch[|batch| - 1];
      AckLogs(filter, isContinuous, init, quantity) +
      (if e.key.filter.TimerFilter? then (if e.data > quantity then [Missed(e.data - quantity)] else [])
       else if e.key.filter == filter then LogIf(!isContinuous, SpuriousUser)
       else [SpuriousType])
  }

  ghost function OnTimer(env: Env, t: TimerState, q: Queue, eof: set<int>, op: TimerOp): TimerOutcome {
    match op
    case SetRate(rate, addOk) =>
      if rate == 0 && t.period == 0 then TimerOutcome(Slot(t, q), Status(0), [])
      else
        var period := if rate == 0 then 0 else ScaledPeriod(env.build, PeriodNs(rate));
        var units := if rate == 0 then Default else FinestUnit(env.build, PeriodNs(rate));
        var flags := if rate == 0 then Delete else AddEnable;
        var (q', rc) := ApplyChanges(q, [Change(TimerKey(t), flags, units, period)], addOk, eof);
        TimerOutcome(Slot(t.(period := period), q'), Status(0), LogIf(rc == -1, QueueError))
    case Ack(_, PollFails) => TimerOutcome(Slot(t, q), Status(-1), [SampleError])
    case Ack(quantity, Delivers(batch)) =>
      TimerOutcome(Slot(t, Consumed(q, batch)), Status(0),
                   AckLogs(ContinuousFilter(env.backend), t.isContinuous, batch, quantity))
    case Enable(addOk) =>
      if t.isContinuous then TimerOutcome(Slot(t, q), Status(0), [])
      else
        var (q', rc) := ApplyChanges(q, EnableChanges(env.backend, t), addOk, eof);
        TimerOutcome(Slot(t.(isContinuous := true), q'), Status(0), LogIf(rc == -1, SignalError))
    case Disable =>
      if !t.isContinuous then TimerOutcome(Slot(t, q), Status(0), [])
      else
        var (q', rc) := ApplyChanges(q, DisableChanges(env.backend, t), true, eof);
        TimerOutcome(Slot(t.(isContinuous := false), q'), Status(0), LogIf(rc == -1, ClearError))
    case GetEvent => TimerOutcome(Slot(t, q), if t.isContinuous then Continuous else Expired, [])
    case Expire(n) =>
      var k := TimerKey(t);
      TimerOutcome(Slot(t, if k in q then q[k := q[k].(fires := q[k].fires + n)] else q), NoResult, [])
  }

  function UnknownHandle(op: TimerOp): Result {
    match op
    case GetEvent => Expired
    case Expire(_) => NoResult
    case _ => Status(-1)
  }

  function OpenStep(env: Env, w: World, handle: int, addr: Option<int>, pipe: Option<(int, int)>): Outcome {
    if addr.None? then Outcome(w, Status(-1), [AllocError])
    else if handle < 0 then Outcome(w, Status(-1), [CreateError])
    else if env.backend.ClosedPipe? && pipe.None? then Outcome(w, Status(-1), [PipeError])
    else
      var eof := if env.backend.ClosedPipe? then w.eof + {pipe.value.0} else w.eof;
      var fd := if env.backend.ClosedPipe? then pipe.value.0 else 0;
      var t := TimerState(handle, addr.value, 0, fd, env.backend.ClosedPipe?, false, 1);
      Outcome(World(w.slots[handle := Slot(t, map[])], eof), Status(handle), [])
  }

  function CloseStep(w: World, handle: int): World {
    World(w.slots - {handle}, w.eof)
  }

  ghost function TimerStep(env: Env, w: World, handle: int, op: TimerOp): Outcome {
    if handle in w.slots then
      var r := OnTimer(env, w.slots[handle].t, w.slots[handle].q, w.eof, op);
      Outcome(World(w.slots[handle := r.slot], w.eof), r.result, r.logs)
    else Outcome(w, UnknownHandle(op), [])
  }

  ghost function Step(env: Env, w: World, op: Op): Outcome {
    match op
    case Open(handle, addr, pipe) => OpenStep(env, w, handle, addr, pipe)
    case Close(handle) => Outcome(CloseStep(w, handle), NoResult, [])
    case On(handle, top) => TimerStep(env, w, handle, top)
  }

  // ---------- What one operation keeps ----------

  /** The C fields agree with the kernel queue, and only the container holds a reference. */
  ghost predicate InStep(b: Backend, t: TimerState, q: Queue, eof: set<int>) {
    && (TimerKey(t) in q <==> t.period != 0)
    && (TimerKey(t) in q ==> q[TimerKey(t)].data == t.period)
    && (ContinuousKey(b, t) in q <==> t.isContinuous)
    && (ContinuousKey(b, t) in q ==> q[ContinuousKey(b, t)].fires == 1)
    && q.Keys <= {TimerKey(t), ContinuousKey(b, t)}
    && t.refs == 1
    && t.continuousFdValid == b.ClosedPipe?
    && (b.ClosedPipe? ==> t.continuousFd in eof)
  }

  ghost predicate WorldInStep(env: Env, w: World) {
    forall h :: h in w.slots ==>
      w.slots[h].t.handle == h && InStep(env.backend, w.slots[h].t, w.slots[h].q, w.eof)
  }

  /** What the kernel may answer: fresh descriptors, and event lists from the queue. */
  ghost predicate Feasible(w: World, op: Op) {
    match op
    case Open(handle, _, _) => handle !in w.slots
    case On(handle, Ack(_, Delivers(batch))) => handle in w.slots ==> MayDeliver(w.slots[handle].q, batch, 2)
    case _ => true
  }

  /** The condition under which an operation keeps a timer in step: an accepted rate must not scale
      to a zero period, a refused one must not change it, and a first enable must be accepted. */
  predicate KeepsStep(env: Env, t: TimerState, op: TimerOp) {
    match op
    case SetRate(rate, addOk) =>
      rate == 0 ||
      (if addOk then ScaledPeriod(env.build, PeriodNs(rate)) != 0
       else ScaledPeriod(env.build, PeriodNs(rate)) == t.period)
    case Enable(addOk) => t.isContinuous || addOk
    case _ => true
  }

  predicate WorldKeepsStep(env: Env, w: World, op: Op) {
    op.On? && op.handle in w.slots ==> KeepsStep(env, w.slots[op.handle].t, op.op)
  }

  lemma SingleChange(q: Queue, c: Change, addOk: bool, eof: set<int>)
    ensures ApplyChanges(q, [c], addOk, eof) ==
            match ApplyChange(q, c, addOk, eof) case None => (q, -1) case Some(q') => (q', 0)
  {
    var r := ApplyChange(q, c, addOk, eof);
    if r.Some? {
      assert ApplyChanges(r.value, [c][1..], addOk, eof) == (r.value, 0);
    }
  }

  /** Both ways of enabling leave one active event registered under the continuous key. */
  lemma EnableRegisters(b: Backend, t: TimerState, q: Queue, addOk: bool, eof: set<int>)
    requires b.ClosedPipe? ==> t.continuousFd in eof
    ensures ApplyChanges(q, EnableChanges(b, t), addOk, eof) ==
            if addOk then (q[ContinuousKey(b, t) := Knote(Default, 0, 1)], 0) else (q, -1)
  {
    var cs := EnableChanges(b, t);
    if b.UserEvent? && addOk {
      var q1 := ApplyChange(q, cs[0], addOk, eof).value;
      assert cs[1..] == [cs[1]];
      SingleChange(q1, cs[1], addOk, eof);
      assert q1[ContinuousKey(b, t) := q1[ContinuousKey(b, t)].(fires := 1)] ==
             q[ContinuousKey(b, t) := Knote(Default, 0, 1)];
    } else {
      assert b.ClosedPipe? ==> cs == [cs[0]];
      if b.ClosedPipe? {
        SingleChange(q, cs[0], addOk, eof);
      }
    }
  }

  /** One operation on a timer in step leaves it in step exactly under the stated condition. */
  lemma StepKeepsInStep(env: Env, t: TimerState, q: Queue, eof: set<int>, op: TimerOp)
    requires InStep(env.backend, t, q, eof)
    requires op.Ack? && op.poll.Delivers? ==> MayDeliver(q, op.poll.batch, 2)
    ensures var r := OnTimer(env, t, q, eof, op);
            InStep(env.backend, r.slot.t, r.slot.q, eof) <==> KeepsStep(env, t, op)
  {
    match op
    case SetRate(rate, addOk) =>
      var period := if rate == 0 then 0 else ScaledPeriod(env.build, PeriodNs(rate));
      var units := if rate == 0 then Default else FinestUnit(env.build, PeriodNs(rate));
      SingleChange(q, Change(TimerKey(t), if rate == 0 then Delete else AddEnable, units, period), addOk, eof);
    case Enable(addOk) => EnableRegisters(env.backend, t, q, addOk, eof);
    case Disable => SingleChange(q, DisableChanges(env.backend, t)[0], true, eof);
    case _ =>
  }

  lemma WorldStepKeepsInStep(env: Env, w: World, op: Op)
    requires WorldInStep(env, w) && Feasible(w, op)
    ensures WorldInStep(env, Step(env, w, op).w) <==> WorldKeepsStep(env, w, op)
  {
    var w' := Step(env, w, op).w;
    if op.On? && op.handle in w.slots {
      var t, q := w.slots[op.handle].t, w.slots[op.handle].q;
      StepKeepsInStep(env, t, q, w.eof, op.op);
      assert w'.slots[op.handle] == OnTimer(env, t, q, w.eof, op.op).slot;
      assert forall h :: h in w.slots && h != op.handle ==> w'.slots[h] == w.slots[h];
    }
  }

  // ---------- What each operation does to the queue ----------

  /** An accepted rate registers one event for the timer: the longest period that the rate allows, in the
      finest unit that does not overflow. */
  lemma RateEffect(env: Env, t: TimerState, q: Queue, eof: set<int>, rate: nat)
    requires 1 <= rate
    ensures var r, k := OnTimer(env, t, q, eof, SetRate(rate, true)), Key(t.handle, TimerFilter);
            && r.result == Status(0) && r.logs == []
            && k in r.slot.q && r.slot.q - {k} == q - {k}
            && var note := r.slot.q[k];
               && IsUnitFor(env.build, rate, note.units) && note.fires == 0
               && (var nanos := match note.units case Nseconds => 1 case Useconds => 1_000 case _ => 1_000_000;
                   IsLongestPeriod(env.build, rate, note.data, nanos))
               && r.slot.t == t.(period := note.data)
  {
    var period, units := ScaledPeriod(env.build, PeriodNs(rate)), FinestUnit(env.build, PeriodNs(rate));
    SingleChange(q, Change(TimerKey(t), AddEnable, units, period), true, eof);
    ScaledPeriodIsLongest(env.build, rate);
    FinestUnitFor(env.build, rate);
  }

  /** Rate 0 removes the timer's event; a period that is zero already means there is nothing to do. */
  lemma StopEffect(env: Env, t: TimerState, q: Queue, eof: set<int>, addOk: bool)
    ensures var r, k := OnTimer(env, t, q, eof, SetRate(0, addOk)), Key(t.handle, TimerFilter);
            && r.result == Status(0) && r.slot.t == t.(period := 0)
            && r.slot.q == (if t.period == 0 then q else q - {k})
            && r.logs == (if t.period == 0 || k in q then [] else [QueueError])
  {
    SingleChange(q, Change(TimerKey(t), Delete, Default, 0), addOk, eof);
  }

  /** A refused rate is kept all the same, and the queue left as it was. */
  lemma RefusedRateEffect(env: Env, t: TimerState, q: Queue, eof: set<int>, rate: nat)
    requires 1 <= rate
    ensures var r := OnTimer(env, t, q, eof, SetRate(rate, false));
            && r.result == Status(0) && r.logs == [QueueError] && r.slot.q == q
            && r.slot.t == t.(period := OnTimer(env, t, q, eof, SetRate(rate, true)).slot.t.period)
  {
    var period, units := ScaledPeriod(env.build, PeriodNs(rate)), FinestUnit(env.build, PeriodNs(rate));
    SingleChange(q, Change(TimerKey(t), AddEnable, units, period), true, eof);
    SingleChange(q, Change(TimerKey(t), AddEnable, units, period), false, eof);
  }

  /** Enabling sets the flag and, if the kernel accepts it, registers one active event: a user event named
      by the timer's address, or a read event on its pipe. */
  lemma EnableEffect(env: Env, t: TimerState, q: Queue, eof: set<int>, addOk: bool)
    requires env.backend.ClosedPipe? ==> t.continuousFd in eof
    ensures var r := OnTimer(env, t, q, eof, Enable(addOk));
            var k := if env.backend.UserEvent? then Key(t.addr, UserFilter) else Key(t.continuousFd, ReadFilter);
            && r.result == Status(0) && r.slot.t == t.(isContinuous := true)
            && (if t.isContinuous then r.slot.q == q && r.logs == []
                else if addOk then
                  k in r.slot.q && r.slot.q[k].fires == 1 && r.slot.q - {k} == q - {k} && r.logs == []
                else r.slot.q == q && r.logs == [SignalError])
  {
    EnableRegisters(env.backend, t, q, addOk, eof);
  }

  /** Disabling clears the flag and removes that event. */
  lemma DisableEffect(env: Env, t: TimerState, q: Queue, eof: set<int>)
    ensures var r := OnTimer(env, t, q, eof, Disable);
            var k := if env.backend.UserEvent? then Key(t.addr, UserFilter) else Key(t.continuousFd, ReadFilter);
            && r.result == Status(0) && r.slot.t == t.(isContinuous := false)
            && r.slot.q == (if t.isContinuous then q - {k} else q)
            && r.logs == (if t.isContinuous && k !in q then [ClearError] else [])
  {
    SingleChange(q, DisableChanges(env.backend, t)[0], true, eof);
  }

  lemma ConsumedTimer(b: Backend, t: TimerState, q: Queue, eof: set<int>, batch: seq<Event>)
    requires Sound(b, t, q, eof) && MayDeliver(q, batch, 2)
    ensures var k := Key(t.handle, TimerFilter);
            Consumed(q, batch) == if k in q then q[k := q[k].(fires := 0)] else q
  {
    if Pending(t, q) > 0 {
      TwoSlotsSuffice(b, t, q, eof, batch, TimerKey(t));
    }
    assert forall k :: k in q && k.filter.TimerFilter? ==> k == TimerKey(t);
  }

  /** Acknowledging reads the timer's count, reports what exceeds the quantity, and leaves the timer and the
      other event alone. */
  lemma AckEffect(env: Env, t: TimerState, q: Queue, eof: set<int>, quantity: nat, batch: seq<Event>)
    requires Sound(env.backend, t, q, eof) && MayDeliver(q, batch, 2)
    ensures var r := OnTimer(env, t, q, eof, Ack(quantity, Delivers(batch)));
            var k := Key(t.handle, TimerFilter);
            && r.result == Status(0) && r.slot.t == t
            && r.slot.q == (if k in q then q[k := q[k].(fires := 0)] else q)
            && r.logs == (if k in q && q[k].fires > quantity then [Missed(q[k].fires - quantity)] else [])
  {
    AckLogsMissed(env.backend, t, q, eof, batch, quantity);
    ConsumedTimer(env.backend, t, q, eof, batch);
  }

  /** Opening fails without memory, a queue or the pipe it needs; otherwise it files a timer with no rate,
      no mode, an empty queue and one reference, and returns its handle. */
  lemma OpenEffect(env: Env, w: World, handle: int, addr: Option<int>, pipe: Option<(int, int)>)
    ensures var r := OpenStep(env, w, handle, addr, pipe);
            if addr.None? || handle < 0 || (env.backend.ClosedPipe? && pipe.None?) then
              r.w == w && r.result == Status(-1) && |r.logs| == 1
            else
              && r.result == Status(handle) && r.logs == []
              && r.w.slots.Keys == w.slots.Keys + {handle} && r.w.slots - {handle} == w.slots - {handle}
              && r.w.slots[handle].q == map[]
              && var t := r.w.slots[handle].t;
                 && t.handle == handle && t.addr == addr.value && t.period == 0 && !t.isContinuous && t.refs == 1
                 && (t.continuousFdValid <==> env.backend.ClosedPipe?)
                 && (env.backend.ClosedPipe? ==> t.continuousFd == pipe.value.0 && r.w.eof == w.eof + {pipe.value.0})
                 && (env.backend.UserEvent? ==> r.w.eof == w.eof)
  {
  }

  /** An unknown handle is an error for every request but get_event, and changes nothing. */
  lemma UnknownEffect(env: Env, w: World, handle: int, op: TimerOp)
    requires handle !in w.slots && !op.Expire?
    ensures Step(env, w, On(handle, op)) == Outcome(w, if op.GetEvent? then Expired else Status(-1), [])
  {
  }

  // ---------- The event list of ack ----------

  /** What every operation keeps, whatever the kernel refuses: no event but the two of the timer is ever
      registered, and the continuous one only while the flag is set. */
  ghost predicate Sound(b: Backend, t: TimerState, q: Queue, eof: set<int>) {
    && q.Keys <= {TimerKey(t), ContinuousKey(b, t)}
    && (ContinuousKey(b, t) in q ==> t.isContinuous && q[ContinuousKey(b, t)].fires == 1)
    && (b.ClosedPipe? ==> t.continuousFd in eof)
  }

  /** At most two events are active, so two slots receive every pending event. */
  lemma TwoSlotsSuffice(b: Backend, t: TimerState, q: Queue, eof: set<int>, batch: seq<Event>, k: Key)
    requires Sound(b, t, q, eof) && MayDeliver(q, batch, 2)
    requires k in q && q[k].fires > 0
    ensures Listed(batch, k)
  {
    if |batch| == 2 {
      assert batch[0].key in {TimerKey(t), ContinuousKey(b, t)} && batch[1].key in {TimerKey(t), ContinuousKey(b, t)};
      assert k in q.Keys;
      assert batch[0].key == k || batch[1].key == k;
    }
  }

  /** The number of expirations of the rate timer that have not been read yet. */
  function Pending(t: TimerState, q: Queue): nat {
    if TimerKey(t) in q then q[TimerKey(t)].fires else 0
  }

  function MissedLog(pending: nat, quantity: nat): seq<Log> {
    if pending > quantity then [Missed(pending - quantity)] else []
  }

  /** Neither "Spurious" branch is ever taken: ack reports the expirations beyond `quantity`
      and nothing else, in whatever order the kernel lists the events. */
  lemma AckLogsMissed(b: Backend, t: TimerState, q: Queue, eof: set<int>, batch: seq<Event>, quantity: nat)
    requires Sound(b, t, q, eof) && MayDeliver(q, batch, 2)
    ensures AckLogs(ContinuousFilter(b), t.isContinuous, batch, quantity) == MissedLog(Pending(t, q), quantity)
  {
    var f := ContinuousFilter(b);
    if Pending(t, q) > 0 {
      TwoSlotsSuffice(b, t, q, eof, batch, TimerKey(t));
    }
    forall i | 0 <= i < |batch|
      ensures batch[i].key == TimerKey(t) || (batch[i].key == ContinuousKey(b, t) && t.isContinuous)
      ensures batch[i].key == TimerKey(t) ==> batch[i].data == Pending(t, q)
    {
      assert batch[i].key in q.Keys;
    }
    AckLogsUnroll(f, t.isContinuous, batch, quantity);
  }

  lemma AckLogsUnroll(f: Filter, isContinuous: bool, batch: seq<Event>, quantity: nat)
    requires |batch| <= 2
    ensures |batch| == 1 ==>
              AckLogs(f, isContinuous, batch, quantity) == AckLogs(f, isContinuous, [batch[0]], quantity)
    ensures |batch| == 2 ==>
              AckLogs(f, isContinuous, batch, quantity) ==
              AckLogs(f, isContinuous, [batch[0]], quantity) + AckLogs(f, isContinuous, [batch[1]], quantity)
    ensures forall e :: e in batch ==>
              AckLogs(f, isContinuous, [e], quantity) ==
              if e.key.filter.TimerFilter? then MissedLog(e.data, quantity)
              else if e.key.filter == f then LogIf(!isContinuous, SpuriousUser)
              else [SpuriousType]
  {
    if |batch| == 1 {
      assert batch == [batch[0]];
    }
    if |batch| == 2 {
      assert batch[..1] == [batch[0]];
      assert [batch[1]][..0] == [];
    }
    forall e | e in batch
      ensures AckLogs(f, isContinuous, [e], quantity) ==
              if e.key.filter.TimerFilter? then MissedLog(e.data, quantity)
              else if e.key.filter == f then LogIf(!isContinuous, SpuriousUser)
              else [SpuriousType]
    {
      assert [e][..0] == [];
    }
  }

  // ---------- The abstract timer both back ends refine ----------

  datatype AbsTimer = AbsTimer(period: nat, pending: nat, continuous: bool)

  /** Operations without the kernel's answers. */
  datatype AbsTimerOp =
    | AbsSetRate(rate: nat)
    | AbsAck(quantity: nat, sampled: bool)
    | AbsEnable
    | AbsDisable
    | AbsGetEvent
    | AbsExpire(n: nat)

  datatype AbsOp = AbsOpen(handle: int) | AbsClose(handle: int) | AbsOn(handle: int, op: AbsTimerOp)

  type AbsWorld = map<int, AbsTimer>

  function Alpha(t: TimerState, q: Queue): AbsTimer {
    AbsTimer(t.period, Pending(t, q), t.isContinuous)
  }

  function AlphaWorld(w: World): AbsWorld {
    map h | h in w.slots :: Alpha(w.slots[h].t, w.slots[h].q)
  }

  function EraseTimerOp(op: TimerOp): AbsTimerOp {
    match op
    case SetRate(rate, _) => AbsSetRate(rate)
    case Ack(quantity, poll) => AbsAck(quantity, poll.Delivers?)
    case Enable(_) => AbsEnable
    case Disable => AbsDisable
    case GetEvent => AbsGetEvent
    case Expire(n) => AbsExpire(n)
  }

  function Erase(op: Op): AbsOp {
    match op
    case Open(handle, _, _) => AbsOpen(handle)
    case Close(handle) => AbsClose(handle)
    case On(handle, top) => AbsOn(handle, EraseTimerOp(top))
  }

  /** The rate timer counts expirations since the last acknowledgement or change of rate; continuous
      mode is a switch that acknowledging does not touch. */
  function AbsOnTimer(build: Build, a: AbsTimer, op: AbsTimerOp): (AbsTimer, Result, seq<Log>) {
    match op
    case AbsSetRate(rate) =>
      (AbsTimer(if rate == 0 then 0 else ScaledPeriod(build, PeriodNs(rate)), 0, a.continuous), Status(0), [])
    case AbsAck(quantity, sampled) =>
      if sampled then (a.(pending := 0), Status(0), MissedLog(a.pending, quantity))
      else (a, Status(-1), [SampleError])
    case AbsEnable => (a.(continuous := true), Status(0), [])
    case AbsDisable => (a.(continuous := false), Status(0), [])
    case AbsGetEvent => (a, if a.continuous then Continuous else Expired, [])
    case AbsExpire(n) => (if a.period == 0 then a else a.(pending := a.pending + n), NoResult, [])
  }

  function AbsStep(build: Build, aw: AbsWorld, op: AbsOp): (AbsWorld, Result, seq<Log>) {
    match op
    case AbsOpen(handle) =>
      if handle < 0 then (aw, Status(-1), [CreateError])
      else (aw[handle := AbsTimer(0, 0, false)], Status(handle), [])
    case AbsClose(handle) => (aw - {handle}, NoResult, [])
    case AbsOn(handle, top) =>
      if handle in aw then
        var (a, r, logs) := AbsOnTimer(build, aw[handle], top);
        (aw[handle := a], r, logs)
      else (aw, match top case AbsGetEvent => Expired case AbsExpire(_) => NoResult case _ => Status(-1), [])
  }

  /** The kernel's part in an operation on a timer: it accepts a new rate, which does not scale to a
      zero period, and the event of a first enable. */
  predicate Accepted(env: Env, t: TimerState, op: TimerOp) {
    match op
    case SetRate(rate, addOk) => rate == 0 || (addOk && ScaledPeriod(env.build, PeriodNs(rate)) != 0)
    case Enable(addOk) => t.isContinuous || addOk
    case _ => true
  }

  /** In addition memory can be had for a new timer, and a pipe where the back end needs one. */
  predicate Cooperative(env: Env, w: World, op: Op) {
    match op
    case Open(handle, addr, pipe) => addr.Some? && (handle < 0 || env.backend.UserEvent? || pipe.Some?)
    case Close(_) => true
    case On(handle, top) => handle in w.slots ==> Accepted(env, w.slots[handle].t, top)
  }

  /** An operation leaves the timer in step and does what the abstract one does. */
  ghost predicate StepIsAbstract(env: Env, t: TimerState, q: Queue, eof: set<int>, op: TimerOp) {
    var r := OnTimer(env, t, q, eof, op);
    && InStep(env.backend, r.slot.t, r.slot.q, eof)
    && (Alpha(r.slot.t, r.slot.q), r.result, r.logs) == AbsOnTimer(env.build, Alpha(t, q), EraseTimerOp(op))
  }

  ghost predicate WorldStepIsAbstract(env: Env, w: World, op: Op) {
    var r := Step(env, w, op);
    && WorldInStep(env, r.w)
    && (AlphaWorld(r.w), r.result, r.logs) == AbsStep(env.build, AlphaWorld(w), Erase(op))
  }

  /** On either back end an operation on a timer in step is the abstract one exactly when the kernel
      plays its part. */
  lemma StepRefinesAbstract(env: Env, t: TimerState, q: Queue, eof: set<int>, op: TimerOp)
    requires InStep(env.backend, t, q, eof)
    requires op.Ack? && op.poll.Delivers? ==> MayDeliver(q, op.poll.batch, 2)
    ensures StepIsAbstract(env, t, q, eof, op) <==> Accepted(env, t, op)
  {
    StepKeepsInStep(env, t, q, eof, op);
    match op
    case SetRate(rate, addOk) => RateRefines(env, t, q, eof, rate, addOk);
    case Enable(addOk) => EnableRegisters(env.backend, t, q, addOk, eof);
    case Disable => SingleChange(q, DisableChanges(env.backend, t)[0], true, eof);
    case Ack(quantity, Delivers(batch)) => AckRefines(env, t, q, eof, quantity, batch);
    case _ =>
  }

  /** The answer to a new rate is the abstract one exactly when the rate is not refused. */
  lemma RateRefines(env: Env, t: TimerState, q: Queue, eof: set<int>, rate: nat, addOk: bool)
    requires InStep(env.backend, t, q, eof)
    ensures var op := SetRate(rate, addOk);
            var r := OnTimer(env, t, q, eof, op);
            (Alpha(r.slot.t, r.slot.q), r.result, r.logs) == AbsOnTimer(env.build, Alpha(t, q), EraseTimerOp(op)) <==>
            rate == 0 || addOk
  {
    var period := if rate == 0 then 0 else ScaledPeriod(env.build, PeriodNs(rate));
    var units := if rate == 0 then Default else FinestUnit(env.build, PeriodNs(rate));
    SingleChange(q, Change(TimerKey(t), if rate == 0 then Delete else AddEnable, units, period), addOk, eof);
  }

  lemma AckRefines(env: Env, t: TimerState, q: Queue, eof: set<int>, quantity: nat, batch: seq<Event>)
    requires InStep(env.backend, t, q, eof) && MayDeliver(q, batch, 2)
    ensures var op := Ack(quantity, Delivers(batch));
            var r := OnTimer(env, t, q, eof, op);
            (Alpha(r.slot.t, r.slot.q), r.result, r.logs) == AbsOnTimer(env.build, Alpha(t, q), EraseTimerOp(op))
  {
    AckEffect(env, t, q, eof, quantity, batch);
  }

  lemma WorldStepRefinesAbstract(env: Env, w: World, op: Op)
    requires WorldInStep(env, w) && Feasible(w, op)
    ensures WorldStepIsAbstract(env, w, op) <==> Cooperative(env, w, op)
  {
    WorldStepKeepsInStep(env, w, op);
    var r, a := Step(env, w, op), AbsStep(env.build, AlphaWorld(w), Erase(op));
    if op.On? && op.handle in w.slots {
      var h, slot := op.handle, w.slots[op.handle];
      StepRefinesAbstract(env, slot.t, slot.q, w.eof, op.op);
      assert r.w.slots[h] == OnTimer(env, slot.t, slot.q, w.eof, op.op).slot;
      assert AlphaWorld(r.w)[h] == Alpha(r.w.slots[h].t, r.w.slots[h].q);
      assert a.0[h] == AbsOnTimer(env.build, Alpha(slot.t, slot.q), EraseTimerOp(op.op)).0;
      if Accepted(env, slot.t, op.op) {
        assert AlphaWorld(r.w) == a.0;
      }
    } else if Cooperative(env, w, op) {
      assert AlphaWorld(r.w) == a.0;
    }
  }

  /** The descriptor a caller polls is readable exactly when the abstract timer has something to
      report, whichever back end carries the continuous event. */
  lemma ReadableIff(b: Backend, t: TimerState, q: Queue, eof: set<int>)
    requires InStep(b, t, q, eof)
    ensures Readable(q) <==> Alpha(t, q).pending > 0 || Alpha(t, q).continuous
  {
    if Readable(q) {
      var k :| k in q && q[k].fires > 0;
      assert k in q.Keys;
    }
    if Alpha(t, q).pending > 0 {
      assert q[TimerKey(t)].fires > 0;
    } else if t.isContinuous {
      assert q[ContinuousKey(b, t)].fires > 0;
    }
  }

  /** Acknowledging never consumes the continuous event: where it is registered the descriptor stays
      readable, however many events are read; in step that is as long as the mode is on. */
  lemma ContinuousSurvivesAck(env: Env, t: TimerState, q: Queue, eof: set<int>, quantity: nat, poll: Poll)
    requires Sound(env.backend, t, q, eof)
    requires poll.Delivers? ==> MayDeliver(q, poll.batch, 2)
    ensures var r, k := OnTimer(env, t, q, eof, Ack(quantity, poll)), ContinuousKey(env.backend, t);
            && r.slot.t == t && (k in r.slot.q <==> k in q) && (k in q ==> Readable(r.slot.q))
            && (InStep(env.backend, t, q, eof) && t.isContinuous ==> Readable(r.slot.q))
  {
    var r, k := OnTimer(env, t, q, eof, Ack(quantity, poll)), ContinuousKey(env.backend, t);
    if k in q {
      assert r.slot.q[k].fires > 0;
    }
  }

  // ---------- Runs ----------

  const EMPTY: World := World(map[], {})

  ghost function Run(env: Env, ops: seq<Op>): World {
    if ops == [] then EMPTY else Step(env, Run(env, ops[..|ops| - 1]), ops[|ops| - 1]).w
  }

  /** The outcome of the i-th operation of a run. */
  ghost function OutcomeAt(env: Env, ops: seq<Op>, i: nat): Outcome
    requires i < |ops|
  {
    Step(env, Run(env, ops[..i]), ops[i])
  }

  /** What the kernel answers along the run is possible. */
  ghost predicate FeasibleRun(env: Env, ops: seq<Op>) {
    forall i :: 0 <= i < |ops| ==> Feasible(Run(env, ops[..i]), ops[i])
  }

  ghost predicate GoodRun(env: Env, ops: seq<Op>) {
    FeasibleRun(env, ops) && CooperativeTo(env, ops, |ops|)
  }

  lemma RunSnoc(env: Env, ops: seq<Op>, i: nat)
    requires i < |ops|
    ensures Run(env, ops[..i + 1]) == OutcomeAt(env, ops, i).w
  {
    assert ops[..i + 1][..i] == ops[..i];
  }

  /** The first n operations of a run, where they occur, meet the condition of a single step. */
  ghost predicate KeepsStepTo(env: Env, ops: seq<Op>, n: nat)
    requires n <= |ops|
  {
    forall i :: 0 <= i < n ==> WorldKeepsStep(env, Run(env, ops[..i]), ops[i])
  }

  lemma {:induction false} PrefixInStep(env: Env, ops: seq<Op>, n: nat)
    requires FeasibleRun(env, ops) && n <= |ops| && KeepsStepTo(env, ops, n)
    ensures WorldInStep(env, Run(env, ops[..n]))
  {
    if n > 0 {
      PrefixInStep(env, ops, n - 1);
      WorldStepKeepsInStep(env, Run(env, ops[..n - 1]), ops[n - 1]);
      RunSnoc(env, ops, n - 1);
    }
  }

  /** Fields and queues agree all along a run exactly when every operation, where it occurs, meets the
      condition of a single step. */
  lemma RunInStepIff(env: Env, ops: seq<Op>)
    requires FeasibleRun(env, ops)
    ensures (forall i :: 0 <= i <= |ops| ==> WorldInStep(env, Run(env, ops[..i]))) <==>
            KeepsStepTo(env, ops, |ops|)
  {
    if KeepsStepTo(env, ops, |ops|) {
      forall i | 0 <= i <= |ops|
        ensures WorldInStep(env, Run(env, ops[..i]))
      {
        PrefixInStep(env, ops, i);
      }
    }
    if forall i :: 0 <= i <= |ops| ==> WorldInStep(env, Run(env, ops[..i])) {
      forall i | 0 <= i < |ops|
        ensures WorldKeepsStep(env, Run(env, ops[..i]), ops[i])
      {
        WorldStepKeepsInStep(env, Run(env, ops[..i]), ops[i]);
        RunSnoc(env, ops, i);
      }
    }
  }

  /** The failures of the system that a message reports. No failure explains that a delete names a missing
      event, or that an event is spurious. */
  predicate Explained(op: Op, l: Log) {
    match l
    case Missed(_) => op.On? && op.op.Ack? && op.op.poll.Delivers?
    case SampleError => op.On? && op.op.Ack? && op.op.poll.PollFails?
    case QueueError => op.On? && op.op.SetRate? && op.op.rate != 0 && !op.op.addOk
    case SignalError => op.On? && op.op.Enable? && !op.op.addOk
    case AllocError => op.Open? && op.addr.None?
    case CreateError => op.Open? && op.handle < 0
    case PipeError => op.Open? && op.pipe.None?
    case ClearError | SpuriousUser | SpuriousType => false
  }

  lemma LogsExplained(env: Env, t: TimerState, q: Queue, eof: set<int>, op: TimerOp, l: Log)
    requires InStep(env.backend, t, q, eof)
    requires op.Ack? && op.poll.Delivers? ==> MayDeliver(q, op.poll.batch, 2)
    requires l in OnTimer(env, t, q, eof, op).logs
    ensures Explained(On(t.handle, op), l)
  {
    match op
    case SetRate(rate, addOk) =>
      var period := if rate == 0 then 0 else ScaledPeriod(env.build, PeriodNs(rate));
      var units := if rate == 0 then Default else FinestUnit(env.build, PeriodNs(rate));
      SingleChange(q, Change(TimerKey(t), if rate == 0 then Delete else AddEnable, units, period), addOk, eof);
    case Enable(addOk) => EnableRegisters(env.backend, t, q, addOk, eof);
    case Disable => SingleChange(q, DisableChanges(env.backend, t)[0], true, eof);
    case Ack(quantity, Delivers(batch)) => AckLogsMissed(env.backend, t, q, eof, batch, quantity);
    case _ =>
  }

  /** As long as every operation so far has met the condition of a single step, each message reports a
      failure of the system or missed expirations: no EV_DELETE names a missing event, whatever the
      kernel refuses next. */
  lemma MessagesOverRuns(env: Env, ops: seq<Op>, i: nat)
    requires FeasibleRun(env, ops) && i < |ops| && KeepsStepTo(env, ops, i)
    ensures forall l :: l in OutcomeAt(env, ops, i).logs ==> Explained(ops[i], l)
  {
    PrefixInStep(env, ops, i);
    var w, op := Run(env, ops[..i]), ops[i];
    forall l | l in OutcomeAt(env, ops, i).logs
      ensures Explained(op, l)
    {
      if op.On? && op.handle in w.slots {
        LogsExplained(env, w.slots[op.handle].t, w.slots[op.handle].q, w.eof, op.op, l);
      }
    }
  }

  /** The first n operations of a run are those of the abstract module. */
  ghost predicate AbstractTo(env: Env, ops: seq<Op>, n: nat)
    requires n <= |ops|
  {
    forall i :: 0 <= i < n ==> WorldStepIsAbstract(env, Run(env, ops[..i]), ops[i])
  }

  /** The kernel plays its part in the first n operations. */
  ghost predicate CooperativeTo(env: Env, ops: seq<Op>, n: nat)
    requires n <= |ops|
  {
    forall i :: 0 <= i < n ==> Cooperative(env, Run(env, ops[..i]), ops[i])
  }

  lemma InStepBefore(env: Env, ops: seq<Op>, n: nat)
    requires n <= |ops| && AbstractTo(env, ops, n)
    ensures WorldInStep(env, Run(env, ops[..n]))
  {
    if n > 0 {
      assert WorldStepIsAbstract(env, Run(env, ops[..n - 1]), ops[n - 1]);
      RunSnoc(env, ops, n - 1);
    }
  }

  lemma {:induction false} InStepWhileCooperative(env: Env, ops: seq<Op>, n: nat)
    requires FeasibleRun(env, ops) && n <= |ops| && CooperativeTo(env, ops, n)
    ensures WorldInStep(env, Run(env, ops[..n]))
  {
    if n > 0 {
      InStepWhileCooperative(env, ops, n - 1);
      AbstractStep(env, Run(env, ops[..n - 1]), ops[n - 1]);
      RunSnoc(env, ops, n - 1);
    }
  }

  /** Every operation of a run is the abstract one, and leaves the timers in step, exactly when the
      kernel plays its part in every operation. */
  lemma RunIsAbstractIff(env: Env, ops: seq<Op>)
    requires FeasibleRun(env, ops)
    ensures AbstractTo(env, ops, |ops|) <==> GoodRun(env, ops)
  {
    forall i | 0 <= i < |ops| && (AbstractTo(env, ops, |ops|) || CooperativeTo(env, ops, |ops|))
      ensures WorldStepIsAbstract(env, Run(env, ops[..i]), ops[i]) <==> Cooperative(env, Run(env, ops[..i]), ops[i])
    {
      if AbstractTo(env, ops, |ops|) {
        InStepBefore(env, ops, i);
      } else {
        InStepWhileCooperative(env, ops, i);
      }
      WorldStepRefinesAbstract(env, Run(env, ops[..i]), ops[i]);
    }
  }

  function AbsRun(build: Build, ops: seq<AbsOp>): AbsWorld {
    if ops == [] then map[] else AbsStep(build, AbsRun(build, ops[..|ops| - 1]), ops[|ops| - 1]).0
  }

  function EraseRun(ops: seq<Op>): (a: seq<AbsOp>)
    ensures |a| == |ops| && forall i :: 0 <= i < |ops| ==> a[i] == Erase(ops[i])
  {
    seq(|ops|, i requires 0 <= i < |ops| => Erase(ops[i]))
  }

  lemma GoodPrefix(env: Env, ops: seq<Op>, n: nat)
    requires GoodRun(env, ops) && n <= |ops|
    ensures GoodRun(env, ops[..n])
  {
    forall i | 0 <= i < n
      ensures Feasible(Run(env, ops[..n][..i]), ops[..n][i])
      ensures Cooperative(env, Run(env, ops[..n][..i]), ops[..n][i])
    {
      assert ops[..n][..i] == ops[..i];
      assert Feasible(Run(env, ops[..i]), ops[i]);
    }
  }

  lemma AbstractStep(env: Env, w: World, op: Op)
    requires WorldInStep(env, w) && Feasible(w, op) && Cooperative(env, w, op)
    ensures WorldInStep(env, Step(env, w, op).w)
    ensures AlphaWorld(Step(env, w, op).w) == AbsStep(env.build, AlphaWorld(w), Erase(op)).0
    ensures Step(env, w, op).result == AbsStep(env.build, AlphaWorld(w), Erase(op)).1
    ensures Step(env, w, op).logs == AbsStep(env.build, AlphaWorld(w), Erase(op)).2
  {
    WorldStepRefinesAbstract(env, w, op);
    assert WorldStepIsAbstract(env, w, op);
  }

  /** So after every good run, every timer's fields are in step with its kernel queue, and the module
      as a whole is the abstract one. */
  lemma {:induction false} RunRefinesAbstract(env: Env, ops: seq<Op>)
    requires GoodRun(env, ops)
    ensures WorldInStep(env, Run(env, ops))
    ensures AlphaWorld(Run(env, ops)) == AbsRun(env.build, EraseRun(ops))
  {
    if ops == [] {
      assert AlphaWorld(EMPTY) == map[];
    } else {
      var n := |ops| - 1;
      GoodPrefix(env, ops, n);
      RunRefinesAbstract(env, ops[..n]);
      AbstractStep(env, Run(env, ops[..n]), ops[n]);
      assert EraseRun(ops)[..n] == EraseRun(ops[..n]);
    }
  }

  /** Over a good run every answer is the abstract one. */
  lemma AnswersOverRuns(env: Env, ops: seq<Op>, i: nat)
    requires GoodRun(env, ops) && i < |ops|
    ensures var r := OutcomeAt(env, ops, i);
            (r.result, r.logs) ==
            (AbsStep(env.build, AbsRun(env.build, EraseRun(ops)[..i]), Erase(ops[i])).1,
             AbsStep(env.build, AbsRun(env.build, EraseRun(ops)[..i]), Erase(ops[i])).2)
    ensures forall l :: l in OutcomeAt(env, ops, i).logs ==> l.Missed? || l.SampleError? || l.CreateError?
  {
    GoodPrefix(env, ops, i);
    RunRefinesAbstract(env, ops[..i]);
    AbstractStep(env, Run(env, ops[..i]), ops[i]);
    assert EraseRun(ops)[..i] == EraseRun(ops[..i]);
  }

  /** Whether the last operation on a timer that opened it or changed its mode was an enable. */
  function LastChangeIsEnable(ops: seq<AbsOp>, h: int): bool {
    if ops == [] then false
    else
      match ops[|ops| - 1]
      case AbsOn(h', AbsEnable) => h' == h || LastChangeIsEnable(ops[..|ops| - 1], h)
      case AbsOn(h', AbsDisable) => h' != h && LastChangeIsEnable(ops[..|ops| - 1], h)
      case AbsOpen(h') => h' != h && LastChangeIsEnable(ops[..|ops| - 1], h)
      case _ => LastChangeIsEnable(ops[..|ops| - 1], h)
  }

  lemma {:induction false} AbsContinuousIsLastChange(build: Build, ops: seq<AbsOp>, h: int)
    requires h in AbsRun(build, ops)
    ensures h >= 0 && AbsRun(build, ops)[h].continuous == LastChangeIsEnable(ops, h)
  {
    if ops != [] {
      var n := |ops| - 1;
      if h in AbsRun(build, ops[..n]) {
        AbsContinuousIsLastChange(build, ops[..n], h);
      }
    }
  }

  predicate ChangesMode(op: Op, h: int) {
    match op
    case Open(handle, _, _) => handle == h
    case Close(_) => false
    case On(handle, top) => handle == h && (top.Enable? || top.Disable?)
  }

  lemma FlagAfterStep(env: Env, w: World, op: Op, h: int)
    requires Feasible(w, op) && h in Step(env, w, op).w.slots
    ensures var flag := Step(env, w, op).w.slots[h].t.isContinuous;
            if ChangesMode(op, h) then flag == (op.On? && op.op.Enable?)
            else h in w.slots && flag == w.slots[h].t.isContinuous
  {
  }

  lemma LastChangeSnoc(ops: seq<Op>, k: nat, h: int)
    requires k < |ops|
    ensures LastChangeIsEnable(EraseRun(ops[..k + 1]), h) ==
            if ChangesMode(ops[k], h) then ops[k].On? && ops[k].op.Enable?
            else LastChangeIsEnable(EraseRun(ops[..k]), h)
  {
    var a := EraseRun(ops[..k + 1]);
    assert a[..k] == EraseRun(ops[..k]) && a[k] == Erase(ops[k]);
  }

  /** The flag of a timer says whether the last change of its mode was an enable, also where the kernel
      refuses what the enable asks for, and after failed attempts to open timers. */
  lemma {:induction false} FlagIsLastChange(env: Env, ops: seq<Op>, n: nat, h: int)
    requires FeasibleRun(env, ops) && n <= |ops| && h in Run(env, ops[..n]).slots
    ensures Run(env, ops[..n]).slots[h].t.isContinuous == LastChangeIsEnable(EraseRun(ops[..n]), h)
  {
    if n > 0 {
      var k := n - 1;
      RunSnoc(env, ops, k);
      LastChangeSnoc(ops, k, h);
      assert Feasible(Run(env, ops[..k]), ops[k]);
      FlagAfterStep(env, Run(env, ops[..k]), ops[k], h);
      if !ChangesMode(ops[k], h) {
        FlagIsLastChange(env, ops, k, h);
      }
    }
  }

  /** get_event answers Continuous exactly when the timer exists and the last change of its mode was an
      enable, however many acknowledgements and rate changes came between and whatever the kernel
      refused. */
  lemma GetEventOverRuns(env: Env, ops: seq<Op>, i: nat)
    requires FeasibleRun(env, ops) && i < |ops| && ops[i].On? && ops[i].op.GetEvent?
    ensures var h := ops[i].handle;
            OutcomeAt(env, ops, i).result ==
            if h in Run(env, ops[..i]).slots && LastChangeIsEnable(EraseRun(ops[..i]), h) then Continuous else Expired
  {
    if ops[i].handle in Run(env, ops[..i]).slots {
      FlagIsLastChange(env, ops, i, ops[i].handle);
    }
  }

  // ---------- Where the invariant fails ----------

  /** kqueue_timer_get_max_rate */
  function MaxRate(b: Build): nat {
    if b.intptrMax > UINT_MAX then UINT_MAX else b.intptrMax
  }

  /** It is the largest rate that an unsigned int and the period's type can both hold. */
  lemma MaxRateIsLargest(b: Build, rate: nat)
    ensures rate <= MaxRate(b) <==> rate <= 0xffff_ffff && rate <= b.intptrMax
  {
  }

  /** The advertised maximum does not protect the invariant: a rate just above one per nanosecond is
      within it, yet leaves the period zero with a timer event registered, and the next request for
      rate 0 then does not remove that event. */
  lemma AdvertisedMaximumBreaksStep(env: Env, t: TimerState, eof: set<int>)
    requires env.build.intptrMax >= 0x7fff_ffff
    requires InStep(env.backend, t, map[], eof)
    ensures var rate := NS_PER_SECOND + 1;
            var r := OnTimer(env, t, map[], eof, SetRate(rate, true));
            var s := OnTimer(env, r.slot.t, r.slot.q, eof, SetRate(0, true));
            && rate <= MaxRate(env.build)
            && r.slot.t.period == 0 && TimerKey(t) in r.slot.q && !InStep(env.backend, r.slot.t, r.slot.q, eof)
            && s.slot.q == r.slot.q
  {
    ScaledPeriodIsZeroIff(env.build, NS_PER_SECOND + 1);
    var period := ScaledPeriod(env.build, PeriodNs(NS_PER_SECOND + 1));
    var units := FinestUnit(env.build, PeriodNs(NS_PER_SECOND + 1));
    SingleChange(map[], Change(TimerKey(t), AddEnable, units, period), true, eof);
  }

  /** Where pointers have 32 bits or more, an accepted rate keeps a timer in step exactly up to one
      per nanosecond, or one per millisecond without NOTE_NSECONDS. */
  lemma AcceptedRateKeepsStepIff(env: Env, t: TimerState, q: Queue, eof: set<int>, rate: nat)
    requires env.build.intptrMax >= 0x7fff_ffff
    requires InStep(env.backend, t, q, eof)
    ensures var r := OnTimer(env, t, q, eof, SetRate(rate, true));
            InStep(env.backend, r.slot.t, r.slot.q, eof) <==> rate <= MaxWorkingRate(env.build)
  {
    StepKeepsInStep(env, t, q, eof, SetRate(rate, true));
    if rate > 0 {
      ScaledPeriodIsZeroIff(env.build, rate);
    }
  }
}
