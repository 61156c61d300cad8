/** Atomic counters built from "add and return the new value": fetch-and-add subtracts the addend
    again, decrement-and-test compares with zero. Both are used by several threads at once. */
module AtomicCounter {

  // ---------- Machine integers ----------

  /** The two sizes of int the atomics are compiled for. */
  datatype Width = W32 | W64

  function Modulus(w: Width): (m: nat)
    ensures m > 0 && m % 2 == 0
  {
    match w
    case W32 => 0x1_0000_0000
    case W64 => 0x1_0000_0000_0000_0000
  }

  predicate IsInt(w: Width, x: int) {
    -(Modulus(w) / 2) <= x < Modulus(w) / 2
  }

  /** Conversion to the unsigned type. */
  function Wrap(w: Width, x: int): (u: nat)
    ensures u < Modulus(w)
    decreases if x < 0 then Modulus(w) - x else x
  {
    if x < 0 then Wrap(w, x + Modulus(w))
    else if x >= Modulus(w) then Wrap(w, x - Modulus(w))
    else x
  }

  /** Conversion of an unsigned value to int. */
  function ToInt(w: Width, u: nat): (x: int)
    requires u < Modulus(w)
    ensures IsInt(w, x)
  {
    if u < Modulus(w) / 2 then u else u - Modulus(w)
  }

  /** The two ranges of int. */
  lemma IntRanges(x: int)
    ensures IsInt(W32, x) <==> -2_147_483_648 <= x <= 2_147_483_647
    ensures IsInt(W64, x) <==> -9_223_372_036_854_775_808 <= x <= 9_223_372_036_854_775_807
  {
  }

  lemma WrapToInt(w: Width, x: int)
    requires IsInt(w, x)
    ensures ToInt(w, Wrap(w, x)) == x
  {
  }

  /** Wrapping is reduction modulo the number of machine integers. */
  lemma {:induction false} WrapIsModulo(w: Width, x: int)
    ensures Wrap(w, x) == x % Modulus(w)
    decreases if x < 0 then Modulus(w) - x else x
  {
    if x < 0 {
      WrapIsModulo(w, x + Modulus(w));
      ModuloShift(w, x);
    } else if x >= Modulus(w) {
      WrapIsModulo(w, x - Modulus(w));
      ModuloShift(w, x - Modulus(w));
    }
  }

  lemma ModuloShift(w: Width, x: int)
    ensures (x + Modulus(w)) % Modulus(w) == x % Modulus(w)
  {
    match w
    case W32 => assert (x + 0x1_0000_0000) % 0x1_0000_0000 == x % 0x1_0000_0000;
    case W64 => assert (x + 0x1_0000_0000_0000_0000) % 0x1_0000_0000_0000_0000 == x % 0x1_0000_0000_0000_0000;
  }

  /** Wrapping is the same at every stage of a computation. */
  lemma {:induction false} WrapAdd(w: Width, x: int, d: int)
    ensures Wrap(w, Wrap(w, x) + d) == Wrap(w, x + d)
    decreases if x < 0 then Modulus(w) - x else x
  {
    if x < 0 {
      WrapAdd(w, x + Modulus(w), d);
      WrapShift(w, x + d);
    } else if x >= Modulus(w) {
      WrapAdd(w, x - Modulus(w), d);
      WrapShift(w, x + d - Modulus(w));
    }
  }

  lemma WrapShift(w: Width, x: int)
    ensures Wrap(w, x + Modulus(w)) == Wrap(w, x)
  {
  }

  lemma WrapEqualIff(w: Width, x: int, y: int)
    requires 0 <= y - x <= Modulus(w)
    ensures Wrap(w, x) == Wrap(w, y) <==> x == y || y == x + Modulus(w)
  {
    WrapAdd(w, x, y - x);
    WrapShift(w, Wrap(w, x));
  }

  // ---------- One call ----------

  class Cell {
    const width: Width
    var word: nat

    constructor (width: Width, x: int)
      requires IsInt(width, x)
      ensures Valid() && this.width == width && Value() == x
    {
      this.width, word := width, Wrap(width, x);
      new;
      WrapToInt(width, x);
    }

    predicate Valid()
      reads this
    {
      word < Modulus(width)
    }

    /** The int stored in the cell. */
    function Value(): int
      requires Valid()
      reads this
    {
      ToInt(width, word)
    }

    /** atomic_add_32_nv, atomic_add_64_nv and atomic_add_int_nv */
    method AddNv(v: int) returns (nv: nat)
      requires Valid()
      modifies this
      ensures Valid() && nv == word == Wrap(width, old(word) + v)
    {
      word := Wrap(width, word + v);
      nv := word;
    }

    /** ast_atomic_fetchadd_int: the value before the addition, exactly, for every addend. */
    method FetchAdd(v: int) returns (before: int)
      requires Valid() && IsInt(width, v)
      modifies this
      ensures Valid() && before == old(Value())
      ensures Value() == ToInt(width, Wrap(width, old(Value()) + v))
    {
      var nv := AddNv(v);
      before := ToInt(width, Wrap(width, nv - v));
      FetchAddIsExact(width, old(word), v);
    }

    /** ast_atomic_dec_and_test */
    method DecAndTest() returns (isZero: bool)
      requires Valid()
      modifies this
      ensures Valid() && (isZero <==> Value() == 0)
      ensures Value() == ToInt(width, Wrap(width, old(Value()) - 1))
    {
      var nv := AddNv(-1);
      isZero := nv == 0;
      FetchAddIsExact(width, old(word), -1);
    }
  }

  /** "New value minus addend" is the old value under wrap-around; where the sum is an int it is
      what the cell then holds. */
  lemma FetchAddIsExact(w: Width, word: nat, v: int)
    requires word < Modulus(w) && IsInt(w, v)
    ensures Wrap(w, Wrap(w, word + v) - v) == word
    ensures Wrap(w, word + v) == Wrap(w, ToInt(w, word) + v)
    ensures IsInt(w, ToInt(w, word) + v) ==> ToInt(w, Wrap(w, word + v)) == ToInt(w, word) + v
  {
    WrapShift(w, ToInt(w, word) + v);
  }

  /** Where the atomic addition returns a signed integer, the subtraction is one of ints: it stays
      in range exactly when the addition did not wrap, and is then the old value. Returning the new
      value itself would be right for no addend but zero. */
  lemma SignedFormExactIff(w: Width, before: int, v: int)
    requires IsInt(w, before) && IsInt(w, v)
    ensures var nv := ToInt(w, Wrap(w, before + v));
            && (IsInt(w, nv - v) <==> IsInt(w, before + v))
            && (IsInt(w, nv - v) ==> nv - v == before)
            && (nv == before <==> v == 0)
  {
  }

  // ---------- Many threads ----------

  datatype Op = FetchAdd(v: int) | DecAndTest

  datatype Result = Before(x: int) | Test(isZero: bool)

  /** An atomic step, as the history records it: the index-th of its thread. */
  datatype Call = Call(thread: nat, index: nat, op: Op)

  datatype Pending = Idle | Added(op: Op, nv: nat)

  /** A thread runs its operations in order. Each takes two steps: the atomic addition, and the
      computation of the result from the new value, with other threads running in between. `calls`
      tells where its additions stand in the history. */
  datatype Thread = Thread(todo: seq<Op>, pending: Pending, results: seq<Result>, calls: seq<nat>)

  datatype State = State(cell: nat, threads: seq<Thread>, history: seq<Call>)

  function Delta(op: Op): int {
    match op
    case FetchAdd(v) => v
    case DecAndTest => -1
  }

  function Finish(w: Width, op: Op, nv: nat): Result {
    match op
    case FetchAdd(v) => Before(ToInt(w, Wrap(w, nv - v)))
    case DecAndTest => Test(nv == 0)
  }

  /** One step of thread t; a thread that has finished does nothing. */
  function Step(w: Width, s: State, t: nat): State {
    if t >= |s.threads| then s
    else
      var th := s.threads[t];
      match th.pending
      case Added(op, nv) =>
        s.(threads := s.threads[t := th.(pending := Idle, results := th.results + [Finish(w, op, nv)])])
      case Idle =>
        if th.todo == [] then s
        else
          var op := th.todo[0];
          var nv := Wrap(w, s.cell + Delta(op));
          var th' := Thread(th.todo[1..], Added(op, nv), th.results, th.calls + [|s.history|]);
          State(nv, s.threads[t := th'], s.history + [Call(t, |th.calls|, op)])
  }

  function Init(w: Width, start: int, programs: seq<seq<Op>>): State {
    State(Wrap(w, start), seq(|programs|, t requires 0 <= t < |programs| => Thread(programs[t], Idle, [], [])), [])
  }

  function Run(w: Width, start: int, programs: seq<seq<Op>>, schedule: seq<nat>): State {
    if schedule == [] then Init(w, start, programs)
    else Step(w, Run(w, start, programs, schedule[..|schedule| - 1]), schedule[|schedule| - 1])
  }

  predicate Finished(s: State) {
    forall t :: 0 <= t < |s.threads| ==> s.threads[t].todo == [] && s.threads[t].pending.Idle?
  }

  /** What the first k calls of a history add up to. */
  function Sum(h: seq<Call>, k: nat): int
    requires k <= |h|
  {
    if k == 0 then 0 else Sum(h, k - 1) + Delta(h[k - 1].op)
  }

  /** What call k returns if all calls take effect one after another in the order of the history. */
  function Expected(w: Width, start: int, h: seq<Call>, k: nat): Result
    requires k < |h|
  {
    match h[k].op
    case FetchAdd(v) => Before(ToInt(w, Wrap(w, start + Sum(h, k))))
    case DecAndTest => Test(Wrap(w, start + Sum(h, k + 1)) == 0)
  }

  /** Thread t has called the operations of its program in order, and each result is the expected
      one. */
  predicate ThreadLinearized(w: Width, start: int, h: seq<Call>, program: seq<Op>, t: nat, th: Thread) {
    && |th.calls| <= |program| && th.todo == program[|th.calls|..]
    && |th.calls| == |th.results| + (if th.pending.Idle? then 0 else 1)
    && (forall j :: 0 <= j < |th.calls| ==> th.calls[j] < |h| && h[th.calls[j]] == Call(t, j, program[j]))
    && (forall i, j :: 0 <= i < j < |th.calls| ==> th.calls[i] < th.calls[j])
    && (forall j :: 0 <= j < |th.results| ==> th.results[j] == Expected(w, start, h, th.calls[j]))
    && (th.pending.Added? ==>
          var k := th.calls[|th.calls| - 1];
          th.pending.op == h[k].op && th.pending.nv == Wrap(w, start + Sum(h, k + 1)))
  }

  /** The cell holds the sum of the history, and every call of the history belongs to its thread. */
  predicate Linearized(w: Width, start: int, programs: seq<seq<Op>>, s: State) {
    && |s.threads| == |programs|
    && s.cell == Wrap(w, start + Sum(s.history, |s.history|))
    && (forall k :: 0 <= k < |s.history| ==> Listed(s, k))
    && forall t :: 0 <= t < |programs| ==> ThreadLinearized(w, start, s.history, programs[t], t, s.threads[t])
  }

  predicate Listed(s: State, k: nat)
    requires k < |s.history|
  {
    var c := s.history[k];
    c.thread < |s.threads| && c.index < |s.threads[c.thread].calls| && s.threads[c.thread].calls[c.index] == k
  }

  lemma {:induction false} SumOfPrefix(h: seq<Call>, c: Call, k: nat)
    requires k <= |h|
    ensures Sum(h + [c], k) == Sum(h, k)
  {
    if k > 0 {
      SumOfPrefix(h, c, k - 1);
    }
  }

  lemma ExpectedOfPrefix(w: Width, start: int, h: seq<Call>, c: Call, k: nat)
    requires k < |h|
    ensures Expected(w, start, h + [c], k) == Expected(w, start, h, k)
  {
    SumOfPrefix(h, c, k);
    SumOfPrefix(h, c, k + 1);
  }

  lemma FinishIsExpected(w: Width, start: int, h: seq<Call>, k: nat)
    requires k < |h|
    ensures Finish(w, h[k].op, Wrap(w, start + Sum(h, k + 1))) == Expected(w, start, h, k)
  {
    if h[k].op.FetchAdd? {
      WrapAdd(w, start + Sum(h, k + 1), -h[k].op.v);
    }
  }

  /** A call by another thread leaves a thread's results as they should be. */
  lemma ThreadAfterCall(w: Width, start: int, h: seq<Call>, c: Call, program: seq<Op>, t: nat, th: Thread)
    requires ThreadLinearized(w, start, h, program, t, th)
    ensures ThreadLinearized(w, start, h + [c], program, t, th)
  {
    forall j | 0 <= j < |th.results|
      ensures th.results[j] == Expected(w, start, h + [c], th.calls[j])
    {
      ExpectedOfPrefix(w, start, h, c, th.calls[j]);
    }
    if th.pending.Added? {
      SumOfPrefix(h, c, th.calls[|th.calls| - 1] + 1);
    }
  }

  lemma ThreadAfterOwnCall(w: Width, start: int, h: seq<Call>, program: seq<Op>, t: nat, th: Thread, th': Thread)
    requires ThreadLinearized(w, start, h, program, t, th) && th.pending.Idle? && th.todo != []
    requires var nv := Wrap(w, start + Sum(h, |h|) + Delta(th.todo[0]));
             th' == Thread(th.todo[1..], Added(th.todo[0], nv), th.results, th.calls + [|h|])
    ensures ThreadLinearized(w, start, h + [Call(t, |th.calls|, th.todo[0])], program, t, th')
  {
    var c := Call(t, |th.calls|, th.todo[0]);
    SumOfPrefix(h, c, |h|);
    forall j | 0 <= j < |th.results|
      ensures th'.results[j] == Expected(w, start, h + [c], th'.calls[j])
    {
      ExpectedOfPrefix(w, start, h, c, th.calls[j]);
    }
    assert program[|th.calls|] == th.todo[0];
  }

  lemma FinishedThread(w: Width, start: int, h: seq<Call>, program: seq<Op>, t: nat, th: Thread, th': Thread)
    requires ThreadLinearized(w, start, h, program, t, th) && th.pending.Added?
    requires th' == th.(pending := Idle, results := th.results + [Finish(w, th.pending.op, th.pending.nv)])
    ensures ThreadLinearized(w, start, h, program, t, th')
  {
    FinishIsExpected(w, start, h, th.calls[|th.calls| - 1]);
  }

  lemma FinishKeepsLinearized(w: Width, start: int, programs: seq<seq<Op>>, s: State, t: nat)
    requires Linearized(w, start, programs, s) && t < |programs| && s.threads[t].pending.Added?
    ensures Linearized(w, start, programs, Step(w, s, t))
  {
    var s' := Step(w, s, t);
    FinishedThread(w, start, s.history, programs[t], t, s.threads[t], s'.threads[t]);
    forall k | 0 <= k < |s.history|
      ensures Listed(s', k)
    {
      assert Listed(s, k);
    }
  }

  lemma CallKeepsLinearized(w: Width, start: int, programs: seq<seq<Op>>, s: State, t: nat)
    requires Linearized(w, start, programs, s) && t < |programs|
    requires s.threads[t].pending.Idle? && s.threads[t].todo != []
    ensures Linearized(w, start, programs, Step(w, s, t))
  {
    var th, s' := s.threads[t], Step(w, s, t);
    var c := Call(t, |th.calls|, th.todo[0]);
    WrapAdd(w, start + Sum(s.history, |s.history|), Delta(c.op));
    SumOfPrefix(s.history, c, |s.history|);
    ThreadAfterOwnCall(w, start, s.history, programs[t], t, th, s'.threads[t]);
    forall u | 0 <= u < |programs| && u != t
      ensures ThreadLinearized(w, start, s'.history, programs[u], u, s'.threads[u])
    {
      ThreadAfterCall(w, start, s.history, c, programs[u], u, s.threads[u]);
    }
    forall k | 0 <= k < |s'.history|
      ensures Listed(s', k)
    {
      if k < |s.history| {
        assert Listed(s, k);
      }
    }
  }

  lemma StepKeepsLinearized(w: Width, start: int, programs: seq<seq<Op>>, s: State, t: nat)
    requires Linearized(w, start, programs, s)
    ensures Linearized(w, start, programs, Step(w, s, t))
  {
    if t < |programs| {
      if s.threads[t].pending.Added? {
        FinishKeepsLinearized(w, start, programs, s, t);
      } else if s.threads[t].todo != [] {
        CallKeepsLinearized(w, start, programs, s, t);
      }
    }
  }

  /** However the threads are interleaved, every call returns what it would if the calls happened
      one at a time, in the order of their atomic steps, and each thread's calls keep its order. */
  lemma {:induction false} EveryRunIsLinearized(w: Width, start: int, programs: seq<seq<Op>>, schedule: seq<nat>)
    ensures Linearized(w, start, programs, Run(w, start, programs, schedule))
  {
    if schedule != [] {
      var n := |schedule| - 1;
      EveryRunIsLinearized(w, start, programs, schedule[..n]);
      StepKeepsLinearized(w, start, programs, Run(w, start, programs, schedule[..n]), schedule[n]);
    }
  }

  // ---------- Counting down ----------

  /** n threads that each decrement once. */
  function Decrementers(n: nat): (p: seq<seq<Op>>)
    ensures |p| == n && forall t :: 0 <= t < n ==> p[t] == [DecAndTest]
  {
    seq(n, _ => [DecAndTest])
  }

  lemma {:induction false} SumOfSameOps(h: seq<Call>, op: Op, n: nat)
    requires n <= |h| && forall k :: 0 <= k < n ==> h[k].op == op
    ensures Sum(h, n) == n * Delta(op)
  {
    if n > 0 {
      SumOfSameOps(h, op, n - 1);
    }
  }

  /** All calls of a run come from the programs. */
  lemma CallFromProgram(w: Width, start: int, programs: seq<seq<Op>>, s: State, k: nat)
    requires Linearized(w, start, programs, s) && k < |s.history|
    ensures Listed(s, k)
    ensures var c := s.history[k];
            c.thread < |programs| && c.index < |programs[c.thread]| && programs[c.thread][c.index] == c.op
  {
    assert Listed(s, k);
    var t := s.history[k].thread;
    assert ThreadLinearized(w, start, s.history, programs[t], t, s.threads[t]);
  }

  /** Distinct thread numbers below n cannot be more than n; if each occurs they are exactly n. */
  lemma DistinctThreads(h: seq<Call>, n: nat)
    requires forall k :: 0 <= k < |h| ==> h[k].thread < n
    requires forall i, j :: 0 <= i < j < |h| ==> h[i].thread != h[j].thread
    ensures |h| <= n
    ensures (forall t: nat :: t < n ==> Occurs(h, t)) ==> |h| == n
  {
    var all := Below(n);
    var seen := ThreadSet(h);
    assert seen <= all;
    SubsetSize(seen, all);
    if forall t: nat :: t < n ==> Occurs(h, t) {
      assert all <= seen;
      assert seen == all;
    }
  }

  predicate Occurs(h: seq<Call>, t: nat) {
    exists k :: 0 <= k < |h| && h[k].thread == t
  }

  function Below(n: nat): (s: set<nat>)
    ensures |s| == n && forall t: nat :: t in s <==> t < n
  {
    if n == 0 then {} else Below(n - 1) + {n - 1}
  }

  /** The threads of a history in which each thread occurs at most once. */
  lemma {:induction false} ThreadSet(h: seq<Call>) returns (s: set<nat>)
    requires forall i, j :: 0 <= i < j < |h| ==> h[i].thread != h[j].thread
    ensures |s| == |h|
    ensures forall t :: t in s <==> Occurs(h, t)
  {
    if h == [] {
      s := {};
    } else {
      var init, last := h[..|h| - 1], h[|h| - 1];
      var rest := ThreadSet(init);
      OccursSnoc(h);
      s := rest + {last.thread};
      assert !Occurs(init, last.thread);
    }
  }

  lemma OccursSnoc(h: seq<Call>)
    requires h != []
    ensures forall t :: Occurs(h, t) <==> Occurs(h[..|h| - 1], t) || t == h[|h| - 1].thread
  {
    forall t | Occurs(h[..|h| - 1], t)
      ensures Occurs(h, t)
    {
      var k :| 0 <= k < |h| - 1 && h[..|h| - 1][k].thread == t;
      assert h[k].thread == t;
    }
    forall t | Occurs(h, t) && t != h[|h| - 1].thread
      ensures Occurs(h[..|h| - 1], t)
    {
      var k :| 0 <= k < |h| && h[k].thread == t;
      assert h[..|h| - 1][k].thread == t;
    }
  }

  lemma {:induction false} SubsetSize(a: set<nat>, b: set<nat>)
    requires a <= b
    ensures |a| <= |b|
    ensures |a| == |b| ==> a == b
  {
    if a != {} {
      var x :| x in a;
      SubsetSize(a - {x}, b - {x});
    }
  }

  /** The threads that have decremented, in order, and what each test gave or will give. */
  lemma DecrementOrder(w: Width, n: nat, s: State)
    requires 1 <= n <= Modulus(w) && Linearized(w, n, Decrementers(n), s)
    ensures |s.history| <= n
    ensures forall i, j :: 0 <= i < j < |s.history| ==> s.history[i].thread != s.history[j].thread
    ensures forall k :: 0 <= k < |s.history| ==> s.history[k].thread < n && s.history[k].op == DecAndTest
    ensures forall k :: 0 <= k < |s.history| ==> Expected(w, n, s.history, k) == Test(k + 1 == n)
  {
    var programs := Decrementers(n);
    forall k | 0 <= k < |s.history|
      ensures s.history[k].thread < n && s.history[k].op == DecAndTest
    {
      CallFromProgram(w, n, programs, s, k);
    }
    forall i, j | 0 <= i < j < |s.history|
      ensures s.history[i].thread != s.history[j].thread
    {
      CallFromProgram(w, n, programs, s, i);
      CallFromProgram(w, n, programs, s, j);
    }
    DistinctThreads(s.history, n);
    forall k | 0 <= k < |s.history|
      ensures Expected(w, n, s.history, k) == Test(k + 1 == n)
    {
      DecrementExpected(w, n, s.history, k);
    }
  }

  lemma DecrementExpected(w: Width, n: nat, h: seq<Call>, k: nat)
    requires k < |h| <= n <= Modulus(w) && forall i :: 0 <= i < |h| ==> h[i].op == DecAndTest
    ensures Expected(w, n, h, k) == Test(k + 1 == n)
  {
    SumOfSameOps(h, DecAndTest, k + 1);
  }

  lemma FinishedCount(w: Width, n: nat, s: State)
    requires 1 <= n <= Modulus(w) && Linearized(w, n, Decrementers(n), s) && Finished(s)
    ensures |s.history| == n
  {
    DecrementOrder(w, n, s);
    forall t: nat | t < n
      ensures Occurs(s.history, t)
    {
      assert ThreadLinearized(w, n, s.history, Decrementers(n)[t], t, s.threads[t]);
      var k := s.threads[t].calls[0];
      assert s.history[k].thread == t;
    }
    DistinctThreads(s.history, n);
  }

  /** At any moment of any interleaving of n threads that count a counter down from n, a thread that
      has seen zero is the one that decremented last, after all the others. */
  lemma ZeroIsSeenLast(w: Width, n: nat, schedule: seq<nat>, t: nat)
    requires 1 <= n <= Modulus(w) && t < n
    ensures var s := Run(w, n, Decrementers(n), schedule);
            |s.threads| == n &&
            (Test(true) in s.threads[t].results ==> |s.history| == n && s.history[n - 1].thread == t)
  {
    EveryRunIsLinearized(w, n, Decrementers(n), schedule);
    SeenLast(w, n, Run(w, n, Decrementers(n), schedule), t);
  }

  lemma SeenLast(w: Width, n: nat, s: State, t: nat)
    requires 1 <= n <= Modulus(w) && t < n && Linearized(w, n, Decrementers(n), s)
    ensures Test(true) in s.threads[t].results ==> |s.history| == n && s.history[n - 1].thread == t
  {
    DecrementOrder(w, n, s);
    assert ThreadLinearized(w, n, s.history, Decrementers(n)[t], t, s.threads[t]);
  }

  /** When all n threads are done, exactly one of them has seen zero. */
  lemma ExactlyOneSeesZero(w: Width, n: nat, schedule: seq<nat>)
    requires 1 <= n <= Modulus(w)
    requires Finished(Run(w, n, Decrementers(n), schedule))
    ensures var s := Run(w, n, Decrementers(n), schedule);
            && |s.history| == n && |s.threads| == n && s.cell == 0
            && forall t :: 0 <= t < n ==> s.threads[t].results == [Test(t == s.history[n - 1].thread)]
  {
    EveryRunIsLinearized(w, n, Decrementers(n), schedule);
    OneSeesZero(w, n, Run(w, n, Decrementers(n), schedule));
  }

  lemma OneSeesZero(w: Width, n: nat, s: State)
    requires 1 <= n <= Modulus(w) && Linearized(w, n, Decrementers(n), s) && Finished(s)
    ensures |s.history| == n && s.cell == 0
    ensures forall t :: 0 <= t < n ==> s.threads[t].results == [Test(t == s.history[n - 1].thread)]
  {
    DecrementOrder(w, n, s);
    FinishedCount(w, n, s);
    SumOfSameOps(s.history, DecAndTest, n);
    forall t | 0 <= t < n
      ensures s.threads[t].results == [Test(t == s.history[n - 1].thread)]
    {
      assert ThreadLinearized(w, n, s.history, Decrementers(n)[t], t, s.threads[t]);
      var k := s.threads[t].calls[0];
      assert s.threads[t].results[0] == Expected(w, n, s.history, k);
    }
  }

  // ---------- Unique identifiers ----------

  predicate OnlyIncrements(programs: seq<seq<Op>>) {
    forall t, i :: 0 <= t < |programs| && 0 <= i < |programs[t]| ==> programs[t][i] == FetchAdd(1)
  }

  lemma IncrementExpected(w: Width, start: int, programs: seq<seq<Op>>, s: State, k: nat)
    requires OnlyIncrements(programs) && Linearized(w, start, programs, s) && k < |s.history|
    ensures Expected(w, start, s.history, k) == Before(ToInt(w, Wrap(w, start + k)))
  {
    forall i | 0 <= i <= k
      ensures s.history[i].op == FetchAdd(1)
    {
      CallFromProgram(w, start, programs, s, i);
    }
    SumOfSameOps(s.history, FetchAdd(1), k);
  }

  lemma DrawsDifferIff(w: Width, start: int, programs: seq<seq<Op>>, s: State, i: nat, j: nat)
    requires OnlyIncrements(programs) && Linearized(w, start, programs, s)
    requires i < j < |s.history| && j - i <= Modulus(w)
    ensures Expected(w, start, s.history, i) == Expected(w, start, s.history, j) <==> j == i + Modulus(w)
  {
    IncrementExpected(w, start, programs, s, i);
    IncrementExpected(w, start, programs, s, j);
    WrapEqualIff(w, start + i, start + j);
  }

  /** Threads that draw identifiers with fetchadd(+1) never draw the same one twice, exactly as long
      as there are no more draws than machine integers. */
  lemma IdentifiersAreUniqueIff(w: Width, start: int, programs: seq<seq<Op>>, schedule: seq<nat>)
    requires OnlyIncrements(programs)
    ensures var h := Run(w, start, programs, schedule).history;
            (forall i, j :: 0 <= i < j < |h| ==> Expected(w, start, h, i) != Expected(w, start, h, j))
            <==> |h| <= Modulus(w)
  {
    EveryRunIsLinearized(w, start, programs, schedule);
    UniqueIff(w, start, programs, Run(w, start, programs, schedule));
  }

  lemma UniqueIff(w: Width, start: int, programs: seq<seq<Op>>, s: State)
    requires OnlyIncrements(programs) && Linearized(w, start, programs, s)
    ensures var h := s.history;
            (forall i, j :: 0 <= i < j < |h| ==> Expected(w, start, h, i) != Expected(w, start, h, j))
            <==> |h| <= Modulus(w)
  {
    var h := s.history;
    if |h| > Modulus(w) {
      DrawsDifferIff(w, start, programs, s, 0, Modulus(w));
    } else {
      forall i, j | 0 <= i < j < |h|
        ensures Expected(w, start, h, i) != Expected(w, start, h, j)
      {
        DrawsDifferIff(w, start, programs, s, i, j);
      }
    }
  }

  /** So the results two different draws have returned differ, whichever threads made them. */
  lemma DrawnIdentifiersDiffer(w: Width, start: int, programs: seq<seq<Op>>, schedule: seq<nat>,
                               t1: nat, j1: nat, t2: nat, j2: nat)
    requires OnlyIncrements(programs) && t1 < |programs| && t2 < |programs|
    requires var s := Run(w, start, programs, schedule);
             && |s.history| <= Modulus(w) && |s.threads| == |programs|
             && j1 < |s.threads[t1].results| && j2 < |s.threads[t2].results|
    requires (t1, j1) != (t2, j2)
    ensures var s := Run(w, start, programs, schedule); s.threads[t1].results[j1] != s.threads[t2].results[j2]
  {
    EveryRunIsLinearized(w, start, programs, schedule);
    ResultsDiffer(w, start, programs, Run(w, start, programs, schedule), t1, j1, t2, j2);
  }

  lemma ResultsDiffer(w: Width, start: int, programs: seq<seq<Op>>, s: State, t1: nat, j1: nat, t2: nat, j2: nat)
    requires OnlyIncrements(programs) && Linearized(w, start, programs, s) && |s.history| <= Modulus(w)
    requires t1 < |programs| && t2 < |programs| && (t1, j1) != (t2, j2)
    requires j1 < |s.threads[t1].results| && j2 < |s.threads[t2].results|
    ensures s.threads[t1].results[j1] != s.threads[t2].results[j2]
  {
    assert ThreadLinearized(w, start, s.history, programs[t1], t1, s.threads[t1]);
    assert ThreadLinearized(w, start, s.history, programs[t2], t2, s.threads[t2]);
    var k1, k2 := s.threads[t1].calls[j1], s.threads[t2].calls[j2];
    assert k1 != k2;
    if k1 < k2 {
      DrawsDifferIff(w, start, programs, s, k1, k2);
    } else {
      DrawsDifferIff(w, start, programs, s, k2, k1);
    }
  }

  /** What a history adds up to grows by the addend of each fetch-and-add, and shrinks by one with each
      decrement. */
  lemma SumStep(h: seq<Call>, k: nat)
    requires k < |h|
    ensures Sum(h, 0) == 0
    ensures h[k].op.FetchAdd? ==> Sum(h, k + 1) == Sum(h, k) + h[k].op.v
    ensures h[k].op.DecAndTest? ==> Sum(h, k + 1) == Sum(h, k) - 1
  {
  }

  /** The result a thread holds for a fetch-and-add is the value that all calls before it, by whichever
      thread, had made of the start; taken as an int, it wraps around. */
  lemma FetchedBefore(w: Width, start: int, programs: seq<seq<Op>>, schedule: seq<nat>, t: nat, j: nat)
    requires var s := Run(w, start, programs, schedule);
             t < |s.threads| && j < |s.threads[t].results|
    ensures var s := Run(w, start, programs, schedule);
            var th := s.threads[t];
            && j < |th.calls| && th.calls[j] < |s.history| && s.history[th.calls[j]].thread == t
            && (s.history[th.calls[j]].op.FetchAdd? ==>
                  && th.results[j].Before?
                  && var x := start + Sum(s.history, th.calls[j]);
                     (IsInt(w, x) ==> th.results[j].x == x) && (th.results[j].x - x) % Modulus(w) == 0)
  {
    var s := Run(w, start, programs, schedule);
    EveryRunIsLinearized(w, start, programs, schedule);
    assert ThreadLinearized(w, start, s.history, programs[t], t, s.threads[t]);
    var x := start + Sum(s.history, s.threads[t].calls[j]);
    if IsInt(w, x) {
      WrapToInt(w, x);
    }
    WrappedDiffers(w, x);
  }

  /** Wrapping changes a value by a multiple of the number of machine integers. */
  lemma {:induction false} WrappedDiffers(w: Width, x: int)
    ensures (ToInt(w, Wrap(w, x)) - x) % Modulus(w) == 0
    decreases if x < 0 then Modulus(w) - x else x
  {
    if x < 0 {
      WrappedDiffers(w, x + Modulus(w));
      ModuloShift(w, ToInt(w, Wrap(w, x)) - x - Modulus(w));
    } else if x >= Modulus(w) {
      WrappedDiffers(w, x - Modulus(w));
      ModuloShift(w, ToInt(w, Wrap(w, x)) - x);
    } else {
      ModuloShift(w, ToInt(w, x) - x);
    }
  }

  // ---------- Reference counts ----------

  /** A count that never leaves 0..modulus-1 is the number of references, and a decrement reports
      zero exactly when it drops the last one, whatever mixture of calls the threads make. */
  lemma ReferenceCountIsExact(w: Width, start: int, programs: seq<seq<Op>>, schedule: seq<nat>, k: nat)
    requires var h := Run(w, start, programs, schedule).history;
             k < |h| && forall i :: 0 <= i <= |h| ==> 0 <= start + Sum(h, i) < Modulus(w)
    ensures var s := Run(w, start, programs, schedule);
            && s.cell == start + Sum(s.history, |s.history|)
            && (s.history[k].op.DecAndTest? ==>
                  Expected(w, start, s.history, k) == Test(start + Sum(s.history, k + 1) == 0))
  {
    var s := Run(w, start, programs, schedule);
    EveryRunIsLinearized(w, start, programs, schedule);
    assert 0 <= start + Sum(s.history, |s.history|) < Modulus(w);
    assert 0 <= start + Sum(s.history, k + 1) < Modulus(w);
  }

  /** So the result a thread holds for a decrement is true exactly when that call dropped the last
      reference. */
  lemma DroppedLastIff(w: Width, start: int, programs: seq<seq<Op>>, schedule: seq<nat>, t: nat, j: nat)
    requires var s := Run(w, start, programs, schedule);
             && (forall i :: 0 <= i <= |s.history| ==> 0 <= start + Sum(s.history, i) < Modulus(w))
             && t < |s.threads| && j < |s.threads[t].results|
    ensures var s := Run(w, start, programs, schedule);
            var th := s.threads[t];
            && j < |th.calls| && th.calls[j] < |s.history| && s.history[th.calls[j]].thread == t
            && (s.history[th.calls[j]].op.DecAndTest? ==>
                  th.results[j] == Test(start + Sum(s.history, th.calls[j] + 1) == 0))
  {
    var s := Run(w, start, programs, schedule);
    EveryRunIsLinearized(w, start, programs, schedule);
    assert ThreadLinearized(w, start, s.history, programs[t], t, s.threads[t]);
    ReferenceCountIsExact(w, start, programs, schedule, s.threads[t].calls[j]);
  }
}
