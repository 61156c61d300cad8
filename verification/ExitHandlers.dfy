/** Clean-up at process exit, registered with atexit or run from a destructor that a flag guards: the
    list of EGL exit calls, and the cache of GLX driver configurations. */
module ExitHandlers {
  import opened Options
  import opened Places

  datatype Form = AtExit | Destructor

  /** What a program does before it exits. */
  datatype Event = AddCall(func: Option<nat>) | CacheConfig(id: nat)

  datatype Cleanup = EglCall(func: nat) | FreeConfig(id: nat)

  datatype Handler = EglHandler | GlxHandler

  // ---------- What should happen at exit ----------

  /** The EGL clean-up a history asks for: the registered functions, the latest first; a null function
      is not registered. */
  function EglTrace(h: seq<Event>): seq<Cleanup> {
    if h == [] then []
    else
      var before := EglTrace(h[..|h| - 1]);
      match h[|h| - 1]
      case AddCall(Some(f)) => [EglCall(f)] + before
      case _ => before
  }

  /** The GLX clean-up: the cached configurations are freed, the latest first. */
  function GlxTrace(h: seq<Event>): seq<Cleanup> {
    if h == [] then []
    else
      var before := GlxTrace(h[..|h| - 1]);
      match h[|h| - 1]
      case CacheConfig(id) => [FreeConfig(id)] + before
      case _ => before
  }

  lemma {:induction false} TracesAreOfTheirKind(h: seq<Event>)
    ensures forall i :: 0 <= i < |EglTrace(h)| ==> EglTrace(h)[i].EglCall?
    ensures forall i :: 0 <= i < |GlxTrace(h)| ==> GlxTrace(h)[i].FreeConfig?
  {
    if h != [] {
      TracesAreOfTheirKind(h[..|h| - 1]);
    }
  }

  /** The EGL clean-up calls each registered function once, in the reverse order of registration. */
  lemma EglTraceReverses(h: seq<Event>, flags: seq<bool>) returns (at: seq<nat>)
    requires |flags| == |h| && forall i :: 0 <= i < |h| ==> flags[i] == (h[i].AddCall? && h[i].func.Some?)
    ensures AreSet(at, flags) && |EglTrace(h)| == |at|
    ensures forall k :: 0 <= k < |at| ==>
              at[k] < |h| && h[at[k]].AddCall? && EglTrace(h)[|at| - 1 - k] == EglCall(h[at[k]].func.value)
  {
    at := SetPlaces(flags, |flags|);
    PlacesAreSet(flags);
    EglTraceAtPlaces(h, flags, |h|);
    assert h[..|h|] == h;
  }

  lemma {:induction false} EglTraceAtPlaces(h: seq<Event>, flags: seq<bool>, n: nat)
    requires n <= |flags| == |h| && forall i :: 0 <= i < |h| ==> flags[i] == (h[i].AddCall? && h[i].func.Some?)
    ensures var at, t := SetPlaces(flags, n), EglTrace(h[..n]);
            |t| == |at| && forall k :: 0 <= k < |at| ==>
              at[k] < n && h[at[k]].AddCall? && h[at[k]].func.Some? && t[|at| - 1 - k] == EglCall(h[at[k]].func.value)
  {
    if n > 0 {
      EglTraceAtPlaces(h, flags, n - 1);
      assert h[..n][..n - 1] == h[..n - 1];
    }
  }

  /** The GLX clean-up frees each cached configuration once, in the reverse order of insertion. */
  lemma GlxTraceReverses(h: seq<Event>, flags: seq<bool>) returns (at: seq<nat>)
    requires |flags| == |h| && forall i :: 0 <= i < |h| ==> flags[i] == h[i].CacheConfig?
    ensures AreSet(at, flags) && |GlxTrace(h)| == |at|
    ensures forall k :: 0 <= k < |at| ==>
              at[k] < |h| && h[at[k]].CacheConfig? && GlxTrace(h)[|at| - 1 - k] == FreeConfig(h[at[k]].id)
  {
    at := SetPlaces(flags, |flags|);
    PlacesAreSet(flags);
    GlxTraceAtPlaces(h, flags, |h|);
    assert h[..|h|] == h;
  }

  lemma {:induction false} GlxTraceAtPlaces(h: seq<Event>, flags: seq<bool>, n: nat)
    requires n <= |flags| == |h| && forall i :: 0 <= i < |h| ==> flags[i] == h[i].CacheConfig?
    ensures var at, t := SetPlaces(flags, n), GlxTrace(h[..n]);
            |t| == |at| && forall k :: 0 <= k < |at| ==>
              at[k] < n && h[at[k]].CacheConfig? && t[|at| - 1 - k] == FreeConfig(h[at[k]].id)
  {
    if n > 0 {
      GlxTraceAtPlaces(h, flags, n - 1);
      assert h[..n][..n - 1] == h[..n - 1];
    }
  }

  function TraceOf(handler: Handler, h: seq<Event>): seq<Cleanup> {
    match handler
    case EglHandler => EglTrace(h)
    case GlxHandler => GlxTrace(h)
  }

  /** Which of the two was used first, if any. */
  function FirstUsed(h: seq<Event>): Option<Handler> {
    if h == [] then None
    else
      var before := FirstUsed(h[..|h| - 1]);
      if before.Some? then before
      else
        match h[|h| - 1]
        case AddCall(Some(_)) => Some(EglHandler)
        case AddCall(None) => None
        case CacheConfig(_) => Some(GlxHandler)
  }

  function Other(handler: Handler): Handler {
    if handler.EglHandler? then GlxHandler else EglHandler
  }

  function Used(handler: Handler, h: seq<Event>): bool {
    TraceOf(handler, h) != []
  }

  /** The atexit list, oldest first. */
  function Registered(h: seq<Event>): seq<Handler> {
    match FirstUsed(h)
    case None => []
    case Some(first) => if Used(Other(first), h) then [first, Other(first)] else [first]
  }

  /** Handlers registered with atexit run last-in first-out. */
  function AtExitTrace(h: seq<Event>, handlers: seq<Handler>): seq<Cleanup> {
    if handlers == [] then []
    else TraceOf(handlers[|handlers| - 1], h) + AtExitTrace(h, handlers[..|handlers| - 1])
  }

  /** Destructors run in an order fixed when the program is linked. */
  function DestructorTrace(h: seq<Event>, first: Handler): seq<Cleanup> {
    TraceOf(first, h) + TraceOf(Other(first), h)
  }

  function ExitTrace(form: Form, first: Handler, h: seq<Event>): seq<Cleanup> {
    match form
    case AtExit => AtExitTrace(h, Registered(h))
    case Destructor => DestructorTrace(h, first)
  }

  /** The clean-ups of one of the two in a trace. */
  function Only(handler: Handler, trace: seq<Cleanup>): seq<Cleanup> {
    if trace == [] then []
    else
      var before := Only(handler, trace[..|trace| - 1]);
      if trace[|trace| - 1].EglCall? == handler.EglHandler? then before + [trace[|trace| - 1]] else before
  }

  lemma {:induction false} OnlyConcat(handler: Handler, s: seq<Cleanup>, t: seq<Cleanup>)
    ensures Only(handler, s + t) == Only(handler, s) + Only(handler, t)
  {
    if t == [] {
      assert s + t == s;
    } else {
      OnlyConcat(handler, s, t[..|t| - 1]);
      assert (s + t)[..|s + t| - 1] == s + t[..|t| - 1];
    }
  }

  lemma {:induction false} OnlyOf(handler: Handler, trace: seq<Cleanup>, egl: bool)
    requires forall i :: 0 <= i < |trace| ==> trace[i].EglCall? == egl
    ensures Only(handler, trace) == if handler.EglHandler? == egl then trace else []
  {
    if trace != [] {
      OnlyOf(handler, trace[..|trace| - 1], egl);
      assert trace == trace[..|trace| - 1] + [trace[|trace| - 1]];
    }
  }

  /** A handler that has something to do has been used; the first one used does. */
  lemma {:induction false} FirstIsUsed(h: seq<Event>)
    ensures match FirstUsed(h)
            case None => !Used(EglHandler, h) && !Used(GlxHandler, h)
            case Some(first) => Used(first, h)
  {
    if h != [] {
      FirstIsUsed(h[..|h| - 1]);
    }
  }

  /** It is the library of the first event that registers a call or caches a configuration. */
  lemma {:induction false} FirstUsedIsFirst(h: seq<Event>)
    ensures match FirstUsed(h)
            case None => forall i :: 0 <= i < |h| ==> h[i] == AddCall(None)
            case Some(first) =>
              exists i :: 0 <= i < |h| && h[i] != AddCall(None) && first.GlxHandler? == h[i].CacheConfig? &&
                forall j :: 0 <= j < i ==> h[j] == AddCall(None)
  {
    if h != [] {
      var n := |h| - 1;
      FirstUsedIsFirst(h[..n]);
      assert forall j :: 0 <= j < n ==> h[..n][j] == h[j];
      if FirstUsed(h[..n]).None? && h[n] != AddCall(None) {
        assert forall j :: 0 <= j < n ==> h[j] == AddCall(None);
      }
    }
  }

  lemma {:induction false} EglUsedIff(h: seq<Event>)
    ensures Used(EglHandler, h) <==> exists e :: e in h && e.AddCall? && e.func.Some?
  {
    if h != [] {
      EglUsedIff(h[..|h| - 1]);
      assert h == h[..|h| - 1] + [h[|h| - 1]];
    }
  }

  lemma {:induction false} GlxUsedIff(h: seq<Event>)
    ensures Used(GlxHandler, h) <==> exists e :: e in h && e.CacheConfig?
  {
    if h != [] {
      GlxUsedIff(h[..|h| - 1]);
      assert h == h[..|h| - 1] + [h[|h| - 1]];
    }
  }

  lemma AtExitTraceForm(h: seq<Event>)
    ensures AtExitTrace(h, Registered(h)) ==
            match FirstUsed(h)
            case None => []
            case Some(first) => TraceOf(Other(first), h) + TraceOf(first, h)
  {
    FirstIsUsed(h);
    match FirstUsed(h)
    case None =>
    case Some(first) =>
      assert [first][..0] == [];
      assert [first, Other(first)][..1] == [first];
      assert AtExitTrace(h, [first]) == TraceOf(first, h) + [];
  }

  /** Each of the two cleans up the same things in the same reverse order in either form, each once. */
  lemma SameCleanupPerModule(handler: Handler, first: Handler, h: seq<Event>)
    ensures Only(handler, ExitTrace(AtExit, first, h)) == TraceOf(handler, h)
    ensures Only(handler, ExitTrace(Destructor, first, h)) == TraceOf(handler, h)
  {
    OnlyOfBoth(handler, first, h);
    AtExitTraceForm(h);
    match FirstUsed(h)
    case None => FirstIsUsed(h);
    case Some(used) => OnlyOfBoth(handler, Other(used), h);
  }

  lemma OnlyOfBoth(handler: Handler, a: Handler, h: seq<Event>)
    ensures Only(handler, TraceOf(a, h) + TraceOf(Other(a), h)) == TraceOf(handler, h)
  {
    TracesAreOfTheirKind(h);
    OnlyOf(handler, EglTrace(h), true);
    OnlyOf(handler, GlxTrace(h), false);
    OnlyConcat(handler, TraceOf(a, h), TraceOf(Other(a), h));
  }

  /** Taken together the two forms agree exactly when at most one of the two was used, or the one
      first used is destroyed last. */
  lemma SameTraceIff(first: Handler, h: seq<Event>)
    ensures ExitTrace(AtExit, first, h) == ExitTrace(Destructor, first, h) <==>
            !Used(EglHandler, h) || !Used(GlxHandler, h) || FirstUsed(h) == Some(Other(first))
  {
    AtExitTraceForm(h);
    FirstIsUsed(h);
    match FirstUsed(h)
    case None => assert DestructorTrace(h, first) == [];
    case Some(used) =>
      assert used == first || used == Other(first);
      if used == first {
        OrderMatters(first, h);
      }
  }

  lemma OrderMatters(a: Handler, h: seq<Event>)
    ensures TraceOf(a, h) + TraceOf(Other(a), h) == TraceOf(Other(a), h) + TraceOf(a, h) <==>
            !Used(EglHandler, h) || !Used(GlxHandler, h)
  {
    TracesAreOfTheirKind(h);
    DifferentOrder(EglTrace(h), GlxTrace(h));
  }

  lemma DifferentOrder(e: seq<Cleanup>, g: seq<Cleanup>)
    requires forall i :: 0 <= i < |e| ==> e[i].EglCall?
    requires forall i :: 0 <= i < |g| ==> g[i].FreeConfig?
    ensures e + g == g + e <==> e == [] || g == []
  {
    if e == [] {
      assert e + g == g == g + e;
    } else if g == [] {
      assert e + g == e == g + e;
    } else {
      assert (e + g)[0] == e[0] && (g + e)[0] == g[0];
    }
  }

  // ---------- The two libraries ----------

  class Entry {
    const id: nat
    const next: Entry?

    constructor (id: nat, next: Entry?)
      ensures this.id == id && this.next == next
    {
      this.id, this.next := id, next;
    }
  }

  /** The list from e on holds exactly the configurations to be freed, in that order. */
  predicate Lists(e: Entry?, frees: seq<Cleanup>)
    decreases |frees|
  {
    if e == null then frees == []
    else frees != [] && frees[0] == FreeConfig(e.id) && Lists(e.next, frees[1..])
  }

  lemma ListsGrows(e: Entry, frees: seq<Cleanup>)
    requires Lists(e.next, frees)
    ensures Lists(e, [FreeConfig(e.id)] + frees)
  {
    assert ([FreeConfig(e.id)] + frees)[1..] == frees;
  }

  /** The calls of an array of functions, the last first. */
  function CallTrace(calls: seq<nat>): seq<Cleanup> {
    if calls == [] then [] else [EglCall(calls[|calls| - 1])] + CallTrace(calls[..|calls| - 1])
  }

  // What each library keeps agrees with what has happened.

  predicate EglAgrees(h: seq<Event>, calls: seq<nat>, registered: bool) {
    CallTrace(calls) == EglTrace(h) && (registered <==> Used(EglHandler, h))
  }

  predicate GlxAgrees(form: Form, h: seq<Event>, cache: Entry?, everNull: bool) {
    Lists(cache, GlxTrace(h)) && (form.Destructor? ==> (everNull <==> Used(GlxHandler, h)))
  }

  predicate HandlersAgree(form: Form, h: seq<Event>, handlers: seq<Handler>) {
    handlers == if form.AtExit? then Registered(h) else []
  }

  lemma EglAfterCall(h: seq<Event>, calls: seq<nat>, registered: bool, f: nat)
    requires EglAgrees(h, calls, registered)
    ensures EglAgrees(h + [AddCall(Some(f))], calls + [f], true)
  {
    HistoryGrows(h, AddCall(Some(f)));
    assert (calls + [f])[..|calls|] == calls;
  }

  lemma EglAfterInsert(h: seq<Event>, calls: seq<nat>, registered: bool, id: nat)
    requires EglAgrees(h, calls, registered)
    ensures EglAgrees(h + [CacheConfig(id)], calls, registered)
  {
    HistoryGrows(h, CacheConfig(id));
  }

  lemma GlxAfterCall(form: Form, h: seq<Event>, cache: Entry?, everNull: bool, f: nat)
    requires GlxAgrees(form, h, cache, everNull)
    ensures GlxAgrees(form, h + [AddCall(Some(f))], cache, everNull)
  {
    HistoryGrows(h, AddCall(Some(f)));
  }

  lemma GlxAfterInsert(form: Form, h: seq<Event>, everNull: bool, e: Entry)
    requires GlxAgrees(form, h, e.next, everNull)
    ensures GlxAgrees(form, h + [CacheConfig(e.id)], e, form.Destructor? && (everNull || e.next == null))
  {
    HistoryGrows(h, CacheConfig(e.id));
    ListsGrows(e, GlxTrace(h));
  }

  /** With atexit a handler is registered by the first use of its library. */
  function NowRegistered(form: Form, handlers: seq<Handler>, usedBefore: bool, handler: Handler): seq<Handler> {
    if form.AtExit? && !usedBefore then handlers + [handler] else handlers
  }

  lemma HandlersAfterCall(form: Form, h: seq<Event>, handlers: seq<Handler>, registered: bool, f: nat)
    requires HandlersAgree(form, h, handlers) && (registered <==> Used(EglHandler, h))
    ensures HandlersAgree(form, h + [AddCall(Some(f))], NowRegistered(form, handlers, registered, EglHandler))
  {
    HistoryGrows(h, AddCall(Some(f)));
  }

  lemma HandlersAfterInsert(form: Form, h: seq<Event>, handlers: seq<Handler>, cache: Entry?, id: nat)
    requires HandlersAgree(form, h, handlers) && Lists(cache, GlxTrace(h))
    ensures HandlersAgree(form, h + [CacheConfig(id)], NowRegistered(form, handlers, cache != null, GlxHandler))
  {
    HistoryGrows(h, CacheConfig(id));
  }

  class Process {
    const form: Form
    var handlers: seq<Handler>
    var trace: seq<Cleanup>

    // EGL: the exit calls, and the flag that something was registered.
    const exitCalls: array<nat>
    var numExitCalls: nat
    var registered: bool

    // GLX: the cache, newest entry first, and the flag that it has been empty at an insertion.
    var cache: Entry?
    var everNull: bool

    ghost var history: seq<Event>

    constructor (form: Form, capacity: nat)
      ensures Valid() && history == [] && trace == [] && this.form == form
      ensures fresh(exitCalls) && exitCalls.Length == capacity
    {
      this.form := form;
      handlers, trace, history := [], [], [];
      exitCalls := new nat[capacity];
      numExitCalls, registered := 0, false;
      cache, everNull := null, false;
    }

    ghost predicate EglValid()
      reads this, exitCalls
    {
      numExitCalls <= exitCalls.Length && EglAgrees(history, exitCalls[..numExitCalls], registered)
    }

    ghost predicate GlxValid()
      reads this
    {
      GlxAgrees(form, history, cache, everNull)
    }

    /** Each library's data and flag agree with what has happened, and so does the atexit list. */
    ghost predicate Valid()
      reads this, exitCalls
    {
      EglValid() && GlxValid() && HandlersAgree(form, history, handlers)
    }

    /** _eglAddAtExitCall; a call beyond the capacity of the array is a failed assertion. */
    method AddAtExitCall(func: Option<nat>)
      requires Valid() && (func.Some? ==> numExitCalls < exitCalls.Length)
      modifies this, exitCalls
      ensures Valid() && history == old(history) + [AddCall(func)] && trace == old(trace)
    {
      if func.Some? {
        RecordCall(func.value);
      } else {
        HistoryGrows(history, AddCall(func));
        history := history + [AddCall(func)];
      }
    }

    /** The part for a function that is not null. */
    method RecordCall(f: nat)
      requires Valid() && numExitCalls < exitCalls.Length
      modifies this, exitCalls
      ensures Valid() && history == old(history) + [AddCall(Some(f))] && trace == old(trace)
    {
      EglAfterCall(history, exitCalls[..numExitCalls], registered, f);
      GlxAfterCall(form, history, cache, everNull, f);
      HandlersAfterCall(form, history, handlers, registered, f);
      StoreCall(f);
      history := history + [AddCall(Some(f))];
    }

    /** The flag, with atexit the registration the first time, and the function itself. */
    method StoreCall(f: nat)
      requires numExitCalls < exitCalls.Length
      modifies this`registered, this`handlers, this`numExitCalls, exitCalls
      ensures registered && numExitCalls == old(numExitCalls) + 1
      ensures handlers == NowRegistered(form, old(handlers), old(registered), EglHandler)
      ensures exitCalls[..numExitCalls] == old(exitCalls[..numExitCalls]) + [f]
    {
      if form.Destructor? {
        registered := true;
      } else if !registered {
        handlers := handlers + [EglHandler];
        registered := true;
      }
      exitCalls[numExitCalls] := f;
      numExitCalls := numExitCalls + 1;
    }

    /** The insertion at the end of glXGetDriverConfig. */
    method InsertConfig(id: nat)
      requires Valid()
      modifies this
      ensures Valid() && history == old(history) + [CacheConfig(id)] && trace == old(trace)
    {
      EglAfterInsert(history, exitCalls[..numExitCalls], registered, id);
      HandlersAfterInsert(form, history, handlers, cache, id);
      ghost var wasNull := everNull;
      var e := PutInFront(id);
      GlxAfterInsert(form, history, wasNull, e);
      history := history + [CacheConfig(id)];
    }

    /** The new entry, and the flag or the registration if the list was empty. */
    method PutInFront(id: nat) returns (e: Entry)
      modifies this`cache, this`everNull, this`handlers
      ensures cache == e && e.id == id && e.next == old(cache)
      ensures everNull == (old(everNull) || (form.Destructor? && e.next == null))
      ensures handlers == NowRegistered(form, old(handlers), e.next != null, GlxHandler)
    {
      e := new Entry(id, cache);
      cache := e;
      if e.next == null {
        if form.Destructor? {
          everNull := true;
        } else {
          handlers := handlers + [GlxHandler];
        }
      }
    }

    /** _eglAtExit */
    method EglAtExit()
      requires EglValid()
      modifies this`trace
      ensures trace == old(trace) + EglTrace(history)
    {
      if form.Destructor? && !registered {
        return;
      }
      var i := numExitCalls;
      ghost var rest := EglTrace(history);
      while i > 0
        invariant 0 <= i <= numExitCalls
        invariant rest == CallTrace(exitCalls[..i])
        invariant trace + rest == old(trace) + EglTrace(history)
      {
        i := i - 1;
        assert exitCalls[..i + 1][..i] == exitCalls[..i];
        rest := CallTrace(exitCalls[..i]);
        Regroup(trace, [EglCall(exitCalls[i])], rest);
        trace := trace + [EglCall(exitCalls[i])];
      }
    }

    /** clear_driver_config_cache: every entry is unlinked and freed, and none is left. */
    method ClearConfigs()
      requires GlxValid()
      modifies this`trace, this`cache
      ensures cache == null && trace == old(trace) + GlxTrace(history)
    {
      if form.Destructor? && !everNull {
        return;
      }
      ghost var rest := GlxTrace(history);
      while cache != null
        invariant Lists(cache, rest)
        invariant trace + rest == old(trace) + GlxTrace(history)
        decreases |rest|
      {
        var e := cache;
        cache := e.next;
        trace := trace + [FreeConfig(e.id)];
        rest := rest[1..];
      }
    }

    method RunHandler(handler: Handler)
      requires if handler.EglHandler? then EglValid() else GlxValid()
      modifies this`trace, this`cache
      ensures trace == old(trace) + TraceOf(handler, history)
      ensures cache == if handler.GlxHandler? then null else old(cache)
    {
      if handler == EglHandler {
        EglAtExit();
      } else {
        ClearConfigs();
      }
    }

    /** The atexit list, last-in first-out; it never holds more than the two handlers. */
    method RunAtExitList()
      requires EglValid() && GlxValid() && handlers == Registered(history)
      modifies this`trace, this`cache
      ensures trace == old(trace) + AtExitTrace(history, handlers) && cache == null
    {
      AtExitTraceForm(history);
      FirstIsUsed(history);
      if |handlers| == 2 {
        assert handlers[1] == Other(handlers[0]) && FirstUsed(history) == Some(handlers[0]);
        RunHandler(handlers[1]);
        RunHandler(handlers[0]);
        Regroup(old(trace), TraceOf(handlers[1], history), TraceOf(handlers[0], history));
      } else if |handlers| == 1 {
        RunHandler(handlers[0]);
      }
    }

    method RunDestructors(first: Handler)
      requires EglValid() && GlxValid()
      modifies this`trace, this`cache
      ensures trace == old(trace) + DestructorTrace(history, first) && cache == null
    {
      RunHandler(first);
      RunHandler(Other(first));
      Regroup(old(trace), TraceOf(first, history), TraceOf(Other(first), history));
    }

    /** Process exit. */
    method Exit(first: Handler)
      requires Valid()
      modifies this`trace, this`cache
      ensures trace == old(trace) + ExitTrace(form, first, history) && cache == null
    {
      if form == AtExit {
        RunAtExitList();
      } else {
        RunDestructors(first);
      }
    }
  }

  // ---------- Whole runs ----------

  lemma {:induction false} CallTraceLength(calls: seq<nat>)
    ensures |CallTrace(calls)| == |calls|
  {
    if calls != [] {
      CallTraceLength(calls[..|calls| - 1]);
    }
  }

  lemma EglTraceGrows(h: seq<Event>, i: nat)
    requires i < |h|
    ensures var n := |EglTrace(h[..i])|;
            |EglTrace(h[..i + 1])| == if h[i].AddCall? && h[i].func.Some? then n + 1 else n
  {
    assert h[..i + 1] == h[..i] + [h[i]];
    HistoryGrows(h[..i], h[i]);
  }

  lemma {:induction false} EglTraceMonotone(h: seq<Event>, i: nat)
    requires i <= |h|
    ensures |EglTrace(h[..i])| <= |EglTrace(h)|
    decreases |h| - i
  {
    if i == |h| {
      assert h[..i] == h;
    } else {
      EglTraceGrows(h, i);
      EglTraceMonotone(h, i + 1);
    }
  }

  /** A call that is still to be registered finds room. */
  lemma RoomForCall(p: Process, h: seq<Event>, i: nat)
    requires i < |h| && p.EglValid() && p.history == h[..i] && |EglTrace(h)| <= p.exitCalls.Length
    ensures h[i].AddCall? && h[i].func.Some? ==> p.numExitCalls < p.exitCalls.Length
  {
    CallTraceLength(p.exitCalls[..p.numExitCalls]);
    EglTraceGrows(h, i);
    EglTraceMonotone(h, i + 1);
  }

  method Perform(p: Process, e: Event)
    requires p.Valid() && (e.AddCall? && e.func.Some? ==> p.numExitCalls < p.exitCalls.Length)
    modifies p, p.exitCalls
    ensures p.Valid() && p.history == old(p.history) + [e] && p.trace == old(p.trace)
  {
    match e
    case AddCall(func) => p.AddAtExitCall(func);
    case CacheConfig(id) => p.InsertConfig(id);
  }

  /** A process that does all of h, in which no more calls are registered than the array holds, and then
      exits: the clean-up is the one h asks for, and the cache is empty. */
  method RunAndExit(form: Form, capacity: nat, first: Handler, h: seq<Event>) returns (p: Process)
    requires |EglTrace(h)| <= capacity
    ensures p.trace == ExitTrace(form, first, h) && p.cache == null
  {
    p := new Process(form, capacity);
    var i := 0;
    while i < |h|
      invariant 0 <= i <= |h|
      invariant fresh(p) && fresh(p.exitCalls) && p.exitCalls.Length == capacity && p.form == form
      invariant p.Valid() && p.history == h[..i] && p.trace == []
    {
      RoomForCall(p, h, i);
      Perform(p, h[i]);
      assert h[..i + 1] == h[..i] + [h[i]];
      i := i + 1;
    }
    assert h[..i] == h;
    p.Exit(first);
  }

  lemma Regroup(a: seq<Cleanup>, b: seq<Cleanup>, c: seq<Cleanup>)
    ensures (a + b) + c == a + (b + c)
  {
  }

  lemma HistoryGrows(h: seq<Event>, e: Event)
    ensures EglTrace(h + [e]) == (if e.AddCall? && e.func.Some? then [EglCall(e.func.value)] else []) + EglTrace(h)
    ensures GlxTrace(h + [e]) == if e.CacheConfig? then [FreeConfig(e.id)] + GlxTrace(h) else GlxTrace(h)
    ensures Registered(h + [e]) ==
            match e
            case AddCall(None) => Registered(h)
            case AddCall(Some(_)) => if Used(EglHandler, h) then Registered(h) else Registered(h) + [EglHandler]
            case CacheConfig(_) => if Used(GlxHandler, h) then Registered(h) else Registered(h) + [GlxHandler]
  {
    assert (h + [e])[..|h|] == h;
    FirstIsUsed(h);
  }
}
