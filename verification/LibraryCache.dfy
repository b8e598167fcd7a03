/** The counted library over its dynamic library: Load and Unload hold the library's mutex while they open, run
    callbacks and close, but lookups do not take it and interleave with every step. */
module LibraryCache {
  import opened Options
  import L = LibraryLifecycle
  import C = SymbolCache

  /** Where the call that holds the mutex is: Loading has opened the library and runs the load callbacks,
      Unloading has closed it and runs the unload callbacks. */
  datatype Phase = Free | Loading | Unloading

  datatype State = State(rc: nat, phase: Phase, dl: C.State)

  datatype Event =
    | LoadAgain
    | LoadOpen(address: int, exports: set<string>)
    | LoadDone
    | LoadFails(closeOk: bool)
    | LoadPanics
    | UnloadOne
    | UnloadClose(closeOk: bool)
    | UnloadDone
    | UnloadFails
    | UnloadPanics
    | Lookup(step: C.Event)

  function Start(n: nat): (s: State) { State(0, Free, C.Start(n)) }

  predicate Enabled(s: State, e: Event) {
    match e
    case LoadAgain => s.phase == Free && s.rc > 0
    case LoadOpen(_, _) => s.phase == Free && s.rc == 0
    case LoadDone => s.phase == Loading
    case LoadFails(_) => s.phase == Loading
    case LoadPanics => s.phase == Loading
    case UnloadOne => s.phase == Free && s.rc > 1
    case UnloadClose(_) => s.phase == Free && s.rc == 1
    case UnloadDone => s.phase == Unloading && s.rc > 0
    case UnloadFails => s.phase == Unloading
    case UnloadPanics => s.phase == Unloading && s.rc > 0
    case Lookup(step) => (step.Begin? || step.Dlsym? || step.Record?) && C.Enabled(s.dl, step)
  }

  /** dl.Close: closing what is not open does nothing. */
  function Closed(dl: C.State, closeOk: bool): (r: C.State) {
    if dl.handle.Some? && closeOk then C.Next(dl, C.Close) else dl
  }

  function Next(s: State, e: Event): (r: State)
    requires Enabled(s, e)
  {
    match e
    case LoadAgain => s.(rc := s.rc + 1)
    case LoadOpen(address, exports) => s.(phase := Loading, dl := C.Next(s.dl, C.Open(address, exports)))
    case LoadDone => s.(rc := s.rc + 1, phase := Free)
    case LoadFails(closeOk) => s.(phase := Free, dl := Closed(s.dl, closeOk))
    case LoadPanics => s.(phase := Free)
    case UnloadOne => s.(rc := s.rc - 1)
    case UnloadClose(closeOk) =>
      if s.dl.handle.Some? && !closeOk then s else s.(phase := Unloading, dl := Closed(s.dl, closeOk))
    case UnloadDone => s.(rc := s.rc - 1, phase := Free)
    case UnloadFails => s.(phase := Free)
    case UnloadPanics => s.(rc := s.rc - 1, phase := Free)
    case Lookup(step) => s.(dl := C.Next(s.dl, step))
  }

  // ---------------------------------------------------------------- whole calls

  function Abstract(s: State): (st: L.State) { L.State(s.rc, s.dl.handle.Some?) }

  /** All steps of one call in a row. */
  function Serve(s: State, op: L.Op, address: int, exports: set<string>): (r: State)
    requires s.phase == Free
  {
    match op
    case Load(openOk, callbacks, closeOk) =>
      if s.rc > 0 then Next(s, LoadAgain)
      else if !openOk then s
      else
        var loading := Next(s, LoadOpen(address, exports));
        (match L.Callbacks(callbacks)
         case Succeeds => Next(loading, LoadDone)
         case Fails => Next(loading, LoadFails(closeOk))
         case Panics => Next(loading, LoadPanics))
    case Unload(closeOk, callbacks) =>
      if s.rc == 0 then s
      else if s.rc != 1 then Next(s, UnloadOne)
      else
        var closed := Next(s, UnloadClose(closeOk));
        if closed.phase == Free then closed
        else
          match L.Callbacks(callbacks)
          case Succeeds => Next(closed, UnloadDone)
          case Fails => Next(closed, UnloadFails)
          case Panics => Next(closed, UnloadPanics)
  }

  /** The steps of a call together do to count and handle what the call does. */
  lemma ServeIsCall(s: State, op: L.Op, address: int, exports: set<string>)
    requires s.phase == Free
    ensures Abstract(Serve(s, op, address, exports)) == L.Call(Abstract(s), op).after
    ensures Serve(s, op, address, exports).phase == Free
  {
    hide L.Callbacks;
  }

  // ---------------------------------------------------------------- runs

  /** The steps that make count and handle disagree. */
  predicate IsBreak(e: Event) {
    e.LoadPanics? || e.UnloadFails? || (e.LoadFails? && !e.closeOk)
  }

  ghost predicate IsRun(states: seq<State>, events: seq<Event>) {
    && |states| == |events| + 1
    && forall k :: 0 <= k < |events| ==> Enabled(states[k], events[k]) && states[k + 1] == Next(states[k], events[k])
  }

  /** The cache is right, and the handle is open when the count or the call in progress says so. */
  ghost predicate Inv(s: State) {
    && C.Inv(s.dl)
    && match s.phase
       case Free => s.dl.handle.Some? <==> s.rc > 0
       case Loading => s.dl.handle.Some? && s.rc == 0
       case Unloading => s.dl.handle.None? && s.rc == 1
  }

  lemma StepKeepsInv(s: State, e: Event)
    requires Inv(s) && Enabled(s, e) && !IsBreak(e)
    ensures Inv(Next(s, e))
  {
    hide C.Inv;
    match e
    case LoadOpen(address, exports) => C.StepKeepsInv(s.dl, C.Open(address, exports));
    case Lookup(step) => C.StepKeepsInv(s.dl, step);
    case _ => if s.dl.handle.Some? { C.StepKeepsInv(s.dl, C.Close); }
  }

  /** Whatever files are opened, at whatever addresses, and however lookups interleave: unless a load callback
      panics, an unload callback fails, or a failed load cannot be closed, every remembered answer is the answer of
      the library that is open. */
  lemma {:induction false} RunKeepsCache(n: nat, states: seq<State>, events: seq<Event>, k: nat)
    requires IsRun(states, events) && states[0] == Start(n) && k < |states|
    requires forall j :: 0 <= j < k ==> !IsBreak(events[j])
    ensures Inv(states[k]) && C.CacheIsCurrent(states[k].dl)
    decreases k
  {
    hide Next, Enabled, IsBreak;
    if k == 0 {
      C.StartInv(n);
    } else {
      RunKeepsCache(n, states, events, k - 1);
      StepKeepsInv(states[k - 1], events[k - 1]);
    }
  }

  /** A load callback that panics is enough: the next Load opens over the open library and keeps its answers. */
  lemma PanicGoesStale(first: int, second: int, symbol: string)
    ensures exists states: seq<State>, events: seq<Event> ::
              IsRun(states, events) && states[0] == Start(1) && !C.CacheIsCurrent(states[|events|].dl)
  {
    var s0 := Start(1);
    var events := [LoadOpen(first, {symbol}), Lookup(C.Begin(0, symbol)), Lookup(C.Dlsym(0, true)),
                   Lookup(C.Record(0)), LoadPanics, LoadOpen(second, {})];
    var s1 := Next(s0, events[0]);
    var s2 := Next(s1, events[1]);
    var s3 := Next(s2, events[2]);
    var s4 := Next(s3, events[3]);
    var s5 := Next(s4, events[4]);
    var s6 := Next(s5, events[5]);
    var states := [s0, s1, s2, s3, s4, s5, s6];
    assert s6.dl.caches[symbol] && symbol !in s6.dl.exports;
    assert IsRun(states, events);
  }
}
