/** Interleaved callers of AMDSMI.Init and AMDSMI.Shutdown over one counted library and the vendor's own
    initialisation count.  Load and Unload are atomic; the symbol lookup, the vendor calls and everything
    between them are separate steps. */
module AmdSmiClients {
  import opened AmdSmiReturns
  import L = LibraryLifecycle

  /** Where a caller is.  Loaded and Resolved are inside Init, after Load and after the lookup; Ready is
      between Init and Shutdown; Leaving and Released are inside Shutdown, after the lookup and after the
      vendor's shutdown. */
  datatype Phase = Idle | Loaded | Resolved | Ready | Leaving | Released

  /** `leaked` counts holds on the library that no caller will ever give back: Init does not unload when it
      fails after Load, and a failed Unload is not tried again. */
  datatype State = State(lib: L.State, vendor: nat, callers: seq<Phase>, leaked: nat)

  /** A step of caller i, with what the world answers. */
  datatype Event =
    | LoadStep(i: nat, op: L.Op)
    | InitLookup(i: nat, found: bool)
    | VendorInit(i: nat, ret: Return)
    | ShutdownLookup(i: nat, found: bool)
    | VendorShutdown(i: nat, ret: Return)
    | UnloadStep(i: nat, op: L.Op)

  function Start(n: nat): (s: State) {
    State(L.FRESH, 0, seq(n, _ => Idle), 0)
  }

  /** library.Lookup reads the count without the lock; the dynamic library then needs an open handle. */
  predicate Finds(s: State, found: bool) {
    s.lib.rc != 0 && s.lib.open && found
  }

  function Move(s: State, i: nat, to: Phase): (r: State)
    requires i < |s.callers|
  {
    s.(callers := s.callers[i := to])
  }

  /** Whether caller i can take the step: callers shut down only what they initialised. */
  predicate Enabled(s: State, e: Event) {
    e.i < |s.callers| &&
    match e
    case LoadStep(i, op) => s.callers[i] == Idle && op.Load?
    case InitLookup(i, _) => s.callers[i] == Loaded
    case VendorInit(i, _) => s.callers[i] == Resolved
    case ShutdownLookup(i, _) => s.callers[i] == Ready
    case VendorShutdown(i, _) => s.callers[i] == Leaving
    case UnloadStep(i, op) => s.callers[i] == Released && op.Unload?
  }

  function Next(s: State, e: Event): (r: State)
    requires Enabled(s, e)
  {
    match e
    case LoadStep(i, op) =>
      var call := L.Call(s.lib, op);
      Move(s.(lib := call.after), i, if call.outcome == L.Done then Loaded else Idle)
    case InitLookup(i, found) =>
      if Finds(s, found) then Move(s, i, Resolved) else Move(s.(leaked := s.leaked + 1), i, Idle)
    case VendorInit(i, ret) =>
      if ret == Success then Move(s.(vendor := s.vendor + 1), i, Ready)
      else Move(s.(leaked := s.leaked + 1), i, Idle)
    case ShutdownLookup(i, found) =>
      if Finds(s, found) then Move(s, i, Leaving) else s
    case VendorShutdown(i, ret) =>
      if ret == Success then Move(s.(vendor := if s.vendor > 0 then s.vendor - 1 else 0), i, Released)
      else Move(s, i, Ready)
    case UnloadStep(i, op) =>
      var call := L.Call(s.lib, op);
      Move(s.(lib := call.after, leaked := s.leaked + if call.outcome == L.Failed then 1 else 0), i, Idle)
  }

  datatype Reply = Continues | Returns(ret: Return) | PanicsOut

  /** What Init or Shutdown returns at a step, if the step ends the call. */
  function ReplyOf(s: State, e: Event): (r: Reply)
    requires Enabled(s, e)
  {
    match e
    case LoadStep(_, op) => if L.Call(s.lib, op).outcome == L.Done then Continues else Returns(LibraryNotFound)
    case InitLookup(_, found) => if Finds(s, found) then Continues else Returns(FunctionNotFound)
    case VendorInit(_, ret) => Returns(ret)
    case ShutdownLookup(_, found) => if Finds(s, found) then Continues else Returns(FunctionNotFound)
    case VendorShutdown(_, ret) => if ret == Success then Continues else Returns(ret)
    case UnloadStep(_, op) =>
      match L.Call(s.lib, op).outcome
      case Done => Returns(Success)
      case Panicked => PanicsOut
      case _ => Returns(LibraryNotFound)
  }

  /** No load callback panics, no unload callback fails, and a failed load can be undone. */
  predicate Benign(s: State, e: Event) {
    (e.LoadStep? || e.UnloadStep?) ==> !L.Breaks(s.lib, e.op)
  }

  /** The states a run of steps reaches, in order, from s. */
  ghost predicate IsRun(states: seq<State>, events: seq<Event>) {
    && |states| == |events| + 1
    && forall k :: 0 <= k < |events| ==>
         Enabled(states[k], events[k]) && Benign(states[k], events[k]) && states[k + 1] == Next(states[k], events[k])
  }

  // ---------------------------------------------------------------- counting callers

  predicate IsActive(p: Phase) { p != Idle }
  predicate IsInitialised(p: Phase) { p == Ready || p == Leaving }

  function Active(ps: seq<Phase>): (n: nat) {
    if ps == [] then 0 else Active(ps[..|ps| - 1]) + if IsActive(ps[|ps| - 1]) then 1 else 0
  }

  function Initialised(ps: seq<Phase>): (n: nat) {
    if ps == [] then 0 else Initialised(ps[..|ps| - 1]) + if IsInitialised(ps[|ps| - 1]) then 1 else 0
  }

  lemma {:induction false} CountMove(ps: seq<Phase>, i: nat, p: Phase)
    requires i < |ps|
    ensures Active(ps[i := p]) == Active(ps) - (if IsActive(ps[i]) then 1 else 0) + (if IsActive(p) then 1 else 0)
    ensures Initialised(ps[i := p]) ==
            Initialised(ps) - (if IsInitialised(ps[i]) then 1 else 0) + (if IsInitialised(p) then 1 else 0)
    decreases |ps|
  {
    var n := |ps| - 1;
    if i < n {
      CountMove(ps[..n], i, p);
      assert ps[i := p][..n] == ps[..n][i := p];
    } else {
      assert ps[i := p][..n] == ps[..n];
    }
  }

  lemma {:induction false} CountIdle(n: nat)
    ensures var ps := seq(n, _ => Idle); Active(ps) == 0 && Initialised(ps) == 0
  {
    if n > 0 {
      CountIdle(n - 1);
      assert seq(n, _ => Idle)[..n - 1] == seq(n - 1, _ => Idle);
    }
  }

  lemma {:induction false} SomeActive(ps: seq<Phase>, i: nat)
    requires i < |ps| && IsActive(ps[i])
    ensures Active(ps) > 0
    ensures Active(ps) == 1 ==> forall j :: 0 <= j < |ps| && j != i ==> ps[j] == Idle
    decreases |ps|
  {
    var n := |ps| - 1;
    if i < n {
      SomeActive(ps[..n], i);
      assert forall j :: 0 <= j < n ==> ps[j] == ps[..n][j];
    } else if Active(ps) == 1 {
      NoneActive(ps[..n]);
      assert forall j :: 0 <= j < n ==> ps[j] == ps[..n][j];
    }
  }

  lemma {:induction false} NoneActive(ps: seq<Phase>)
    requires Active(ps) == 0
    ensures forall j :: 0 <= j < |ps| ==> ps[j] == Idle
    decreases |ps|
  {
    if ps != [] {
      var n := |ps| - 1;
      NoneActive(ps[..n]);
      assert forall j :: 0 <= j < n ==> ps[j] == ps[..n][j];
    }
  }

  // ---------------------------------------------------------------- the invariant

  /** The count is the vendor's count, the callers on their way in or out, and what has been leaked. */
  ghost predicate Inv(s: State) {
    && s.lib.rc == Active(s.callers) + s.leaked
    && s.vendor == Initialised(s.callers)
    && L.Consistent(s.lib)
  }

  lemma StepKeepsInv(s: State, e: Event)
    requires Inv(s) && Enabled(s, e) && Benign(s, e)
    ensures Inv(Next(s, e))
  {
    hide Active, Initialised, L.Callbacks;
    CountMove(s.callers, e.i, Next(s, e).callers[e.i]);
    SomeActiveOrIdle(s, e.i);
    assert Next(s, e).callers == s.callers[e.i := Next(s, e).callers[e.i]];
    if e.LoadStep? || e.UnloadStep? { L.StepConsistent(s.lib, e.op); }
  }

  lemma SomeActiveOrIdle(s: State, i: nat)
    requires i < |s.callers|
    ensures IsActive(s.callers[i]) ==> Active(s.callers) > 0
  {
    hide Active;
    if IsActive(s.callers[i]) { SomeActive(s.callers, i); }
  }

  /** In every interleaving of any number of callers, the invariant holds throughout. */
  lemma {:induction false} RunKeepsInv(n: nat, states: seq<State>, events: seq<Event>, k: nat)
    requires IsRun(states, events) && states[0] == Start(n) && k < |states|
    ensures Inv(states[k])
    decreases k
  {
    hide Next, Enabled, Benign, Inv;
    if k == 0 {
      StartInv(n);
    } else {
      RunKeepsInv(n, states, events, k - 1);
      StepKeepsInv(states[k - 1], events[k - 1]);
    }
  }

  lemma StartInv(n: nat)
    ensures Inv(Start(n))
  {
    CountIdle(n);
  }

  // ---------------------------------------------------------------- what callers can rely on

  /** Callers between Load and the vendor's init, or between the vendor's shutdown and Unload. */
  predicate IsMidway(p: Phase) { p == Loaded || p == Resolved || p == Released }

  function Midway(ps: seq<Phase>): (n: nat) {
    if ps == [] then 0 else Midway(ps[..|ps| - 1]) + if IsMidway(ps[|ps| - 1]) then 1 else 0
  }

  lemma {:induction false} ActiveSplits(ps: seq<Phase>)
    ensures Active(ps) == Initialised(ps) + Midway(ps)
    decreases |ps|
  {
    if ps != [] { ActiveSplits(ps[..|ps| - 1]); }
  }

  lemma {:induction false} SomeMidway(ps: seq<Phase>, i: nat)
    requires i < |ps| && IsMidway(ps[i])
    ensures Midway(ps) > 0
    decreases |ps|
  {
    if i < |ps| - 1 { SomeMidway(ps[..|ps| - 1], i); }
  }

  /** At every point of every run the count is the vendor's count, plus the callers midway, plus what has been
      leaked. */
  lemma CountIsExact(n: nat, states: seq<State>, events: seq<Event>, k: nat)
    requires IsRun(states, events) && states[0] == Start(n) && k < |states|
    ensures states[k].lib.rc == states[k].vendor + Midway(states[k].callers) + states[k].leaked
    ensures states[k].lib.open <==> states[k].lib.rc > 0
  {
    hide IsRun, Active, Initialised, Midway;
    RunKeepsInv(n, states, events, k);
    ActiveSplits(states[k].callers);
  }

  /** While any caller is initialised or midway the library is open, its lookups reach it, and no Unload it
      makes reports that nothing is loaded. */
  lemma CallerIsServed(n: nat, states: seq<State>, events: seq<Event>, k: nat, i: nat)
    requires IsRun(states, events) && states[0] == Start(n) && k < |states|
    requires i < |states[k].callers| && IsActive(states[k].callers[i])
    ensures states[k].lib.open && states[k].lib.rc > states[k].leaked
    ensures Finds(states[k], true)
    ensures !IsInitialised(states[k].callers[i]) ==> states[k].lib.rc > states[k].vendor
  {
    hide IsRun, Active, Initialised, Midway;
    RunKeepsInv(n, states, events, k);
    SomeActive(states[k].callers, i);
    ActiveSplits(states[k].callers);
    if !IsInitialised(states[k].callers[i]) { SomeMidway(states[k].callers, i); }
  }

  /** The shared object is closed only by the last caller's Unload: every other caller is idle, and nothing
      was leaked. */
  lemma ClosedOnlyByLast(n: nat, states: seq<State>, events: seq<Event>, k: nat)
    requires IsRun(states, events) && states[0] == Start(n) && k < |events|
    requires states[k].lib.open && !states[k + 1].lib.open
    ensures events[k].UnloadStep? && states[k].leaked == 0 && states[k].vendor == 0
    ensures forall j :: 0 <= j < |states[k].callers| && j != events[k].i ==> states[k].callers[j] == Idle
  {
    hide Active, Initialised, Midway, L.Callbacks;
    var s, e := states[k], events[k];
    RunKeepsInv(n, states, events, k);
    RunKeepsInv(n, states, events, k + 1);
    SomeActive(s.callers, e.i);
    CountMove(s.callers, e.i, Idle);
    ActiveSplits(s.callers[e.i := Idle]);
  }

  /** What the callers are told.  A step of Init returns success exactly when it leaves the caller initialised; a
      failed Load is a library not found, a missing symbol a function not found, and the vendor's own answers come
      back unchanged.  No error ever means that another caller has taken the library away. */
  lemma RepliesAreHonest(n: nat, states: seq<State>, events: seq<Event>, k: nat)
    requires IsRun(states, events) && states[0] == Start(n) && k < |events|
    ensures var s, e, r := states[k], events[k], ReplyOf(states[k], events[k]);
            && (e.LoadStep? || e.InitLookup? || e.VendorInit? ==>
                  (r == Returns(Success) <==> states[k + 1].callers[e.i] == Ready))
            && (e.LoadStep? ==>
                  r == if s.lib.rc == 0 && (!e.op.openOk || !L.AllSucceed(e.op.callbacks)) then Returns(LibraryNotFound)
                       else Continues)
            && (e.InitLookup? || e.ShutdownLookup? ==> r == if e.found then Continues else Returns(FunctionNotFound))
            && (e.VendorInit? ==> r == Returns(e.ret))
            && (e.VendorShutdown? ==> r == if e.ret == Success then Continues else Returns(e.ret))
            && (e.UnloadStep? ==>
                  && (s.lib.rc == 1 && !e.op.closeOk ==> r == Returns(LibraryNotFound))
                  && (s.lib.rc == 1 && e.op.closeOk && L.StopsWith(e.op.callbacks, L.Panics) ==> r == PanicsOut)
                  && (s.lib.rc > 1 || (e.op.closeOk && L.AllSucceed(e.op.callbacks)) ==> r == Returns(Success)))
  {
    hide Active, Initialised, L.Callbacks, L.AllSucceed, L.StopsWith;
    var s, e := states[k], events[k];
    RunKeepsInv(n, states, events, k);
    SomeActiveOrIdle(s, e.i);
    if e.LoadStep? || e.UnloadStep? { L.CallbacksExactly(e.op.callbacks); }
  }

  /** Where each step takes its caller. */
  lemma StepsAreInOrder(n: nat, states: seq<State>, events: seq<Event>, k: nat)
    requires IsRun(states, events) && states[0] == Start(n) && k < |events|
    ensures var e, from, to := events[k], states[k].callers[events[k].i], states[k + 1].callers[events[k].i];
            var r := ReplyOf(states[k], e);
            && (e.LoadStep? ==> from == Idle && to == if r == Continues then Loaded else Idle)
            && (e.InitLookup? ==> from == Loaded && to == if r == Continues then Resolved else Idle)
            && (e.VendorInit? ==> from == Resolved && to == if r == Returns(Success) then Ready else Idle)
            && (e.ShutdownLookup? ==> from == Ready && to == if r == Continues then Leaving else Ready)
            && (e.VendorShutdown? ==> from == Leaving && to == if r == Continues then Released else Ready)
            && (e.UnloadStep? ==> from == Released && to == Idle)
    ensures forall j :: 0 <= j < |states[k].callers| && j != events[k].i ==>
              j < |states[k + 1].callers| && states[k + 1].callers[j] == states[k].callers[j]
  {
    hide L.Callbacks;
  }

  // ---------------------------------------------------------------- holds that are never given back

  /** A step that ends a call and leaves its hold on the library behind: Init does not unload when the symbol
      is missing or the vendor refuses, and Shutdown does not try again when the last close is refused. */
  predicate IsLeak(s: State, e: Event) {
    || (e.InitLookup? && !e.found)
    || (e.VendorInit? && e.ret != Success)
    || (e.UnloadStep? && s.lib.rc == 1 && e.op.Unload? && !e.op.closeOk)
  }

  /** How many of the first k steps were such. */
  ghost function Leaks(states: seq<State>, events: seq<Event>, k: nat): (n: nat)
    requires |states| == |events| + 1 && k <= |events|
  {
    if k == 0 then 0 else Leaks(states, events, k - 1) + if IsLeak(states[k - 1], events[k - 1]) then 1 else 0
  }

  lemma LeakStep(s: State, e: Event)
    requires Inv(s) && Enabled(s, e) && Benign(s, e)
    ensures Next(s, e).leaked == s.leaked + if IsLeak(s, e) then 1 else 0
  {
    hide Active, Initialised, L.Callbacks;
    SomeActiveOrIdle(s, e.i);
  }

  /** What is held beyond the callers inside is exactly the number of leaks so far. */
  lemma {:induction false} LeakedIsLeaks(n: nat, states: seq<State>, events: seq<Event>, k: nat)
    requires IsRun(states, events) && states[0] == Start(n) && k < |states|
    ensures states[k].leaked == Leaks(states, events, k)
    decreases k
  {
    hide Next, Enabled, Benign, Inv, IsLeak;
    if k > 0 {
      LeakedIsLeaks(n, states, events, k - 1);
      RunKeepsInv(n, states, events, k - 1);
      LeakStep(states[k - 1], events[k - 1]);
    }
  }

  ghost predicate AllIdle(s: State) {
    forall i :: 0 <= i < |s.callers| ==> s.callers[i] == Idle
  }

  lemma {:induction false} IdleActive(ps: seq<Phase>)
    requires forall i :: 0 <= i < |ps| ==> ps[i] == Idle
    ensures Active(ps) == 0
    decreases |ps|
  {
    if ps != [] { IdleActive(ps[..|ps| - 1]); }
  }

  /** When every caller is done, the library is closed exactly if no call of the whole run leaked. */
  lemma ClosedAtRest(n: nat, states: seq<State>, events: seq<Event>, k: nat)
    requires IsRun(states, events) && states[0] == Start(n) && k < |states| && AllIdle(states[k])
    ensures !states[k].lib.open <==> Leaks(states, events, k) == 0
    ensures states[k].lib.rc == Leaks(states, events, k)
  {
    hide IsRun, Active, Initialised, Leaks;
    RunKeepsInv(n, states, events, k);
    LeakedIsLeaks(n, states, events, k);
    IdleActive(states[k].callers);
  }

  lemma {:induction false} LeaksGrow(states: seq<State>, events: seq<Event>, j: nat, k: nat)
    requires |states| == |events| + 1 && j < k <= |events|
    ensures Leaks(states, events, k) >= Leaks(states, events, j) + if IsLeak(states[j], events[j]) then 1 else 0
    decreases k
  {
    hide IsLeak;
    if j < k - 1 { LeaksGrow(states, events, j, k - 1); }
  }

  /** After one leak no continuation of the run ever closes the library again. */
  lemma LeakIsForever(n: nat, states: seq<State>, events: seq<Event>, j: nat, k: nat)
    requires IsRun(states, events) && states[0] == Start(n) && j < k < |states| && IsLeak(states[j], events[j])
    ensures states[k].lib.open && states[k].lib.rc > 0
  {
    hide Next, Enabled, Benign, Active, Initialised, Leaks, IsLeak;
    RunKeepsInv(n, states, events, k);
    LeakedIsLeaks(n, states, events, k);
    LeaksGrow(states, events, j, k);
  }

  /** One caller whose only Init the vendor refuses: it is told so, and the library stays open for good. */
  lemma RefusedInitLeaks(ret: Return)
    requires ret != Success
    ensures exists states: seq<State>, events: seq<Event> ::
              && IsRun(states, events) && states[0] == Start(1) && |events| > 0
              && AllIdle(states[|events|]) && states[|events|].lib == L.State(1, true)
              && ReplyOf(states[|events| - 1], events[|events| - 1]) == Returns(ret)
  {
    var s0 := Start(1);
    var events := [LoadStep(0, L.Load(true, [], true)), InitLookup(0, true), VendorInit(0, ret)];
    var s1 := Next(s0, events[0]);
    var s2 := Next(s1, events[1]);
    var s3 := Next(s2, events[2]);
    var states := [s0, s1, s2, s3];
    assert IsRun(states, events);
    assert AllIdle(states[|events|]);
  }
}
