/** The reference-counted shared library: Load and Unload, which run under a mutex, with every outcome of
    opening, closing and the callbacks. */
module LibraryLifecycle {

  datatype Callback = Succeeds | Fails | Panics

  /** What the world answers to one call.  `closeOk` is the answer of dlclose, should it be reached. */
  datatype Op =
    | Load(openOk: bool, callbacks: seq<Callback>, closeOk: bool)
    | Unload(closeOk: bool, callbacks: seq<Callback>)

  datatype Outcome = Done | Failed | NotLoaded | Panicked

  /** `open` is whether the dynamic library holds a handle. */
  datatype State = State(rc: nat, open: bool)
  datatype Result = Result(after: State, outcome: Outcome)

  const FRESH := State(0, false)

  /** The first callback that does not succeed ends the loop over them. */
  function Callbacks(cs: seq<Callback>): (c: Callback) {
    if cs == [] then Succeeds else if cs[0] != Succeeds then cs[0] else Callbacks(cs[1..])
  }

  /** One call as a function of the state it finds. */
  function Call(st: State, op: Op): (r: Result) {
    match op
    case Load(openOk, callbacks, closeOk) =>
      if st.rc > 0 then Result(State(st.rc + 1, st.open), Done)
      else if !openOk then Result(st, Failed)
      else (match Callbacks(callbacks)
        case Succeeds => Result(State(st.rc + 1, true), Done)
        case Fails => Result(State(st.rc, !closeOk), Failed)
        case Panics => Result(State(st.rc, true), Failed))
    case Unload(closeOk, callbacks) =>
      if st.rc == 0 then Result(st, NotLoaded)
      else if st.rc != 1 then Result(State(st.rc - 1, st.open), Done)
      else if st.open && !closeOk then Result(st, Failed)
      else (match Callbacks(callbacks)
        case Succeeds => Result(State(0, false), Done)
        case Fails => Result(State(1, false), Failed)
        case Panics => Result(State(0, false), Panicked))
  }

  predicate AllSucceed(cs: seq<Callback>) { forall i :: 0 <= i < |cs| ==> cs[i] == Succeeds }

  /** c is the first answer of the callbacks that is not success. */
  ghost predicate StopsWith(cs: seq<Callback>, c: Callback) {
    c != Succeeds && exists k: nat :: k < |cs| && cs[k] == c && AllSucceed(cs[..k])
  }

  lemma {:induction false} CallbacksExactly(cs: seq<Callback>)
    ensures Callbacks(cs) == Succeeds <==> AllSucceed(cs)
    ensures forall c :: c != Succeeds ==> (Callbacks(cs) == c <==> StopsWith(cs, c))
    decreases |cs|
  {
    if cs != [] {
      CallbacksExactly(cs[1..]);
      forall c | c != Succeeds ensures Callbacks(cs) == c <==> StopsWith(cs, c) { FirstStop(cs, c); }
    }
  }

  lemma FirstStop(cs: seq<Callback>, c: Callback)
    requires cs != [] && c != Succeeds
    ensures StopsWith(cs, c) <==> if cs[0] == Succeeds then StopsWith(cs[1..], c) else cs[0] == c
  {
    var tail := cs[1..];
    if cs[0] == c {
      var zero: nat := 0;
      assert cs[zero] == c && AllSucceed(cs[..zero]);
    }
    if cs[0] == Succeeds && StopsWith(tail, c) {
      var k: nat :| k < |tail| && tail[k] == c && AllSucceed(tail[..k]);
      var j: nat := k + 1;
      assert cs[..j] == [cs[0]] + tail[..k];
      assert j < |cs| && cs[j] == c && AllSucceed(cs[..j]);
    }
    forall k: nat | k < |cs| && cs[k] == c && AllSucceed(cs[..k])
      ensures if cs[0] == Succeeds then StopsWith(tail, c) else cs[0] == c
    {
      if k > 0 {
        var j: nat := k - 1;
        assert cs[..k][0] == cs[0];
        assert forall i :: 0 <= i < j ==> tail[..j][i] == cs[..k][i + 1];
        assert j < |tail| && tail[j] == c && AllSucceed(tail[..j]);
      }
    }
  }

  /** Every outcome of Load: a library in use is only counted; otherwise it is counted if it opens and all callbacks
      succeed, closed again if one fails, and left open and not counted if one panics. */
  lemma LoadExactly(st: State, openOk: bool, cs: seq<Callback>, closeOk: bool)
    ensures var r := Call(st, Load(openOk, cs, closeOk));
            && (st.rc > 0 ==> r == Result(State(st.rc + 1, st.open), Done))
            && (st.rc == 0 && !openOk ==> r == Result(st, Failed))
            && (st.rc == 0 && openOk && AllSucceed(cs) ==> r == Result(State(1, true), Done))
            && (st.rc == 0 && openOk && StopsWith(cs, Fails) ==> r == Result(State(0, !closeOk), Failed))
            && (st.rc == 0 && openOk && StopsWith(cs, Panics) ==> r == Result(State(0, true), Failed))
            && (r.outcome == Done <==> st.rc > 0 || (openOk && AllSucceed(cs)))
  {
    hide Callbacks, AllSucceed, StopsWith;
    CallbacksExactly(cs);
  }

  /** Every outcome of Unload: an error at count 0, one hold less above 1, and at 1 the library closed before the
      callbacks run, the count kept by an error of theirs and not by a panic. */
  lemma UnloadExactly(st: State, closeOk: bool, cs: seq<Callback>)
    ensures var r := Call(st, Unload(closeOk, cs));
            && (st.rc == 0 ==> r == Result(st, NotLoaded))
            && (st.rc > 1 ==> r == Result(State(st.rc - 1, st.open), Done))
            && (st.rc == 1 && st.open && !closeOk ==> r == Result(st, Failed))
            && (st.rc == 1 && (st.open ==> closeOk) && AllSucceed(cs) ==> r == Result(State(0, false), Done))
            && (st.rc == 1 && (st.open ==> closeOk) && StopsWith(cs, Fails) ==> r == Result(State(1, false), Failed))
            && (st.rc == 1 && (st.open ==> closeOk) && StopsWith(cs, Panics) ==> r == Result(State(0, false), Panicked))
  {
    hide Callbacks, AllSucceed, StopsWith;
    CallbacksExactly(cs);
  }

  // ---------------------------------------------------------------- the object

  class Library {
    var rc: nat
    var open: bool

    constructor ()
      ensures Value() == FRESH
    {
      rc, open := 0, false;
    }

    function Value(): State
      reads this
    {
      State(rc, open)
    }

    /** dl.Close: closing what is not open succeeds. */
    method Close(closeOk: bool) returns (ok: bool)
      modifies this`open
      ensures ok == (!old(open) || closeOk) && open == (old(open) && !closeOk)
    {
      if !open { return true; }
      if closeOk { open := false; }
      return closeOk;
    }

    /** library.Load: the count goes up exactly when no error is returned. */
    method Load(openOk: bool, callbacks: seq<Callback>, closeOk: bool) returns (outcome: Outcome)
      modifies this
      ensures Result(Value(), outcome) == Call(old(Value()), Op.Load(openOk, callbacks, closeOk))
    {
      if rc > 0 {
        rc := rc + 1;
        return Done;
      }
      if !openOk { return Failed; }
      open := true;
      assert callbacks[0..] == callbacks;
      for i := 0 to |callbacks|
        invariant rc == old(rc) && open
        invariant Callbacks(callbacks[i..]) == Callbacks(callbacks)
      {
        assert callbacks[i..][1..] == callbacks[i + 1..];
        if callbacks[i] == Panics { return Failed; }
        if callbacks[i] == Fails {
          var _ := Close(closeOk);
          return Failed;
        }
      }
      rc := rc + 1;
      return Done;
    }

    /** library.Unload: the count goes down unless an error is returned, so also when a callback panics. */
    method Unload(closeOk: bool, callbacks: seq<Callback>) returns (outcome: Outcome)
      modifies this
      ensures Result(Value(), outcome) == Call(old(Value()), Op.Unload(closeOk, callbacks))
    {
      if rc == 0 { return NotLoaded; }
      if rc != 1 {
        rc := rc - 1;
        return Done;
      }
      var ok := Close(closeOk);
      if !ok { return Failed; }
      assert callbacks[0..] == callbacks;
      for i := 0 to |callbacks|
        invariant rc == 1 && !open
        invariant Callbacks(callbacks[i..]) == Callbacks(callbacks)
      {
        assert callbacks[i..][1..] == callbacks[i + 1..];
        if callbacks[i] == Panics {
          rc := rc - 1;
          return Panicked;
        }
        if callbacks[i] == Fails { return Failed; }
      }
      rc := rc - 1;
      return Done;
    }
  }

  // ---------------------------------------------------------------- runs

  function Run(st: State, ops: seq<Op>): (r: State)
    decreases |ops|
  {
    if ops == [] then st else Run(Call(st, ops[0]).after, ops[1..])
  }

  /** Calls of a run that returned without error, as loads, and that took the count down, as unloads. */
  function Loads(st: State, ops: seq<Op>): (n: nat)
    decreases |ops|
  {
    if ops == [] then 0
    else (if ops[0].Load? && Call(st, ops[0]).outcome == Done then 1 else 0) + Loads(Call(st, ops[0]).after, ops[1..])
  }

  function Unloads(st: State, ops: seq<Op>): (n: nat)
    decreases |ops|
  {
    if ops == [] then 0
    else (if ops[0].Unload? && Call(st, ops[0]).outcome in {Done, Panicked} then 1 else 0)
         + Unloads(Call(st, ops[0]).after, ops[1..])
  }

  /** The count is always the successful loads less the unloads that took effect. */
  lemma {:induction false} CountBalances(st: State, ops: seq<Op>)
    ensures Run(st, ops).rc == st.rc + Loads(st, ops) - Unloads(st, ops)
    decreases |ops|
  {
    if ops != [] { CountBalances(Call(st, ops[0]).after, ops[1..]); }
  }

  ghost predicate Consistent(st: State) {
    st.open <==> st.rc > 0
  }

  /** What makes the handle and the count disagree: a load callback that panics, one that fails when the
      library then cannot be closed, or an unload callback that fails. */
  predicate Breaks(st: State, op: Op) {
    match op
    case Load(openOk, callbacks, closeOk) =>
      st.rc == 0 && openOk
      && (Callbacks(callbacks) == Panics || (Callbacks(callbacks) == Fails && !closeOk))
    case Unload(closeOk, callbacks) =>
      st.rc == 1 && closeOk && Callbacks(callbacks) == Fails
  }

  lemma StepConsistent(st: State, op: Op)
    requires Consistent(st)
    ensures Consistent(Call(st, op).after) <==> !Breaks(st, op)
  {
  }

  /** No call of the run is one that breaks. */
  predicate Clean(st: State, ops: seq<Op>)
    decreases |ops|
  {
    ops == [] || (!Breaks(st, ops[0]) && Clean(Call(st, ops[0]).after, ops[1..]))
  }

  /** The handle is open exactly when the count is positive, at every point of a run, exactly in the runs in
      which no call breaks it. */
  lemma {:induction false} ConsistentExactly(st: State, ops: seq<Op>)
    requires Consistent(st)
    ensures Clean(st, ops) <==> forall k :: 0 <= k <= |ops| ==> Consistent(Run(st, ops[..k]))
    decreases |ops|
  {
    hide Call, Breaks, Consistent;
    if ops == [] {
      assert forall k :: 0 <= k <= |ops| ==> ops[..k] == [];
    } else {
      var next := Call(st, ops[0]).after;
      var tail := ops[1..];
      StepConsistent(st, ops[0]);
      forall k | 0 < k <= |ops| ensures Run(st, ops[..k]) == Run(next, tail[..k - 1]) {
        assert ops[..k][1..] == tail[..k - 1];
      }
      assert Run(st, ops[..0]) == st;
      if Consistent(next) {
        ConsistentExactly(next, tail);
        forall k | 0 <= k <= |tail| ensures Run(next, tail[..k]) == Run(st, ops[..k + 1]) {
          assert ops[..k + 1][1..] == tail[..k];
        }
      } else {
        assert ops[..1][1..] == [];
        assert Run(st, ops[..1]) == next;
      }
    }
  }

  /** After a failed unload callback the next Load succeeds without opening anything. */
  lemma LoadWithoutLibrary(closeOk: bool, callbacks: seq<Callback>)
    ensures var bad := [Load(true, [], true), Unload(true, [Fails])];
            var st := Run(FRESH, bad);
            st == State(1, false) && Call(st, Load(true, callbacks, closeOk)) == Result(State(2, false), Done)
  {
    var bad := [Load(true, [], true), Unload(true, [Fails])];
    assert bad[1..] == [Unload(true, [Fails])] && bad[1..][1..] == [];
    assert Call(FRESH, bad[0]).after == State(1, true);
    assert Call(State(1, true), bad[1]).after == State(1, false);
    assert Run(State(1, true), bad[1..]) == State(1, false);
  }
}
