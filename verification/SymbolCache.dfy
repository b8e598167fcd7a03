/** The symbol cache of a dynamic library, looked up by many callers while others open and close the library.
    A lookup takes the lock twice, to read and to record, and asks dlsym in between without it. */
module SymbolCache {
  import opened Options

  /** A lookup in progress: what it read under the lock, and later what dlsym answered. */
  datatype Lookup =
    | Idle
    | Asking(symbol: string, handle: int, generation: nat)
    | Answered(symbol: string, handle: int, generation: nat, found: bool)

  /** The library value, what the file that is open exports, and the callers. */
  datatype State = State(
    handle: Option<int>, generation: nat, caches: map<string, bool>,
    exports: set<string>, callers: seq<Lookup>)

  datatype Event =
    | Open(address: int, exports: set<string>)   // dlopen succeeded; the address may be one used before
    | Close                                      // dlclose succeeded
    | Begin(i: nat, symbol: string)
    | Dlsym(i: nat, found: bool)
    | Record(i: nat)

  function Start(n: nat): (s: State) {
    State(None, 1, map[], {}, seq(n, _ => Idle))
  }

  /** The library the caller read about is still the one that is open, as far as the code can tell. */
  predicate IsSame(s: State, c: Lookup) {
    !c.Idle? && s.handle == Some(c.handle) && s.generation == c.generation
  }

  /** dlsym tells the truth about the library that is open; of one that was closed or replaced since the
      caller read the handle it may say anything.  A library may be opened over one that is open. */
  predicate Enabled(s: State, e: Event) {
    match e
    case Open(_, _) => true
    case Close => s.handle.Some?
    case Begin(i, _) => i < |s.callers| && s.callers[i] == Idle
    case Dlsym(i, found) =>
      && i < |s.callers| && s.callers[i].Asking?
      && (IsSame(s, s.callers[i]) ==> (found <==> s.callers[i].symbol in s.exports))
    case Record(i) => i < |s.callers| && s.callers[i].Answered?
  }

  function Next(s: State, e: Event): (r: State)
    requires Enabled(s, e)
  {
    match e
    case Open(address, exports) => s.(handle := Some(address), exports := exports)
    case Close => s.(handle := None, generation := s.generation + 1, caches := map[])
    case Begin(i, symbol) =>
      if s.handle.None? || symbol in s.caches then s
      else s.(callers := s.callers[i := Asking(symbol, s.handle.value, s.generation)])
    case Dlsym(i, found) =>
      var c := s.callers[i];
      s.(callers := s.callers[i := Answered(c.symbol, c.handle, c.generation, found)])
    case Record(i) =>
      var c := s.callers[i];
      s.(callers := s.callers[i := Idle], caches := if IsSame(s, c) then s.caches[c.symbol := c.found] else s.caches)
  }

  /** What a lookup returns at a step, if the step ends it. */
  datatype Reply = Goes | NotLoaded | Says(found: bool)

  function ReplyOf(s: State, e: Event): (r: Reply)
    requires Enabled(s, e)
  {
    match e
    case Begin(_, symbol) =>
      if s.handle.None? then NotLoaded else if symbol in s.caches then Says(s.caches[symbol]) else Goes
    case Record(i) => Says(s.callers[i].found)
    case _ => Goes
  }

  ghost predicate IsRun(states: seq<State>, events: seq<Event>) {
    && |states| == |events| + 1
    && (forall k :: 0 <= k < |events| ==> Enabled(states[k], events[k]) && states[k + 1] == Next(states[k], events[k]))
  }

  // ---------------------------------------------------------------- the invariant

  /** Every remembered answer is about the library that is open now. */
  ghost predicate CacheIsCurrent(s: State) {
    && (s.handle.None? ==> s.caches == map[])
    && (forall symbol :: symbol in s.caches ==> (s.caches[symbol] <==> symbol in s.exports))
  }

  /** What a lookup would record is about the library that is open now. */
  ghost predicate LookupOk(s: State, c: Lookup) {
    c.Idle? ||
    (&& c.generation <= s.generation
     && (c.generation == s.generation ==> s.handle.Some?)
     && (c.Answered? && IsSame(s, c) ==> (c.found <==> c.symbol in s.exports)))
  }

  ghost predicate Inv(s: State) {
    && CacheIsCurrent(s)
    && (forall i :: 0 <= i < |s.callers| ==> LookupOk(s, s.callers[i]))
  }

  /** A file opened over an open one that answers differently about a symbol whose answer is remembered, or
      about to be at the same address. */
  ghost predicate Breaks(s: State, e: Event) {
    && e.Open? && s.handle.Some?
    && (|| (exists symbol :: symbol in s.caches && s.caches[symbol] != (symbol in e.exports))
        || (exists i :: 0 <= i < |s.callers| && WouldRecord(s, s.callers[i], e)))
  }

  ghost predicate WouldRecord(s: State, c: Lookup, e: Event)
    requires e.Open?
  {
    c.Answered? && c.handle == e.address && c.generation == s.generation && c.found != (c.symbol in e.exports)
  }

  /** Every step keeps the invariant, except exactly such an open. */
  lemma StepKeepsInv(s: State, e: Event)
    requires Inv(s) && Enabled(s, e)
    ensures Inv(Next(s, e)) <==> !Breaks(s, e)
  {
    var t := Next(s, e);
    if Breaks(s, e) {
      if i :| 0 <= i < |s.callers| && WouldRecord(s, s.callers[i], e) { assert !LookupOk(t, t.callers[i]); }
    } else {
      forall i | 0 <= i < |t.callers| ensures LookupOk(t, t.callers[i]) {
        assert LookupOk(s, s.callers[i]);
        if e.Open? && s.handle.Some? { assert !WouldRecord(s, s.callers[i], e); }
      }
      if e.Record? { assert LookupOk(s, s.callers[e.i]); }
    }
  }

  /** No step of the run is such an open. */
  ghost predicate Clean(states: seq<State>, events: seq<Event>)
    requires |states| == |events| + 1
  {
    forall k :: 0 <= k < |events| ==> !Breaks(states[k], events[k])
  }

  /** In every interleaving of opens, closes and any number of lookups, whatever file is behind the name and
      whatever address it gets, a remembered answer is the answer of the library open now. */
  lemma {:induction false} RunKeepsCache(n: nat, states: seq<State>, events: seq<Event>, k: nat)
    requires IsRun(states, events) && states[0] == Start(n) && k < |states|
    requires forall j :: 0 <= j < k ==> !Breaks(states[j], events[j])
    ensures Inv(states[k])
    decreases k
  {
    hide Next, Enabled, Inv, Breaks;
    if k == 0 {
      StartInv(n);
    } else {
      RunKeepsCache(n, states, events, k - 1);
      StepKeepsInv(states[k - 1], events[k - 1]);
    }
  }

  lemma StartInv(n: nat)
    ensures Inv(Start(n))
  {
  }

  /** The invariant holds throughout a run exactly when the run has no such open. */
  lemma CacheExactly(n: nat, states: seq<State>, events: seq<Event>)
    requires IsRun(states, events) && states[0] == Start(n)
    ensures Clean(states, events) <==> forall k :: 0 <= k < |states| ==> Inv(states[k])
  {
    hide Next, Enabled, Inv, Breaks;
    if Clean(states, events) {
      forall k | 0 <= k < |states| ensures Inv(states[k]) { RunKeepsCache(n, states, events, k); }
    }
    if forall k :: 0 <= k < |states| ==> Inv(states[k]) {
      forall k | 0 <= k < |events| ensures !Breaks(states[k], events[k]) {
        assert Inv(states[k]) && Inv(states[k + 1]);
        StepKeepsInv(states[k], events[k]);
      }
    }
  }

  /** And it shows: after such an open a wrong answer is remembered, at once or when one lookup records. */
  lemma BreakShows(s: State, e: Event)
    requires Inv(s) && Enabled(s, e) && Breaks(s, e)
    ensures var t := Next(s, e);
            !CacheIsCurrent(t) || exists i :: Enabled(t, Record(i)) && !CacheIsCurrent(Next(t, Record(i)))
  {
    var t := Next(s, e);
    if i :| 0 <= i < |s.callers| && WouldRecord(s, s.callers[i], e) {
      var c := t.callers[i];
      var u := Next(t, Record(i));
      assert c.symbol in u.caches && u.caches[c.symbol] == c.found;
    }
  }

  // ---------------------------------------------------------------- what a lookup returns

  /** The step at which a caller that asks began to. */
  lemma {:induction false} AskingSince(n: nat, states: seq<State>, events: seq<Event>, k: nat, i: nat)
    returns (b: nat)
    requires IsRun(states, events) && states[0] == Start(n) && k < |states|
    requires i < |states[k].callers| && states[k].callers[i].Asking?
    ensures var c := states[k].callers[i];
            b < k && events[b] == Begin(i, c.symbol) && IsSame(states[b], c)
    decreases k
  {
    var s, e := states[k - 1], events[k - 1];
    assert states[k] == Next(s, e);
    if s.callers[i] == states[k].callers[i] {
      b := AskingSince(n, states, events, k - 1, i);
    } else {
      b := k - 1;
    }
  }

  /** The step at which a caller that holds an answer got it. */
  lemma {:induction false} AnsweredSince(n: nat, states: seq<State>, events: seq<Event>, k: nat, i: nat)
    returns (d: nat)
    requires IsRun(states, events) && states[0] == Start(n) && k < |states|
    requires i < |states[k].callers| && states[k].callers[i].Answered?
    ensures var c := states[k].callers[i];
            d < k && events[d] == Dlsym(i, c.found) && i < |states[d].callers|
            && states[d].callers[i] == Asking(c.symbol, c.handle, c.generation)
    decreases k
  {
    var s, e := states[k - 1], events[k - 1];
    assert states[k] == Next(s, e);
    if s.callers[i] == states[k].callers[i] {
      d := AnsweredSince(n, states, events, k - 1, i);
    } else {
      d := k - 1;
    }
  }

  /** A lookup answered from the cache says what the library open at that moment exports. */
  lemma CachedIsTrue(n: nat, states: seq<State>, events: seq<Event>, k: nat)
    requires IsRun(states, events) && states[0] == Start(n) && k < |events| && events[k].Begin?
    requires forall j :: 0 <= j < k ==> !Breaks(states[j], events[j])
    requires ReplyOf(states[k], events[k]).Says?
    ensures states[k].handle.Some? &&
            (ReplyOf(states[k], events[k]).found <==> events[k].symbol in states[k].exports)
  {
    hide Breaks;
    RunKeepsCache(n, states, events, k);
  }

  /** A lookup that asked dlsym says what the library open when it asked exports, unless that library was
      closed or replaced between the two. */
  lemma AskedIsTrue(n: nat, states: seq<State>, events: seq<Event>, k: nat) returns (b: nat, d: nat)
    requires IsRun(states, events) && states[0] == Start(n) && k < |events| && events[k].Record?
    ensures b < d < k && events[b].Begin? && events[b].i == events[k].i
    ensures events[d] == Dlsym(events[k].i, ReplyOf(states[k], events[k]).found)
    ensures states[b].handle.Some?
    ensures states[d].handle == states[b].handle && states[d].generation == states[b].generation ==>
              (ReplyOf(states[k], events[k]).found <==> events[b].symbol in states[d].exports)
  {
    hide Next;
    var i := events[k].i;
    d := AnsweredSince(n, states, events, k, i);
    b := AskingSince(n, states, events, d, i);
    assert Enabled(states[d], events[d]);
  }

  /** What a lookup does first: without a library it fails, with a remembered answer it returns that, and otherwise it
      goes to ask about the library that is open. */
  lemma BeginExactly(s: State, i: nat, symbol: string)
    requires Enabled(s, Begin(i, symbol))
    ensures var e := Begin(i, symbol);
            && (ReplyOf(s, e) == NotLoaded <==> s.handle == None)
            && (s.handle.Some? && symbol in s.caches ==> ReplyOf(s, e) == Says(s.caches[symbol]) && Next(s, e) == s)
            && (s.handle.Some? && symbol !in s.caches ==>
                  && ReplyOf(s, e) == Goes
                  && Next(s, e).callers[i] == Asking(symbol, s.handle.value, s.generation))
  {
  }

  /** A lookup returns at its first step or when it records, and at no other. */
  lemma RepliesAtEnds(s: State, e: Event)
    requires Enabled(s, e)
    ensures e.Open? || e.Close? || e.Dlsym? ==> ReplyOf(s, e) == Goes
    ensures e.Record? ==> ReplyOf(s, e) == Says(s.callers[e.i].found)
  {
  }

  /** An answer recorded about the open library is the answer of every later lookup, without dlsym, until a close. */
  lemma RecordIsRemembered(s: State, i: nat, j: nat)
    requires Enabled(s, Record(i)) && s.handle == Some(s.callers[i].handle) && s.generation == s.callers[i].generation
    requires j < |s.callers| && (j == i || s.callers[j] == Idle)
    ensures var t, c := Next(s, Record(i)), s.callers[i];
            && Enabled(t, Begin(j, c.symbol)) && ReplyOf(t, Begin(j, c.symbol)) == Says(c.found)
            && (Enabled(t, Close) ==> Next(t, Close).caches == map[] && Next(t, Close).generation == t.generation + 1)
  {
  }

  // ---------------------------------------------------------------- what the protocol needs

  /** The address alone would not do: a library closed and replaced between dlsym and the recording can come
      back at the same address with other exports. */
  lemma AddressAloneIsNotEnough(address: int, symbol: string)
    ensures exists states: seq<State>, events: seq<Event> ::
              && IsRun(states, events) && states[0] == Start(1) && Clean(states, events)
              && var s := states[|events|];
                 s.callers != [] && s.callers[0].Answered? && s.handle == Some(s.callers[0].handle)
                 && s.callers[0].found && s.callers[0].symbol !in s.exports
  {
    var s0 := Start(1);
    var events := [Open(address, {symbol}), Begin(0, symbol), Dlsym(0, true), Close, Open(address, {})];
    var s1 := Next(s0, events[0]);
    var s2 := Next(s1, events[1]);
    var s3 := Next(s2, events[2]);
    var s4 := Next(s3, events[3]);
    var s5 := Next(s4, events[4]);
    var states := [s0, s1, s2, s3, s4, s5];
    assert IsRun(states, events);
  }

  /** Nor does the generation help when a library is opened over an open one: the cache still answers for the
      file before. */
  lemma ReopenGoesStale(first: int, second: int, symbol: string)
    ensures exists states: seq<State>, events: seq<Event> ::
              && IsRun(states, events) && states[0] == Start(1) && |events| > 0 && events[|events| - 1].Begin?
              && ReplyOf(states[|events| - 1], events[|events| - 1]) == Says(true)
              && states[|events| - 1].handle == Some(second)
              && events[|events| - 1].symbol !in states[|events| - 1].exports
  {
    var s0 := Start(1);
    var events := [Open(first, {symbol}), Begin(0, symbol), Dlsym(0, true), Record(0),
                   Open(second, {}), Begin(0, symbol)];
    var s1 := Next(s0, events[0]);
    var s2 := Next(s1, events[1]);
    var s3 := Next(s2, events[2]);
    var s4 := Next(s3, events[3]);
    var s5 := Next(s4, events[4]);
    var s6 := Next(s5, events[5]);
    var states := [s0, s1, s2, s3, s4, s5, s6];
    assert IsRun(states, events);
  }

  /** A close between reading the handle and asking can make a lookup say anything. */
  lemma ClosedWhileAsking(address: int, symbol: string, found: bool)
    ensures exists states: seq<State>, events: seq<Event> ::
              && IsRun(states, events) && states[0] == Start(1) && |events| > 0 && events[|events| - 1].Record?
              && ReplyOf(states[|events| - 1], events[|events| - 1]) == Says(found)
              && forall k :: 0 <= k < |states| ==> states[k].exports == {}
  {
    var s0 := Start(1);
    var events := [Open(address, {}), Begin(0, symbol), Close, Dlsym(0, found), Record(0)];
    var s1 := Next(s0, events[0]);
    var s2 := Next(s1, events[1]);
    var s3 := Next(s2, events[2]);
    var s4 := Next(s3, events[3]);
    var s5 := Next(s4, events[4]);
    var states := [s0, s1, s2, s3, s4, s5];
    assert IsRun(states, events);
  }
}
