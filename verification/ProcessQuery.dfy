/** Queries that size a buffer by the library's own count and then fill it, against a library that may answer
    anything. */
module ProcessQuery {
  import opened Integers
  import opened AmdSmiReturns

  /** What the library writes back: its status, the count, and the rows of the buffer. */
  datatype Answer = Answer(ret: Return, count: uint32, rows: nat -> uint32)

  /** The library as the caller meets it: its answer to the k-th call when offered room for `cap` rows; room
      for none is the probe for the count alone. */
  type Oracle = (nat, nat) -> Answer

  const MAX_ROWS: nat := 4096
  const MAX_ATTEMPTS: nat := 4

  predicate Shortage(r: Return) { r == InsufficientSize || r == OutOfResources }

  /** The rows the library claims to have written, cut to the buffer. */
  function Rows(a: Answer, cap: nat): (rows: seq<uint32>)
    ensures |rows| <= cap
  {
    seq(if a.count > cap then cap else a.count, (i: nat) => a.rows(i))
  }

  // ---------------------------------------------------------------- GetComputeProcessGpus

  /** The result of a query and the sizes of the buffers it offered, in order. */
  datatype Query = Query(indices: seq<uint32>, ret: Return, caps: seq<nat>)

  /** The size to retry with: what the library now asks for, or one past the size just refused. */
  function NextSize(a: Answer, count: nat): (n: nat)
    ensures n > count
  {
    if a.count > count then a.count else count + 1
  }

  /** The rest of the query from call k, wanting `count` rows, with `left` attempts left. */
  function Fill(lib: Oracle, k: nat, count: nat, left: nat): (q: Query)
    decreases left
  {
    if left == 0 then Query([], InsufficientSize, [])
    else if count == 0 then Query([], Success, [])
    else if count > MAX_ROWS then Query([], InsufficientSize, [])
    else
      var a := lib(k, count);
      if Shortage(a.ret) then
        var q := Fill(lib, k + 1, NextSize(a, count), left - 1);
        Query(q.indices, q.ret, [count] + q.caps)
      else if a.ret != Success then Query([], a.ret, [count])
      else Query(Rows(a, count), a.ret, [count])
  }

  function Ask(present: bool, lib: Oracle): (q: Query) {
    if !present then Query([], FunctionNotFound, [])
    else
      var probe := lib(0, 0);
      if probe.ret != Success && !Shortage(probe.ret) then Query([], probe.ret, [])
      else Fill(lib, 1, probe.count, MAX_ATTEMPTS)
  }

  /** GetComputeProcessGpus, and the sizes of the buffers it offered. */
  method GetComputeProcessGpus(present: bool, lib: Oracle) returns (indices: seq<uint32>, ret: Return, caps: seq<nat>)
    ensures Query(indices, ret, caps) == Ask(present, lib)
  {
    hide Rows, Fill;
    indices, caps := [], [];
    if !present { ret := FunctionNotFound; return; }
    var probe := lib(0, 0);
    ret := probe.ret;
    if ret != Success && !Shortage(ret) { return; }
    var count: nat := probe.count;
    for attempt := 0 to MAX_ATTEMPTS
      invariant indices == []
      invariant var q := Fill(lib, attempt + 1, count, MAX_ATTEMPTS - attempt);
                Query(q.indices, q.ret, caps + q.caps) == Ask(present, lib)
    {
      FillUnfold(lib, attempt + 1, count, MAX_ATTEMPTS - attempt);
      if count == 0 { ret := Success; return; }
      if count > MAX_ROWS { ret := InsufficientSize; return; }
      var a := lib(attempt + 1, count);
      ret := a.ret;
      ghost var before := caps;
      caps := caps + [count];
      if Shortage(ret) {
        ghost var q := Fill(lib, attempt + 2, NextSize(a, count), MAX_ATTEMPTS - attempt - 1);
        assert before + ([count] + q.caps) == caps + q.caps;
        if a.count > count { count := a.count; } else { count := count + 1; }
      } else if ret != Success {
        return;
      } else {
        indices := Rows(a, count);
        return;
      }
    }
    FillUnfold(lib, MAX_ATTEMPTS + 1, count, 0);
    ret := InsufficientSize;
  }

  lemma FillUnfold(lib: Oracle, k: nat, count: nat, left: nat)
    ensures left == 0 || count > MAX_ROWS ==> Fill(lib, k, count, left) == Query([], InsufficientSize, [])
    ensures left > 0 && count == 0 ==> Fill(lib, k, count, left) == Query([], Success, [])
    ensures left > 0 && 0 < count <= MAX_ROWS ==>
              var a := lib(k, count);
              if Shortage(a.ret) then
                var q := Fill(lib, k + 1, NextSize(a, count), left - 1);
                Fill(lib, k, count, left) == Query(q.indices, q.ret, [count] + q.caps)
              else Fill(lib, k, count, left) ==
                   Query(if a.ret == Success then Rows(a, count) else [], a.ret, [count])
  {
    hide Rows;
  }

  /** Each buffer has between 1 and 4096 rows, and more than the one before. */
  ghost predicate Growing(caps: seq<nat>) {
    && (forall k :: 0 <= k < |caps| ==> 1 <= caps[k] <= MAX_ROWS)
    && (forall j, k :: 0 <= j < k < |caps| ==> caps[j] < caps[k])
  }

  lemma {:induction false} FillBounds(lib: Oracle, k: nat, count: nat, left: nat)
    ensures var q := Fill(lib, k, count, left);
            && |q.caps| <= left && Growing(q.caps)
            && (q.caps != [] ==> q.caps[0] == count)
            && (q.ret != Success ==> q.indices == [])
            && |q.indices| <= (if q.caps == [] then 0 else q.caps[|q.caps| - 1])
    decreases left
  {
    if left > 0 && 0 < count <= MAX_ROWS {
      var a := lib(k, count);
      if Shortage(a.ret) {
        var q := Fill(lib, k + 1, NextSize(a, count), left - 1);
        FillBounds(lib, k + 1, NextSize(a, count), left - 1);
        var caps := [count] + q.caps;
        assert forall i :: 0 < i < |caps| ==> caps[i] == q.caps[i - 1];
      }
    }
  }

  /** Against any library: one probe, at most four fills with growing buffers of at most 4096 rows, no rows
      with an error, and never more rows than the last buffer holds. */
  lemma QueryIsBounded(present: bool, lib: Oracle)
    ensures var q := Ask(present, lib);
            && |q.caps| <= MAX_ATTEMPTS && Growing(q.caps)
            && (q.ret != Success ==> q.indices == [])
            && |q.indices| <= (if q.caps == [] then 0 else q.caps[|q.caps| - 1])
  {
    hide Fill;
    FillBounds(lib, 1, lib(0, 0).count, MAX_ATTEMPTS);
  }

  /** A library that answers about the set it holds at the time of each call: with success and with shortage it
      reports the set's size, it claims success only when the set fits and then writes all of it, and it claims
      shortage only when the set does not fit.  It may fail in other ways at any time. */
  ghost predicate Honest(lib: Oracle, truth: nat -> seq<uint32>) {
    forall k: nat, cap: nat ::
      var a := lib(k, cap);
      && (Shortage(a.ret) || a.ret == Success ==> a.count == |truth(k)|)
      && (cap > 0 && a.ret == Success ==> |truth(k)| <= cap)
      && (cap > 0 && Shortage(a.ret) ==> |truth(k)| > cap)
      && (cap > 0 && a.ret == Success ==> forall i: nat :: i < |truth(k)| ==> a.rows(i) == truth(k)[i])
  }

  lemma {:induction false} FillComplete(lib: Oracle, truth: nat -> seq<uint32>, k: nat, left: nat)
    requires Honest(lib, truth) && k > 0
    ensures var q := Fill(lib, k, |truth(k - 1)|, left);
            q.ret == Success ==> q.indices == truth(k - 1 + |q.caps|)
    decreases left
  {
    var count := |truth(k - 1)|;
    if left > 0 && 0 < count <= MAX_ROWS {
      var a := lib(k, count);
      if Shortage(a.ret) {
        FillComplete(lib, truth, k + 1, left - 1);
      } else if a.ret == Success {
        assert Rows(a, count) == truth(k);
      }
    }
  }

  /** Never a partial set: against an honest library, success returns the whole set as it stood at the last
      call. */
  lemma SuccessIsComplete(present: bool, lib: Oracle, truth: nat -> seq<uint32>)
    requires Honest(lib, truth)
    ensures var q := Ask(present, lib); q.ret == Success ==> q.indices == truth(|q.caps|)
  {
    hide Fill;
    var probe := lib(0, 0);
    if present && (probe.ret == Success || Shortage(probe.ret)) {
      FillComplete(lib, truth, 1, MAX_ATTEMPTS);
    }
  }

  /** Call m is the first from call k on at which the set did not grow, and it had at most 4096 rows. */
  ghost predicate SettlesAt(truth: nat -> seq<uint32>, k: nat, m: nat) {
    && 0 < k <= m <= MAX_ATTEMPTS && |truth(m)| <= |truth(m - 1)| <= MAX_ROWS
    && forall j: nat :: k <= j < m ==> Grew(truth, j)
  }

  ghost predicate Settles(truth: nat -> seq<uint32>, k: nat) {
    exists m: nat :: SettlesAt(truth, k, m)
  }

  predicate Grew(truth: nat -> seq<uint32>, j: nat) {
    j > 0 && |truth(j)| > |truth(j - 1)|
  }

  lemma {:induction false} GrewPast(truth: nat -> seq<uint32>, k: nat, m: nat)
    requires 0 < k <= m && forall j: nat :: k <= j < m ==> Grew(truth, j)
    ensures |truth(m - 1)| >= |truth(k - 1)|
    decreases m
  {
    if k < m {
      GrewPast(truth, k, m - 1);
      assert Grew(truth, m - 1);
    }
  }

  lemma SettlesStep(truth: nat -> seq<uint32>, k: nat)
    requires 0 < k <= MAX_ATTEMPTS
    ensures Settles(truth, k) <==> |truth(k - 1)| <= MAX_ROWS && (!Grew(truth, k) || Settles(truth, k + 1))
  {
    var next := k + 1;
    if m: nat :| SettlesAt(truth, k, m) {
      GrewPast(truth, k, m);
      assert Grew(truth, k) ==> SettlesAt(truth, next, m);
    }
    if |truth(k - 1)| <= MAX_ROWS {
      if !Grew(truth, k) {
        assert SettlesAt(truth, k, k);
      } else if m: nat :| SettlesAt(truth, next, m) {
        assert SettlesAt(truth, k, m);
      }
    }
  }

  ghost predicate NeverFails(lib: Oracle) {
    forall i: nat, cap: nat :: lib(i, cap).ret == Success || Shortage(lib(i, cap).ret)
  }

  lemma {:induction false} FillConverges(lib: Oracle, truth: nat -> seq<uint32>, k: nat, left: nat)
    requires Honest(lib, truth) && NeverFails(lib) && k > 0 && k + left == MAX_ATTEMPTS + 1 && |truth(k - 1)| > 0
    ensures Fill(lib, k, |truth(k - 1)|, left).ret == Success <==> Settles(truth, k)
    decreases left
  {
    hide Settles;
    var count := |truth(k - 1)|;
    if left > 0 {
      SettlesStep(truth, k);
      if Grew(truth, k) && count <= MAX_ROWS {
        assert Shortage(lib(k, count).ret);
        FillConverges(lib, truth, k + 1, left - 1);
      }
    } else {
      NoneSettles(truth, k);
    }
  }

  lemma NoneSettles(truth: nat -> seq<uint32>, k: nat)
    requires k > MAX_ATTEMPTS
    ensures !Settles(truth, k)
  {
  }

  /** Against an honest library that does not otherwise fail, the query succeeds exactly when there is nothing
      to report at first, or one of the four fills finds a set of at most 4096 rows that has not grown since
      the call before while every earlier fill found one that had. */
  lemma QueryConverges(lib: Oracle, truth: nat -> seq<uint32>)
    requires Honest(lib, truth) && NeverFails(lib)
    ensures Ask(true, lib).ret == Success <==> truth(0) == [] || Settles(truth, 1)
  {
    hide Fill, Settles;
    if truth(0) == [] {
      FillUnfold(lib, 1, 0, MAX_ATTEMPTS);
    } else {
      FillConverges(lib, truth, 1, MAX_ATTEMPTS);
    }
  }

  // ---------------------------------------------------------------- in numbers

  /** Without the symbol nothing is asked; a probe that fails with anything but a shortage is returned as it is, an
      empty count is an empty set, and a count above 4096 is refused without asking. */
  lemma ProbeExactly(present: bool, lib: Oracle)
    ensures var q, probe := Ask(present, lib), lib(0, 0);
            && (!present ==> q == Query([], FunctionNotFound, []))
            && (present && probe.ret !in {Success, InsufficientSize, OutOfResources} ==> q == Query([], probe.ret, []))
            && (present && probe.ret in {Success, InsufficientSize, OutOfResources} ==>
                  && (probe.count == 0 ==> q == Query([], Success, []))
                  && (probe.count > 4096 ==> q == Query([], InsufficientSize, []))
                  && (0 < probe.count <= 4096 ==> q.caps != [] && q.caps[0] == probe.count))
  {
    hide Fill;
    FillUnfold(lib, 1, lib(0, 0).count, 4);
  }

  /** The sizes asked for after c, as long as the library keeps saying that it needs more. */
  function Sizes(lib: Oracle, k: nat, c: nat, n: nat): (cs: seq<nat>)
    decreases n
  {
    if n == 0 then [] else [c] + Sizes(lib, k + 1, if lib(k, c).count > c then lib(k, c).count else c + 1, n - 1)
  }

  /** Fill number j answers, after j - 1 shortages, with sizes that were all at most 4096. */
  ghost predicate AnswersAt(lib: Oracle, k: nat, c: nat, j: nat)
    requires j > 0
  {
    && |Sizes(lib, k, c, j)| == j
    && (forall i :: 0 <= i < j ==> 0 < Sizes(lib, k, c, j)[i] <= 4096)
    && (forall i :: 0 <= i < j - 1 ==> Shortage(lib(k + i, Sizes(lib, k, c, j)[i]).ret))
    && !Shortage(lib(k + (j - 1), Sizes(lib, k, c, j)[j - 1]).ret)
  }

  /** The fill that answers ends the query: with its rows if it succeeds, and otherwise with its own error and none. */
  lemma {:induction false} FillAnswers(lib: Oracle, k: nat, c: nat, j: nat, left: nat)
    requires 0 < j <= left && AnswersAt(lib, k, c, j)
    ensures var caps := Sizes(lib, k, c, j);
            var a := lib(k + (j - 1), caps[j - 1]);
            Fill(lib, k, c, left) == Query(if a.ret == Success then Rows(a, caps[j - 1]) else [], a.ret, caps)
    decreases j
  {
    hide Fill, Rows, Sizes, AnswersAt;
    AnswersStep(lib, k, c, j);
    FillUnfold(lib, k, c, left);
    if j > 1 { FillAnswers(lib, k + 1, NextSize(lib(k, c), c), j - 1, left - 1); }
  }

  lemma AnswersStep(lib: Oracle, k: nat, c: nat, j: nat)
    requires j > 0 && AnswersAt(lib, k, c, j)
    ensures 0 < c <= 4096 && |Sizes(lib, k, c, j)| == j
    ensures j == 1 ==> Sizes(lib, k, c, j) == [c] && !Shortage(lib(k, c).ret)
    ensures j > 1 ==> var next := NextSize(lib(k, c), c);
                      && Shortage(lib(k, c).ret) && AnswersAt(lib, k + 1, next, j - 1)
                      && Sizes(lib, k, c, j) == [c] + Sizes(lib, k + 1, next, j - 1)
                      && Sizes(lib, k + 1, next, j - 1)[j - 2] == Sizes(lib, k, c, j)[j - 1]
  {
    var caps := Sizes(lib, k, c, j);
    assert caps[0] == c;
    if j == 1 {
      assert caps == [c];
      assert !Shortage(lib(k + (j - 1), caps[0]).ret);
    } else {
      var next := NextSize(lib(k, c), c);
      var rest := Sizes(lib, k + 1, next, j - 1);
      assert caps == [c] + rest;
      assert Shortage(lib(k + 0, caps[0]).ret);
      forall i | 0 <= i < j - 1 ensures 0 < rest[i] <= 4096 { assert rest[i] == caps[i + 1]; }
      forall i | 0 <= i < j - 2 ensures Shortage(lib(k + 1 + i, rest[i]).ret) {
        var next := i + 1;
        assert Shortage(lib(k + next, caps[next]).ret) && rest[i] == caps[next];
      }
      assert rest[j - 2] == caps[j - 1];
      assert k + 1 + (j - 2) == k + (j - 1);
    }
  }

  /** Four fills at most: the one that answers decides, with its rows or with its own error. */
  lemma QueryAnswers(lib: Oracle, j: nat)
    requires lib(0, 0).ret in {Success, InsufficientSize, OutOfResources} && 0 < j <= 4
    requires AnswersAt(lib, 1, lib(0, 0).count, j)
    ensures var caps := Sizes(lib, 1, lib(0, 0).count, j);
            var a := lib(j, caps[j - 1]);
            Ask(true, lib) == Query(if a.ret == Success then Rows(a, caps[j - 1]) else [], a.ret, caps)
  {
    hide Fill, Rows;
    FillAnswers(lib, 1, lib(0, 0).count, j, 4);
    assert 1 + (j - 1) == j;
  }

  /** After four shortages the query gives up, having offered those four sizes. */
  lemma QueryGivesUp(lib: Oracle)
    requires lib(0, 0).ret in {Success, InsufficientSize, OutOfResources}
    requires var caps := Sizes(lib, 1, lib(0, 0).count, 4);
             |caps| == 4 && forall i :: 0 <= i < 4 ==> 0 < caps[i] <= 4096 && Shortage(lib(1 + i, caps[i]).ret)
    ensures Ask(true, lib) == Query([], InsufficientSize, Sizes(lib, 1, lib(0, 0).count, 4))
  {
    FillGivesUp(lib, 1, lib(0, 0).count, 4);
  }

  lemma {:induction false} FillGivesUp(lib: Oracle, k: nat, c: nat, n: nat)
    requires |Sizes(lib, k, c, n)| == n
    requires forall i :: 0 <= i < n ==>
               0 < Sizes(lib, k, c, n)[i] <= 4096 && Shortage(lib(k + i, Sizes(lib, k, c, n)[i]).ret)
    ensures Fill(lib, k, c, n) == Query([], InsufficientSize, Sizes(lib, k, c, n))
    decreases n
  {
    if n > 0 {
      var caps := Sizes(lib, k, c, n);
      var next := if lib(k, c).count > c then lib(k, c).count else c + 1;
      var rest := Sizes(lib, k + 1, next, n - 1);
      assert caps[0] == c && Shortage(lib(k + 0, caps[0]).ret);
      forall i | 0 <= i < n - 1 ensures 0 < rest[i] <= 4096 && Shortage(lib(k + 1 + i, rest[i]).ret) {
        var i' := i + 1;
        assert rest[i] == caps[i'] && Shortage(lib(k + i', caps[i']).ret);
      }
      FillGivesUp(lib, k + 1, next, n - 1);
    }
  }

  /** The rows are the first ones of the buffer, as many as were claimed and fit. */
  lemma RowsExactly(a: Answer, cap: nat)
    ensures |Rows(a, cap)| == if a.count <= cap then a.count else cap
    ensures forall i: nat :: i < |Rows(a, cap)| ==> Rows(a, cap)[i] == a.rows(i)
  {
  }

  // ---------------------------------------------------------------- GetGpuProcessList

  /** GetGpuProcessList: at most one call, whose capacity is the caller's. */
  method GetGpuProcessList(present: bool, maxProcesses: uint32, lib: nat -> Answer)
    returns (rows: seq<uint32>, count: uint32, ret: Return, calls: seq<nat>)
    ensures calls == if present && maxProcesses <= MAX_ROWS then [maxProcesses] else []
    ensures !present ==> ret == FunctionNotFound
    ensures |rows| <= maxProcesses && (rows != [] ==> ret == Success && count == |rows|)
    ensures present && maxProcesses == 0 && (lib(0).ret == Success || lib(0).ret == OutOfResources) ==>
              ret == Success && count == lib(0).count
    ensures present && 0 < maxProcesses <= MAX_ROWS && lib(maxProcesses).ret == OutOfResources ==>
              ret == OutOfResources && rows == [] && count == lib(maxProcesses).count
    ensures present && 0 < maxProcesses <= MAX_ROWS && lib(maxProcesses).ret == Success ==>
              ret == Success && rows == Rows(lib(maxProcesses), maxProcesses)
    ensures present && maxProcesses > MAX_ROWS ==> ret == OutOfResources && count == 0
    ensures present && maxProcesses <= MAX_ROWS && lib(maxProcesses).ret !in {Success, OutOfResources} ==>
              ret == lib(maxProcesses).ret
    ensures ret !in {Success, OutOfResources} ==> rows == [] && count == 0
  {
    rows, count, calls := [], 0, [];
    if !present { ret := FunctionNotFound; return; }
    if maxProcesses == 0 {
      var a := lib(0);
      calls := [0];
      if a.ret != Success && a.ret != OutOfResources { ret := a.ret; return; }
      count, ret := a.count, Success;
      return;
    }
    if maxProcesses > MAX_ROWS { ret := OutOfResources; return; }
    var a := lib(maxProcesses);
    calls := [maxProcesses];
    ret := a.ret;
    if ret == OutOfResources { count := a.count; return; }
    if ret != Success { return; }
    var written := a.count;
    if written > maxProcesses { written := maxProcesses; }
    rows := seq(written, (i: nat) => a.rows(i));
    assert rows == Rows(a, maxProcesses);
    count := written;
  }
}
