/** Range strings such as "0-3,5": what one denotes, how a list is printed as one, and how one is parsed. */
module RangeStrings {
  import opened Options
  import opened Integers
  import opened Text
  import opened IntLists
  import opened CountingLoops

  datatype Range = Range(lo: int, hi: int)

  // ---------------------------------------------------------------- what a string denotes

  function Span(lo: int, hi: int): (s: set<int>)
    ensures forall x :: x in s <==> lo <= x <= hi
    decreases hi - lo
  {
    if lo > hi then {} else Span(lo, hi - 1) + {hi}
  }

  /** The numbers one comma-separated part stands for; a part that does not parse stands for none. */
  function PartRange(raw: string): (r: Option<Range>)
    ensures r.Some? ==> 0 <= r.value.lo <= r.value.hi < TWO_63
  {
    var part := TrimSpace(raw);
    if '-' in part then
      var p := Split(part, '-');
      var lo, hi := SafeInt(p[0], -1), SafeInt(p[1], -1);
      if lo >= 0 && hi >= lo then Some(Range(lo, hi)) else None
    else
      var i := SafeInt(part, -1);
      if i >= 0 then Some(Range(i, i)) else None
  }

  function RangeSet(r: Option<Range>): (s: set<int>) {
    if r.None? then {} else Span(r.value.lo, r.value.hi)
  }

  function DenoteParts(parts: seq<string>): (s: set<int>) {
    if parts == [] then {} else RangeSet(PartRange(parts[0])) + DenoteParts(parts[1..])
  }

  function Denote(s: string): (d: set<int>) {
    DenoteParts(Split(s, ','))
  }

  /** A part with a dash that parses is counted through by a loop; this one never leaves it. */
  ghost predicate PartLoops(raw: string) {
    '-' in TrimSpace(raw) && PartRange(raw).Some? && RunsForever(PartRange(raw).value.lo, PartRange(raw).value.hi)
  }

  lemma PartLoopsExactly(raw: string)
    ensures PartLoops(raw) <==>
            '-' in TrimSpace(raw) && PartRange(raw).Some? && PartRange(raw).value.hi == MAX_INT
  {
    hide PartRange, TrimSpace, RunsForever;
    if PartRange(raw).Some? { ForeverExactly(PartRange(raw).value.lo, PartRange(raw).value.hi); }
  }

  ghost predicate Terminates(s: string) {
    forall p :: p in Split(s, ',') ==> !PartLoops(p)
  }

  /** What StrRangeToList returns, or None where it never returns. */
  ghost function Parse(s: string): (r: Option<seq<int>>) {
    if Terminates(s) then Some(Listed(Denote(s))) else None
  }

  lemma {:induction false} DenoteMember(parts: seq<string>, x: int)
    ensures x in DenoteParts(parts) <==> exists i :: 0 <= i < |parts| && x in RangeSet(PartRange(parts[i]))
    decreases |parts|
  {
    hide PartRange, RangeSet;
    if parts != [] {
      var tail := parts[1..];
      DenoteMember(tail, x);
      if x in DenoteParts(tail) {
        var i :| 0 <= i < |tail| && x in RangeSet(PartRange(tail[i]));
        assert parts[i + 1] == tail[i];
      }
      forall i | 0 <= i < |parts| && x in RangeSet(PartRange(parts[i])) ensures x in DenoteParts(parts) {
        if i > 0 { assert tail[i - 1] == parts[i]; }
      }
    }
  }

  lemma DenoteNonnegative(s: string)
    ensures forall x :: x in Denote(s) ==> 0 <= x < TWO_63
  {
    hide PartRange;
    forall x | x in Denote(s) ensures 0 <= x < TWO_63 {
      DenoteMember(Split(s, ','), x);
    }
  }

  // ---------------------------------------------------------------- parsing

  /** StrRangeToList. */
  method StrRangeToList(s: string) returns (out: seq<int>)
    requires Terminates(s)
    ensures Parse(s) == Some(out) && out == Listed(Denote(s))
  {
    hide PartRange, PartLoops, Sort, Listed;
    if s == "" { EmptyString(); return []; }
    var parts := Split(s, ',');
    var members: set<int> := {};
    assert parts[0..] == parts;
    for k := 0 to |parts|
      invariant members + DenoteParts(parts[k..]) == Denote(s)
    {
      assert parts[k..][1..] == parts[k + 1..];
      assert !PartLoops(parts[k]);
      var more := ParsePart(parts[k]);
      members := members + more;
    }
    out := [];
    var rest := members;
    while rest != {}
      invariant Distinct(out) && Elements(out) !! rest && Elements(out) + rest == members
      decreases |rest|
    {
      EmptyOrNot(rest);
      var v :| v in rest;
      assert v !in Elements(out);
      assert Elements(out + [v]) == Elements(out) + {v};
      out, rest := out + [v], rest - {v};
    }
    ListedOf(out);
    out := Sort(out);
  }

  lemma EmptyString()
    ensures Denote("") == {} && Listed({}) == []
  {
    assert Split("", ',') == [""];
    assert TrimSpace("") == "";
    assert Atoi("") == None;
    assert Denote("") == {};
  }

  /** The body of the loop over the parts. */
  method ParsePart(raw: string) returns (members: set<int>)
    requires !PartLoops(raw)
    ensures members == RangeSet(PartRange(raw))
  {
    hide TrimSpace, Split, SafeInt, RunsForever;
    var part := TrimSpace(raw);
    members := {};
    if '-' in part {
      var p := Split(part, '-');
      var lo, hi := SafeInt(p[0], -1), SafeInt(p[1], -1);
      if lo >= 0 && hi >= lo {
        assert hi < MAX_INT by { PartLoopsExactly(raw); }
        var i: int64 := lo;
        ghost var turns := 0;
        while i <= hi
          invariant lo <= i <= hi + 1 && i == Counter(lo, turns)
          invariant members == Span(lo, i - 1)
        {
          members := members + {i};
          i, turns := WrapAdd(i, 1), turns + 1;
        }
      }
    } else {
      var i := SafeInt(part, -1);
      if i >= 0 { members := {i}; }
    }
  }

  // ---------------------------------------------------------------- printing

  /** formatRange. */
  function FormatRange(lo: int64, hi: int64): (s: string) {
    if lo == hi then FormatNat(ToUint64(lo)) else FormatNat(ToUint64(lo)) + "-" + FormatNat(ToUint64(hi))
  }

  /** The ranges the printing loop closes, from an open range and the values still to come. */
  function RunsFrom(start: int64, end: int64, rest: seq<int64>): (runs: seq<(int64, int64)>)
    ensures |runs| >= 1
    decreases |rest|
  {
    if rest == [] then [(start, end)]
    else if rest[0] == end + 1 then RunsFrom(start, rest[0], rest[1..])
    else [(start, end)] + RunsFrom(rest[0], rest[0], rest[1..])
  }

  function Runs(xs: seq<int64>): (runs: seq<(int64, int64)>) {
    if xs == [] then [] else RunsFrom(xs[0], xs[0], xs[1..])
  }

  function FormatRuns(runs: seq<(int64, int64)>): (parts: seq<string>)
    ensures |parts| == |runs|
    ensures forall i :: 0 <= i < |runs| ==> parts[i] == FormatRange(runs[i].0, runs[i].1)
  {
    if runs == [] then [] else [FormatRange(runs[0].0, runs[0].1)] + FormatRuns(runs[1..])
  }

  /** The string printed for a list already in order. */
  function PrintSorted(xs: seq<int64>): (s: string) {
    Join(FormatRuns(Runs(xs)), ',')
  }

  predicate AllInt64(xs: seq<int>) {
    forall i :: 0 <= i < |xs| ==> -TWO_63 <= xs[i] < TWO_63
  }

  lemma SortInt64(xs: seq<int>)
    requires AllInt64(xs)
    ensures AllInt64(Sort(xs))
  {
    hide Sort;
    SortElements(xs);
    assert forall i :: 0 <= i < |Sort(xs)| ==> Sort(xs)[i] in Elements(xs);
  }

  /** ListToStrRange as a function of its argument. */
  function Print(xs: seq<int64>): (s: string) {
    SortInt64(xs);
    PrintSorted(Sort(xs))
  }

  /** ListToStrRange: sorts its argument in place and prints it. */
  method ListToStrRange(indices: array<int64>) returns (s: string)
    modifies indices
    ensures Nondecreasing(indices[..]) && multiset(indices[..]) == multiset(old(indices[..]))
    ensures s == Print(old(indices[..]))
  {
    hide Sort, FormatRange, FormatRuns, Join, Nondecreasing;
    if indices.Length == 0 { NothingToPrint(indices[..]); return ""; }
    ghost var before := indices[..];
    SortInt64(before);
    SortSorted(before);
    var sorted: seq<int64> := Sort(indices[..]);
    forall k | 0 <= k < indices.Length { indices[k] := sorted[k]; }
    assert indices[..] == sorted;
    s := PrintLoop(sorted);
  }

  lemma NothingToPrint(xs: seq<int64>)
    requires xs == []
    ensures Print(xs) == "" && Nondecreasing(xs)
  {
  }

  method PrintLoop(indices: seq<int64>) returns (s: string)
    requires indices != [] && Nondecreasing(indices)
    ensures s == PrintSorted(indices)
  {
    hide FormatRange, FormatRuns, Join, RunsFrom;
    var start: int64 := indices[0];
    var end: int64 := start;
    var parts: seq<string> := [];
    ghost var all := FormatRuns(Runs(indices));
    for k := 1 to |indices|
      invariant end == indices[k - 1]
      invariant parts + FormatRuns(RunsFrom(start, end, indices[k..])) == all
    {
      var v := indices[k];
      assert indices[k..][1..] == indices[k + 1..];
      RunsStep(start, end, indices[k..]);
      if v == WrapAdd(end, 1) {
        end := v;
      } else {
        FormatCons(start, end, RunsFrom(v, v, indices[k + 1..]));
        parts := parts + [FormatRange(start, end)];
        start, end := v, v;
      }
    }
    assert indices[|indices|..] == [];
    RunsStep(start, end, []);
    FormatCons(start, end, []);
    parts := parts + [FormatRange(start, end)];
    s := Join(parts, ',');
  }

  lemma RunsStep(start: int64, end: int64, rest: seq<int64>)
    ensures RunsFrom(start, end, rest) ==
            if rest == [] then [(start, end)]
            else if rest[0] == end + 1 then RunsFrom(start, rest[0], rest[1..])
            else [(start, end)] + RunsFrom(rest[0], rest[0], rest[1..])
  {
  }

  lemma FormatCons(start: int64, end: int64, runs: seq<(int64, int64)>)
    ensures FormatRuns([(start, end)] + runs) == [FormatRange(start, end)] + FormatRuns(runs)
    ensures FormatRuns([(start, end)]) == [FormatRange(start, end)]
  {
    hide FormatRange;
    assert ([(start, end)] + runs)[1..] == runs;
  }

  /** Printing a list the caller has no further use for. */
  method PrintList(xs: seq<int64>) returns (s: string)
    ensures s == Print(xs)
  {
    hide Print;
    var a := new int64[|xs|](i requires 0 <= i < |xs| => xs[i]);
    assert a[..] == xs;
    s := ListToStrRange(a);
  }

  // ---------------------------------------------------------------- a printed part denotes its run

  lemma DigitsOnly(n: nat)
    ensures var s := FormatNat(n);
            '-' !in s && ',' !in s && s != [] && !IsSpace(s[0]) && !IsSpace(s[|s| - 1])
  {
    hide FormatNat;
    NumberText(n);
    var s := FormatNat(n);
    assert s[0] in s && s[|s| - 1] in s;
  }

  lemma PrintedPart(lo: int64, hi: int64)
    requires lo <= hi
    ensures ',' !in FormatRange(lo, hi)
    ensures '-' in TrimSpace(FormatRange(lo, hi)) <==> lo < hi
    ensures PartRange(FormatRange(lo, hi)) == if lo >= 0 then Some(Range(lo, hi)) else None
  {
    hide FormatNat, TrimSpace, SafeInt, Split;
    var a, b := FormatNat(ToUint64(lo)), FormatNat(ToUint64(hi));
    DigitsOnly(ToUint64(lo));
    DigitsOnly(ToUint64(hi));
    SafeIntOfNat(ToUint64(lo), -1);
    SafeIntOfNat(ToUint64(hi), -1);
    if lo == hi {
      TrimNothing(a);
    } else {
      var s := a + "-" + b;
      assert s[0] == a[0] && s[|s| - 1] == b[|b| - 1];
      TrimNothing(s);
      assert s == a + ['-'] + b;
      SplitAt(a, '-', b);
      SplitNone(b, '-');
      assert s[|a|] == '-';
    }
  }

  // ---------------------------------------------------------------- the runs cover the list

  function RunSet(run: (int64, int64)): (s: set<int>) {
    Span(run.0, run.1)
  }

  function Cover(runs: seq<(int64, int64)>): (s: set<int>) {
    if runs == [] then {} else RunSet(runs[0]) + Cover(runs[1..])
  }

  ghost predicate Ordered(runs: seq<(int64, int64)>) {
    forall i :: 0 <= i < |runs| ==> runs[i].0 <= runs[i].1
  }

  /** The runs cover exactly the values, in whatever order and however often they come. */
  lemma {:induction false} RunsCover(start: int64, end: int64, rest: seq<int64>)
    requires start <= end
    ensures Ordered(RunsFrom(start, end, rest))
    ensures Cover(RunsFrom(start, end, rest)) == Span(start, end) + Elements(rest)
    decreases |rest|
  {
    hide Span;
    if rest == [] {
      assert Cover([(start, end)][1..]) == {};
    } else {
      var tail := rest[1..];
      assert rest == [rest[0]] + tail;
      assert Elements(rest) == {rest[0]} + Elements(tail);
      if rest[0] == end + 1 {
        RunsCover(start, rest[0], tail);
        assert Span(start, rest[0]) == Span(start, end) + {rest[0]};
      } else {
        RunsCover(rest[0], rest[0], tail);
        var runs := RunsFrom(rest[0], rest[0], tail);
        assert ([(start, end)] + runs)[1..] == runs;
        assert Span(rest[0], rest[0]) == {rest[0]};
      }
    }
  }

  /** The printed string denotes the union of the runs that start at zero or above. */
  function Kept(runs: seq<(int64, int64)>): (s: set<int>) {
    if runs == [] then {} else (if runs[0].0 >= 0 then RunSet(runs[0]) else {}) + Kept(runs[1..])
  }

  lemma {:induction false} DenoteRuns(runs: seq<(int64, int64)>)
    requires Ordered(runs)
    ensures DenoteParts(FormatRuns(runs)) == Kept(runs)
    ensures forall p :: p in FormatRuns(runs) ==> ',' !in p
    decreases |runs|
  {
    hide FormatRange, PartRange;
    if runs != [] {
      PrintedPart(runs[0].0, runs[0].1);
      assert FormatRuns(runs)[1..] == FormatRuns(runs[1..]);
      DenoteRuns(runs[1..]);
    }
  }

  lemma {:induction false} KeptMembers(runs: seq<(int64, int64)>)
    requires Ordered(runs)
    ensures Kept(runs) <= Cover(runs)
    ensures forall x :: x in Kept(runs) ==> x >= 0
    ensures (forall x :: x in Cover(runs) ==> x >= 0) ==> Kept(runs) == Cover(runs)
    decreases |runs|
  {
    if runs != [] {
      KeptMembers(runs[1..]);
      assert runs[0].0 in RunSet(runs[0]);
    }
  }

  lemma DenoteSorted(xs: seq<int64>)
    ensures Denote(PrintSorted(xs)) == Kept(Runs(xs))
    ensures Ordered(Runs(xs)) && Cover(Runs(xs)) == Elements(xs)
  {
    hide FormatRuns, Split, Join, RunsFrom;
    if xs == [] {
      EmptyString();
      assert FormatRuns([]) == [];
      PrintNothing();
    } else {
      RunsCover(xs[0], xs[0], xs[1..]);
      assert Elements(xs) == {xs[0]} + Elements(xs[1..]) by { assert xs == [xs[0]] + xs[1..]; }
      var parts := FormatRuns(Runs(xs));
      DenoteRuns(Runs(xs));
      SplitJoin(parts, ',');
    }
  }

  lemma PrintNothing()
    ensures PrintSorted([]) == ""
  {
  }

  // ---------------------------------------------------------------- print, then parse

  /** The printed string denotes exactly the elements of the list if and only if none is negative: a negative
      number prints as an unsigned one too large to parse, and takes its whole run with it. */
  lemma PrintDenotes(xs: seq<int64>)
    ensures Denote(Print(xs)) == Elements(xs) <==> forall x :: x in xs ==> x >= 0
  {
    hide Sort, PrintSorted, Runs, Kept, Cover, Denote;
    SortInt64(xs);
    SortElements(xs);
    var ys: seq<int64> := Sort(xs);
    DenoteSorted(ys);
    KeptMembers(Runs(ys));
    assert forall x :: x in xs <==> x in Elements(xs);
  }

  /** One negative number is enough to lose its non-negative neighbours. */
  lemma NegativeTakesItsRun()
    ensures Denote(Print([-1, 0, 1])) == {}
  {
    hide Sort, PrintSorted, Denote;
    var xs: seq<int64> := [-1, 0, 1];
    AscendingListed(xs);
    DenoteSorted(xs);
    assert xs[1..][1..] == [1] && xs[1..][1..][1..] == [];
    assert Runs(xs) == [(-1, 1)];
    assert Kept(Runs(xs)) == {};
  }

  // ---------------------------------------------------------------- strings that never parse

  lemma LargestDigits()
    ensures FormatNat(MAX_INT) == "9223372036854775807" && FormatNat(MAX_INT - 1) == "9223372036854775806"
  {
    hide FormatNat, DigitChar;
    LeadingDigits();
    LastDigit(9223372036854);
    LastDigit(92233720368547);
    LastDigit(922337203685477);
    LastDigit(9223372036854775);
    LastDigit(92233720368547758);
    LastDigit(922337203685477580);
    LastDigit(MAX_INT);
    LastDigit(MAX_INT - 1);
    TenDigits();
  }

  lemma LeadingDigits()
    ensures FormatNat(922337203685) == "922337203685"
  {
    hide FormatNat, DigitChar;
    FirstDigits();
    LastDigit(92233720);
    LastDigit(922337203);
    LastDigit(9223372036);
    LastDigit(92233720368);
    LastDigit(922337203685);
    TenDigits();
  }

  lemma FirstDigits()
    ensures FormatNat(9223372) == "9223372"
  {
  }

  lemma TenDigits()
    ensures DigitChar(0) == '0' && DigitChar(2) == '2' && DigitChar(3) == '3' && DigitChar(4) == '4'
    ensures DigitChar(5) == '5' && DigitChar(6) == '6' && DigitChar(7) == '7' && DigitChar(8) == '8'
  {
  }

  lemma LastDigit(n: nat)
    requires n >= 10
    ensures FormatNat(n) == FormatNat(n / 10) + [DigitChar(n % 10)]
  {
  }

  /** On this string StrRangeToList never returns. */
  lemma LargestRangeLoops()
    ensures Parse("9223372036854775806-9223372036854775807") == None
  {
    hide PartLoops, Split, PartRange, TrimSpace, FormatNat;
    LargestDigits();
    var s := "9223372036854775806-9223372036854775807";
    assert FormatRange(MAX_INT - 1, MAX_INT) == s;
    PrintedPart(MAX_INT - 1, MAX_INT);
    PartLoopsExactly(s);
    SplitNone(s, ',');
    assert s in Split(s, ',');
  }

  lemma LonePart(n: int64)
    requires n >= 0
    ensures var s := FormatNat(n); ',' !in s && !PartLoops(s) && RangeSet(PartRange(s)) == {n as int}
  {
    hide PartLoops, PartRange, TrimSpace, FormatNat;
    assert FormatRange(n, n) == FormatNat(n);
    PrintedPart(n, n);
    PartLoopsExactly(FormatNat(n));
  }

  lemma TwoParts(s: string, a: string, b: string)
    requires ',' !in a && ',' !in b && s == a + [','] + b
    ensures Split(s, ',') == [a, b]
    ensures Denote(s) == RangeSet(PartRange(a)) + RangeSet(PartRange(b))
  {
    hide PartRange, RangeSet, Split;
    SplitAt(a, ',', b);
    SplitNone(b, ',');
    assert [a, b] == [a] + [b];
    assert [a, b][1..] == [b] && [b][1..] == [];
    assert DenoteParts([b]) == RangeSet(PartRange(b)) + DenoteParts([]);
  }

  lemma PairParses(m: int64, n: int64)
    requires 0 <= m < n
    ensures Parse(FormatNat(m) + [','] + FormatNat(n)) == Some([m as int, n as int])
  {
    hide PartLoops, Split, PartRange, FormatNat, Listed, Denote, RangeSet;
    var a, b := FormatNat(m), FormatNat(n);
    LonePart(m);
    LonePart(n);
    TwoParts(a + [','] + b, a, b);
    var list: seq<int> := [m, n];
    AscendingListed(list);
    assert Elements(list) == {m as int} + {n as int};
  }

  /** The same two numbers, spelt so that it does return. */
  lemma LargestPairParses()
    ensures Parse("9223372036854775806,9223372036854775807") == Some([MAX_INT - 1, MAX_INT])
  {
    hide Parse, FormatNat;
    LargestDigits();
    PairParses(MAX_INT - 1, MAX_INT);
    assert "9223372036854775806" + [','] + "9223372036854775807" == "9223372036854775806,9223372036854775807";
  }
}
