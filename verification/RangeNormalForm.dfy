/** Parsing and printing back is a normal form of range strings, with the fewest possible parts. */
module RangeNormalForm {
  import opened Options
  import opened Integers
  import opened Text
  import opened IntLists
  import opened RangeStrings

  // ---------------------------------------------------------------- which printed lists can be parsed

  lemma {:induction false} TopRun(start: int64, end: int64, rest: seq<int64>) returns (i: nat)
    requires start <= end && Nondecreasing(rest) && (rest != [] ==> end <= rest[0])
    requires end == MAX_INT ==> start < end
    requires end < MAX_INT ==> MAX_INT in rest && (end == MAX_INT - 1 || MAX_INT - 1 in rest)
    ensures var runs := RunsFrom(start, end, rest);
            i < |runs| && runs[i].0 < runs[i].1 == MAX_INT
    decreases |rest|
  {
    if end == MAX_INT {
      i := 0;
    } else {
      var tail := rest[1..];
      assert rest == [rest[0]] + tail;
      if rest[0] == end + 1 {
        i := TopRun(start, rest[0], tail);
      } else {
        i := TopRun(rest[0], rest[0], tail);
        i := i + 1;
      }
    }
  }

  lemma {:induction false} RunInCover(runs: seq<(int64, int64)>, i: nat)
    requires i < |runs|
    ensures RunSet(runs[i]) <= Cover(runs)
    decreases i
  {
    if i > 0 { RunInCover(runs[1..], i - 1); }
  }

  /** Which list can be read back at all: parsing the printed string ends unless the list holds both the
      largest int and its predecessor. */
  lemma PrintTerminates(xs: seq<int64>)
    requires forall x :: x in xs ==> x >= 0
    ensures Terminates(Print(xs)) <==> !(MAX_INT in xs && MAX_INT - 1 in xs)
  {
    hide Sort, RunsFrom, FormatRange, PartLoops, PartRange, Split, TrimSpace, Join, Cover, Nondecreasing, Span;
    SortInt64(xs);
    SortElements(xs);
    SortSorted(xs);
    var ys: seq<int64> := Sort(xs);
    assert forall x :: x in xs <==> x in Elements(xs);
    assert forall x :: x in ys <==> x in Elements(ys);
    if ys == [] {
      PrintNothing();
      EmptyTerminates();
    } else {
      var runs := Runs(ys);
      DenoteSorted(ys);
      DenoteRuns(runs);
      var parts := FormatRuns(runs);
      SplitJoin(parts, ',');
      assert Split(Print(xs), ',') == parts;
      forall i | 0 <= i < |runs| ensures PartLoops(parts[i]) <==> runs[i].0 < runs[i].1 == MAX_INT {
        PrintedPart(runs[i].0, runs[i].1);
        PartLoopsExactly(parts[i]);
        RunInCover(runs, i);
        assert runs[i].0 in RunSet(runs[i]);
      }
      if MAX_INT in xs && MAX_INT - 1 in xs {
        TopSorted(ys);
        var i := TopRun(ys[0], ys[0], ys[1..]);
        assert parts[i] in parts;
      }
      forall p | p in parts && PartLoops(p) ensures MAX_INT in xs && MAX_INT - 1 in xs {
        var i :| 0 <= i < |parts| && parts[i] == p;
        RunInCover(runs, i);
        assert MAX_INT in RunSet(runs[i]) && MAX_INT - 1 in RunSet(runs[i]);
      }
    }
  }

  lemma EmptyTerminates()
    ensures Terminates("")
  {
    assert Split("", ',') == [""];
    assert TrimSpace("") == "";
  }

  /** Both of the largest two ints are among the numbers, so that a printed range ends at the largest. */
  predicate HasTop(d: set<int>) {
    MAX_INT in d && MAX_INT - 1 in d
  }

  /** Printing a list and parsing it back gives the strictly ascending list of its distinct elements exactly
      when no element is negative and the largest two ints are not both among them.  A negative number is lost
      with its run; on a range that ends at the largest int the parser never returns. */
  lemma PrintParses(xs: seq<int64>)
    ensures Parse(Print(xs)) == Some(Listed(Elements(xs))) <==>
            (forall x :: x in xs ==> x >= 0) && !(MAX_INT in xs && MAX_INT - 1 in xs)
  {
    hide Denote, Print, Listed, Terminates;
    PrintDenotes(xs);
    if forall x :: x in xs ==> x >= 0 { PrintTerminates(xs); }
    assert Elements(Listed(Denote(Print(xs)))) == Denote(Print(xs));
    assert Elements(Listed(Elements(xs))) == Elements(xs);
  }

  lemma TopSorted(ys: seq<int64>)
    requires ys != [] && Nondecreasing(ys) && MAX_INT in ys && MAX_INT - 1 in ys
    ensures Nondecreasing(ys[1..]) && (ys[1..] != [] ==> ys[0] <= ys[1..][0])
    ensures ys[0] < MAX_INT && MAX_INT in ys[1..] && (ys[0] == MAX_INT - 1 || MAX_INT - 1 in ys[1..])
  {
    assert ys == [ys[0]] + ys[1..];
  }

  // ---------------------------------------------------------------- the normal form

  /** The canonical spelling of a set of ints. */
  ghost function Spell(d: set<int>): (s: string)
    requires forall x :: x in d ==> 0 <= x < TWO_63
  {
    ListedInt64(d);
    Print(Listed(d))
  }

  lemma ListedInt64(d: set<int>)
    requires forall x :: x in d ==> 0 <= x < TWO_63
    ensures AllInt64(Listed(d))
  {
    hide Listed;
    var xs := Listed(d);
    assert forall i :: 0 <= i < |xs| ==> xs[i] in Elements(xs);
  }

  lemma SpellDenotes(d: set<int>)
    requires forall x :: x in d ==> 0 <= x < TWO_63
    ensures Denote(Spell(d)) == d
    ensures Terminates(Spell(d)) <==> !HasTop(d)
  {
    hide Denote, Print, Listed, Terminates;
    ListedInt64(d);
    var xs := Listed(d);
    assert forall x :: x in xs <==> x in Elements(xs);
    PrintDenotes(xs);
    PrintTerminates(xs);
  }

  /** Parse, then print: None where the parser never returns. */
  ghost function Normalise(s: string): (t: Option<string>) {
    DenoteNonnegative(s);
    if Terminates(s) then Some(Spell(Denote(s))) else None
  }

  /** A normal form is its own normal form, except that it cannot be parsed at all when it holds both of the
      largest two ints. */
  lemma NormaliseIdempotent(s: string)
    ensures Normalise(s).Some? ==>
              Normalise(Normalise(s).value) == if HasTop(Denote(s)) then None else Normalise(s)
  {
    hide Denote, Spell, Terminates, HasTop;
    DenoteNonnegative(s);
    SpellDenotes(Denote(s));
  }

  /** The second pass over these numbers never returns, though the first does. */
  lemma NormaliseOnce()
    ensures var s := "9223372036854775806,9223372036854775807";
            Normalise(s).Some? && Normalise(Normalise(s).value) == None
  {
    hide Denote, Terminates, Normalise, Listed;
    var s := "9223372036854775806,9223372036854775807";
    LargestPairParses();
    assert Denote(s) == Elements([MAX_INT - 1, MAX_INT]) by { assert Elements(Listed(Denote(s))) == Denote(s); }
    assert MAX_INT in [MAX_INT - 1, MAX_INT] && MAX_INT - 1 in [MAX_INT - 1, MAX_INT];
    assert Normalise(s).Some? by { NormaliseReturns(s); }
    NormaliseIdempotent(s);
  }

  lemma NormaliseReturns(s: string)
    ensures Normalise(s).Some? <==> Parse(s).Some?
  {
    hide Denote, Terminates, Spell;
  }

  lemma NormaliseDecides(s: string, t: string)
    ensures Normalise(s).Some? && Normalise(t).Some? ==>
              (Normalise(s) == Normalise(t) <==> Denote(s) == Denote(t))
  {
    hide Denote, Spell, Terminates;
    DenoteNonnegative(s);
    DenoteNonnegative(t);
    SpellDenotes(Denote(s));
    SpellDenotes(Denote(t));
  }

  // ---------------------------------------------------------------- with the fewest parts

  /** Consecutive runs leave a gap. */
  ghost predicate Separated(runs: seq<(int64, int64)>) {
    forall i, j :: 0 <= i < j < |runs| ==> (runs[j].0 as int) - (runs[i].1 as int) > 1
  }

  lemma {:induction false} RunsSeparated(start: int64, end: int64, rest: seq<int64>)
    requires start <= end && Ascending(rest) && (rest != [] ==> end < rest[0])
    ensures var runs := RunsFrom(start, end, rest);
            Ordered(runs) && Separated(runs) && runs[0].0 == start
    decreases |rest|
  {
    if rest != [] {
      var tail := rest[1..];
      if rest[0] == end + 1 {
        RunsSeparated(start, rest[0], tail);
      } else {
        RunsSeparated(rest[0], rest[0], tail);
        var more := RunsFrom(rest[0], rest[0], tail);
        assert forall j :: 0 < j < |more| ==> more[0].1 < more[j].0;
      }
    }
  }

  lemma {:induction false} Covered(runs: seq<(int64, int64)>, x: int)
    requires x in Cover(runs)
    ensures exists i :: 0 <= i < |runs| && runs[i].0 <= x <= runs[i].1
    decreases |runs|
  {
    if x !in RunSet(runs[0]) {
      Covered(runs[1..], x);
      var i :| 0 <= i < |runs| - 1 && runs[1..][i].0 <= x <= runs[1..][i].1;
      assert runs[i + 1].0 <= x <= runs[i + 1].1;
    }
  }

  /** What comes just before a run is in no run. */
  lemma GapBefore(runs: seq<(int64, int64)>, i: nat)
    requires Ordered(runs) && Separated(runs) && i < |runs|
    ensures (runs[i].0 as int) - 1 !in Cover(runs)
  {
    hide Cover;
    var x := (runs[i].0 as int) - 1;
    if x in Cover(runs) { Covered(runs, x); }
  }

  function RunStarts(runs: seq<(int64, int64)>): (xs: seq<int>)
    ensures |xs| == |runs| && forall i :: 0 <= i < |runs| ==> xs[i] == runs[i].0
  {
    if runs == [] then [] else [runs[0].0] + RunStarts(runs[1..])
  }

  function LowEnds(parts: seq<string>): (s: set<int>) {
    if parts == [] then {}
    else (if PartRange(parts[0]).Some? then {PartRange(parts[0]).value.lo} else {}) + LowEnds(parts[1..])
  }

  lemma {:induction false} LowEndsSize(parts: seq<string>)
    ensures |LowEnds(parts)| <= |parts|
    decreases |parts|
  {
    hide PartRange;
    if parts != [] {
      LowEndsSize(parts[1..]);
      var one := if PartRange(parts[0]).Some? then {PartRange(parts[0]).value.lo} else {};
      UnionSize(one, LowEnds(parts[1..]));
    }
  }

  lemma UnionSize(a: set<int>, b: set<int>)
    ensures |a + b| <= |a| + |b|
  {
    assert a + b == a + (b - a);
    assert b - a <= b;
    SubsetSize(b - a, b);
  }

  lemma SubsetSize(a: set<int>, b: set<int>)
    requires a <= b
    ensures |a| <= |b|
  {
    assert b == a + (b - a);
  }

  lemma {:induction false} LowEndMember(parts: seq<string>, i: nat)
    requires i < |parts| && PartRange(parts[i]).Some?
    ensures PartRange(parts[i]).value.lo in LowEnds(parts)
    decreases i
  {
    hide PartRange;
    if i > 0 { LowEndMember(parts[1..], i - 1); }
  }

  /** Whatever string denotes what separated runs cover has a part that begins where each run does. */
  lemma StartIsLowEnd(t: string, runs: seq<(int64, int64)>, i: nat)
    requires Ordered(runs) && Separated(runs) && Denote(t) == Cover(runs) && i < |runs|
    ensures runs[i].0 in LowEnds(Split(t, ','))
  {
    hide PartRange, Split, Cover, LowEnds;
    var parts := Split(t, ',');
    var x: int := runs[i].0;
    RunInCover(runs, i);
    assert x in RunSet(runs[i]);
    DenoteMember(parts, x);
    var k :| 0 <= k < |parts| && x in RangeSet(PartRange(parts[k]));
    GapBefore(runs, i);
    DenoteMember(parts, x - 1);
    assert x - 1 !in RangeSet(PartRange(parts[k]));
    LowEndMember(parts, k);
  }

  lemma RunsNeedParts(t: string, runs: seq<(int64, int64)>)
    requires Ordered(runs) && Separated(runs) && Denote(t) == Cover(runs)
    ensures |runs| <= |Split(t, ',')|
  {
    hide PartRange, Split, Cover, LowEnds, Denote;
    var starts := RunStarts(runs);
    var low := LowEnds(Split(t, ','));
    forall x | x in Elements(starts) ensures x in low {
      var i :| 0 <= i < |starts| && starts[i] == x;
      StartIsLowEnd(t, runs, i);
    }
    assert Distinct(starts);
    DistinctSize(starts);
    SubsetSize(Elements(starts), low);
    LowEndsSize(Split(t, ','));
  }

  lemma SpellMinimal(t: string)
    requires forall x :: x in Denote(t) ==> 0 <= x < TWO_63
    ensures |Split(Spell(Denote(t)), ',')| <= |Split(t, ',')|
  {
    hide PartRange, Split, Denote, Listed, FormatRuns, Join, RunsFrom, Sort, Cover, Kept;
    ListedInt64(Denote(t));
    var xs: seq<int64> := Listed(Denote(t));
    AscendingListed(xs);
    if xs == [] {
      PrintNothing();
      SplitNone("", ',');
    } else {
      var runs := Runs(xs);
      RunsSeparated(xs[0], xs[0], xs[1..]);
      DenoteSorted(xs);
      DenoteRuns(runs);
      SplitJoin(FormatRuns(runs), ',');
      RunsNeedParts(t, runs);
    }
  }

  /** No string with the same meaning has fewer parts than the normal form. */
  lemma NormaliseMinimal(s: string, t: string)
    ensures Normalise(s).Some? && Denote(s) == Denote(t) ==>
              |Split(Normalise(s).value, ',')| <= |Split(t, ',')|
  {
    hide Split, Denote, Spell, Terminates;
    DenoteNonnegative(t);
    SpellMinimal(t);
  }
}
