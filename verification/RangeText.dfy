/** Range strings as text: exactly which numbers a string names, and exactly what text a list is printed as. */
module RangeText {
  import opened Options
  import opened Integers
  import opened Text
  import opened TextFacts
  import opened IntLists
  import opened RangeStrings
  import opened RangeNormalForm
  import opened NumaMaps

  // ---------------------------------------------------------------- reading

  /** A part is a range when it has a dash: what stands before the first and what stands between it and the next. */
  predicate IsRange(p: string, a: string, b: string, rest: string) {
    p == a + "-" + b + rest && '-' !in a && '-' !in b && (rest == "" || rest[0] == '-')
  }

  ghost predicate Between(a: string, b: string, x: int) {
    exists lo: int, hi: int :: Reads(a, lo) && Reads(b, hi) && 0 <= lo <= x <= hi
  }

  /** x is the number p is, or lies between the two numbers p begins with. */
  ghost predicate Means(p: string, x: int) {
    || ('-' !in p && Reads(p, x) && x >= 0)
    || (exists a: string, b: string, rest: string :: IsRange(p, a, b, rest) && Between(a, b, x))
  }

  lemma RangeSplits(p: string, a: string, b: string, rest: string)
    requires IsRange(p, a, b, rest)
    ensures '-' in p && Split(p, '-')[0] == a && Split(p, '-')[1] == b
  {
    hide Split;
    assert p == a + ['-'] + (b + rest);
    SplitAt(a, '-', b + rest);
    assert p[|a|] == '-';
    if rest == "" {
      assert b + rest == b;
      SplitNone(b, '-');
    } else {
      assert b + rest == b + ['-'] + rest[1..];
      SplitAt(b, '-', rest[1..]);
    }
  }

  lemma NoRange(p: string)
    ensures forall a: string, b: string, rest: string :: IsRange(p, a, b, rest) ==> '-' in p
  {
    forall a: string, b: string, rest: string | IsRange(p, a, b, rest) ensures '-' in p {
      assert p[|a|] == '-';
    }
  }

  lemma DashIsRange(p: string) returns (a: string, b: string, rest: string)
    requires '-' in p
    ensures IsRange(p, a, b, rest)
  {
    var i := FirstAt(p, '-');
    a := p[..i];
    var tail := p[i + 1..];
    if '-' in tail {
      var j := FirstAt(tail, '-');
      b, rest := tail[..j], tail[j..];
    } else {
      b, rest := tail, "";
    }
    assert p == a + "-" + (b + rest);
  }

  lemma BetweenExactly(a: string, b: string, x: int)
    ensures Between(a, b, x) <==> var lo, hi := SafeInt(a, -1), SafeInt(b, -1); 0 <= lo <= x <= hi
  {
    hide SafeInt, Reads;
    SafeIntExactly(a, -1);
    SafeIntExactly(b, -1);
    var lo, hi := SafeInt(a, -1), SafeInt(b, -1);
    if 0 <= lo <= x <= hi { assert Reads(a, lo) && Reads(b, hi); }
  }

  /** One part contributes exactly what it means. */
  lemma PartExactly(p: string, x: int)
    ensures x in RangeSet(PartRange(p)) <==> Means(p, x)
  {
    hide SafeInt, Reads, Split, TrimSpace, CpuPart, Between;
    CpuPartTrims(p);
    CpuPartOf(p);
    CpuPartOf(TrimSpace(p));
    if '-' in p {
      var a, b, rest := DashIsRange(p);
      RangeSplits(p, a, b, rest);
      BetweenExactly(a, b, x);
      forall a', b', rest' | IsRange(p, a', b', rest') ensures a' == a && b' == b { RangeSplits(p, a', b', rest'); }
    } else {
      SafeIntExactly(p, -1);
      NoRange(p);
    }
  }

  /** A string names exactly the numbers that one of its comma-separated parts means. */
  lemma DenoteExactly(s: string, x: int)
    ensures x in Denote(s) <==> exists p: string :: IsPart(s, p, ',') && Means(p, x)
  {
    hide PartRange, RangeSet, Means, IsPart, Split;
    var parts := Split(s, ',');
    DenoteMember(parts, x);
    if x in Denote(s) {
      var i :| 0 <= i < |parts| && x in RangeSet(PartRange(parts[i]));
      PartExactly(parts[i], x);
      SplitExactly(s, parts[i], ',');
    }
    forall p: string | IsPart(s, p, ',') && Means(p, x) ensures x in Denote(s) {
      SplitExactly(s, p, ',');
      PartExactly(p, x);
      var i :| 0 <= i < |parts| && parts[i] == p;
    }
  }

  /** A string in which no part means anything parses to the empty list and maps to the empty string. */
  lemma UnreadableIsEmpty(mapping: seq<int64>, s: string)
    requires |mapping| < TWO_63 && forall p: string, x: int :: IsPart(s, p, ',') ==> !Means(p, x)
    ensures Parse(s) == Some([]) && NodeString(mapping, s) == "" && CpuString(mapping, s) == ""
  {
    hide Denote, IsPart, Means, Split, PartRange, PartLoops, Spell, RangeSet;
    forall x: int ensures x !in Denote(s) { DenoteExactly(s, x); }
    assert Denote(s) == {};
    forall p | p in Split(s, ',') ensures !PartLoops(p) {
      SplitExactly(s, p, ',');
      if PartLoops(p) {
        PartLoopsExactly(p);
        LoopNames(p);
        PartExactly(p, MAX_INT);
      }
    }
    NothingSpelt();
    NoNodes(mapping);
    assert Listed({}) == [];
  }

  lemma LoopNames(p: string)
    requires PartRange(p).Some? && PartRange(p).value.hi == MAX_INT
    ensures MAX_INT in RangeSet(PartRange(p))
  {
    hide PartRange;
  }

  /** Such as the text a driver gives for what it does not know. */
  lemma NotAvailable(mapping: seq<int64>)
    requires |mapping| < TWO_63
    ensures Parse("N/A") == Some([]) && NodeString(mapping, "N/A") == ""
  {
    hide Parse, NodeString, CpuString, IsPart, Means;
    forall p: string, x: int | IsPart("N/A", p, ',') ensures !Means(p, x) {
      SplitExactly("N/A", p, ',');
      SplitNone("N/A", ',');
      LettersMeanNothing("N/A", x);
    }
    UnreadableIsEmpty(mapping, "N/A");
  }

  lemma LettersMeanNothing(s: string, x: int)
    requires s != "" && 'A' <= s[|s| - 1] <= 'Z' && '-' !in s
    ensures !Means(s, x)
  {
    hide IsDecimal;
    NoRange(s);
    forall u: string, d: string, w: string, v: int | s == u + d + w && AllSpace(w) ensures !IsDecimal(d, v) {
      LastOfDecimal(d, v);
      assert w != "" ==> w[|w| - 1] == s[|s| - 1];
      assert w == "" && d != "" ==> d[|d| - 1] == s[|s| - 1];
    }
  }

  lemma LastOfDecimal(d: string, v: int)
    ensures IsDecimal(d, v) ==> d != "" && '0' <= d[|d| - 1] <= '9'
  {
    hide Places;
    if |d| > 1 { assert d[|d| - 1] == d[1..][|d| - 2]; }
  }

  // ---------------------------------------------------------------- printing

  /** The text of one printed range: a numeral, or two joined by a dash; below zero, of the unsigned number. */
  ghost predicate IsRangeText(p: string, lo: int64, hi: int64) {
    if lo == hi then IsNumeral(p, Unsigned(lo))
    else exists a: string, b: string :: p == a + "-" + b && IsNumeral(a, Unsigned(lo)) && IsNumeral(b, Unsigned(hi))
  }

  function Unsigned(x: int64): (n: nat) { if x >= 0 then x else x + 0x1_0000_0000_0000_0000 }

  lemma RangeTextOf(lo: int64, hi: int64)
    ensures IsRangeText(FormatRange(lo, hi), lo, hi)
  {
    hide FormatNat, IsNumeral;
    FormatIsNumeral(Unsigned(lo));
    FormatIsNumeral(Unsigned(hi));
    assert ToUint64(lo) == Unsigned(lo) && ToUint64(hi) == Unsigned(hi);
    assert lo != hi ==> FormatRange(lo, hi) == FormatNat(Unsigned(lo)) + "-" + FormatNat(Unsigned(hi));
  }

  /** Ranges in ascending order, none of which continues the one before. */
  ghost predicate InOrder(runs: seq<(int64, int64)>) {
    && (forall i :: 0 <= i < |runs| ==> runs[i].0 <= runs[i].1)
    && (forall i, j :: 0 <= i < j < |runs| ==> runs[i].1 <= runs[j].0)
    && (forall i, j :: 0 <= i && j == i + 1 && j < |runs| ==> runs[j].0 as int != runs[i].1 as int + 1)
  }

  lemma {:induction false} RunsInOrder(start: int64, end: int64, rest: seq<int64>)
    requires start <= end && Nondecreasing(rest) && (rest != [] ==> end <= rest[0])
    ensures var runs := RunsFrom(start, end, rest);
            InOrder(runs) && runs[0].0 == start && runs[0].1 >= end
    decreases |rest|
  {
    RunsStep(start, end, rest);
    hide RunsFrom;
    if rest == [] {
      assert InOrder([(start, end)]);
    } else {
      hide InOrder;
      var tail := rest[1..];
      if rest[0] == end + 1 {
        RunsInOrder(start, rest[0], tail);
      } else {
        RunsInOrder(rest[0], rest[0], tail);
        OneMoreRun((start, end), RunsFrom(rest[0], rest[0], tail));
      }
    }
  }

  lemma OneMoreRun(run: (int64, int64), more: seq<(int64, int64)>)
    requires InOrder(more) && more != [] && run.0 <= run.1 <= more[0].0 && more[0].0 as int != run.1 as int + 1
    ensures InOrder([run] + more)
  {
    var runs := [run] + more;
    assert forall j :: 0 < j < |runs| ==> runs[j] == more[j - 1];
    forall i, j | 0 <= i < j < |runs| ensures runs[i].1 <= runs[j].0 {
      if i == 0 {
        assert more[0].0 <= more[0].1;
        if j > 1 { assert more[0].1 <= more[j - 1].0; }
      } else {
        assert more[i - 1].1 <= more[j - 1].0;
      }
    }
    forall i, j | 0 <= i && j == i + 1 && j < |runs| ensures runs[j].0 as int != runs[i].1 as int + 1 {
      if i > 0 {
        var i', j' := i - 1, j - 1;
        assert more[j'].0 as int != more[i'].1 as int + 1;
      }
    }
  }

  /** What any list that is not empty prints as: the texts of ranges that hold exactly its elements, from the lowest to
      the highest, between commas.  For a list without duplicates that is one text. */
  lemma PrintText(xs: seq<int64>) returns (runs: seq<(int64, int64)>)
    requires xs != []
    ensures InOrder(runs) && runs != []
    ensures forall x: int :: x in xs <==> exists i :: 0 <= i < |runs| && runs[i].0 <= x <= runs[i].1
    ensures var parts := Split(Print(xs), ',');
            |parts| == |runs| && forall i :: 0 <= i < |runs| ==> IsRangeText(parts[i], runs[i].0, runs[i].1)
  {
    hide Sort, RunsFrom, FormatRange, PartRange, Split, Join, Cover, Nondecreasing, InOrder, IsRangeText, Kept;
    SortInt64(xs);
    SortElements(xs);
    SortSorted(xs);
    var ys: seq<int64> := Sort(xs);
    SortedTail(ys);
    runs := Runs(ys);
    RunsInOrder(ys[0], ys[0], ys[1..]);
    DenoteSorted(ys);
    DenoteRuns(runs);
    var parts := FormatRuns(runs);
    SplitJoin(parts, ',');
    forall i | 0 <= i < |runs| ensures IsRangeText(parts[i], runs[i].0, runs[i].1) {
      RangeTextOf(runs[i].0, runs[i].1);
    }
    forall x: int ensures x in xs <==> exists i :: 0 <= i < |runs| && runs[i].0 <= x <= runs[i].1 {
      assert x in xs <==> x in Elements(xs);
      CoverExactly(runs, x);
    }
  }

  lemma SortedTail(ys: seq<int64>)
    requires Nondecreasing(ys) && ys != []
    ensures Nondecreasing(ys[1..]) && (ys[1..] != [] ==> ys[0] <= ys[1..][0])
  {
  }

  lemma CoverExactly(runs: seq<(int64, int64)>, x: int)
    ensures x in Cover(runs) <==> exists i :: 0 <= i < |runs| && runs[i].0 <= x <= runs[i].1
  {
    hide Cover;
    if x in Cover(runs) { RangeNormalForm.Covered(runs, x); }
    forall i | 0 <= i < |runs| && runs[i].0 <= x <= runs[i].1 ensures x in Cover(runs) { RunInCover(runs, i); }
  }

  /** The documented case. */
  lemma DocumentedText()
    ensures Print([0, 1, 2, 4, 5, 7]) == "0-2,4-5,7"
  {
    hide Sort, Runs, FormatRuns, Join;
    var xs: seq<int64> := [0, 1, 2, 4, 5, 7];
    AscendingListed(xs);
    ThreeRuns();
    ThreeTexts();
  }

  lemma ThreeRuns()
    ensures Runs([0, 1, 2, 4, 5, 7]) == [(0, 2), (4, 5), (7, 7)]
  {
    hide RunsFrom;
    var xs: seq<int64> := [0, 1, 2, 4, 5, 7];
    RunsStep(0, 0, xs[1..]);
    RunsStep(0, 1, xs[1..][1..]);
    RunsStep(0, 2, xs[1..][1..][1..]);
    assert xs[1..][1..] == [2, 4, 5, 7];
    assert xs[1..][1..][1..] == [4, 5, 7];
    var ys: seq<int64> := [4, 5, 7];
    RunsStep(4, 4, ys[1..]);
    assert ys[1..] == [5, 7];
    RunsStep(4, 5, ys[1..][1..]);
    assert ys[1..][1..] == [7];
    assert ys[1..][1..][1..] == [];
    RunsStep(7, 7, []);
  }

  lemma ThreeTexts()
    ensures Join(FormatRuns([(0, 2), (4, 5), (7, 7)]), ',') == "0-2,4-5,7"
  {
    hide FormatNat, FormatRuns, Join;
    OneDigits();
    assert FormatRange(0, 2) == "0-2" && FormatRange(4, 5) == "4-5" && FormatRange(7, 7) == "7";
    var runs: seq<(int64, int64)> := [(0, 2), (4, 5), (7, 7)];
    var parts := FormatRuns(runs);
    assert parts[0] == "0-2" && parts[1] == "4-5" && parts[2] == "7";
    assert parts == ["0-2", "4-5", "7"];
    JoinThree("0-2", "4-5", "7");
  }

  lemma JoinThree(a: string, b: string, c: string)
    ensures Join([a, b, c], ',') == a + "," + b + "," + c
  {
    assert [a, b, c][1..] == [b, c] && [b, c][1..] == [c];
    assert Join([b, c], ',') == b + [','] + Join([c], ',');
  }

  lemma OneDigits()
    ensures FormatNat(0) == "0" && FormatNat(2) == "2" && FormatNat(4) == "4"
    ensures FormatNat(5) == "5" && FormatNat(7) == "7"
  {
  }

  // ---------------------------------------------------------------- the NUMA strings

  /** The string of nodes names exactly the nodes at least 0 that the table gives for a CPU named and in the table. */
  lemma NodeTextExactly(mapping: seq<int64>, affinity: string, x: int)
    ensures x in Denote(NodeString(mapping, affinity)) <==>
            x >= 0 && exists c: nat :: c < |mapping| && c in Denote(affinity) && mapping[c] == x
  {
    hide Denote, NodeString;
    NodeStringDenotes(mapping, affinity);
    if x in NodesOf(mapping, Denote(affinity)) {
      var c :| c in Denote(affinity) && IsMapped(mapping, c) && x == mapping[c] as int;
      var k: nat := c;
      assert k < |mapping| && k in Denote(affinity) && mapping[k] == x;
    }
    forall c: nat | x >= 0 && c < |mapping| && c in Denote(affinity) && mapping[c] == x
      ensures x in NodesOf(mapping, Denote(affinity))
    {
      assert IsMapped(mapping, c);
    }
  }

  /** The string of CPUs names exactly the CPUs of the table whose node, at least 0, is named. */
  lemma CpuTextExactly(mapping: seq<int64>, node: string, c: int)
    requires |mapping| < TWO_63
    ensures c in Denote(CpuString(mapping, node)) <==>
            0 <= c < |mapping| && mapping[c] >= 0 && mapping[c] as int in Denote(node)
  {
    hide Denote, CpuString;
    CpuStringDenotes(mapping, node);
  }

  /** A CPU below the size of the table takes the part's node exactly when the part means it, or is a range whose low
      end does not read and whose high end is no lower. */
  lemma NamesExactly(p: string, c: nat)
    ensures Names(p, c) <==>
            Means(p, c) || exists a: string, b: string, rest: string ::
                             IsRange(p, a, b, rest) && OnlyHigh(a, b, c)
  {
    hide SafeInt, Reads, Split, CpuPart, Means, PartRange, RangeSet, OnlyHigh;
    CpuPartOf(p);
    PartReader(p, c);
    PartExactly(p, c);
    if '-' in p {
      var a, b, rest := DashIsRange(p);
      RangeSplits(p, a, b, rest);
      forall a', b', rest' | IsRange(p, a', b', rest') ensures a' == a && b' == b { RangeSplits(p, a', b', rest'); }
      HighExactly(a, b, c);
    } else {
      NoRange(p);
    }
  }

  ghost predicate OnlyHigh(a: string, b: string, c: nat) {
    (forall lo: int :: !Reads(a, lo)) && exists hi: int :: Reads(b, hi) && c <= hi
  }

  lemma HighExactly(a: string, b: string, c: nat)
    requires '-' !in a
    ensures OnlyHigh(a, b, c) <==> SafeInt(a, -1) < 0 && c <= SafeInt(b, -1)
  {
    hide SafeInt, Reads;
    SafeIntExactly(a, -1);
    SafeIntExactly(b, -1);
    NoDashNoMinus(a);
  }

  lemma NoDashNoMinus(a: string)
    requires '-' !in a
    ensures forall v: int :: Reads(a, v) ==> v >= 0
  {
    hide IsDecimal, AllSpace;
    forall v: int | Reads(a, v) ensures v >= 0 {
      var u, d, w :| a == u + d + w && AllSpace(u) && AllSpace(w) && IsDecimal(d, v);
      MinusShows(d, v);
      assert d != "" ==> d[0] == a[|u|];
    }
  }

  lemma MinusShows(d: string, v: int)
    ensures IsDecimal(d, v) ==> d != "" && (v < 0 ==> d[0] == '-')
  {
    hide Places;
    if Digits(d) { PlacesNonnegative(d); }
    if d != "" && Digits(d[1..]) { PlacesNonnegative(d[1..]); }
  }
}
