/** NUMA affinity: the maps between CPU sets and node sets, as sets and as the range strings that spell
    them, and the table they are read from. */
module NumaMaps {
  import opened Options
  import opened Integers
  import opened Text
  import opened IntLists
  import opened RangeStrings
  import opened RangeNormalForm
  import opened CountingLoops

  // ---------------------------------------------------------------- CPUs and nodes

  predicate IsMapped(mapping: seq<int64>, c: int) {
    0 <= c < |mapping| && mapping[c] >= 0
  }

  function Mapped(mapping: seq<int64>): (s: set<int>) {
    set c | 0 <= c < |mapping| && IsMapped(mapping, c)
  }

  function Populated(mapping: seq<int64>): (s: set<int>) {
    set c | 0 <= c < |mapping| && IsMapped(mapping, c) :: mapping[c] as int
  }

  function NodesOf(mapping: seq<int64>, cpus: set<int>): (s: set<int>) {
    set c | c in cpus && IsMapped(mapping, c) :: mapping[c] as int
  }

  function CpusOf(mapping: seq<int64>, nodes: set<int>): (s: set<int>) {
    set c | 0 <= c < |mapping| && IsMapped(mapping, c) && mapping[c] as int in nodes
  }

  /** The two maps are adjoint: a CPU set stays within the nodes N exactly when its mapped CPUs are CPUs of N. */
  lemma Adjoint(mapping: seq<int64>, cpus: set<int>, nodes: set<int>)
    ensures NodesOf(mapping, cpus) <= nodes <==> cpus * Mapped(mapping) <= CpusOf(mapping, nodes)
  {
    if cpus * Mapped(mapping) <= CpusOf(mapping, nodes) {
      forall n | n in NodesOf(mapping, cpus) ensures n in nodes {
        var c :| c in cpus && IsMapped(mapping, c) && n == mapping[c] as int;
        assert c in cpus * Mapped(mapping);
      }
    }
  }

  lemma NodesOfCpus(mapping: seq<int64>, nodes: set<int>)
    ensures NodesOf(mapping, CpusOf(mapping, nodes)) == nodes * Populated(mapping)
  {
    var back := NodesOf(mapping, CpusOf(mapping, nodes));
    forall n | n in nodes * Populated(mapping) ensures n in back {
      var c :| 0 <= c < |mapping| && IsMapped(mapping, c) && n == mapping[c] as int;
      assert c in CpusOf(mapping, nodes);
    }
  }

  lemma NodeBounds(mapping: seq<int64>, cpus: set<int>)
    ensures forall n :: n in NodesOf(mapping, cpus) ==> 0 <= n < TWO_63
  {
  }

  lemma CpuBounds(mapping: seq<int64>, nodes: set<int>)
    requires |mapping| < TWO_63
    ensures forall c :: c in CpusOf(mapping, nodes) ==> 0 <= c < TWO_63
  {
  }

  // ---------------------------------------------------------------- the same on strings

  /** MapCPUAffinityStrToNumaNode as a function. */
  ghost function NodeString(mapping: seq<int64>, affinity: string): (s: string) {
    NodeBounds(mapping, Denote(affinity));
    Spell(NodesOf(mapping, Denote(affinity)))
  }

  /** MapNumaNodeStrToCPUAffinity as a function. */
  ghost function CpuString(mapping: seq<int64>, node: string): (s: string)
    requires |mapping| < TWO_63
  {
    CpuBounds(mapping, Denote(node));
    Spell(CpusOf(mapping, Denote(node)))
  }

  lemma NodeStringDenotes(mapping: seq<int64>, affinity: string)
    ensures Denote(NodeString(mapping, affinity)) == NodesOf(mapping, Denote(affinity))
    ensures Terminates(NodeString(mapping, affinity)) <==> !HasTop(NodesOf(mapping, Denote(affinity)))
  {
    hide Denote, Spell, NodesOf, Terminates, HasTop;
    NodeBounds(mapping, Denote(affinity));
    SpellDenotes(NodesOf(mapping, Denote(affinity)));
  }

  /** A string of CPUs can always be parsed: no table is long enough to number a CPU with the largest int. */
  lemma CpuStringDenotes(mapping: seq<int64>, node: string)
    requires |mapping| < TWO_63
    ensures Denote(CpuString(mapping, node)) == CpusOf(mapping, Denote(node))
    ensures Terminates(CpuString(mapping, node))
  {
    hide Denote, Spell, Terminates;
    CpuBounds(mapping, Denote(node));
    SpellDenotes(CpusOf(mapping, Denote(node)));
  }

  /** Nodes to CPUs to nodes, which never fails to return if the first parse does: exactly the populated nodes
      that were named.  Only the result may be a string that cannot be parsed again. */
  lemma NodeCpuNode(mapping: seq<int64>, node: string)
    requires |mapping| < TWO_63
    ensures Terminates(CpuString(mapping, node))
    ensures var back := NodeString(mapping, CpuString(mapping, node));
            && Denote(back) == Denote(node) * Populated(mapping)
            && (Terminates(back) <==> !HasTop(Denote(node) * Populated(mapping)))
  {
    hide Denote, NodeString, CpuString, NodesOf, CpusOf, Populated, Terminates, HasTop;
    CpuStringDenotes(mapping, node);
    NodeStringDenotes(mapping, CpuString(mapping, node));
    NodesOfCpus(mapping, Denote(node));
  }

  /** CPUs to nodes to CPUs, or None where one of the two calls never returns. */
  ghost function Closure(mapping: seq<int64>, affinity: string): (s: Option<string>)
    requires |mapping| < TWO_63
  {
    if Terminates(affinity) && Terminates(NodeString(mapping, affinity))
    then Some(CpuString(mapping, NodeString(mapping, affinity))) else None
  }

  lemma ClosureReturns(mapping: seq<int64>, affinity: string)
    requires |mapping| < TWO_63
    ensures Closure(mapping, affinity).Some? <==>
            Terminates(affinity) && !HasTop(NodesOf(mapping, Denote(affinity)))
  {
    hide Denote, NodeString, CpuString, NodesOf, Terminates, HasTop;
    NodeStringDenotes(mapping, affinity);
  }

  lemma ClosureDenotes(mapping: seq<int64>, affinity: string)
    requires |mapping| < TWO_63 && Closure(mapping, affinity).Some?
    ensures Denote(Closure(mapping, affinity).value) == CpusOf(mapping, NodesOf(mapping, Denote(affinity)))
    ensures Terminates(Closure(mapping, affinity).value)
  {
    hide Denote, NodeString, CpuString, NodesOf, CpusOf, Terminates;
    NodeStringDenotes(mapping, affinity);
    CpuStringDenotes(mapping, NodeString(mapping, affinity));
  }

  /** CPUs to nodes to CPUs: every mapped CPU that was named is still there. */
  lemma ClosureExtensive(mapping: seq<int64>, affinity: string)
    requires |mapping| < TWO_63 && Closure(mapping, affinity).Some?
    ensures Denote(affinity) * Mapped(mapping) <= Denote(Closure(mapping, affinity).value)
  {
    hide Denote, Closure;
    ClosureDenotes(mapping, affinity);
    Adjoint(mapping, Denote(affinity), NodesOf(mapping, Denote(affinity)));
  }

  /** Once the two calls have returned, making them again returns the same string. */
  lemma ClosureIdempotent(mapping: seq<int64>, affinity: string)
    requires |mapping| < TWO_63 && Closure(mapping, affinity).Some?
    ensures Closure(mapping, Closure(mapping, affinity).value) == Closure(mapping, affinity)
  {
    hide Denote, Spell, NodesOf, CpusOf, Populated, Terminates;
    var once := Closure(mapping, affinity).value;
    ClosureDenotes(mapping, affinity);
    var nodes := NodesOf(mapping, Denote(affinity));
    NodesOfCpus(mapping, nodes);
    NodesPopulated(mapping, Denote(affinity));
    NodeBounds(mapping, Denote(affinity));
    NodeBounds(mapping, Denote(once));
  }

  lemma NodesPopulated(mapping: seq<int64>, cpus: set<int>)
    ensures NodesOf(mapping, cpus) * Populated(mapping) == NodesOf(mapping, cpus)
  {
  }

  // ---------------------------------------------------------------- the maps as computed

  /** Collects a set in whatever order it is iterated, and prints it. */
  method SpellSet(d: set<int>) returns (s: string)
    requires forall x :: x in d ==> 0 <= x < TWO_63
    ensures s == Spell(d)
  {
    hide Print, Listed, Sort;
    if d == {} {
      NothingSpelt();
      return "";
    }
    var list: seq<int64> := [];
    var rest := d;
    while rest != {}
      invariant rest <= d && Distinct(list) && Elements(list) !! rest && Elements(list) + rest == d
      decreases |rest|
    {
      EmptyOrNot(rest);
      var v :| v in rest;
      assert v !in Elements(list);
      assert Elements(list + [v]) == Elements(list) + {v};
      list, rest := list + [v], rest - {v};
    }
    ListedInt64(d);
    SamePrint(list, Listed(d));
    s := PrintList(list);
  }

  lemma NothingSpelt()
    ensures Spell({}) == ""
  {
    assert Listed({}) == [];
    NothingToPrint([]);
  }

  /** The order in which distinct values were collected does not show in the string. */
  lemma SamePrint(xs: seq<int64>, ys: seq<int64>)
    requires Distinct(xs) && Ascending(ys) && Elements(xs) == Elements(ys)
    ensures Print(xs) == Print(ys)
  {
    hide Sort, Listed, PrintSorted;
    ListedOf(xs);
    AscendingListed(ys);
    SortInt64(xs);
    SortInt64(ys);
  }

  lemma ElementsPrefix(xs: seq<int>, k: nat)
    requires k < |xs|
    ensures Elements(xs[..k + 1]) == Elements(xs[..k]) + {xs[k]}
  {
    assert xs[..k + 1] == xs[..k] + [xs[k]];
  }

  lemma EmptyDenotesNothing(mapping: seq<int64>)
    ensures NodeString(mapping, "") == "" && (|mapping| < TWO_63 ==> CpuString(mapping, "") == "")
  {
    hide Denote, Spell;
    EmptyString();
    NothingSpelt();
    assert NodesOf(mapping, {}) == {} && CpusOf(mapping, {}) == {};
  }

  /** MapCPUAffinityStrToNumaNode. */
  method MapCPUAffinityStrToNumaNode(mapping: seq<int64>, affinity: string) returns (r: string)
    requires Terminates(affinity)
    ensures r == NodeString(mapping, affinity)
  {
    hide Denote, Listed, Spell, NodesOf;
    EmptyDenotesNothing(mapping);
    assert NodesOf(mapping, {}) == {} by { NoNodes(mapping); }
    if affinity == "" { return ""; }
    var cpus := StrRangeToList(affinity);
    var nodes: set<int> := {};
    assert Elements(cpus[..0]) == {};
    for k := 0 to |cpus|
      invariant nodes == NodesOf(mapping, Elements(cpus[..k]))
    {
      ElementsPrefix(cpus, k);
      var c := cpus[k];
      if IsMapped(mapping, c) {
        AddNode(mapping, Elements(cpus[..k]), c);
        nodes := nodes + {mapping[c] as int};
      } else {
        SkipNode(mapping, Elements(cpus[..k]), c);
      }
    }
    assert cpus[..|cpus|] == cpus;
    NodeBounds(mapping, Denote(affinity));
    r := SpellSet(nodes);
  }

  lemma AddNode(mapping: seq<int64>, cpus: set<int>, c: int)
    requires IsMapped(mapping, c)
    ensures NodesOf(mapping, cpus + {c}) == NodesOf(mapping, cpus) + {mapping[c] as int}
  {
    assert c in cpus + {c};
  }

  lemma SkipNode(mapping: seq<int64>, cpus: set<int>, c: int)
    requires !IsMapped(mapping, c)
    ensures NodesOf(mapping, cpus + {c}) == NodesOf(mapping, cpus)
  {
  }

  /** The node table turned inside out: each populated node with its CPUs in ascending order, and no other. */
  ghost predicate IsInverse(mapping: seq<int64>, inverse: map<int, seq<int>>) {
    && inverse.Keys == Populated(mapping)
    && forall n :: n in inverse ==> Ascending(inverse[n]) && Elements(inverse[n]) == CpusOf(mapping, {n})
  }

  /** getNumaNodeCPUMapping. */
  method GetNumaNodeCPUMapping(mapping: seq<int64>) returns (res: map<int, seq<int>>)
    ensures IsInverse(mapping, res)
  {
    res := map[];
    for cpu := 0 to |mapping|
      invariant IsInverse(mapping[..cpu], res)
    {
      var node := mapping[cpu];
      assert mapping[..cpu + 1] == mapping[..cpu] + [node];
      InverseStep(mapping[..cpu], node, res);
      if node >= 0 {
        var list := if node in res then res[node] else [];
        res := res[node := list + [cpu]];
      }
    }
    assert mapping[..|mapping|] == mapping;
  }

  lemma CpusStep(mapping: seq<int64>, node: int64, n: int)
    ensures CpusOf(mapping + [node], {n}) ==
            CpusOf(mapping, {n}) + if node >= 0 && node == n then {|mapping|} else {}
  {
    var more := mapping + [node];
    assert forall c :: 0 <= c < |mapping| ==> more[c] == mapping[c] && IsMapped(more, c) == IsMapped(mapping, c);
    assert more[|mapping|] == node;
  }

  lemma AppendCpu(mapping: seq<int64>, n: int, list: seq<int>)
    requires Ascending(list) && Elements(list) == CpusOf(mapping, {n})
    ensures Ascending(list + [|mapping|]) && Elements(list + [|mapping|]) == CpusOf(mapping, {n}) + {|mapping|}
  {
    assert Elements(list + [|mapping|]) == Elements(list) + {|mapping|};
    assert forall i :: 0 <= i < |list| ==> list[i] in Elements(list);
  }

  lemma InverseStep(mapping: seq<int64>, node: int64, inverse: map<int, seq<int>>)
    requires IsInverse(mapping, inverse)
    ensures var list := if node in inverse then inverse[node] else [];
            IsInverse(mapping + [node], if node >= 0 then inverse[node as int := list + [|mapping|]] else inverse)
  {
    hide CpusOf, Populated, Ascending, Elements;
    var list := if node in inverse then inverse[node] else [];
    var after := if node >= 0 then inverse[node as int := list + [|mapping|]] else inverse;
    PopulatedStep(mapping, node);
    if node >= 0 && node !in inverse { NoCpus(mapping, node); NoList(); }
    forall n | n in after ensures Ascending(after[n]) && Elements(after[n]) == CpusOf(mapping + [node], {n}) {
      CpusStep(mapping, node, n);
      if node >= 0 && node == n { AppendCpu(mapping, n, list); }
    }
  }

  lemma NoList()
    ensures Ascending([]) && Elements([]) == {}
  {
  }

  lemma NoCpus(mapping: seq<int64>, n: int)
    requires n !in Populated(mapping)
    ensures CpusOf(mapping, {n}) == {}
  {
  }

  lemma PopulatedStep(mapping: seq<int64>, node: int64)
    ensures Populated(mapping + [node]) == Populated(mapping) + if node >= 0 then {node as int} else {}
  {
    var more := mapping + [node];
    assert forall c :: 0 <= c < |mapping| ==> more[c] == mapping[c] && IsMapped(more, c) == IsMapped(mapping, c);
    assert more[|mapping|] == node;
    if node >= 0 { assert IsMapped(more, |mapping|); }
  }

  /** Every mapped CPU is listed under exactly one node. */
  lemma InversePartitions(mapping: seq<int64>, inverse: map<int, seq<int>>, c: int)
    requires IsInverse(mapping, inverse)
    ensures c in Mapped(mapping) <==> exists n :: n in inverse && c in inverse[n]
    ensures forall m, n :: m in inverse && n in inverse && c in inverse[m] && c in inverse[n] ==> m == n
  {
    forall n | n in inverse && c in inverse[n] ensures IsMapped(mapping, c) && mapping[c] == n {
      assert c in Elements(inverse[n]);
    }
    if c in Mapped(mapping) {
      var n: int := mapping[c];
      assert n in Populated(mapping);
      assert c in CpusOf(mapping, {n});
    }
  }

  /** MapNumaNodeStrToCPUAffinity. */
  method MapNumaNodeStrToCPUAffinity(ghost mapping: seq<int64>, inverse: map<int, seq<int>>, node: string)
    returns (r: string)
    requires Terminates(node) && IsInverse(mapping, inverse) && |mapping| < TWO_63
    ensures r == CpuString(mapping, node)
  {
    hide Denote, Listed, Spell, IsMapped, CpusOf, IsInverse;
    EmptyDenotesNothing(mapping);
    if node == "" { return ""; }
    var nodes := StrRangeToList(node);
    var cpus: set<int> := {};
    NoNodes(mapping);
    assert Elements(nodes[..0]) == {};
    for k := 0 to |nodes|
      invariant cpus == CpusOf(mapping, Elements(nodes[..k]))
    {
      ElementsPrefix(nodes, k);
      AddCpus(mapping, inverse, Elements(nodes[..k]), nodes[k]);
      if nodes[k] in inverse { cpus := cpus + Elements(inverse[nodes[k]]); }
    }
    assert nodes[..|nodes|] == nodes;
    CpuBounds(mapping, Denote(node));
    r := SpellSet(cpus);
  }

  lemma NoNodes(mapping: seq<int64>)
    ensures CpusOf(mapping, {}) == {} && NodesOf(mapping, {}) == {}
  {
  }

  lemma AddCpus(mapping: seq<int64>, inverse: map<int, seq<int>>, nodes: set<int>, n: int)
    requires IsInverse(mapping, inverse)
    ensures CpusOf(mapping, nodes + {n}) ==
            CpusOf(mapping, nodes) + if n in inverse then Elements(inverse[n]) else {}
  {
    assert CpusOf(mapping, nodes + {n}) == CpusOf(mapping, nodes) + CpusOf(mapping, {n});
    if n !in inverse { NoCpus(mapping, n); }
  }

  // ---------------------------------------------------------------- reading the table

  /** The CPUs one part of a node's cpulist names.  A bound that does not parse reads as -1. */
  function CpuPart(raw: string): (r: Range)
    ensures -TWO_63 <= r.lo < TWO_63 && -TWO_63 <= r.hi < TWO_63
  {
    if '-' in raw then
      var p := Split(raw, '-');
      Range(SafeInt(p[0], -1), SafeInt(p[1], -1))
    else
      Range(SafeInt(raw, -1), SafeInt(raw, -1))
  }

  predicate Names(raw: string, c: int) {
    CpuPart(raw).lo <= c <= CpuPart(raw).hi
  }

  predicate Lists(list: string, c: int) {
    exists p :: p in Split(list, ',') && Names(p, c)
  }

  /** The loop that counts through a part with a dash comes to an end. */
  ghost predicate CpuPartTerminates(raw: string) {
    '-' in raw ==> !RunsForever(CpuPart(raw).lo, CpuPart(raw).hi)
  }

  lemma CpuPartTerminatesExactly(raw: string)
    ensures CpuPartTerminates(raw) <==> !('-' in raw && CpuPart(raw).hi == MAX_INT)
  {
    hide CpuPart, RunsForever;
    ForeverExactly(CpuPart(raw).lo, CpuPart(raw).hi);
  }

  ghost predicate ListTerminates(list: string) {
    forall p :: p in Split(list, ',') ==> CpuPartTerminates(p)
  }

  /** The node a CPU ends up with after the first k nodes were read: the last one that names it. */
  function Owner(lists: seq<Option<string>>, k: nat, c: int): (n: int)
    requires k <= |lists|
  {
    if k == 0 then -1
    else if lists[k - 1].Some? && Lists(lists[k - 1].value, c) then k - 1
    else Owner(lists, k - 1, c)
  }

  lemma {:induction false} OwnerIsLast(lists: seq<Option<string>>, k: nat, c: int, n: nat)
    requires k <= |lists|
    ensures Owner(lists, k, c) == n <==>
            n < k && lists[n].Some? && Lists(lists[n].value, c)
            && forall m :: n < m < k ==> !(lists[m].Some? && Lists(lists[m].value, c))
    ensures Owner(lists, k, c) == -1 <==> forall m :: 0 <= m < k ==> !(lists[m].Some? && Lists(lists[m].value, c))
  {
    hide Lists;
    if k > 0 { OwnerIsLast(lists, k - 1, c, n); }
  }

  method AssignPart(mapping: array<int>, raw: string, node: int)
    requires CpuPartTerminates(raw)
    modifies mapping
    ensures forall c :: 0 <= c < mapping.Length ==>
              mapping[c] == if Names(raw, c) then node else old(mapping[c])
  {
    hide SafeInt, Split, RunsForever;
    if '-' in raw {
      var p := Split(raw, '-');
      var lo, hi := SafeInt(p[0], -1), SafeInt(p[1], -1);
      assert hi < MAX_INT by { CpuPartTerminatesExactly(raw); }
      var c: int64 := lo;
      ghost var turns := 0;
      while c <= hi
        invariant lo <= c && (c <= hi + 1 || c == lo) && c == Counter(lo, turns)
        invariant forall k :: 0 <= k < mapping.Length ==>
                    mapping[k] == if lo <= k < c then node else old(mapping[k])
        decreases hi - c
      {
        if c >= 0 && c < mapping.Length { mapping[c] := node; }
        c, turns := WrapAdd(c, 1), turns + 1;
      }
    } else {
      var c := SafeInt(raw, -1);
      if c >= 0 && c < mapping.Length { mapping[c] := node; }
    }
  }

  /** getCPUNumaNodeMapping, with the text of each node's cpulist, if it could be read, as input. */
  method GetCPUNumaNodeMapping(cpuSize: nat, lists: seq<Option<string>>) returns (mapping: array<int>)
    requires forall i :: 0 <= i < |lists| && lists[i].Some? ==> ListTerminates(lists[i].value)
    ensures fresh(mapping) && mapping.Length == cpuSize
    ensures forall c :: 0 <= c < cpuSize ==> mapping[c] == Owner(lists, |lists|, c)
  {
    hide CpuPart, CpuPartTerminates, Names, Split;
    mapping := new int[cpuSize](_ => -1);
    for i := 0 to |lists|
      invariant fresh(mapping) && mapping.Length == cpuSize
      invariant forall c :: 0 <= c < cpuSize ==> mapping[c] == Owner(lists, i, c)
    {
      if lists[i].Some? { AssignList(mapping, lists[i].value, i); }
    }
  }

  method AssignList(mapping: array<int>, list: string, node: int)
    requires ListTerminates(list)
    modifies mapping
    ensures forall c :: 0 <= c < mapping.Length ==>
              mapping[c] == if Lists(list, c) then node else old(mapping[c])
  {
    hide CpuPart, CpuPartTerminates, Names, Split;
    var parts := Split(list, ',');
    for k := 0 to |parts|
      invariant forall c :: 0 <= c < mapping.Length ==>
                  mapping[c] == if exists p :: p in parts[..k] && Names(p, c) then node else old(mapping[c])
    {
      AssignPart(mapping, parts[k], node);
      assert parts[..k + 1] == parts[..k] + [parts[k]];
    }
    assert parts[..|parts|] == parts;
  }

  /** A cpulist on which reading the table never ends. */
  lemma LargestCpuLoops()
    ensures !ListTerminates("9223372036854775806-9223372036854775807")
  {
    hide CpuPartTerminates, CpuPart, FormatNat, Split, SafeInt;
    var a, b := FormatNat(MAX_INT - 1), FormatNat(MAX_INT);
    LargestDigits();
    DigitsOnly(MAX_INT - 1);
    DigitsOnly(MAX_INT);
    SafeIntOfNat(MAX_INT, -1);
    var s := a + ['-'] + b;
    assert s == "9223372036854775806-9223372036854775807";
    SplitAt(a, '-', b);
    SplitNone(b, '-');
    assert s[|a|] == '-';
    assert CpuPart(s).hi == MAX_INT by { CpuPartOf(s); }
    CpuPartTerminatesExactly(s);
    SplitNone(s, ',');
    assert s in Split(s, ',');
  }

  // ---------------------------------------------------------------- two readers of one format

  /** A range whose low end reads as -1 and whose high end does not. */
  predicate FallsBack(raw: string) {
    '-' in raw && CpuPart(raw).lo < 0 <= CpuPart(raw).hi
  }

  lemma CpuPartOf(raw: string)
    ensures CpuPart(raw) == if '-' in raw then Range(SafeInt(Split(raw, '-')[0], -1), SafeInt(Split(raw, '-')[1], -1))
                            else Range(SafeInt(raw, -1), SafeInt(raw, -1))
  {
  }

  /** Trimming a part first, as the affinity reader does and the table reader does not, changes no bound. */
  lemma CpuPartTrims(raw: string)
    ensures CpuPart(TrimSpace(raw)) == CpuPart(raw)
    ensures '-' in TrimSpace(raw) <==> '-' in raw
  {
    hide CpuPart, TrimSpace, SafeInt, Split;
    var i, j := TrimMeaning(raw);
    var u, s, v := raw[..i], raw[i..j], raw[j..];
    assert raw == u + s + v;
    assert '-' !in u && '-' !in v by { NoDash(u); NoDash(v); }
    SplitBefore(u, s + v, '-');
    SplitAfter(s, v, '-');
    assert raw == u + (s + v);
    CpuPartOf(raw);
    CpuPartOf(s);
    var parts := Split(s, '-');
    forall p ensures SafeInt(u + p, -1) == SafeInt(p + v, -1) == SafeInt(p, -1) { SafeIntTrims(u, p, v, -1); }
    if '-' in s {
      assert Split(raw, '-')[0] == u + parts[0];
    }
  }

  lemma NoDash(u: string)
    requires AllSpace(u)
    ensures '-' !in u
  {
  }

  /** The table reader and the affinity reader take the same CPUs from a part exactly when the part does not
      fall back: a range whose low end does not parse is dropped from an affinity, but assigns every CPU from 0
      in the table. */
  lemma ReadersAgreeExactly(raw: string)
    ensures (forall c: nat :: Names(raw, c) <==> c in RangeSet(PartRange(raw))) <==> !FallsBack(raw)
  {
    hide CpuPart, TrimSpace, SafeInt, Split;
    CpuPartTrims(raw);
    CpuPartOf(TrimSpace(raw));
    if FallsBack(raw) {
      var zero: nat := 0;
      assert Names(raw, zero) && zero !in RangeSet(PartRange(raw));
    }
  }

  /** On such a part they do differ: read as a cpulist, "-5" assigns CPUs 0 to 5; read as an affinity, it is
      dropped. */
  lemma ReadersDiffer(c: nat)
    ensures FallsBack("-5") && PartRange("-5").None? && (Names("-5", c) <==> c <= 5)
  {
    hide SafeInt, Split, TrimSpace, FormatNat;
    var s := "-5";
    assert FormatNat(5) == "5" by { FiveDigits(); }
    SafeIntOfNat(5, -1);
    assert SafeInt("", -1) == -1 by { NoNumber(); }
    SplitAt("", '-', "5");
    assert "" + ['-'] + "5" == s;
    SplitNone("5", '-');
    CpuPartOf(s);
    CpuPartTrims(s);
    CpuPartOf(TrimSpace(s));
    assert s[0] == '-';
  }

  lemma FiveDigits()
    ensures FormatNat(5) == "5"
  {
  }

  lemma NoNumber()
    ensures SafeInt("", -1) == -1
  {
  }

  /** A CPU that a falling-back part assigns is also denoted by the list as an affinity. */
  ghost predicate DenotedElsewhere(list: string, p: string) {
    forall c: nat :: Names(p, c) ==> c in Denote(list)
  }

  lemma ListReader(list: string, c: nat)
    ensures c in Denote(list) ==> Lists(list, c)
    ensures Lists(list, c) ==> c in Denote(list) || exists p :: p in Split(list, ',') && FallsBack(p) && Names(p, c)
  {
    hide Names, PartRange, FallsBack, Split, RangeSet;
    var parts := Split(list, ',');
    DenoteMember(parts, c);
    forall p | p in parts
      ensures (c in RangeSet(PartRange(p)) ==> Names(p, c)) &&
              (Names(p, c) ==> c in RangeSet(PartRange(p)) || FallsBack(p))
    {
      PartReader(p, c);
    }
  }

  lemma PartReader(p: string, c: nat)
    ensures c in RangeSet(PartRange(p)) ==> Names(p, c)
    ensures Names(p, c) ==> c in RangeSet(PartRange(p)) || FallsBack(p)
  {
    hide CpuPart, TrimSpace, SafeInt, Split;
    CpuPartTrims(p);
    CpuPartOf(TrimSpace(p));
  }

  /** A list read as a table names exactly the CPUs it denotes as an affinity if and only if whatever its
      falling-back parts assign is denoted by other parts. */
  lemma ListReadersAgree(list: string)
    ensures (forall c: nat :: Lists(list, c) <==> c in Denote(list)) <==>
            (forall p :: p in Split(list, ',') && FallsBack(p) ==> DenotedElsewhere(list, p))
  {
    hide Names, FallsBack, Split, Denote;
    forall c: nat
      ensures c in Denote(list) ==> Lists(list, c)
      ensures Lists(list, c) ==> c in Denote(list) || exists p :: p in Split(list, ',') && FallsBack(p) && Names(p, c)
    {
      ListReader(list, c);
    }
  }
}
