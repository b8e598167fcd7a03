/** PCI topology from resolved sysfs paths: the chain of bridges above a device, and how close two devices
    are. */
module PciTopology {
  import opened Text

  // ---------------------------------------------------------------- paths

  /** The components of an absolute path as written: "/a/b" is [a, b], "/" is [""]. */
  function Components(path: string): (cs: seq<string>)
    requires path != [] && path[0] == '/'
    ensures cs != []
  {
    SplitAt([], '/', path[1..]);
    assert [] + ['/'] + path[1..] == path;
    Split(path, '/')[1..]
  }

  /** filepath.Clean on an absolute path: empty and "." components go, ".." takes one with it. */
  function Clean(cs: seq<string>): (r: seq<string>)
    ensures |r| <= |cs|
  {
    if cs == [] then []
    else
      var r := Clean(cs[..|cs| - 1]);
      var last := cs[|cs| - 1];
      if last == "" || last == "." then r
      else if last == ".." then (if r == [] then [] else r[..|r| - 1])
      else r + [last]
  }

  predicate IsClean(cs: seq<string>) {
    forall i :: 0 <= i < |cs| ==> cs[i] != "" && cs[i] != "." && cs[i] != ".."
  }

  /** filepath.Dir; the parent of the root is the root. */
  function Dir(cs: seq<string>): (r: seq<string>)
    ensures cs != [] ==> |r| < |cs|
  {
    if cs == [] then [] else Clean(cs[..|cs| - 1])
  }

  /** filepath.Base: the last component that is not empty. */
  function Base(cs: seq<string>): (name: string)
    ensures name != []
  {
    if cs == [] then "/" else if cs[|cs| - 1] != "" then cs[|cs| - 1] else Base(cs[..|cs| - 1])
  }

  lemma {:induction false} CleanIsClean(cs: seq<string>)
    ensures IsClean(Clean(cs))
  {
    if cs != [] { CleanIsClean(cs[..|cs| - 1]); }
  }

  lemma {:induction false} CleanFixed(cs: seq<string>)
    requires IsClean(cs)
    ensures Clean(cs) == cs
  {
    if cs != [] {
      CleanFixed(cs[..|cs| - 1]);
      assert cs == cs[..|cs| - 1] + [cs[|cs| - 1]];
    }
  }

  // ---------------------------------------------------------------- the walk

  function Colons(name: string): (n: nat) {
    if name == [] then 0 else (if name[0] == ':' then 1 else 0) + Colons(name[1..])
  }

  /** A bridge's directory is named by its address, with two colons. */
  predicate IsBridge(name: string) {
    Colons(name) == 2
  }

  /** Where the unbroken chain of bridges that ends in cs begins. */
  function ChainStart(cs: seq<string>): (k: nat)
    ensures k <= |cs|
    ensures forall i :: k <= i < |cs| ==> IsBridge(cs[i])
    ensures k > 0 ==> !IsBridge(cs[k - 1])
  {
    if cs == [] then 0
    else if IsBridge(cs[|cs| - 1]) then ChainStart(cs[..|cs| - 1])
    else |cs|
  }

  function Reverse(cs: seq<string>): (r: seq<string>)
    ensures |r| == |cs|
    ensures forall i :: 0 <= i < |cs| ==> r[i] == cs[|cs| - 1 - i]
  {
    if cs == [] then [] else [cs[|cs| - 1]] + Reverse(cs[..|cs| - 1])
  }

  datatype Topology = Topology(root: string, switches: seq<string>)

  /** The bridges above the device, innermost first, and the outermost of them or else the device itself. */
  function Resolve(path: string): (t: Topology)
    requires path != [] && path[0] == '/'
  {
    var above := Dir(Components(path));
    var k := ChainStart(above);
    Topology(if k < |above| then above[k] else Base(Components(path)), Reverse(above[k..]))
  }

  lemma RootNotBridge()
    ensures !IsBridge("/")
  {
    assert "/"[1..] == "";
  }

  lemma CleanBase(cs: seq<string>)
    requires IsClean(cs)
    ensures Base(cs) == if cs == [] then "/" else cs[|cs| - 1]
  {
  }

  lemma ChainStep(above: seq<string>, k: nat, n: nat)
    requires k <= n <= |above| && ChainStart(above) <= n
    ensures n > 0 && IsBridge(above[n - 1]) ==> ChainStart(above) < n
    ensures n > 0 && IsBridge(above[n - 1]) ==> Reverse(above[n - 1..]) == Reverse(above[n..]) + [above[n - 1]]
  {
    if n > 0 {
      var longer, shorter := above[n - 1..], above[n..];
      assert forall i :: 0 <= i < |shorter| ==> shorter[i] == longer[i + 1];
    }
  }

  /** ResolvePCITopology. */
  method ResolvePCITopology(path: string) returns (t: Topology)
    requires path != [] && path[0] == '/'
    ensures t == Resolve(path)
  {
    hide Colons, Reverse, Clean, Base;
    RootNotBridge();
    var current := Components(path);
    var switches: seq<string> := [];
    ghost var above := Dir(current);
    CleanIsClean(Components(path)[..|current| - 1]);
    ghost var n := |above|;
    assert above[..n] == above && above[n..] == [];
    while true
      invariant n <= |above| && ChainStart(above) <= n
      invariant current != [] && Dir(current) == above[..n]
      invariant switches == Reverse(above[n..])
      invariant Base(current) == if n < |above| then above[n] else Base(Components(path))
      decreases n
    {
      var parent := Dir(current);
      CleanBase(parent);
      var name := Base(parent);
      if !IsBridge(name) { break; }
      ChainStep(above, ChainStart(above), n);
      switches := switches + [name];
      current := parent;
      n := n - 1;
      assert parent[..n] == above[..n];
      CleanFixed(parent[..n]);
    }
    assert n == ChainStart(above);
    t := Topology(Base(current), switches);
  }

  /** The root is the outermost bridge, or the device itself, and never empty. */
  lemma RootIsOutermost(path: string)
    requires path != [] && path[0] == '/'
    ensures var t := Resolve(path);
            && t.root != ""
            && t.root == (if t.switches == [] then Base(Components(path)) else t.switches[|t.switches| - 1])
            && forall i :: 0 <= i < |t.switches| ==> IsBridge(t.switches[i])
  {
    hide Colons, Clean;
    var above := Dir(Components(path));
    CleanIsClean(Components(path)[..|Components(path)| - 1]);
  }

  // ---------------------------------------------------------------- closeness

  /** 1: same root and same chain of bridges; 0: same root only; -1: unrelated or unknown. */
  function Closeness(a: Topology, b: Topology): (r: int) {
    if a.root == "" || b.root == "" || a.root != b.root then -1
    else if a.switches == b.switches then 1
    else 0
  }

  /** ComparePCIDevices. */
  method ComparePCIDevices(a: Topology, b: Topology) returns (r: int)
    ensures r == Closeness(a, b)
  {
    if a.root != "" && b.root != "" {
      var isSameRoot := a.root == b.root;
      var isSameSwitch := isSameRoot && |a.switches| == |b.switches|;
      if isSameSwitch {
        var i := 0;
        while i < |a.switches|
          invariant 0 <= i <= |a.switches|
          invariant isSameSwitch && a.switches[..i] == b.switches[..i]
        {
          if a.switches[i] != b.switches[i] { isSameSwitch := false; break; }
          i := i + 1;
        }
      }
      if isSameSwitch { return 1; }
      if isSameRoot { return 0; }
    }
    return -1;
  }

  lemma ClosenessSymmetric(a: Topology, b: Topology)
    ensures Closeness(a, b) == Closeness(b, a)
  {
  }

  /** Closeness is an ultrametric: two devices are at least as close as their links to a third. */
  lemma ClosenessUltrametric(a: Topology, b: Topology, c: Topology)
    ensures Closeness(a, c) >= if Closeness(a, b) < Closeness(b, c) then Closeness(a, b) else Closeness(b, c)
  {
  }

  /** For resolved devices closeness is about the bridges alone, except that a device without bridges is
      close only to one of the same name. */
  lemma ResolvedCloseness(p: string, q: string)
    requires p != [] && p[0] == '/' && q != [] && q[0] == '/'
    ensures var a, b := Resolve(p), Resolve(q);
            && (Closeness(a, b) == 1 <==>
                a.switches == b.switches && (a.switches == [] ==> Base(Components(p)) == Base(Components(q))))
            && (a.switches != [] && b.switches != [] ==>
                (Closeness(a, b) >= 0 <==> a.switches[|a.switches| - 1] == b.switches[|b.switches| - 1]))
  {
    hide Resolve, Components, Base;
    RootIsOutermost(p);
    RootIsOutermost(q);
  }

  /** Two devices in one directory below a bridge are as close as can be. */
  lemma SiblingsClosest(p: string, q: string)
    requires p != [] && p[0] == '/' && q != [] && q[0] == '/'
    requires Dir(Components(p)) == Dir(Components(q)) && Resolve(p).switches != []
    ensures Closeness(Resolve(p), Resolve(q)) == 1
  {
    hide Components, Base, Clean, Colons;
    RootIsOutermost(p);
    RootIsOutermost(q);
  }
}
