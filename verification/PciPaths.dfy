/** PCI topology on the text of a path: which component becomes the root and which become the switches. */
module PciPaths {
  import opened Text
  import opened PciTopology

  /** The components, each after a slash. */
  function PathText(cs: seq<string>): (path: string) {
    if cs == [] then "" else "/" + cs[0] + PathText(cs[1..])
  }

  predicate NoSlash(cs: seq<string>) { forall i :: 0 <= i < |cs| ==> '/' !in cs[i] }

  /** Ordinary names, which filepath.Clean keeps. */
  predicate Ordinary(cs: seq<string>) {
    forall i :: 0 <= i < |cs| ==> cs[i] != "" && cs[i] != "." && cs[i] != ".."
  }

  lemma {:induction false} SplitPath(c: string, tail: seq<string>)
    requires '/' !in c && NoSlash(tail)
    ensures Split(c + PathText(tail), '/') == [c] + tail
    decreases |tail|
  {
    hide Split;
    if tail == [] {
      assert c + "" == c;
      SplitNone(c, '/');
    } else {
      var rest := tail[0] + PathText(tail[1..]);
      assert c + PathText(tail) == c + ['/'] + rest;
      SplitAt(c, '/', rest);
      SplitPath(tail[0], tail[1..]);
      assert tail == [tail[0]] + tail[1..];
    }
  }

  lemma ComponentsOf(cs: seq<string>)
    requires cs != [] && NoSlash(cs)
    ensures PathText(cs) != [] && PathText(cs)[0] == '/' && Components(PathText(cs)) == cs
  {
    hide Split, PathText;
    SplitPath("", cs);
    assert "" + PathText(cs) == PathText(cs);
    assert ([""] + cs)[1..] == cs;
    PathStarts(cs);
  }

  lemma PathStarts(cs: seq<string>)
    requires cs != []
    ensures PathText(cs) != [] && PathText(cs)[0] == '/'
  {
  }

  lemma {:induction false} ColonsCount(name: string)
    ensures Colons(name) == multiset(name)[':']
  {
    if name != [] {
      ColonsCount(name[1..]);
      assert name == [name[0]] + name[1..];
      assert multiset(name) == multiset([name[0]]) + multiset(name[1..]);
    }
  }

  /** On /p/bridges/dev, where the names of the bridges have two colons each and the last name of p has not, the root
      is the first bridge, or the device if there is none, and the switches are the bridges from the last to the
      first. */
  lemma PathTopology(p: seq<string>, bridges: seq<string>, dev: string)
    requires NoSlash(p + bridges + [dev]) && Ordinary(p + bridges + [dev])
    requires forall i :: 0 <= i < |bridges| ==> multiset(bridges[i])[':'] == 2
    requires p != [] ==> multiset(p[|p| - 1])[':'] != 2
    ensures var path := PathText(p + bridges + [dev]);
            && path != [] && path[0] == '/'
            && var t := Resolve(path);
               && t.root == (if bridges == [] then dev else bridges[0])
               && |t.switches| == |bridges|
               && forall i :: 0 <= i < |bridges| ==> t.switches[i] == bridges[|bridges| - 1 - i]
  {
    hide Resolve, Components, ChainStart, PathText, Ordinary;
    var cs, above := p + bridges + [dev], p + bridges;
    ComponentsOf(cs);
    OrdinaryAbove(above, dev);
    ChainAt(p, bridges);
    ResolveIs(PathText(cs), above, dev);
    assert above[|p|..] == bridges;
  }

  lemma OrdinaryAbove(above: seq<string>, dev: string)
    requires Ordinary(above + [dev])
    ensures IsClean(above) && dev != ""
  {
    var cs := above + [dev];
    assert forall i :: 0 <= i < |above| ==> above[i] == cs[i];
    assert cs[|above|] == dev;
  }

  lemma ResolveIs(path: string, above: seq<string>, dev: string)
    requires path != [] && path[0] == '/' && Components(path) == above + [dev] && IsClean(above) && dev != ""
    ensures var k, t := ChainStart(above), Resolve(path);
            && t.root == (if k < |above| then above[k] else dev)
            && |t.switches| == |above| - k
            && forall i :: 0 <= i < |above| - k ==> t.switches[i] == above[k..][|above| - k - 1 - i]
  {
    hide Clean, ChainStart, Reverse, Base, IsBridge, Components, IsClean;
    var cs := above + [dev];
    assert cs[..|cs| - 1] == above && cs[|cs| - 1] == dev;
    CleanFixed(above);
    BaseOf(cs);
  }

  lemma BaseOf(cs: seq<string>)
    requires cs != [] && cs[|cs| - 1] != ""
    ensures Base(cs) == cs[|cs| - 1]
  {
  }

  lemma ChainAt(p: seq<string>, bridges: seq<string>)
    requires forall i :: 0 <= i < |bridges| ==> multiset(bridges[i])[':'] == 2
    requires p != [] ==> multiset(p[|p| - 1])[':'] != 2
    ensures ChainStart(p + bridges) == |p|
  {
    hide Colons, ChainStart;
    var cs := p + bridges;
    var k := ChainStart(cs);
    forall i | |p| <= i < |cs| ensures IsBridge(cs[i]) { ColonsCount(cs[i]); }
    if p != [] {
      ColonsCount(p[|p| - 1]);
      assert cs[|p| - 1] == p[|p| - 1];
    }
  }

  lemma OneBridge(p: string, bridge: string, dev: string)
    requires NoSlash([p, bridge, dev]) && Ordinary([p, bridge, dev])
    requires multiset(bridge)[':'] == 2 && multiset(p)[':'] != 2
    ensures var path := "/" + p + ("/" + bridge + ("/" + dev));
            path[0] == '/' && Resolve(path) == Topology(bridge, [bridge])
  {
    hide Resolve, PathText, NoSlash, Ordinary;
    assert [p] + [bridge] + [dev] == [p, bridge, dev];
    PathTopology([p], [bridge], dev);
    ThreePath(p, bridge, dev);
    assert Resolve(PathText([p, bridge, dev])).switches == [bridge];
  }

  lemma ThreePath(a: string, b: string, c: string)
    ensures PathText([a, b, c]) == "/" + a + ("/" + b + ("/" + c))
  {
    assert [a, b, c][1..] == [b, c] && [b, c][1..] == [c] && [c][1..] == [];
    assert PathText([c]) == "/" + c + PathText([]);
    assert PathText([b, c]) == "/" + b + PathText([c]);
  }

  /** The directory of a root complex has one colon, and is not a bridge. */
  lemma BelowRootComplex()
    ensures Resolve("/p:0/0:1:0/1:0:0") == Topology("0:1:0", ["0:1:0"])
  {
    hide Resolve, Colons;
    ColonsCount("0:1:0");
    ColonsCount("p:0");
    ShortColons();
    OneBridge("p:0", "0:1:0", "1:0:0");
    assert "/" + "p:0" + ("/" + "0:1:0" + ("/" + "1:0:0")) == "/p:0/0:1:0/1:0:0";
  }

  lemma ShortColons()
    ensures Colons("0:1:0") == 2 && Colons("p:0") == 1
  {
  }

  // ---------------------------------------------------------------- paths that are not clean

  lemma {:induction false} CleanAfter(a: seq<string>, a': seq<string>, b: seq<string>)
    requires Clean(a) == Clean(a')
    ensures Clean(a + b) == Clean(a' + b)
    decreases |b|
  {
    if b == [] {
      assert a + b == a && a' + b == a';
    } else {
      var n := |b| - 1;
      CleanAfter(a, a', b[..n]);
      assert (a + b)[..|a + b| - 1] == a + b[..n] && (a' + b)[..|a' + b| - 1] == a' + b[..n];
    }
  }

  /** Components that name nothing: an empty one, the directory itself, a name and back, and above the root. */
  lemma CleanDrops(a: seq<string>, x: string)
    ensures Clean(a + [""]) == Clean(a) && Clean(a + ["."]) == Clean(a)
    ensures x != "" && x != "." && x != ".." ==> Clean(a + [x, ".."]) == Clean(a)
    ensures Clean([".."]) == []
  {
    assert (a + [""])[..|a|] == a && (a + ["."])[..|a|] == a;
    assert (a + [x, ".."])[..|a| + 1] == a + [x] && (a + [x])[..|a|] == a;
    assert Clean(a + [x, ".."]) == Clean(a + [x, ".."]);
    assert [".."][..0] == [];
  }

  /** They can stand anywhere above the device without changing the topology. */
  lemma RedundantComponents(a: seq<string>, e: seq<string>, b: seq<string>, dev: string)
    requires e == [""] || e == ["."] || (|e| == 2 && e[1] == ".." && e[0] != "" && e[0] != "." && e[0] != "..")
    requires NoSlash(a + e + b + [dev]) && NoSlash(a + b + [dev]) && dev != ""
    ensures var path, same := PathText(a + e + b + [dev]), PathText(a + b + [dev]);
            && path != [] && path[0] == '/' && same != [] && same[0] == '/'
            && Resolve(path) == Resolve(same)
  {
    hide Clean, Colons, ChainStart, PathText, Reverse, Base, IsBridge;
    var cs, ds := a + e + b + [dev], a + b + [dev];
    ComponentsOf(cs);
    ComponentsOf(ds);
    assert cs[..|cs| - 1] == (a + e) + b && ds[..|ds| - 1] == a + b;
    CleanDrops(a, e[0]);
    if |e| == 2 { assert e == [e[0], ".."]; }
    CleanAfter(a + e, a, b);
    BaseOf(cs);
    BaseOf(ds);
  }

  // ---------------------------------------------------------------- closeness

  /** All three answers: unrelated when a root is missing or the roots differ, closest when the chains agree as well. */
  lemma ClosenessExactly(a: Topology, b: Topology)
    ensures Closeness(a, b) == -1 <==> a.root == "" || b.root == "" || a.root != b.root
    ensures Closeness(a, b) == 0 <==> a.root == b.root != "" && a.switches != b.switches
    ensures Closeness(a, b) == 1 <==> a.root == b.root != "" && a.switches == b.switches
  {
  }

  /** Devices without bridges are unrelated unless they are the same device. */
  lemma BareDevices(p: seq<string>, dev: string, q: seq<string>, dev': string)
    requires NoSlash(p + [] + [dev]) && Ordinary(p + [] + [dev])
    requires NoSlash(q + [] + [dev']) && Ordinary(q + [] + [dev'])
    requires p != [] ==> multiset(p[|p| - 1])[':'] != 2
    requires q != [] ==> multiset(q[|q| - 1])[':'] != 2
    ensures var a, b := PathText(p + [] + [dev]), PathText(q + [] + [dev']);
            && a != [] && a[0] == '/' && b != [] && b[0] == '/'
            && Closeness(Resolve(a), Resolve(b)) == if dev == dev' then 1 else -1
  {
    hide Resolve, PathText;
    PathTopology(p, [], dev);
    PathTopology(q, [], dev');
    assert dev == (p + [] + [dev])[|p|] && dev' == (q + [] + [dev'])[|q|];
  }
}
