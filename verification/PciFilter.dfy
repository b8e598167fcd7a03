/** Any text, printed from a database or not: exactly when the parser panics, and exactly when dropping vendors
    while parsing is the same as dropping them afterwards. */
module PciFilter {
  import opened Options
  import opened Text
  import opened PciIds
  import opened PciDatabase

  // ---------------------------------------------------------------- lines

  predicate OpensVendor(line: string) {
    line != [] && line[0] != '\t' && |Fields(line)| > 1
  }

  predicate OpensDevice(line: string) {
    IsDeviceLine(line) && |Fields(TrimSpace(line))| > 1
  }

  predicate IsSubLine(line: string) {
    line != [] && line[0] == '\t' && !IsDeviceLine(line) && |Fields(TrimSpace(line))| > 2
  }

  function SubId(lower: string -> string, line: string): (id: NameID)
    requires IsSubLine(line)
  {
    var fields := Fields(TrimSpace(line));
    NameID(lower(fields[0]), lower(fields[1]))
  }

  function SubName(line: string): (name: string)
    requires IsSubLine(line)
  {
    Join(Fields(TrimSpace(line))[2..], ' ')
  }

  // ---------------------------------------------------------------- what is in force after some lines

  /** The vendor of the last vendor line, if it is wanted. */
  function VendorAt(lower: string -> string, vendors: seq<string>, lines: seq<string>): (v: string)
    decreases |lines|
  {
    if lines == [] then ""
    else
      var n := |lines| - 1;
      if OpensVendor(lines[n]) then
        var v := lower(Fields(lines[n])[0]);
        if Wanted(vendors, v) then v else ""
      else VendorAt(lower, vendors, lines[..n])
  }

  /** The device of the last device line of a wanted vendor, whichever vendor that was. */
  function DeviceAt(lower: string -> string, vendors: seq<string>, lines: seq<string>): (d: string)
    decreases |lines|
  {
    if lines == [] then ""
    else
      var n := |lines| - 1;
      if OpensDevice(lines[n]) && VendorAt(lower, vendors, lines[..n]) != "" then lower(Fields(TrimSpace(lines[n]))[0])
      else DeviceAt(lower, vendors, lines[..n])
  }

  /** The devices that device lines of wanted vendors have declared. */
  function DeclaredAt(lower: string -> string, vendors: seq<string>, lines: seq<string>): (ids: set<NameID>)
    decreases |lines|
  {
    if lines == [] then {}
    else
      var n := |lines| - 1;
      var v := VendorAt(lower, vendors, lines[..n]);
      DeclaredAt(lower, vendors, lines[..n])
      + if OpensDevice(lines[n]) && v != "" then {NameID(v, lower(Fields(TrimSpace(lines[n]))[0]))} else {}
  }

  function InForce(lower: string -> string, vendors: seq<string>, lines: seq<string>): (id: NameID) {
    NameID(VendorAt(lower, vendors, lines), DeviceAt(lower, vendors, lines))
  }

  /** A subdevice line whose vendor, with the device in force, was never declared. */
  predicate Orphan(lower: string -> string, vendors: seq<string>, lines: seq<string>, k: nat)
    requires k < |lines|
  {
    var id := InForce(lower, vendors, lines[..k]);
    IsSubLine(lines[k]) && id.vendor != "" && id.device != "" && id !in DeclaredAt(lower, vendors, lines[..k])
  }

  ghost predicate HasOrphan(lower: string -> string, vendors: seq<string>, lines: seq<string>) {
    exists k: nat :: k < |lines| && Orphan(lower, vendors, lines, k)
  }

  // ---------------------------------------------------------------- when the parser panics

  /** A subdevice entry put under a device. */
  function File(names: Names, id: NameID, sub: NameID, name: string): (r: Names)
    requires id in names
  {
    names[id := names[id].(subDevices := names[id].subDevices[sub := name])]
  }

  /** One line, by what kind of line it is. */
  lemma StepCases(lower: string -> string, vendors: seq<string>, st: State, line: string)
    requires !st.panicked
    ensures var r := Step(lower, vendors, st, line);
            if OpensVendor(line) then
              var v := lower(Fields(line)[0]);
              r == st.(id := NameID(if Wanted(vendors, v) then v else "", st.id.device))
            else if OpensDevice(line) && st.id.vendor != "" then
              var fields := Fields(TrimSpace(line));
              var id := NameID(st.id.vendor, lower(fields[0]));
              r == State(id, st.names[id := DeviceName(Join(fields[1..], ' '), map[])], false)
            else if IsSubLine(line) && st.id.vendor != "" && st.id.device != "" then
              r == if st.id in st.names then st.(names := File(st.names, st.id, SubId(lower, line), SubName(line)))
                   else st.(panicked := true)
            else r == st
  {
    hide Fields, TrimSpace, Join;
  }

  lemma StepPanicked(lower: string -> string, vendors: seq<string>, st: State, line: string)
    requires st.panicked
    ensures Step(lower, vendors, st, line) == st
  {
  }

  lemma RunSnoc(lower: string -> string, vendors: seq<string>, st: State, lines: seq<string>)
    requires lines != []
    ensures var n := |lines| - 1;
            Run(lower, vendors, st, lines) == Step(lower, vendors, Run(lower, vendors, st, lines[..n]), lines[n])
  {
    hide Step;
    var n := |lines| - 1;
    assert lines == lines[..n] + [lines[n]];
    RunAppend(lower, vendors, st, lines[..n], [lines[n]]);
    assert [lines[n]][1..] == [];
  }

  /** The parser's state is what is in force and declared, as long as no line is an orphan. */
  lemma {:induction false} RunTracks(lower: string -> string, vendors: seq<string>, lines: seq<string>)
    ensures var st := Run(lower, vendors, START, lines);
            && (st.panicked <==> HasOrphan(lower, vendors, lines))
            && (!st.panicked ==> st.id == InForce(lower, vendors, lines)
                                 && st.names.Keys == DeclaredAt(lower, vendors, lines))
    decreases |lines|
  {
    hide Step, Run, Orphan, OpensVendor, OpensDevice, IsSubLine, Fields;
    if lines == [] {
      RunCons(lower, vendors, START, "", []);
    } else {
      var n := |lines| - 1;
      var before := lines[..n];
      var st := Run(lower, vendors, START, before);
      RunTracks(lower, vendors, before);
      RunSnoc(lower, vendors, START, lines);
      forall k: nat | k < n ensures Orphan(lower, vendors, before, k) == Orphan(lower, vendors, lines, k) {
        SamePrefix(lower, vendors, lines, k);
      }
      if st.panicked {
        var k: nat :| k < n && Orphan(lower, vendors, before, k);
        assert Orphan(lower, vendors, lines, k);
        StepPanicked(lower, vendors, st, lines[n]);
      } else {
        TrackStep(lower, vendors, st, lines);
      }
    }
  }

  lemma SamePrefix(lower: string -> string, vendors: seq<string>, lines: seq<string>, k: nat)
    requires k < |lines| - 1
    ensures Orphan(lower, vendors, lines[..|lines| - 1], k) == Orphan(lower, vendors, lines, k)
  {
    hide InForce, DeclaredAt, IsSubLine;
    assert lines[..|lines| - 1][..k] == lines[..k];
  }

  lemma TrackStep(lower: string -> string, vendors: seq<string>, st: State, lines: seq<string>)
    requires lines != [] && !st.panicked
    requires st.id == InForce(lower, vendors, lines[..|lines| - 1])
    requires st.names.Keys == DeclaredAt(lower, vendors, lines[..|lines| - 1])
    ensures var r := Step(lower, vendors, st, lines[|lines| - 1]);
            && (r.panicked <==> Orphan(lower, vendors, lines, |lines| - 1))
            && (!r.panicked ==> r.id == InForce(lower, vendors, lines)
                                && r.names.Keys == DeclaredAt(lower, vendors, lines))
  {
    hide Step, Fields, TrimSpace, Join;
    var line := lines[|lines| - 1];
    StepCases(lower, vendors, st, line);
    var r := Step(lower, vendors, st, line);
    if OpensDevice(line) && st.id.vendor != "" {
      assert r.names.Keys == st.names.Keys + {r.id};
    } else if !r.panicked {
      assert r.names.Keys == st.names.Keys;
    }
  }

  /** The parser panics exactly on the texts that have an orphan, whichever vendors are wanted. */
  lemma PanicsExactly(lower: string -> string, vendors: seq<string>, text: string)
    ensures Parse(lower, vendors, text).panicked <==> HasOrphan(lower, vendors, Split(text, '\n'))
  {
    hide Run, Split, HasOrphan;
    RunTracks(lower, vendors, Split(text, '\n'));
  }

  // ---------------------------------------------------------------- tables and filters

  predicate AlreadyFiled(names: Names, id: NameID, sub: NameID, name: string) {
    id in names && sub in names[id].subDevices && names[id].subDevices[sub] == name
  }

  lemma FileSame(names: Names, id: NameID, sub: NameID, name: string)
    requires id in names
    ensures File(names, id, sub, name) == names <==> AlreadyFiled(names, id, sub, name)
  {
    var d := names[id];
    assert File(names, id, sub, name)[id].subDevices == d.subDevices[sub := name];
    if AlreadyFiled(names, id, sub, name) { assert d.subDevices[sub := name] == d.subDevices; }
  }

  /** Filed under two devices, the tables are the same only if it was there under both already. */
  lemma FileApart(names: Names, id: NameID, id': NameID, sub: NameID, name: string)
    requires id in names && id' in names && id != id'
    ensures File(names, id, sub, name) == File(names, id', sub, name) <==>
            AlreadyFiled(names, id, sub, name) && AlreadyFiled(names, id', sub, name)
  {
    FileSame(names, id, sub, name);
    FileSame(names, id', sub, name);
    var a, b := File(names, id, sub, name), File(names, id', sub, name);
    assert b[id] == names[id] && a[id'] == names[id'];
    if a == b {
      assert a == names;
    }
  }

  lemma RestrictFile(vendors: seq<string>, names: Names, id: NameID, sub: NameID, name: string)
    requires id in names
    ensures Restrict(vendors, File(names, id, sub, name)) ==
            if Wanted(vendors, id.vendor) then File(Restrict(vendors, names), id, sub, name)
            else Restrict(vendors, names)
  {
    hide Wanted;
  }

  lemma RestrictDeclare(vendors: seq<string>, names: Names, id: NameID, d: DeviceName)
    ensures Restrict(vendors, names[id := d]) ==
            if Wanted(vendors, id.vendor) then Restrict(vendors, names)[id := d] else Restrict(vendors, names)
  {
    hide Wanted;
  }

  // ---------------------------------------------------------------- when filtering commutes

  /** Filing the line under a device changes nothing: there is no device, or the entry is there already. */
  predicate Idle(lower: string -> string, names: Names, id: NameID, line: string)
    requires IsSubLine(line)
  {
    id.device == "" || AlreadyFiled(names, id, SubId(lower, line), SubName(line))
  }

  /** What a line does to two tables that agree keeps them in agreement exactly when it finds its device declared
      and, if its vendor is wanted, either the same device in force in both or nothing to add in either. */
  lemma CommuteStep(lower: string -> string, vendors: seq<string>, full: State, part: State, line: string)
    requires !full.panicked && !part.panicked && part.names == Restrict(vendors, full.names)
    requires part.id.vendor == if Wanted(vendors, full.id.vendor) then full.id.vendor else ""
    ensures var f, p := Step(lower, [], full, line), Step(lower, vendors, part, line);
            (!f.panicked && !p.panicked && p.names == Restrict(vendors, f.names)) <==>
            (&& (IsSubLine(line) && full.id.vendor != "" && full.id.device != "" ==> full.id in full.names)
             && (IsSubLine(line) && part.id.vendor != "" ==>
                   full.id == part.id ||
                   (Idle(lower, part.names, full.id, line) && Idle(lower, part.names, part.id, line))))
  {
    hide Step, Restrict, File, Fields, TrimSpace, Join, AlreadyFiled, SubId, SubName;
    StepCases(lower, [], full, line);
    StepCases(lower, vendors, part, line);
    InRestrict(vendors, full.names, full.id);
    InRestrict(vendors, full.names, part.id);
    if OpensDevice(line) && full.id.vendor != "" {
      var fields := Fields(TrimSpace(line));
      RestrictDeclare(vendors, full.names, NameID(full.id.vendor, lower(fields[0])),
                      DeviceName(Join(fields[1..], ' '), map[]));
    }
    if IsSubLine(line) && full.id.vendor != "" {
      var sub, name := SubId(lower, line), SubName(line);
      if full.id in full.names { RestrictFile(vendors, full.names, full.id, sub, name); }
      if full.id in part.names { FileSame(part.names, full.id, sub, name); }
      if part.id in part.names { FileSame(part.names, part.id, sub, name); }
      if full.id in part.names && part.id in part.names && full.id != part.id {
        FileApart(part.names, full.id, part.id, sub, name);
      }
      FiledIsKnown(part.names, full.id, sub, name);
      FiledIsKnown(part.names, part.id, sub, name);
    }
  }

  lemma InRestrict(vendors: seq<string>, names: Names, id: NameID)
    ensures id in Restrict(vendors, names) <==> id in names && Wanted(vendors, id.vendor)
  {
  }

  lemma FiledIsKnown(names: Names, id: NameID, sub: NameID, name: string)
    ensures AlreadyFiled(names, id, sub, name) ==> id in names
  {
  }

  lemma {:induction false} VendorsAgree(lower: string -> string, vendors: seq<string>, lines: seq<string>)
    ensures var v := VendorAt(lower, [], lines);
            VendorAt(lower, vendors, lines) == if Wanted(vendors, v) then v else ""
    decreases |lines|
  {
    hide OpensVendor, Fields;
    if lines != [] { VendorsAgree(lower, vendors, lines[..|lines| - 1]); }
  }

  /** After these lines neither run has panicked and filtering so far is filtering afterwards. */
  ghost predicate CommutesAt(lower: string -> string, vendors: seq<string>, lines: seq<string>) {
    var all, some := Run(lower, [], START, lines), Run(lower, vendors, START, lines);
    !all.panicked && !some.panicked && some.names == Restrict(vendors, all.names)
  }

  /** Line k, if it is a subdevice line of a wanted vendor, meets the same device in force with and without the
      filter, or adds nothing under either. */
  ghost predicate Settled(lower: string -> string, vendors: seq<string>, lines: seq<string>, k: nat)
    requires k < |lines|
  {
    IsSubLine(lines[k]) && VendorAt(lower, vendors, lines[..k]) != "" ==>
      var all, some := InForce(lower, [], lines[..k]), InForce(lower, vendors, lines[..k]);
      var names := Run(lower, vendors, START, lines[..k]).names;
      all == some || (Idle(lower, names, all, lines[k]) && Idle(lower, names, some, lines[k]))
  }

  lemma CommutesStep(lower: string -> string, vendors: seq<string>, lines: seq<string>, k: nat)
    requires k < |lines| && CommutesAt(lower, vendors, lines[..k])
    ensures CommutesAt(lower, vendors, lines[..k + 1]) <==>
            !Orphan(lower, [], lines, k) && Settled(lower, vendors, lines, k)
  {
    hide Run, Step, Idle, Restrict, DeclaredAt, VendorAt, DeviceAt, IsSubLine;
    var before, upto := lines[..k], lines[..k + 1];
    assert upto[..k] == before && upto[k] == lines[k];
    var full, part := Run(lower, [], START, before), Run(lower, vendors, START, before);
    RunTracks(lower, [], before);
    RunTracks(lower, vendors, before);
    VendorsAgree(lower, vendors, before);
    RunSnoc(lower, [], START, upto);
    RunSnoc(lower, vendors, START, upto);
    CommuteStep(lower, vendors, full, part, lines[k]);
  }

  /** At every point of a text filtering so far is filtering afterwards, and nothing has panicked, exactly when no
      line is an orphan of the whole and every line is settled. */
  lemma CommutesExactly(lower: string -> string, vendors: seq<string>, lines: seq<string>)
    ensures (forall k: nat :: k <= |lines| ==> CommutesAt(lower, vendors, lines[..k])) <==>
            (forall k: nat :: k < |lines| ==> !Orphan(lower, [], lines, k) && Settled(lower, vendors, lines, k))
  {
    hide CommutesAt, Orphan, Settled;
    if forall k: nat :: k <= |lines| ==> CommutesAt(lower, vendors, lines[..k]) {
      forall k: nat | k < |lines| ensures !Orphan(lower, [], lines, k) && Settled(lower, vendors, lines, k) {
        var next := k + 1;
        assert CommutesAt(lower, vendors, lines[..k]) && CommutesAt(lower, vendors, lines[..next]);
        CommutesStep(lower, vendors, lines, k);
      }
    }
    if forall k: nat :: k < |lines| ==> !Orphan(lower, [], lines, k) && Settled(lower, vendors, lines, k) {
      forall k: nat | k <= |lines| ensures CommutesAt(lower, vendors, lines[..k]) {
        SettledCommutes(lower, vendors, lines, k);
      }
    }
  }

  lemma {:induction false} SettledCommutes(lower: string -> string, vendors: seq<string>, lines: seq<string>, k: nat)
    requires k <= |lines|
    requires forall j: nat :: j < k ==> !Orphan(lower, [], lines, j) && Settled(lower, vendors, lines, j)
    ensures CommutesAt(lower, vendors, lines[..k])
    decreases k
  {
    hide CommutesAt, Orphan, Settled;
    if k == 0 {
      NothingCommutes(lower, vendors);
    } else {
      SettledCommutes(lower, vendors, lines, k - 1);
      CommutesStep(lower, vendors, lines, k - 1);
    }
  }

  lemma NothingCommutes(lower: string -> string, vendors: seq<string>)
    ensures CommutesAt(lower, vendors, [])
  {
  }

  /** On every text without an orphan in which each subdevice line of a wanted vendor meets the same device in force
      with and without the filter, filtering while parsing is filtering afterwards, and neither parse panics. */
  lemma FilterCommutes(lower: string -> string, vendors: seq<string>, text: string)
    requires var lines := Split(text, '\n');
             && !HasOrphan(lower, [], lines)
             && forall k: nat :: k < |lines| ==> SameDevice(lower, vendors, lines, k)
    ensures var all, some := Parse(lower, [], text), Parse(lower, vendors, text);
            !all.panicked && !some.panicked && some.names == Restrict(vendors, all.names)
  {
    hide Run, Split, Orphan, Settled, SameDevice, Restrict;
    var lines := Split(text, '\n');
    forall j: nat | j < |lines| ensures Settled(lower, vendors, lines, j) {
      SameDeviceSettles(lower, vendors, lines, j);
    }
    SettledCommutes(lower, vendors, lines, |lines|);
    assert lines[..|lines|] == lines;
  }

  predicate SameDevice(lower: string -> string, vendors: seq<string>, lines: seq<string>, k: nat)
    requires k < |lines|
  {
    IsSubLine(lines[k]) && VendorAt(lower, vendors, lines[..k]) != "" ==>
      DeviceAt(lower, [], lines[..k]) == DeviceAt(lower, vendors, lines[..k])
  }

  lemma SameDeviceSettles(lower: string -> string, vendors: seq<string>, lines: seq<string>, k: nat)
    requires k < |lines| && SameDevice(lower, vendors, lines, k)
    ensures Settled(lower, vendors, lines, k)
  {
    hide VendorAt, DeviceAt, IsSubLine, Idle;
    VendorsAgree(lower, vendors, lines[..k]);
  }

  // ---------------------------------------------------------------- what the finished table holds

  function DeviceId(lower: string -> string, vendor: string, line: string): (id: NameID)
    requires OpensDevice(line)
  {
    NameID(vendor, lower(Fields(TrimSpace(line))[0]))
  }

  /** The name on the last device line of a device. */
  function NameAt(lower: string -> string, vendors: seq<string>, lines: seq<string>, id: NameID): (r: Option<string>)
    decreases |lines|
  {
    if lines == [] then None
    else
      var n := |lines| - 1;
      var v := VendorAt(lower, vendors, lines[..n]);
      if OpensDevice(lines[n]) && v != "" && id == DeviceId(lower, v, lines[n])
      then Some(Join(Fields(TrimSpace(lines[n]))[1..], ' '))
      else NameAt(lower, vendors, lines[..n], id)
  }

  /** The name on the last subdevice line filed under a device since its last device line. */
  function FiledAt(lower: string -> string, vendors: seq<string>, lines: seq<string>, id: NameID, sub: NameID)
    : (r: Option<string>)
    decreases |lines|
  {
    if lines == [] then None
    else
      var n := |lines| - 1;
      var now := InForce(lower, vendors, lines[..n]);
      if OpensDevice(lines[n]) && now.vendor != "" && id == DeviceId(lower, now.vendor, lines[n]) then None
      else if IsSubLine(lines[n]) && now.vendor != "" && now.device != "" && id == now && sub == SubId(lower, lines[n])
      then Some(SubName(lines[n]))
      else FiledAt(lower, vendors, lines[..n], id, sub)
  }

  function Named(names: Names, id: NameID): (r: Option<string>) {
    if id in names then Some(names[id].name) else None
  }

  function Filed(names: Names, id: NameID, sub: NameID): (r: Option<string>) {
    if id in names && sub in names[id].subDevices then Some(names[id].subDevices[sub]) else None
  }

  /** Unless it panics, the parser's table holds for every device and subdevice what the last line about it says,
      and nothing else. */
  lemma {:induction false} TableIs(
    lower: string -> string, vendors: seq<string>, lines: seq<string>, id: NameID, sub: NameID)
    requires !Run(lower, vendors, START, lines).panicked
    ensures Named(Run(lower, vendors, START, lines).names, id) == NameAt(lower, vendors, lines, id)
    ensures Filed(Run(lower, vendors, START, lines).names, id, sub) == FiledAt(lower, vendors, lines, id, sub)
    decreases |lines|
  {
    hide Step, Run, OpensVendor, OpensDevice, IsSubLine, SubId, SubName, DeviceId, Fields, TrimSpace, Join;
    if lines == [] {
      RunCons(lower, vendors, START, "", []);
    } else {
      var n := |lines| - 1;
      var st := Run(lower, vendors, START, lines[..n]);
      RunSnoc(lower, vendors, START, lines);
      if st.panicked { StepPanicked(lower, vendors, st, lines[n]); }
      TableIs(lower, vendors, lines[..n], id, sub);
      RunTracks(lower, vendors, lines[..n]);
      TableStep(lower, vendors, st, lines[n], id, sub);
    }
  }

  lemma TableStep(lower: string -> string, vendors: seq<string>, st: State, line: string, id: NameID, sub: NameID)
    requires !st.panicked && !Step(lower, vendors, st, line).panicked
    ensures var r := Step(lower, vendors, st, line).names;
            if OpensDevice(line) && st.id.vendor != "" && id == DeviceId(lower, st.id.vendor, line) then
              Named(r, id) == Some(Join(Fields(TrimSpace(line))[1..], ' ')) && Filed(r, id, sub) == None
            else
              && Named(r, id) == Named(st.names, id)
              && Filed(r, id, sub) ==
                 if IsSubLine(line) && st.id.vendor != "" && st.id.device != ""
                    && id == st.id && sub == SubId(lower, line)
                 then Some(SubName(line)) else Filed(st.names, id, sub)
  {
    hide Step, Fields, TrimSpace, Join;
    StepCases(lower, vendors, st, line);
  }

  lemma {:induction false} NamesAgree(lower: string -> string, vendors: seq<string>, lines: seq<string>, id: NameID)
    ensures NameAt(lower, vendors, lines, id) ==
            if Wanted(vendors, id.vendor) then NameAt(lower, [], lines, id) else None
    decreases |lines|
  {
    hide OpensVendor, OpensDevice, Fields, TrimSpace, Join, VendorAt;
    if lines != [] {
      var n := |lines| - 1;
      NamesAgree(lower, vendors, lines[..n], id);
      VendorsAgree(lower, vendors, lines[..n]);
    }
  }

  ghost predicate SameEntries(a: Names, b: Names) {
    && (forall id :: Named(a, id) == Named(b, id))
    && (forall id, sub :: Filed(a, id, sub) == Filed(b, id, sub))
  }

  lemma SameEntriesSame(a: Names, b: Names)
    requires SameEntries(a, b)
    ensures a == b
  {
    forall id ensures id in a <==> id in b { assert Named(a, id) == Named(b, id); }
    forall id | id in a ensures a[id] == b[id] {
      assert Named(a, id) == Named(b, id);
      forall sub ensures sub in a[id].subDevices <==> sub in b[id].subDevices {
        assert Filed(a, id, sub) == Filed(b, id, sub);
      }
      forall sub | sub in a[id].subDevices ensures a[id].subDevices[sub] == b[id].subDevices[sub] {
        assert Filed(a, id, sub) == Filed(b, id, sub);
      }
      assert a[id].subDevices == b[id].subDevices;
    }
  }

  lemma RestrictEntries(vendors: seq<string>, names: Names, id: NameID, sub: NameID)
    ensures Named(Restrict(vendors, names), id) == if Wanted(vendors, id.vendor) then Named(names, id) else None
    ensures Filed(Restrict(vendors, names), id, sub) ==
            if Wanted(vendors, id.vendor) then Filed(names, id, sub) else None
  {
    hide Wanted;
  }

  /** The last line filed under a wanted device says the same with and without the filter. */
  ghost predicate SameFilings(lower: string -> string, vendors: seq<string>, lines: seq<string>) {
    forall id: NameID, sub: NameID :: Wanted(vendors, id.vendor) ==>
      FiledAt(lower, vendors, lines, id, sub) == FiledAt(lower, [], lines, id, sub)
  }

  /** For every text: neither parse panics and filtering while parsing is filtering afterwards, exactly when the text
      has no orphan with or without the filter and the last filings under wanted devices agree. */
  lemma FilterExactly(lower: string -> string, vendors: seq<string>, text: string)
    ensures var all, some := Parse(lower, [], text), Parse(lower, vendors, text);
            var lines := Split(text, '\n');
            (!all.panicked && !some.panicked && some.names == Restrict(vendors, all.names)) <==>
            !HasOrphan(lower, [], lines) && !HasOrphan(lower, vendors, lines) && SameFilings(lower, vendors, lines)
  {
    hide Run, Split, HasOrphan, Restrict, SameEntries;
    PanicsExactly(lower, [], text);
    PanicsExactly(lower, vendors, text);
    var lines := Split(text, '\n');
    var all, some := Parse(lower, [], text), Parse(lower, vendors, text);
    if !all.panicked && !some.panicked {
      EntriesExactly(lower, vendors, lines);
      if SameFilings(lower, vendors, lines) { SameEntriesSame(some.names, Restrict(vendors, all.names)); }
    }
  }

  lemma OneEntry(lower: string -> string, vendors: seq<string>, lines: seq<string>, id: NameID, sub: NameID)
    requires !Run(lower, [], START, lines).panicked && !Run(lower, vendors, START, lines).panicked
    ensures var all, some := Run(lower, [], START, lines).names, Run(lower, vendors, START, lines).names;
            && Named(some, id) == Named(Restrict(vendors, all), id)
            && (Filed(some, id, sub) == Filed(Restrict(vendors, all), id, sub) <==>
                (Wanted(vendors, id.vendor) ==>
                 FiledAt(lower, vendors, lines, id, sub) == FiledAt(lower, [], lines, id, sub)))
  {
    hide Run, Restrict, NameAt, FiledAt, Wanted;
    TableIs(lower, [], lines, id, sub);
    TableIs(lower, vendors, lines, id, sub);
    NamesAgree(lower, vendors, lines, id);
    RestrictEntries(vendors, Run(lower, [], START, lines).names, id, sub);
  }

  lemma EntriesExactly(lower: string -> string, vendors: seq<string>, lines: seq<string>)
    requires !Run(lower, [], START, lines).panicked && !Run(lower, vendors, START, lines).panicked
    ensures var all, some := Run(lower, [], START, lines).names, Run(lower, vendors, START, lines).names;
            && (SameFilings(lower, vendors, lines) ==> SameEntries(some, Restrict(vendors, all)))
            && (some == Restrict(vendors, all) ==> SameFilings(lower, vendors, lines))
  {
    hide Run, Restrict, FiledAt, Named, Filed, Wanted;
    var all, some := Run(lower, [], START, lines).names, Run(lower, vendors, START, lines).names;
    forall id, sub
      ensures Named(some, id) == Named(Restrict(vendors, all), id)
      ensures Filed(some, id, sub) == Filed(Restrict(vendors, all), id, sub) <==>
              (Wanted(vendors, id.vendor) ==>
               FiledAt(lower, vendors, lines, id, sub) == FiledAt(lower, [], lines, id, sub))
    {
      OneEntry(lower, vendors, lines, id, sub);
    }
    forall id ensures Named(some, id) == Named(Restrict(vendors, all), id) { OneEntry(lower, vendors, lines, id, id); }
  }

  // ---------------------------------------------------------------- tidy texts

  /** Whether a device line has been read since the last vendor line. */
  predicate OpenAt(lines: seq<string>)
    decreases |lines|
  {
    lines != [] &&
    var n := |lines| - 1;
    !OpensVendor(lines[n]) && (OpensDevice(lines[n]) || OpenAt(lines[..n]))
  }

  /** No subdevice line comes before the first device line of its vendor. */
  ghost predicate Tidy(lines: seq<string>) {
    forall k: nat :: k < |lines| && IsSubLine(lines[k]) ==> OpenAt(lines[..k])
  }

  lemma {:induction false} OpenDeclares(lower: string -> string, vendors: seq<string>, lines: seq<string>)
    requires OpenAt(lines) && VendorAt(lower, vendors, lines) != ""
    ensures InForce(lower, vendors, lines) in DeclaredAt(lower, vendors, lines)
    ensures DeviceAt(lower, vendors, lines) == DeviceAt(lower, [], lines)
    decreases |lines|
  {
    hide OpensVendor, OpensDevice, Fields;
    var n := |lines| - 1;
    VendorsAgree(lower, vendors, lines[..n]);
    if !OpensDevice(lines[n]) { OpenDeclares(lower, vendors, lines[..n]); }
  }

  /** Every text laid out like that, whatever else is in it, can be filtered while it is parsed. */
  lemma TidyCommutes(lower: string -> string, vendors: seq<string>, text: string)
    requires Tidy(Split(text, '\n'))
    ensures var all, some := Parse(lower, [], text), Parse(lower, vendors, text);
            !all.panicked && !some.panicked && some.names == Restrict(vendors, all.names)
  {
    hide Split, Parse, Restrict, OpenAt, VendorAt, DeviceAt, DeclaredAt, IsSubLine;
    var lines := Split(text, '\n');
    forall k: nat | k < |lines| ensures !Orphan(lower, [], lines, k) && SameDevice(lower, vendors, lines, k) {
      if IsSubLine(lines[k]) {
        if VendorAt(lower, [], lines[..k]) != "" { OpenDeclares(lower, [], lines[..k]); }
        if VendorAt(lower, vendors, lines[..k]) != "" { OpenDeclares(lower, vendors, lines[..k]); }
      }
    }
    FilterCommutes(lower, vendors, text);
  }

  // ---------------------------------------------------------------- texts that are not tidy

  /** A subdevice line straight after a vendor line is filed under the device of the vendor before, which panics
      unless that vendor was filtered out. */
  lemma UntidyDiffers(lower: string -> string, v: Vendor, d: Device, w: Vendor, s: Sub)
    requires VendorOk(lower, v) && DeviceOk(lower, d) && VendorOk(lower, w) && SubOk(lower, s) && v.id != w.id
    ensures var lines := [VendorText(v), DeviceText(d), VendorText(w), SubText(s)];
            Run(lower, [], START, lines).panicked && Run(lower, [w.id], START, lines) == START.(id := NameID(w.id, ""))
  {
    hide Step, VendorText, DeviceText, SubText, IsName, SubOk, IsId;
    var lines := [VendorText(v), DeviceText(d), VendorText(w), SubText(s)];
    IdNotEmpty(lower, v.id);
    IdNotEmpty(lower, w.id);
    IdNotEmpty(lower, d.id);
    VendorStep(lower, [], START, v);
    var f1 := Step(lower, [], START, VendorText(v));
    DeviceStep(lower, [], f1, d);
    var f2 := Step(lower, [], f1, DeviceText(d));
    VendorStep(lower, [], f2, w);
    var f3 := Step(lower, [], f2, VendorText(w));
    OrphanStep(lower, [], f3, s);
    RunFour(lower, [], START, lines);
    VendorStep(lower, [w.id], START, v);
    IndentedIgnored(lower, [w.id], Step(lower, [w.id], START, VendorText(v)), d);
    VendorStep(lower, [w.id], START, w);
    OrphanStep(lower, [w.id], Step(lower, [w.id], START, VendorText(w)), s);
    RunFour(lower, [w.id], START, lines);
  }

  /** A vendor that is opened again keeps its device in force: its subdevice line is filed there, with or without
      the filter, though the text is not tidy. */
  lemma ReopenedCommutes(lower: string -> string, v: Vendor, d: Device, w: Vendor, s: Sub)
    requires VendorOk(lower, v) && DeviceOk(lower, d) && VendorOk(lower, w) && SubOk(lower, s) && v.id != w.id
    ensures var lines := [VendorText(v), DeviceText(d), VendorText(w), VendorText(v), SubText(s)];
            var subs := map[NameID(s.vendor, s.device) := Squeeze(s.name)];
            var end := State(NameID(v.id, d.id), map[NameID(v.id, d.id) := DeviceName(Squeeze(d.name), subs)], false);
            Run(lower, [], START, lines) == end && Run(lower, [v.id], START, lines) == end && !Tidy(lines)
  {
    hide Step, Run, VendorText, DeviceText, SubText, IsName, SubOk, IsId, Squeeze, OpensVendor, IsSubLine;
    var lines := [VendorText(v), DeviceText(d), VendorText(w), VendorText(v), SubText(s)];
    var k: nat := 4;
    PrintedLines(lower, v, s);
    assert IsSubLine(lines[k]) && !OpenAt(lines[..k]);
    ReopenedRun(lower, [], v, d, w, s);
    ReopenedRun(lower, [v.id], v, d, w, s);
  }

  lemma PrintedLines(lower: string -> string, v: Vendor, s: Sub)
    requires VendorOk(lower, v) && SubOk(lower, s)
    ensures OpensVendor(VendorText(v)) && IsSubLine(SubText(s))
  {
    hide Fields, IsSpace, TrimSpace;
    Gaps();
    FieldsGap(v.id, "  ", v.name);
    assert VendorText(v)[0] == v.id[0];
    var line := SubText(s);
    FieldsTrim(line);
    var rest := s.device + ("  " + s.name);
    FieldsSpaces("\t\t", s.vendor + (" " + rest));
    FieldsGap(s.vendor, " ", rest);
    FieldsGap(s.device, "  ", s.name);
    assert line[0] == '\t' && line[1] == '\t';
  }

  lemma ReopenedRun(lower: string -> string, vendors: seq<string>, v: Vendor, d: Device, w: Vendor, s: Sub)
    requires VendorOk(lower, v) && DeviceOk(lower, d) && VendorOk(lower, w) && SubOk(lower, s)
    requires Wanted(vendors, v.id)
    ensures var lines := [VendorText(v), DeviceText(d), VendorText(w), VendorText(v), SubText(s)];
            var subs := map[NameID(s.vendor, s.device) := Squeeze(s.name)];
            Run(lower, vendors, START, lines) ==
            State(NameID(v.id, d.id), map[NameID(v.id, d.id) := DeviceName(Squeeze(d.name), subs)], false)
  {
    hide Step, Run, Wanted, VendorText, DeviceText, SubText, IsName, SubOk, IsId, Squeeze;
    var lines := [VendorText(v), DeviceText(d), VendorText(w), VendorText(v), SubText(s)];
    IdNotEmpty(lower, v.id);
    IdNotEmpty(lower, d.id);
    var first := lines[..4];
    assert first == [VendorText(v), DeviceText(d), VendorText(w), VendorText(v)];
    VendorStep(lower, vendors, START, v);
    var s1 := Step(lower, vendors, START, VendorText(v));
    DeviceStep(lower, vendors, s1, d);
    var s2 := Step(lower, vendors, s1, DeviceText(d));
    VendorStep(lower, vendors, s2, w);
    var s3 := Step(lower, vendors, s2, VendorText(w));
    VendorStep(lower, vendors, s3, v);
    var s4 := Step(lower, vendors, s3, VendorText(v));
    SubStep(lower, vendors, s4, s);
    RunFour(lower, vendors, START, first);
    RunSnoc(lower, vendors, START, lines);
  }

  lemma RunFour(lower: string -> string, vendors: seq<string>, st: State, lines: seq<string>)
    requires |lines| == 4
    ensures var a := Step(lower, vendors, st, lines[0]);
            var b := Step(lower, vendors, a, lines[1]);
            var c := Step(lower, vendors, b, lines[2]);
            Run(lower, vendors, st, lines) == Step(lower, vendors, c, lines[3])
  {
    hide Step;
    var a := Step(lower, vendors, st, lines[0]);
    var b := Step(lower, vendors, a, lines[1]);
    var c := Step(lower, vendors, b, lines[2]);
    assert lines[1..][1..] == lines[2..] && lines[2..][1..] == lines[3..] && lines[3..][1..] == [];
    assert Run(lower, vendors, st, lines) == Run(lower, vendors, a, lines[1..]) == Run(lower, vendors, b, lines[2..]);
    assert Run(lower, vendors, b, lines[2..]) == Run(lower, vendors, c, lines[3..]);
    assert Run(lower, vendors, c, lines[3..]) == Run(lower, vendors, Step(lower, vendors, c, lines[3]), []);
  }

  lemma IndentedIgnored(lower: string -> string, vendors: seq<string>, st: State, d: Device)
    requires st.id.vendor == ""
    ensures Step(lower, vendors, st, DeviceText(d)) == st
  {
  }

  lemma OrphanStep(lower: string -> string, vendors: seq<string>, st: State, s: Sub)
    requires SubOk(lower, s) && !st.panicked && st.id.vendor != "" && st.id !in st.names
    ensures Step(lower, vendors, st, SubText(s)) == if st.id.device == "" then st else st.(panicked := true)
  {
    hide Fields, IsSpace, Join, TrimSpace;
    Gaps();
    var line := SubText(s);
    FieldsTrim(line);
    var rest := s.device + ("  " + s.name);
    FieldsSpaces("\t\t", s.vendor + (" " + rest));
    FieldsGap(s.vendor, " ", rest);
    FieldsGap(s.device, "  ", s.name);
    assert line[0] == '\t' && line[1] == '\t';
  }
}
