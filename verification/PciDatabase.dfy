/** What the pci.ids parser promises about whole files: a printed database parses back, and filtering while
    parsing is filtering afterwards. */
module PciDatabase {
  import opened Options
  import opened Text
  import opened PciIds

  // ---------------------------------------------------------------- databases and their text

  datatype Sub = Sub(vendor: string, device: string, name: string)
  datatype Device = Device(id: string, name: string, subs: seq<Sub>)
  datatype Vendor = Vendor(id: string, name: string, devices: seq<Device>)

  predicate IsWord(w: string) {
    w != "" && forall i :: 0 <= i < |w| ==> !IsSpace(w[i])
  }

  predicate IsName(n: string) {
    Fields(n) != [] && '\n' !in n
  }

  /** A name as the parser keeps it: its words, one space apart. */
  function Squeeze(n: string): string {
    Join(Fields(n), ' ')
  }

  predicate IsId(lower: string -> string, w: string) {
    IsWord(w) && lower(w) == w
  }

  predicate SubOk(lower: string -> string, s: Sub) {
    IsId(lower, s.vendor) && IsId(lower, s.device) && IsName(s.name)
  }

  predicate DeviceOk(lower: string -> string, d: Device) {
    IsId(lower, d.id) && IsName(d.name) && forall i :: 0 <= i < |d.subs| ==> SubOk(lower, d.subs[i])
  }

  predicate VendorOk(lower: string -> string, v: Vendor) {
    IsId(lower, v.id) && IsName(v.name) && forall i :: 0 <= i < |v.devices| ==> DeviceOk(lower, v.devices[i])
  }

  predicate DatabaseOk(lower: string -> string, db: seq<Vendor>) {
    forall i :: 0 <= i < |db| ==> VendorOk(lower, db[i])
  }

  function SubText(s: Sub): string { "\t\t" + (s.vendor + (" " + (s.device + ("  " + s.name)))) }
  function DeviceText(d: Device): string { "\t" + (d.id + ("  " + d.name)) }
  function VendorText(v: Vendor): string { v.id + ("  " + v.name) }

  function SubLines(subs: seq<Sub>): seq<string> {
    if subs == [] then [] else [SubText(subs[0])] + SubLines(subs[1..])
  }

  function DeviceLines(ds: seq<Device>): seq<string> {
    if ds == [] then [] else [DeviceText(ds[0])] + SubLines(ds[0].subs) + DeviceLines(ds[1..])
  }

  function VendorLines(db: seq<Vendor>): seq<string> {
    if db == [] then [] else [VendorText(db[0])] + DeviceLines(db[0].devices) + VendorLines(db[1..])
  }

  /** Every line ends in a newline. */
  function Unlines(lines: seq<string>): string {
    if lines == [] then "" else lines[0] + ['\n'] + Unlines(lines[1..])
  }

  function PrintDatabase(db: seq<Vendor>): string {
    Unlines(VendorLines(db))
  }

  // ---------------------------------------------------------------- the table a database is

  function AddSubs(m: map<NameID, string>, subs: seq<Sub>): map<NameID, string>
    decreases |subs|
  {
    if subs == [] then m else AddSubs(m[NameID(subs[0].vendor, subs[0].device) := Squeeze(subs[0].name)], subs[1..])
  }

  function Entry(d: Device): DeviceName { DeviceName(Squeeze(d.name), AddSubs(map[], d.subs)) }

  function AddDevices(names: Names, vendor: string, ds: seq<Device>): Names
    decreases |ds|
  {
    if ds == [] then names
    else AddDevices(names[NameID(vendor, ds[0].id) := Entry(ds[0])], vendor, ds[1..])
  }

  function AddVendors(names: Names, db: seq<Vendor>): Names
    decreases |db|
  {
    if db == [] then names else AddVendors(AddDevices(names, db[0].id, db[0].devices), db[1..])
  }

  function Table(db: seq<Vendor>): Names { AddVendors(map[], db) }

  function Filter(vendors: seq<string>, db: seq<Vendor>): seq<Vendor> {
    if db == [] then [] else (if Wanted(vendors, db[0].id) then [db[0]] else []) + Filter(vendors, db[1..])
  }

  function Restrict(vendors: seq<string>, names: Names): Names {
    map id | id in names && Wanted(vendors, id.vendor) :: names[id]
  }

  // ---------------------------------------------------------------- fields of a printed line

  lemma {:induction false} FieldsSpaces(s: string, t: string)
    requires forall i :: 0 <= i < |s| ==> IsSpace(s[i])
    ensures Fields(s + t) == Fields(t)
  {
    if s == [] {
      assert s + t == t;
    } else {
      FieldsSpaces(s[1..], t);
      assert (s + t)[1..] == s[1..] + t;
    }
  }

  lemma {:induction false} FieldsWord(w: string, rest: string)
    requires IsWord(w) && (rest == [] || IsSpace(rest[0]))
    ensures Fields(w + rest) == [w] + Fields(rest)
  {
    hide IsSpace;
    var s := w + rest;
    if |w| == 1 {
      assert s[1..] == rest;
      assert [w[0]] == w;
    } else {
      FieldsWord(w[1..], rest);
      assert s[1..] == w[1..] + rest;
      assert [w[0]] + w[1..] == w;
    }
  }

  lemma {:induction false} FieldsTrailing(s: string, c: char)
    requires IsSpace(c)
    ensures Fields(s + [c]) == Fields(s)
  {
    hide IsSpace;
    if s == [] {
      assert [] + [c] == [c];
      assert [c][1..] == [];
    } else {
      assert (s + [c])[1..] == s[1..] + [c];
      FieldsTrailing(s[1..], c);
      if |s| == 1 { assert s[1..] == []; }
    }
  }

  lemma {:induction false} FieldsTrimRight(s: string)
    ensures Fields(TrimRight(s)) == Fields(s)
  {
    hide IsSpace, Fields;
    if s != [] && IsSpace(s[|s| - 1]) {
      var t := s[..|s| - 1];
      FieldsTrimRight(t);
      FieldsTrailing(t, s[|s| - 1]);
      assert t + [s[|s| - 1]] == s;
    }
  }

  lemma {:induction false} FieldsTrimLeft(s: string)
    ensures Fields(TrimLeft(s)) == Fields(s)
  {
    hide IsSpace;
    if s != [] && IsSpace(s[0]) { FieldsTrimLeft(s[1..]); }
  }

  lemma FieldsTrim(s: string)
    ensures Fields(TrimSpace(s)) == Fields(s)
  {
    hide TrimLeft, TrimRight, Fields;
    FieldsTrimLeft(s);
    FieldsTrimRight(TrimLeft(s));
  }

  /** A word, a gap, and more. */
  lemma FieldsGap(w: string, gap: string, rest: string)
    requires IsWord(w) && gap != [] && forall i :: 0 <= i < |gap| ==> IsSpace(gap[i])
    ensures Fields(w + (gap + rest)) == [w] + Fields(rest)
  {
    hide Fields, IsSpace;
    FieldsWord(w, gap + rest);
    FieldsSpaces(gap, rest);
  }

  lemma Gaps()
    ensures IsSpace(' ') && IsSpace('\t')
  {
  }

  /** A name written as words one space apart is kept as it is. */
  lemma {:induction false} SqueezeWords(ws: seq<string>)
    requires forall i :: 0 <= i < |ws| ==> IsWord(ws[i])
    ensures Fields(Join(ws, ' ')) == ws && Squeeze(Join(ws, ' ')) == Join(ws, ' ')
    decreases |ws|
  {
    hide IsSpace, IsWord;
    Gaps();
    if |ws| == 1 {
      FieldsWord(ws[0], "");
      assert ws[0] + "" == ws[0];
    } else if |ws| > 1 {
      SqueezeWords(ws[1..]);
      FieldsGap(ws[0], " ", Join(ws[1..], ' '));
      assert Join(ws, ' ') == ws[0] + (" " + Join(ws[1..], ' '));
    }
  }

  // ---------------------------------------------------------------- what a printed line does

  lemma VendorStep(lower: string -> string, vendors: seq<string>, st: State, v: Vendor)
    requires IsId(lower, v.id) && IsName(v.name) && !st.panicked
    ensures Step(lower, vendors, st, VendorText(v)) ==
            st.(id := NameID(if Wanted(vendors, v.id) then v.id else "", st.id.device))
  {
    hide Fields, IsSpace, Join;
    Gaps();
    FieldsGap(v.id, "  ", v.name);
    assert VendorText(v)[0] == v.id[0];
  }

  lemma DeviceStep(lower: string -> string, vendors: seq<string>, st: State, d: Device)
    requires IsId(lower, d.id) && IsName(d.name) && !st.panicked && st.id.vendor != ""
    ensures var id := NameID(st.id.vendor, d.id);
            Step(lower, vendors, st, DeviceText(d)) ==
            State(id, st.names[id := DeviceName(Squeeze(d.name), map[])], false)
  {
    hide Fields, IsSpace, Join, TrimSpace;
    Gaps();
    var line := DeviceText(d);
    FieldsTrim(line);
    FieldsSpaces("\t", d.id + ("  " + d.name));
    FieldsGap(d.id, "  ", d.name);
    assert line[1] == d.id[0];
    assert ([d.id] + Fields(d.name))[1..] == Fields(d.name);
  }

  lemma SubStep(lower: string -> string, vendors: seq<string>, st: State, s: Sub)
    requires SubOk(lower, s) && !st.panicked && st.id.vendor != "" && st.id.device != "" && st.id in st.names
    ensures var d := st.names[st.id];
            Step(lower, vendors, st, SubText(s)) ==
            var subs := d.subDevices[NameID(s.vendor, s.device) := Squeeze(s.name)];
            st.(names := st.names[st.id := d.(subDevices := subs)])
  {
    hide Fields, IsSpace, Join, TrimSpace;
    Gaps();
    var line := SubText(s);
    FieldsTrim(line);
    var rest := s.device + ("  " + s.name);
    FieldsSpaces("\t\t", s.vendor + (" " + rest));
    FieldsGap(s.vendor, " ", rest);
    FieldsGap(s.device, "  ", s.name);
    assert line[0] == '\t' && line[1] == '\t';
    assert ([s.vendor] + ([s.device] + Fields(s.name)))[2..] == Fields(s.name);
  }

  // ---------------------------------------------------------------- whole blocks

  lemma {:induction false} RunAppend(
    lower: string -> string, vendors: seq<string>, st: State, a: seq<string>, b: seq<string>)
    ensures Run(lower, vendors, st, a + b) == Run(lower, vendors, Run(lower, vendors, st, a), b)
    decreases |a|
  {
    hide Step;
    if a == [] {
      assert a + b == b;
    } else {
      assert (a + b)[1..] == a[1..] + b;
      RunAppend(lower, vendors, Step(lower, vendors, st, a[0]), a[1..], b);
    }
  }

  lemma {:induction false} RunSubs(lower: string -> string, vendors: seq<string>, st: State, subs: seq<Sub>)
    requires forall i :: 0 <= i < |subs| ==> SubOk(lower, subs[i])
    requires !st.panicked && st.id.vendor != "" && st.id.device != "" && st.id in st.names
    ensures var d := st.names[st.id];
            Run(lower, vendors, st, SubLines(subs)) ==
            st.(names := st.names[st.id := d.(subDevices := AddSubs(d.subDevices, subs))])
    decreases |subs|
  {
    hide Step, SubOk, SubText;
    if subs == [] {
      assert st.names[st.id := st.names[st.id]] == st.names;
    } else {
      SubStep(lower, vendors, st, subs[0]);
      RunCons(lower, vendors, st, SubText(subs[0]), SubLines(subs[1..]));
      RunSubs(lower, vendors, Step(lower, vendors, st, SubText(subs[0])), subs[1..]);
    }
  }

  lemma {:induction false} RunDevices(lower: string -> string, vendors: seq<string>, st: State, ds: seq<Device>)
    requires forall i :: 0 <= i < |ds| ==> DeviceOk(lower, ds[i])
    requires !st.panicked && st.id.vendor != ""
    ensures var r := Run(lower, vendors, st, DeviceLines(ds));
            !r.panicked && r.names == AddDevices(st.names, st.id.vendor, ds)
    decreases |ds|
  {
    hide Step, DeviceText, SubLines, AddSubs, IsName;
    if ds != [] {
      var d := ds[0];
      var id := NameID(st.id.vendor, d.id);
      assert DeviceOk(lower, d);
      DeviceStep(lower, vendors, st, d);
      var st1 := Step(lower, vendors, st, DeviceText(d));
      RunSubs(lower, vendors, st1, d.subs);
      var st2 := State(id, st.names[id := Entry(d)], false);
      assert st1.names[id := Entry(d)] == st2.names;
      assert Run(lower, vendors, st1, SubLines(d.subs)) == st2;
      RunDevices(lower, vendors, st2, ds[1..]);
      RunAppend(lower, vendors, st1, SubLines(d.subs), DeviceLines(ds[1..]));
      RunCons(lower, vendors, st, DeviceText(d), SubLines(d.subs) + DeviceLines(ds[1..]));
      assert DeviceLines(ds) == [DeviceText(d)] + (SubLines(d.subs) + DeviceLines(ds[1..]));
    }
  }

  lemma {:induction false} RunIgnored(lower: string -> string, vendors: seq<string>, st: State, lines: seq<string>)
    requires st.id.vendor == "" && forall i :: 0 <= i < |lines| ==> lines[i] != "" && lines[i][0] == '\t'
    ensures Run(lower, vendors, st, lines) == st
    decreases |lines|
  {
    if lines != [] { RunIgnored(lower, vendors, st, lines[1..]); }
  }

  lemma {:induction false} SubLinesIndented(subs: seq<Sub>)
    ensures forall i :: 0 <= i < |SubLines(subs)| ==> SubLines(subs)[i] != "" && SubLines(subs)[i][0] == '\t'
  {
    if subs != [] { SubLinesIndented(subs[1..]); }
  }

  lemma {:induction false} DeviceLinesIndented(ds: seq<Device>)
    ensures forall i :: 0 <= i < |DeviceLines(ds)| ==> DeviceLines(ds)[i] != "" && DeviceLines(ds)[i][0] == '\t'
    decreases |ds|
  {
    if ds != [] {
      SubLinesIndented(ds[0].subs);
      DeviceLinesIndented(ds[1..]);
    }
  }

  /** The lines of one vendor add its devices, if the vendor is wanted, and nothing otherwise. */
  lemma RunVendor(lower: string -> string, vendors: seq<string>, st: State, v: Vendor)
    requires VendorOk(lower, v) && !st.panicked
    ensures var r := Run(lower, vendors, Step(lower, vendors, st, VendorText(v)), DeviceLines(v.devices));
            !r.panicked && r.names == if Wanted(vendors, v.id) then AddDevices(st.names, v.id, v.devices) else st.names
  {
    hide Step, VendorText, DeviceLines, AddDevices, IsName, IsWord, DeviceOk, Run;
    VendorStep(lower, vendors, st, v);
    var st1 := Step(lower, vendors, st, VendorText(v));
    if Wanted(vendors, v.id) {
      IdNotEmpty(lower, v.id);
      RunDevices(lower, vendors, st1, v.devices);
    } else {
      DeviceLinesIndented(v.devices);
      RunIgnored(lower, vendors, st1, DeviceLines(v.devices));
    }
  }

  lemma FilterStep(names: Names, vendors: seq<string>, db: seq<Vendor>)
    requires db != []
    ensures AddVendors(names, Filter(vendors, db)) ==
            AddVendors(if Wanted(vendors, db[0].id) then AddDevices(names, db[0].id, db[0].devices) else names,
                       Filter(vendors, db[1..]))
  {
    hide AddDevices;
    if Wanted(vendors, db[0].id) {
      assert Filter(vendors, db)[1..] == Filter(vendors, db[1..]);
    } else {
      assert Filter(vendors, db) == Filter(vendors, db[1..]);
    }
  }

  lemma {:induction false} RunVendors(lower: string -> string, vendors: seq<string>, st: State, db: seq<Vendor>)
    requires DatabaseOk(lower, db) && !st.panicked
    ensures var r := Run(lower, vendors, st, VendorLines(db));
            !r.panicked && r.names == AddVendors(st.names, Filter(vendors, db))
    decreases |db|
  {
    hide Step, VendorText, DeviceLines, AddDevices, AddVendors, Filter, VendorOk, Run;
    if db == [] {
      RunCons(lower, vendors, st, "", []);
      NoVendors(st.names, vendors);
    } else {
      var v := db[0];
      var st1 := Step(lower, vendors, st, VendorText(v));
      var st2 := Run(lower, vendors, st1, DeviceLines(v.devices));
      RunVendor(lower, vendors, st, v);
      FilterStep(st.names, vendors, db);
      RunVendors(lower, vendors, st2, db[1..]);
      RunAppend(lower, vendors, st1, DeviceLines(v.devices), VendorLines(db[1..]));
      RunCons(lower, vendors, st, VendorText(v), DeviceLines(v.devices) + VendorLines(db[1..]));
      assert VendorLines(db) == [VendorText(v)] + (DeviceLines(v.devices) + VendorLines(db[1..]));
    }
  }

  lemma NoVendors(names: Names, vendors: seq<string>)
    ensures AddVendors(names, Filter(vendors, [])) == names
  {
  }

  lemma IdNotEmpty(lower: string -> string, w: string)
    requires IsId(lower, w)
    ensures w != ""
  {
  }

  // ---------------------------------------------------------------- the text as a whole

  lemma {:induction false} SplitUnlines(lines: seq<string>)
    requires forall i :: 0 <= i < |lines| ==> '\n' !in lines[i]
    ensures Split(Unlines(lines), '\n') == lines + [""]
    decreases |lines|
  {
    if lines != [] {
      SplitUnlines(lines[1..]);
      SplitAt(lines[0], '\n', Unlines(lines[1..]));
    }
  }

  lemma WordOneLine(w: string)
    requires IsWord(w)
    ensures '\n' !in w
  {
  }

  lemma {:induction false} SubLinesOne(lower: string -> string, subs: seq<Sub>)
    requires forall i :: 0 <= i < |subs| ==> SubOk(lower, subs[i])
    ensures forall i :: 0 <= i < |SubLines(subs)| ==> '\n' !in SubLines(subs)[i]
  {
    hide IsWord, Fields, Join;
    if subs != [] {
      assert SubOk(lower, subs[0]);
      WordOneLine(subs[0].vendor);
      WordOneLine(subs[0].device);
      SubLinesOne(lower, subs[1..]);
    }
  }

  lemma {:induction false} DeviceLinesOne(lower: string -> string, ds: seq<Device>)
    requires forall i :: 0 <= i < |ds| ==> DeviceOk(lower, ds[i])
    ensures forall i :: 0 <= i < |DeviceLines(ds)| ==> '\n' !in DeviceLines(ds)[i]
    decreases |ds|
  {
    hide IsWord, Fields, Join, SubLines;
    if ds != [] {
      assert DeviceOk(lower, ds[0]);
      WordOneLine(ds[0].id);
      SubLinesOne(lower, ds[0].subs);
      DeviceLinesOne(lower, ds[1..]);
    }
  }

  lemma {:induction false} VendorLinesOne(lower: string -> string, db: seq<Vendor>)
    requires DatabaseOk(lower, db)
    ensures forall i :: 0 <= i < |VendorLines(db)| ==> '\n' !in VendorLines(db)[i]
    decreases |db|
  {
    hide IsWord, Fields, Join, DeviceLines;
    if db != [] {
      assert VendorOk(lower, db[0]);
      WordOneLine(db[0].id);
      DeviceLinesOne(lower, db[0].devices);
      VendorLinesOne(lower, db[1..]);
    }
  }

  /** Parsing a printed database gives exactly the table of its wanted vendors, without a panic. */
  lemma ParsePrinted(lower: string -> string, vendors: seq<string>, db: seq<Vendor>)
    requires DatabaseOk(lower, db)
    ensures var st := Parse(lower, vendors, PrintDatabase(db));
            !st.panicked && st.names == Table(Filter(vendors, db))
  {
    hide Run, Split, VendorLines, AddVendors, Filter, DatabaseOk, Unlines;
    var lines := VendorLines(db);
    VendorLinesOne(lower, db);
    SplitUnlines(lines);
    RunVendors(lower, vendors, START, db);
    RunAppend(lower, vendors, START, lines, [""]);
    var st := Run(lower, vendors, START, lines);
    assert [""] + [] == [""];
    RunCons(lower, vendors, st, "", []);
    BlankLine(lower, vendors, st);
    RunCons(lower, vendors, st, "", []);
  }

  // ---------------------------------------------------------------- what the table answers

  /** The last entry for an id wins. */
  function FindSub(subs: seq<Sub>, vendor: string, device: string): (r: Option<string>) {
    if subs == [] then None
    else
      var last := subs[|subs| - 1];
      if last.vendor == vendor && last.device == device then Some(Squeeze(last.name))
      else FindSub(subs[..|subs| - 1], vendor, device)
  }

  function FindDevice(ds: seq<Device>, id: string): (r: Option<Device>) {
    if ds == [] then None
    else if ds[|ds| - 1].id == id then Some(ds[|ds| - 1])
    else FindDevice(ds[..|ds| - 1], id)
  }

  function Find(db: seq<Vendor>, vendor: string, device: string): (r: Option<Device>) {
    if db == [] then None
    else
      var last := db[|db| - 1];
      if last.id == vendor && FindDevice(last.devices, device).Some? then FindDevice(last.devices, device)
      else Find(db[..|db| - 1], vendor, device)
  }

  lemma {:induction false} AddSubsLast(m: map<NameID, string>, subs: seq<Sub>)
    requires subs != []
    ensures var n := |subs| - 1;
            AddSubs(m, subs) == AddSubs(m, subs[..n])[NameID(subs[n].vendor, subs[n].device) := Squeeze(subs[n].name)]
    decreases |subs|
  {
    var n := |subs| - 1;
    if n > 0 {
      var m1 := m[NameID(subs[0].vendor, subs[0].device) := Squeeze(subs[0].name)];
      AddSubsLast(m1, subs[1..]);
      assert subs[..n][1..] == subs[1..][..n - 1];
    }
  }

  lemma {:induction false} SubsFind(subs: seq<Sub>, vendor: string, device: string)
    ensures var m, r := AddSubs(map[], subs), FindSub(subs, vendor, device);
            (NameID(vendor, device) in m <==> r.Some?) && (r.Some? ==> m[NameID(vendor, device)] == r.value)
    decreases |subs|
  {
    if subs != [] {
      AddSubsLast(map[], subs);
      SubsFind(subs[..|subs| - 1], vendor, device);
    }
  }

  lemma {:induction false} AddDevicesLast(names: Names, vendor: string, ds: seq<Device>)
    requires ds != []
    ensures var n := |ds| - 1;
            AddDevices(names, vendor, ds) ==
            AddDevices(names, vendor, ds[..n])[NameID(vendor, ds[n].id) := Entry(ds[n])]
    decreases |ds|
  {
    hide AddSubs;
    var n := |ds| - 1;
    if n > 0 {
      AddDevicesLast(names[NameID(vendor, ds[0].id) := Entry(ds[0])], vendor, ds[1..]);
      assert ds[..n][1..] == ds[1..][..n - 1];
    }
  }

  lemma {:induction false} DevicesFind(names: Names, vendor: string, ds: seq<Device>, id: NameID)
    ensures var m := AddDevices(names, vendor, ds);
            if id.vendor == vendor && FindDevice(ds, id.device).Some?
            then id in m && m[id] == Entry(FindDevice(ds, id.device).value)
            else (id in m <==> id in names) && (id in names ==> m[id] == names[id])
    decreases |ds|
  {
    hide Entry;
    if ds != [] {
      AddDevicesLast(names, vendor, ds);
      DevicesFind(names, vendor, ds[..|ds| - 1], id);
    }
  }

  lemma {:induction false} AddVendorsLast(names: Names, db: seq<Vendor>)
    requires db != []
    ensures var n := |db| - 1;
            AddVendors(names, db) == AddDevices(AddVendors(names, db[..n]), db[n].id, db[n].devices)
    decreases |db|
  {
    hide AddDevices;
    var n := |db| - 1;
    if n > 0 {
      AddVendorsLast(AddDevices(names, db[0].id, db[0].devices), db[1..]);
      assert db[..n][1..] == db[1..][..n - 1];
    }
  }

  /** The table holds a device exactly when the database lists it, with the last entry's names. */
  lemma {:induction false} TableFind(db: seq<Vendor>, id: NameID)
    ensures var r := Find(db, id.vendor, id.device);
            (id in Table(db) <==> r.Some?) && (r.Some? ==> Table(db)[id] == Entry(r.value))
    decreases |db|
  {
    hide Entry, AddDevices, FindDevice;
    if db != [] {
      var n := |db| - 1;
      AddVendorsLast(map[], db);
      TableFind(db[..n], id);
      DevicesFind(Table(db[..n]), db[n].id, db[n].devices, id);
    }
  }

  lemma FilterCons(vendors: seq<string>, db: seq<Vendor>)
    requires db != []
    ensures Filter(vendors, db) == (if Wanted(vendors, db[0].id) then [db[0]] else []) + Filter(vendors, db[1..])
    ensures Filter(vendors, []) == []
  {
  }

  lemma {:induction false} FilterAppend(vendors: seq<string>, db: seq<Vendor>)
    requires db != []
    ensures var n := |db| - 1;
            Filter(vendors, db) == Filter(vendors, db[..n]) + if Wanted(vendors, db[n].id) then [db[n]] else []
    decreases |db|
  {
    hide Wanted, Filter;
    var n := |db| - 1;
    FilterCons(vendors, db);
    if n > 0 {
      FilterAppend(vendors, db[1..]);
      assert db[..n][1..] == db[1..][..n - 1] && db[..n][0] == db[0];
      FilterCons(vendors, db[..n]);
    } else {
      assert db[1..] == [] && db[..n] == [];
    }
  }

  lemma {:induction false} FilterFind(vendors: seq<string>, db: seq<Vendor>, vendor: string, device: string)
    ensures Find(Filter(vendors, db), vendor, device) ==
            if Wanted(vendors, vendor) then Find(db, vendor, device) else None
    decreases |db|
  {
    hide FindDevice;
    if db != [] {
      var n := |db| - 1;
      FilterAppend(vendors, db);
      FilterFind(vendors, db[..n], vendor, device);
      var f := Filter(vendors, db);
      if Wanted(vendors, db[n].id) {
        assert f[..|f| - 1] == Filter(vendors, db[..n]);
      } else {
        assert f == Filter(vendors, db[..n]);
      }
    }
  }

  /** Filtering the database is restricting the table. */
  lemma FilterTable(vendors: seq<string>, db: seq<Vendor>)
    ensures Table(Filter(vendors, db)) == Restrict(vendors, Table(db))
  {
    hide Table, Filter, Find, Entry;
    forall id ensures var a, b := Table(Filter(vendors, db)), Restrict(vendors, Table(db));
                      (id in a <==> id in b) && (id in a ==> a[id] == b[id]) {
      TableFind(Filter(vendors, db), id);
      TableFind(db, id);
      FilterFind(vendors, db, id.vendor, id.device);
    }
  }

  lemma {:induction false} FilterNone(db: seq<Vendor>)
    ensures Filter([], db) == db
    decreases |db|
  {
    if db != [] { FilterNone(db[1..]); }
  }

  /** Filtering while parsing a printed database is parsing all of it and filtering afterwards. */
  lemma FilterPrinted(lower: string -> string, vendors: seq<string>, db: seq<Vendor>)
    requires DatabaseOk(lower, db)
    ensures Parse(lower, vendors, PrintDatabase(db)).names ==
            Restrict(vendors, Parse(lower, [], PrintDatabase(db)).names)
  {
    hide Parse, Table, Filter, DatabaseOk;
    ParsePrinted(lower, vendors, db);
    ParsePrinted(lower, [], db);
    FilterNone(db);
    FilterTable(vendors, db);
  }

  /** Looking a device up in a parsed database: the subsystem's name, else the device's, else nothing. */
  lemma LookupPrinted(lower: string -> string, vendors: seq<string>, db: seq<Vendor>,
                      vendor: string, device: string, subvendor: string, subdevice: string)
    requires DatabaseOk(lower, db)
    ensures GetName(Parse(lower, vendors, PrintDatabase(db)).names, vendor, device, subvendor, subdevice) ==
            var d := if Wanted(vendors, vendor) then Find(db, vendor, device) else None;
            if d.None? then ""
            else
              var s := if subvendor != "" && subdevice != "" then FindSub(d.value.subs, subvendor, subdevice) else None;
              if s.Some? then s.value else Squeeze(d.value.name)
  {
    hide Parse, Table, Filter, Find, FindSub, DatabaseOk;
    ParsePrinted(lower, vendors, db);
    TableFind(Filter(vendors, db), NameID(vendor, device));
    FilterFind(vendors, db, vendor, device);
    var d := Find(db, vendor, device);
    if d.Some? { SubsFind(d.value.subs, subvendor, subdevice); }
  }
}
