/** The pci.ids parser: a line-by-line state machine that carries the current vendor and device and fills a
    table of names, possibly only for wanted vendors. */
module PciIds {
  import opened Text

  datatype NameID = NameID(vendor: string, device: string)
  datatype DeviceName = DeviceName(name: string, subDevices: map<NameID, string>)
  type Names = map<NameID, DeviceName>

  /** `panicked` records the write into the missing table of an unknown device. */
  datatype State = State(id: NameID, names: Names, panicked: bool)

  const START := State(NameID("", ""), map[], false)

  // ---------------------------------------------------------------- words

  /** bytes.Fields. */
  function Fields(s: string): (ws: seq<string>) {
    if s == [] then []
    else if IsSpace(s[0]) then Fields(s[1..])
    else if |s| == 1 || IsSpace(s[1]) then [[s[0]]] + Fields(s[1..])
    else
      var ws := Fields(s[1..]);
      if ws == [] then [[s[0]]] else [[s[0]] + ws[0]] + ws[1..]
  }

  // ---------------------------------------------------------------- the state machine

  /** contains: with no vendors wanted by name, all are. */
  predicate Wanted(vendors: seq<string>, v: string) {
    vendors == [] || v in vendors
  }

  function VendorLine(lower: string -> string, vendors: seq<string>, st: State, line: string): (r: State) {
    var fields := Fields(line);
    if |fields| > 1 then
      var v := lower(fields[0]);
      st.(id := NameID(if Wanted(vendors, v) then v else "", st.id.device))
    else st
  }

  function DeviceLine(lower: string -> string, st: State, line: string): (r: State) {
    var fields := Fields(TrimSpace(line));
    if |fields| > 1 then
      var id := NameID(st.id.vendor, lower(fields[0]));
      State(id, st.names[id := DeviceName(Join(fields[1..], ' '), map[])], st.panicked)
    else st
  }

  function SubDeviceLine(lower: string -> string, st: State, line: string): (r: State) {
    var fields := Fields(TrimSpace(line));
    if |fields| > 2 then
      var sub := NameID(lower(fields[0]), lower(fields[1]));
      if st.id in st.names then
        var d := st.names[st.id];
        st.(names := st.names[st.id := d.(subDevices := d.subDevices[sub := Join(fields[2..], ' ')])])
      else st.(panicked := true)
    else st
  }

  predicate IsDeviceLine(line: string) {
    |line| > 1 && line[0] == '\t' && line[1] != '\t'
  }

  /** What one line does. */
  function Step(lower: string -> string, vendors: seq<string>, st: State, line: string): (r: State) {
    if st.panicked || line == [] then st
    else if line[0] != '\t' then VendorLine(lower, vendors, st, line)
    else if st.id.vendor == "" then st
    else if IsDeviceLine(line) then DeviceLine(lower, st, line)
    else if st.id.device == "" then st
    else SubDeviceLine(lower, st, line)
  }

  function Run(lower: string -> string, vendors: seq<string>, st: State, lines: seq<string>): (r: State)
    decreases |lines|
  {
    if lines == [] then st else Run(lower, vendors, Step(lower, vendors, st, lines[0]), lines[1..])
  }

  /** The table a text is parsed into. */
  function Parse(lower: string -> string, vendors: seq<string>, text: string): (r: State) {
    Run(lower, vendors, START, Split(text, '\n'))
  }

  // ---------------------------------------------------------------- the scan

  /** The line that starts s, and what follows its newline. */
  lemma {:induction false} FirstLine(s: string, j: nat)
    requires j <= |s| && '\n' !in s[..j] && (j < |s| ==> s[j] == '\n')
    ensures j < |s| ==> Split(s, '\n') == [s[..j]] + Split(s[j + 1..], '\n')
    ensures j == |s| ==> Split(s, '\n') == [s]
  {
    if j < |s| {
      SplitAt(s[..j], '\n', s[j + 1..]);
      assert s[..j] + ['\n'] + s[j + 1..] == s;
    } else {
      assert s[..j] == s;
      SplitNone(s, '\n');
    }
  }

  lemma RunCons(lower: string -> string, vendors: seq<string>, st: State, line: string, rest: seq<string>)
    ensures Run(lower, vendors, st, [line] + rest) == Run(lower, vendors, Step(lower, vendors, st, line), rest)
    ensures Run(lower, vendors, st, []) == st
  {
    hide Step;
    assert ([line] + rest)[1..] == rest;
  }

  /** The state before the scan reaches index i of bs is what running all lines from i on leaves to do. */
  ghost function Remaining(lower: string -> string, vendors: seq<string>, st: State, bs: string, i: nat): (r: State) {
    if i < |bs| then Run(lower, vendors, st, Split(bs[i..], '\n')) else st
  }

  lemma NextLine(lower: string -> string, vendors: seq<string>, st: State, bs: string, i: nat, j: nat)
    requires i <= j <= |bs| && i < |bs| && '\n' !in bs[i..j] && (j < |bs| ==> bs[j] == '\n')
    ensures Remaining(lower, vendors, st, bs, i) ==
            Remaining(lower, vendors, Step(lower, vendors, st, bs[i..j]), bs, j + 1)
  {
    hide Step, Run, Split;
    var s, line := bs[i..], bs[i..j];
    assert s[..j - i] == line;
    FirstLine(s, j - i);
    if j + 1 < |bs| {
      assert s[j - i + 1..] == bs[j + 1..];
      RunCons(lower, vendors, st, line, Split(bs[j + 1..], '\n'));
    } else if j + 1 == |bs| {
      assert s[j - i + 1..] == "";
      SplitNone("", '\n');
      RunCons(lower, vendors, st, line, [""]);
      assert [""] + [] == [""];
      RunCons(lower, vendors, Step(lower, vendors, st, line), "", []);
      BlankLine(lower, vendors, Step(lower, vendors, st, line));
    } else {
      assert s == line;
      assert [line] + [] == [line];
      RunCons(lower, vendors, st, line, []);
      RunCons(lower, vendors, Step(lower, vendors, st, line), line, []);
    }
  }

  lemma BlankLine(lower: string -> string, vendors: seq<string>, st: State)
    ensures Step(lower, vendors, st, "") == st
  {
  }

  /** The body of the loop once a line is cut out. */
  method ReadLine(lower: string -> string, vendors: seq<string>, line: string, nameID: NameID, names: Names)
    returns (nameID': NameID, names': Names, panicked: bool)
    ensures State(nameID', names', panicked) == Step(lower, vendors, State(nameID, names, false), line)
  {
    hide Fields, TrimSpace, Join;
    nameID', names', panicked := nameID, names, false;
    if |line| == 0 { return; }
    if line[0] != '\t' {
      var fields := Fields(line);
      if |fields| > 1 {
        nameID' := nameID'.(vendor := lower(fields[0]));
        if !Wanted(vendors, nameID'.vendor) { nameID' := nameID'.(vendor := ""); }
      }
      return;
    }
    if nameID.vendor == "" { return; }
    if |line| > 1 && line[0] == '\t' && line[1] != '\t' {
      var fields := Fields(TrimSpace(line));
      if |fields| > 1 {
        nameID' := nameID'.(device := lower(fields[0]));
        names' := names'[nameID' := DeviceName(Join(fields[1..], ' '), map[])];
      }
      return;
    }
    if nameID.device == "" { return; }
    var fields := Fields(TrimSpace(line));
    if |fields| > 2 {
      var sub := NameID(lower(fields[0]), lower(fields[1]));
      if nameID !in names { panicked := true; return; }
      var subs := names[nameID].subDevices[sub := Join(fields[2..], ' ')];
      names' := names'[nameID := names[nameID].(subDevices := subs)];
    }
  }

  /** The inner loop: the end of the line that starts at i. */
  method LineEnd(bs: string, i: nat) returns (j: nat)
    requires i <= |bs|
    ensures i <= j <= |bs| && '\n' !in bs[i..j] && (j < |bs| ==> bs[j] == '\n')
  {
    j := i;
    while j < |bs| && bs[j] != '\n'
      invariant i <= j <= |bs| && '\n' !in bs[i..j]
    {
      assert bs[i..j + 1] == bs[i..j] + [bs[j]];
      j := j + 1;
    }
  }

  /** The parsing loop of getPCIDeviceNames over the bytes of the file. */
  method GetPCIDeviceNames(lower: string -> string, vendors: seq<string>, bs: string) returns (st: State)
    ensures st == Parse(lower, vendors, bs)
  {
    hide Step, Run, Split;
    var nameID, names := NameID("", ""), map[];
    var i := 0;
    assert bs[0..] == bs;
    if bs == "" { EmptyText(lower, vendors); }
    while i < |bs|
      invariant 0 <= i
      invariant Remaining(lower, vendors, State(nameID, names, false), bs, i) == Parse(lower, vendors, bs)
      decreases |bs| - i
    {
      var j := LineEnd(bs, i);
      NextLine(lower, vendors, State(nameID, names, false), bs, i, j);
      var panicked;
      nameID, names, panicked := ReadLine(lower, vendors, bs[i..j], nameID, names);
      i := j + 1;
      if panicked {
        StaysPanicked(lower, vendors, State(nameID, names, true), bs, i);
        return State(nameID, names, true);
      }
    }
    return State(nameID, names, false);
  }

  lemma EmptyText(lower: string -> string, vendors: seq<string>)
    ensures Parse(lower, vendors, "") == START
  {
    assert Split("", '\n') == [""];
    RunCons(lower, vendors, START, "", []);
    assert [""] + [] == [""];
  }

  lemma {:induction false} PanicIsFinal(lower: string -> string, vendors: seq<string>, st: State, lines: seq<string>)
    requires st.panicked
    ensures Run(lower, vendors, st, lines) == st
    decreases |lines|
  {
    if lines != [] { PanicIsFinal(lower, vendors, st, lines[1..]); }
  }

  lemma StaysPanicked(lower: string -> string, vendors: seq<string>, st: State, bs: string, i: nat)
    requires st.panicked
    ensures Remaining(lower, vendors, st, bs, i) == st
  {
    hide Run, Split;
    if i < |bs| { PanicIsFinal(lower, vendors, st, Split(bs[i..], '\n')); }
  }

  // ---------------------------------------------------------------- looking a name up

  /** PCIDeviceNames.GetName. */
  function GetName(names: Names, vendor: string, device: string, subvendor: string, subdevice: string): (s: string) {
    var id := NameID(vendor, device);
    if id in names then
      var d := names[id];
      var sub := NameID(subvendor, subdevice);
      if |d.subDevices| != 0 && subvendor != "" && subdevice != "" && sub in d.subDevices then d.subDevices[sub]
      else d.name
    else ""
  }
}
