/** The words of a line, the vendors that are wanted and the name that is looked up, from the outside. */
module PciWords {
  import opened Options
  import opened Text
  import opened PciIds
  import opened PciDatabase

  predicate IsGap(g: string) { forall i :: 0 <= i < |g| ==> IsSpace(g[i]) }

  /** A text woven from gaps and words: gap, word, gap, word, and a last gap. */
  function Weave(gaps: seq<string>, ws: seq<string>): (s: string)
    requires |gaps| == |ws| + 1
    decreases |ws|
  {
    if ws == [] then gaps[0] else gaps[0] + (ws[0] + Weave(gaps[1..], ws[1..]))
  }

  /** Gaps are space, those between words not empty, and words have none. */
  predicate IsWoven(gaps: seq<string>, ws: seq<string>) {
    && |gaps| == |ws| + 1
    && (forall i :: 0 <= i < |gaps| ==> IsGap(gaps[i]) && (0 < i < |ws| ==> gaps[i] != ""))
    && (forall i :: 0 <= i < |ws| ==> IsWord(ws[i]))
  }

  /** The words of a woven text are the words it was woven from. */
  lemma {:induction false} FieldsOf(gaps: seq<string>, ws: seq<string>)
    requires IsWoven(gaps, ws)
    ensures Fields(Weave(gaps, ws)) == ws
    decreases |ws|
  {
    hide Fields, IsSpace;
    if ws == [] {
      FieldsSpaces(gaps[0], "");
      assert gaps[0] + "" == gaps[0];
      NoFields();
    } else {
      var more := Weave(gaps[1..], ws[1..]);
      FieldsSpaces(gaps[0], ws[0] + more);
      WovenTail(gaps, ws);
      FieldsOf(gaps[1..], ws[1..]);
      if more != "" { GapFirst(gaps[1..], ws[1..]); }
      FieldsWord(ws[0], more);
      assert ws == [ws[0]] + ws[1..];
    }
  }

  lemma NoFields()
    ensures Fields("") == []
  {
  }

  lemma WovenTail(gaps: seq<string>, ws: seq<string>)
    requires IsWoven(gaps, ws) && ws != []
    ensures IsWoven(gaps[1..], ws[1..]) && (|ws| > 1 ==> gaps[1] != "")
  {
    hide IsGap, IsWord;
    var g, w := gaps[1..], ws[1..];
    forall i | 0 <= i < |g| ensures IsGap(g[i]) && (0 < i < |w| ==> g[i] != "") {
      assert g[i] == gaps[i + 1];
    }
  }

  lemma GapFirst(gaps: seq<string>, ws: seq<string>)
    requires |gaps| == |ws| + 1 && IsGap(gaps[0]) && (ws != [] ==> gaps[0] != "") && Weave(gaps, ws) != ""
    ensures IsSpace(Weave(gaps, ws)[0])
  {
    hide IsSpace;
    assert gaps[0] != "";
    assert Weave(gaps, ws)[0] == gaps[0][0];
  }

  /** Every text is woven from its words. */
  lemma {:induction false} TextIsWoven(s: string) returns (gaps: seq<string>)
    ensures IsWoven(gaps, Fields(s)) && s == Weave(gaps, Fields(s))
    decreases |s|
  {
    hide IsSpace;
    if s == "" {
      gaps := [""];
    } else {
      var g := TextIsWoven(s[1..]);
      var ws := Fields(s[1..]);
      assert s == [s[0]] + s[1..];
      if IsSpace(s[0]) {
        gaps := g[0 := [s[0]] + g[0]];
        GrowGap(s[0], g, ws);
      } else if |s| == 1 || IsSpace(s[1]) {
        gaps := [""] + g;
        NewWord([s[0]], g, ws, s[1..]);
        assert "" + ([s[0]] + s[1..]) == s;
      } else {
        gaps := g;
        GrowWord(s[0], g, ws, s[1..]);
      }
    }
  }

  lemma GrowGap(c: char, gaps: seq<string>, ws: seq<string>)
    requires IsWoven(gaps, ws) && IsSpace(c)
    ensures var g := gaps[0 := [c] + gaps[0]];
            IsWoven(g, ws) && Weave(g, ws) == [c] + Weave(gaps, ws)
  {
    hide IsSpace, IsWord;
    var g := gaps[0 := [c] + gaps[0]];
    assert IsGap(g[0]) by { assert forall i :: 0 < i < |g[0]| ==> g[0][i] == gaps[0][i - 1]; }
    if ws != [] {
      assert g[1..] == gaps[1..];
      var rest := ws[0] + Weave(gaps[1..], ws[1..]);
      assert [c] + gaps[0] + rest == [c] + (gaps[0] + rest);
    }
  }

  lemma NewWord(w: string, gaps: seq<string>, ws: seq<string>, s: string)
    requires IsWoven(gaps, ws) && IsWord(w) && s == Weave(gaps, ws) && (s == "" || IsSpace(s[0]))
    ensures IsWoven([""] + gaps, [w] + ws) && Weave([""] + gaps, [w] + ws) == "" + (w + s)
  {
    hide IsSpace;
    var g, v := [""] + gaps, [w] + ws;
    assert g[1..] == gaps && v[1..] == ws;
    if ws != [] { WordNotFirst(gaps, ws); }
    forall i | 0 <= i < |g| ensures IsGap(g[i]) && (0 < i < |v| ==> g[i] != "") {
      if i > 0 {
        assert g[i] == gaps[i - 1];
        assert v[1..] == ws;
      }
    }
    forall i | 0 <= i < |v| ensures IsWord(v[i]) { if i > 0 { assert v[i] == ws[i - 1]; } }
  }

  /** A text that begins with space and has words has a gap in front of them. */
  lemma WordNotFirst(gaps: seq<string>, ws: seq<string>)
    requires IsWoven(gaps, ws) && ws != []
    ensures Weave(gaps, ws) != "" && (IsSpace(Weave(gaps, ws)[0]) ==> gaps[0] != "")
  {
    hide IsSpace;
    assert IsWord(ws[0]);
    if gaps[0] == "" { assert Weave(gaps, ws)[0] == ws[0][0]; }
  }

  lemma GrowWord(c: char, gaps: seq<string>, ws: seq<string>, s: string)
    requires IsWoven(gaps, ws) && s == Weave(gaps, ws) && s != "" && !IsSpace(s[0]) && !IsSpace(c)
    ensures ws != [] && gaps[0] == ""
    ensures var v := [[c] + ws[0]] + ws[1..];
            IsWoven(gaps, v) && Weave(gaps, v) == [c] + s
  {
    hide IsSpace, Weave;
    NoGapFirst(gaps, ws);
    WeaveGrows(c, gaps, ws);
    var v := [[c] + ws[0]] + ws[1..];
    assert IsWord(ws[0]);
    assert IsWord(v[0]) by { assert forall i :: 0 < i < |v[0]| ==> v[0][i] == ws[0][i - 1]; }
    forall i | 0 <= i < |v| ensures IsWord(v[i]) { if i > 0 { assert v[i] == ws[i]; } }
  }

  lemma NoGapFirst(gaps: seq<string>, ws: seq<string>)
    requires |gaps| == |ws| + 1 && IsGap(gaps[0])
    ensures Weave(gaps, ws) == "" || IsSpace(Weave(gaps, ws)[0]) || (gaps[0] == "" && ws != [])
  {
    hide IsSpace;
  }

  lemma WeaveGrows(c: char, gaps: seq<string>, ws: seq<string>)
    requires |gaps| == |ws| + 1 && ws != [] && gaps[0] == ""
    ensures Weave(gaps, [[c] + ws[0]] + ws[1..]) == [c] + Weave(gaps, ws)
  {
    var v := [[c] + ws[0]] + ws[1..];
    assert v[1..] == ws[1..];
    var rest := Weave(gaps[1..], ws[1..]);
    assert "" + ([c] + ws[0] + rest) == [c] + ("" + (ws[0] + rest));
  }

  // ---------------------------------------------------------------- vendors and names

  /** With no vendors given all are wanted, and otherwise exactly those given, wherever they stand in the list. */
  lemma WantedExactly(vendors: seq<string>, v: string)
    ensures Wanted(vendors, v) <==> |vendors| == 0 || exists i :: 0 <= i < |vendors| && vendors[i] == v
  {
  }

  /** The name of the subsystem if both its ids are given and listed, else of the device if it is, else nothing. */
  lemma GetNameExactly(names: Names, vendor: string, device: string, subvendor: string, subdevice: string)
    ensures var r := GetName(names, vendor, device, subvendor, subdevice);
            var id, sub := NameID(vendor, device), NameID(subvendor, subdevice);
            && (id !in names ==> r == "")
            && (id in names && subvendor != "" && subdevice != "" && sub in names[id].subDevices ==>
                  r == names[id].subDevices[sub])
            && (id in names && (subvendor == "" || subdevice == "" || sub !in names[id].subDevices) ==>
                  r == names[id].name)
  {
    var id := NameID(vendor, device);
    if id in names && NameID(subvendor, subdevice) in names[id].subDevices {
      assert |names[id].subDevices| != 0;
    }
  }
}
