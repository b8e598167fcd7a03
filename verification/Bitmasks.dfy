/** Bitmasks spread over machine words, and the range strings that spell the positions of their set bits. */
module Bitmasks {
  import opened Options
  import opened Integers
  import opened IntLists
  import opened RangeStrings
  import opened RangeNormalForm

  predicate Bit(mask: nat, j: nat) {
    (mask / Pow2(j)) % 2 == 1
  }

  /** The positions of the set bits, counted from an offset.  A signed mask below zero has none. */
  function BitList(mask: int, offset: int): (xs: seq<int>)
    decreases if mask > 0 then mask else 0
  {
    if mask <= 0 then []
    else (if mask % 2 == 1 then [offset] else []) + BitList(mask / 2, offset + 1)
  }

  lemma {:induction false} BitListMember(mask: int, offset: int, x: int)
    ensures x in BitList(mask, offset) <==> mask > 0 && x >= offset && Bit(mask, x - offset)
    decreases if mask > 0 then mask else 0
  {
    if mask > 0 {
      BitListMember(mask / 2, offset + 1, x);
      if x > offset { BitShift(mask, x - offset); }
      assert Pow2(0) == 1;
    }
  }

  lemma BitShift(mask: nat, j: nat)
    requires j > 0
    ensures Bit(mask, j) == Bit(mask / 2, j - 1)
    ensures mask / 2 == 0 ==> !Bit(mask, j)
  {
    hide Pow2;
    var p := Pow2(j - 1);
    assert Pow2(j) == 2 * p by { Double(j - 1); }
    DivTwice(mask, p);
    if mask / 2 == 0 { assert 0 / p == 0; }
  }

  lemma Double(j: nat)
    ensures Pow2(j + 1) == 2 * Pow2(j)
  {
  }

  lemma DivTwice(m: nat, p: nat)
    requires p > 0
    ensures m / (2 * p) == (m / 2) / p
  {
    var q := (m / 2) / p;
    var r := (m / 2) % p;
    assert m / 2 == q * p + r;
    assert m == 2 * (q * p) + 2 * r + m % 2;
    assert m == q * (2 * p) + (2 * r + m % 2);
    DivUnique(m, 2 * p, q, 2 * r + m % 2);
  }

  /** A value of any of Go's integer types. */
  type word = x: int | -TWO_63 <= x < TWO_64

  /** BitmaskToList. */
  method BitmaskToList(mask0: word, offset: int) returns (out: seq<int>)
    ensures out == BitList(mask0, offset)
  {
    out := [];
    var mask: int := mask0;
    var i := 0;
    while mask > 0
      invariant out + BitList(mask, offset + i) == BitList(mask0, offset)
      decreases if mask > 0 then mask else 0
    {
      if mask % 2 == 1 { out := out + [offset + i]; }
      mask := mask / 2;
      i := i + 1;
    }
  }

  function MaskList(masks: seq<word>, width: nat, offset: nat): (xs: seq<int>) {
    if masks == [] then [] else BitList(masks[0], offset) + MaskList(masks[1..], width, offset + width)
  }

  /** x is the position of a set bit: bit j of word i, at i * width + j. */
  ghost predicate IsSet(masks: seq<word>, width: nat, x: int) {
    exists i: nat, j: nat :: i < |masks| && SetAt(masks[i], j) && x == i * width + j
  }

  predicate SetAt(mask: word, j: nat) {
    mask > 0 && Bit(mask, j)
  }

  lemma {:induction false} MaskMember(masks: seq<word>, width: nat, offset: nat, x: int)
    ensures x in MaskList(masks, width, offset) <==> IsSet(masks, width, x - offset)
    decreases |masks|
  {
    hide BitList, Bit;
    if masks != [] {
      var tail := masks[1..];
      BitListMember(masks[0], offset, x);
      MaskMember(tail, width, offset + width, x);
      if x in BitList(masks[0], offset) {
        var j: nat := x - offset;
        assert SetAt(masks[0], j) && x - offset == 0 * width + j;
      }
      if IsSet(tail, width, x - offset - width) {
        var i: nat, j: nat :| i < |tail| && SetAt(tail[i], j) && x - offset - width == i * width + j;
        assert masks[i + 1] == tail[i];
        assert x - offset == (i + 1) * width + j;
      }
      if IsSet(masks, width, x - offset) {
        var i: nat, j: nat :| i < |masks| && SetAt(masks[i], j) && x - offset == i * width + j;
        if i > 0 {
          assert tail[i - 1] == masks[i];
          assert x - offset - width == (i - 1) * width + j;
        }
      }
    }
  }

  lemma {:induction false} BitListRange(mask: int, offset: int, top: nat)
    requires mask < Pow2(top)
    ensures forall i :: 0 <= i < |BitList(mask, offset)| ==> offset <= BitList(mask, offset)[i] < offset + top
    ensures Ascending(BitList(mask, offset))
    decreases if mask > 0 then mask else 0
  {
    if mask > 0 && top > 0 { BitListRange(mask / 2, offset + 1, top - 1); }
  }

  lemma {:induction false} MaskListRange(masks: seq<word>, width: nat, offset: nat, top: nat)
    requires forall i :: 0 <= i < |masks| ==> masks[i] < Pow2(top)
    ensures forall k :: 0 <= k < |MaskList(masks, width, offset)| ==>
              offset <= MaskList(masks, width, offset)[k] < offset + |masks| * width + top
    ensures top <= width ==> Ascending(MaskList(masks, width, offset))
    decreases |masks|
  {
    hide BitList, Pow2;
    if masks != [] {
      BitListRange(masks[0], offset, top);
      MaskListRange(masks[1..], width, offset + width, top);
      assert |masks| * width == (|masks| - 1) * width + width;
    }
  }

  lemma WordsFit(masks: seq<word>)
    ensures forall i :: 0 <= i < |masks| ==> masks[i] < Pow2(64)
  {
    Pow2Constants();
  }

  lemma MaskListInt64(masks: seq<word>, width: nat)
    requires |masks| * width + 64 < TWO_63
    ensures AllInt64(MaskList(masks, width, 0))
  {
    hide MaskList, Pow2;
    WordsFit(masks);
    MaskListRange(masks, width, 0, 64);
  }

  /** BitmaskToStr, with bitsSize as a parameter. */
  method BitmaskToStr(masks: seq<word>, bitsSize: nat) returns (s: string)
    requires |masks| * bitsSize + 64 < TWO_63
    ensures AllInt64(MaskList(masks, bitsSize, 0))
    ensures s == Print(MaskList(masks, bitsSize, 0))
  {
    hide BitList, Print;
    MaskListInt64(masks, bitsSize);
    var parts: seq<int> := [];
    var offset := 0;
    assert masks[0..] == masks;
    for i := 0 to |masks|
      invariant offset == i * bitsSize
      invariant parts + MaskList(masks[i..], bitsSize, offset) == MaskList(masks, bitsSize, 0)
    {
      assert masks[i..][1..] == masks[i + 1..];
      var more := BitmaskToList(masks[i], offset);
      parts := parts + more;
      offset := offset + bitsSize;
    }
    assert parts == MaskList(masks, bitsSize, 0);
    s := PrintList(parts);
  }

  lemma MaskListParses(masks: seq<word>, width: nat)
    requires |masks| * width + 64 < TWO_63
    ensures AllInt64(MaskList(masks, width, 0))
    ensures var xs := MaskList(masks, width, 0); Parse(Print(xs)) == Some(Listed(Elements(xs)))
  {
    hide Print, Parse, Listed, MaskList, Pow2;
    MaskListInt64(masks, width);
    WordsFit(masks);
    MaskListRange(masks, width, 0, 64);
    PrintParses(MaskList(masks, width, 0));
  }

  /** Parsing what BitmaskToStr prints returns, and gives exactly the positions of the set bits. */
  lemma BitmaskDenotes(masks: seq<word>, width: nat, x: int)
    requires |masks| * width + 64 < TWO_63
    ensures AllInt64(MaskList(masks, width, 0))
    ensures var parsed := Parse(Print(MaskList(masks, width, 0)));
            parsed.Some? && (x in parsed.value <==> IsSet(masks, width, x))
  {
    hide Print, Parse, Listed, MaskList, IsSet;
    MaskListParses(masks, width);
    MaskMember(masks, width, 0, x);
    var xs := MaskList(masks, width, 0);
    assert x in Elements(Listed(Elements(xs))) <==> x in Elements(xs);
  }

  /** When every mask fits its word the string is its own normal form: runs are merged across words. */
  lemma BitmaskNormal(masks: seq<word>, width: nat)
    requires |masks| * width + 64 < TWO_63
    requires forall i :: 0 <= i < |masks| ==> masks[i] < Pow2(width)
    ensures AllInt64(MaskList(masks, width, 0))
    ensures var s := Print(MaskList(masks, width, 0)); Normalise(s) == Some(s)
  {
    hide Print, Denote, MaskList, Pow2, Listed, Terminates;
    MaskListParses(masks, width);
    MaskListRange(masks, width, 0, width);
    var xs: seq<int64> := MaskList(masks, width, 0);
    PrintDenotes(xs);
    AscendingListed(xs);
    DenoteNonnegative(Print(xs));
  }

  /** The masks 0b1011 and 0b0101 over words of four bits: 3 and 4 lie in different words but in one range. */
  lemma AcrossWords()
    ensures MaskList([11, 5], 4, 0) == [0, 1, 3, 4, 6]
    ensures Runs([0, 1, 3, 4, 6]) == [(0, 1), (3, 4), (6, 6)]
  {
    hide MaskList, Runs;
    AcrossMasks();
    AcrossRuns();
  }

  lemma AcrossMasks()
    ensures MaskList([11, 5], 4, 0) == [0, 1, 3, 4, 6]
  {
    assert BitList(11, 0) == [0] + ([1] + ([] + ([3] + [])));
    assert BitList(5, 4) == [4] + ([] + ([6] + []));
    var masks: seq<word> := [11, 5];
    assert masks[1..] == [5] && masks[1..][1..] == [];
  }

  lemma AcrossRuns()
    ensures Runs([0, 1, 3, 4, 6]) == [(0, 1), (3, 4), (6, 6)]
  {
    hide RunsFrom;
    var xs: seq<int64> := [0, 1, 3, 4, 6];
    RunsStep(0, 0, xs[1..]);
    RunsStep(0, 1, xs[1..][1..]);
    assert xs[1..][1..] == [3, 4, 6];
    var ys: seq<int64> := [4, 6];
    assert xs[1..][1..][1..] == ys;
    RunsStep(3, 3, ys);
    assert ys[1..] == [6];
    RunsStep(3, 4, [6]);
    assert [6 as int64][1..] == [];
    RunsStep(6, 6, []);
  }
}
