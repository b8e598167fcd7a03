/** The wire format in plain numbers: what skipping and decoding do with a tag of a given value, whatever follows
    it. */
module WireFacts {
  import opened Options
  import opened Integers
  import opened Varint
  import opened WireGrammar
  import opened MessageLoop

  /** Bytes among which a varint never ends. */
  predicate Endless(s: seq<byte>) {
    forall i :: 0 <= i < |s| && i < 10 ==> s[i] >= 128
  }

  lemma {:induction false} SkipTag(tag: seq<byte>, rest: seq<byte>)
    requires IsVarint(tag) && |tag + rest| < TWO_63
    ensures ReadVarint(tag + rest) == VarintOk(VarintValue(tag), |tag|) && (tag + rest)[|tag|..] == rest
    ensures (tag + rest)[0..] == tag + rest
  {
    hide ReadVarint, VarintValue, IsVarint;
    ReadVarintOf(tag, rest);
  }

  /** Skipping what begins with a tag, by the last three bits of its value: a varint is skipped to its end, 64 and 32
      bits are 8 and 4 bytes, an end of group has no beginning, and 6 and 7 mean nothing. */
  lemma SkipByTag(tag: seq<byte>, rest: seq<byte>)
    requires IsVarint(tag) && |tag + rest| < TWO_63
    ensures var w, r := VarintValue(tag) % 8, Skip(tag + rest);
            && (w == 0 && Endless(rest) ==> r == SkipFail(if |rest| < 10 then UnexpectedEOF else IntOverflow))
            && (w == 1 ==> r == SkipOk(|tag| + 8))
            && (w == 2 && Endless(rest) ==> r == SkipFail(if |rest| < 10 then UnexpectedEOF else IntOverflow))
            && (w == 3 && rest == [] ==> r == SkipFail(UnexpectedEOF))
            && (w == 4 ==> r == SkipFail(UnexpectedEndOfGroup))
            && (w == 5 ==> r == SkipOk(|tag| + 4))
            && (w == 6 || w == 7 ==> r == SkipFail(IllegalWireType))
  {
    hide ReadVarint, VarintValue, SkipFrom, Groups;
    var s := tag + rest;
    SkipTag(tag, rest);
    SkipUnfold(s, 0, 0);
    if Endless(rest) { ReadVarintCut(rest); }
    SkipAtEnd(s, |s|, 1);
  }

  /** Skipping a varint or a delimited payload: past it, unless the length is negative as an int or the end wraps. */
  lemma SkipNumber(tag: seq<byte>, number: seq<byte>, rest: seq<byte>)
    requires IsVarint(tag) && IsVarint(number) && |tag + number + rest| < TWO_63
    ensures var w, r, v := VarintValue(tag) % 8, Skip(tag + number + rest), VarintValue(number);
            && (w == 0 ==> r == SkipOk(|tag| + |number|))
            && (w == 2 ==> r == if |tag| + |number| + v < 0x8000_0000_0000_0000 then SkipOk(|tag| + |number| + v)
                                else SkipFail(InvalidLength))
  {
    hide ReadVarint, VarintValue, SkipFrom, Groups, IsVarint;
    var s := tag + number + rest;
    assert s == tag + (number + rest);
    SkipTag(tag, number + rest);
    ReadVarintOf(number, rest);
    SkipUnfold(s, 0, 0);
  }

  /** Nothing to skip, or a tag that does not end. */
  lemma SkipCut(s: seq<byte>)
    requires |s| < TWO_63 && Endless(s)
    ensures Skip(s) == SkipFail(if |s| < 10 then UnexpectedEOF else IntOverflow)
  {
    hide VarintValue, ReadVarint;
    ReadVarintCut(s);
    assert s[0..] == s;
  }

  // ---------------------------------------------------------------- decoders

  /** The number on a tag is bits 3 to 34 of its value, read as a signed 32-bit number. */
  lemma FieldNumberIs(t: uint64)
    ensures var n := t / 8 % 0x1_0000_0000;
            FieldNumber(t) == if n < 0x8000_0000 then n else n - 0x1_0000_0000
  {
  }

  /** What any decoder answers to a tag it cannot go on from, whatever follows. */
  lemma DecodeBadTag<M>(sc: Schema<M>, m: M, tag: seq<byte>, rest: seq<byte>)
    requires IsVarint(tag) && |tag + rest| < TWO_63
    ensures var t := VarintValue(tag);
            var n := t / 8 % 0x1_0000_0000;
            && (t % 8 == 4 ==> Decode(sc, m, tag + rest) == Rejected(EndGroupForNonGroup))
            && (t % 8 != 4 && (n == 0 || n >= 0x8000_0000) ==> Decode(sc, m, tag + rest) == Rejected(IllegalTag))
  {
    hide ReadVarint, VarintValue, IsVarint, FieldNumber, ReadChunk, ReadNumber, ReadUnknown;
    SkipTag(tag, rest);
    FieldNumberIs(VarintValue(tag));
  }

  /** A known field with the wrong kind of payload, or with a length that does not fit what follows. */
  lemma DecodeBadKnown<M>(sc: Schema<M>, m: M, tag: seq<byte>, rest: seq<byte>, n: nat)
    requires IsVarint(tag) && |tag + rest| < TWO_63
    requires VarintValue(tag) / 8 % 0x1_0000_0000 == n && 0 < n < 0x8000_0000 && VarintValue(tag) % 8 != 4
    ensures sc.want(n) == WantBytes && VarintValue(tag) % 8 != 2 ==>
              Decode(sc, m, tag + rest) == Rejected(WrongWireType)
    ensures sc.want(n) == WantVarint && VarintValue(tag) % 8 != 0 ==>
              Decode(sc, m, tag + rest) == Rejected(WrongWireType)
    ensures sc.want(n) == WantBytes && VarintValue(tag) % 8 == 2 && Endless(rest) ==>
              Decode(sc, m, tag + rest) == Rejected(if |rest| < 10 then UnexpectedEOF else IntOverflow)
  {
    hide ReadVarint, VarintValue, IsVarint, FieldNumber, ReadUnknown;
    SkipTag(tag, rest);
    FieldNumberIs(VarintValue(tag));
    if Endless(rest) { ReadVarintCut(rest); }
  }

  lemma DecodeBadLength<M>(sc: Schema<M>, m: M, tag: seq<byte>, length: seq<byte>, rest: seq<byte>, n: nat)
    requires IsVarint(tag) && IsVarint(length) && |tag + length + rest| < TWO_63
    requires VarintValue(tag) / 8 % 0x1_0000_0000 == n && 0 < n < 0x8000_0000 && VarintValue(tag) % 8 == 2
    requires sc.want(n) == WantBytes && VarintValue(length) > |rest|
    ensures Decode(sc, m, tag + length + rest) ==
            Rejected(if |tag| + |length| + VarintValue(length) < 0x8000_0000_0000_0000 then UnexpectedEOF
                     else InvalidLength)
  {
    hide ReadVarint, VarintValue, IsVarint, FieldNumber, ReadUnknown;
    assert tag + length + rest == tag + (length + rest);
    SkipTag(tag, length + rest);
    FieldNumberIs(VarintValue(tag));
    ReadVarintOf(length, rest);
  }

  /** A field nobody knows is rejected with whatever skipping it reports, and as the end of the input if it would end
      beyond that. */
  lemma DecodeBadUnknown<M>(sc: Schema<M>, m: M, tag: seq<byte>, rest: seq<byte>, n: nat)
    requires IsVarint(tag) && |tag + rest| < TWO_63
    requires VarintValue(tag) / 8 % 0x1_0000_0000 == n && 0 < n < 0x8000_0000 && VarintValue(tag) % 8 != 4
    requires sc.want(n) == Unknown
    ensures Skip(tag + rest).SkipFail? ==> Decode(sc, m, tag + rest) == Rejected(Skip(tag + rest).err)
    ensures Skip(tag + rest).SkipOk? && Skip(tag + rest).n > |tag + rest| ==>
              Decode(sc, m, tag + rest) == Rejected(UnexpectedEOF)
  {
    hide ReadVarint, VarintValue, IsVarint, FieldNumber, ReadChunk, ReadNumber, Skip;
    SkipTag(tag, rest);
    FieldNumberIs(VarintValue(tag));
  }

  /** And to a tag that does not end. */
  lemma DecodeCut<M>(sc: Schema<M>, m: M, s: bytes)
    requires s != [] && Endless(s)
    ensures Decode(sc, m, s) == Rejected(if |s| < 10 then UnexpectedEOF else IntOverflow)
  {
    hide ReadVarint, VarintValue, ReadChunk, ReadNumber, ReadUnknown, FieldNumber;
    ReadVarintCut(s);
  }

  /** A single record, decoded and as it leaves the message. */
  lemma DecodeOne<M>(sc: Schema<M>, m: M, r: Record)
    requires WellFormed(r) && |Bytes(r)| < TWO_63
    ensures Decode(sc, m, Bytes(r)) == Apply(sc, m, r)
    ensures Reached(sc, m, Bytes(r)) ==
            if Apply(sc, m, r).Decoded? then Apply(sc, m, r).m else sc.spill(m, RecordField(sc.want, r))
  {
    hide DecodeFrom, ReachedFrom, Bytes, WellFormed, ReadField, FieldNumber, VarintValue;
    assert Bytes(r) + [] == Bytes(r);
    DecodeRecord(sc, m, r, [], 0);
    DecodeEmpty(sc, Apply(sc, m, r));
    ReadRecord(sc.want, r, [], 0);
    RecordStart(r);
    NotEmpty(r);
    ReachedUnfold(sc, m, Bytes(r), 0);
    if Apply(sc, m, r).Decoded? {
      ReachedEmpty(sc, Apply(sc, m, r).m);
      assert Bytes(r)[|Bytes(r)|..] == [];
    }
  }

  lemma NotEmpty(r: Record)
    requires WellFormed(r)
    ensures Bytes(r) != []
  {
    hide VarintValue;
  }

  /** A number field that is cut off: nothing else has changed, and of the number what was read is known. */
  lemma DecodeCutNumber<M>(sc: Schema<M>, m: M, tag: seq<byte>, rest: seq<byte>, n: nat)
    requires IsVarint(tag) && |tag + rest| < TWO_63 && Endless(rest)
    requires VarintValue(tag) % 8 == 0 && VarintValue(tag) / 8 % 0x1_0000_0000 == n && 0 < n < 0x8000_0000
    requires sc.want(n) == WantVarint
    ensures var err := if |rest| < 10 then UnexpectedEOF else IntOverflow;
            var acc := VarintValue(if |rest| < 10 then rest else rest[..10]);
            && Decode(sc, m, tag + rest) == Rejected(err)
            && Reached(sc, m, tag + rest) == sc.spill(m, BadField(err, Some(Cut(n, acc))))
  {
    hide ReadVarint, VarintValue, IsVarint, FieldNumber, ReadChunk, ReadUnknown;
    SkipTag(tag, rest);
    FieldNumberIs(VarintValue(tag));
    ReadVarintCut(rest);
  }
}
