/** Which field of which message a number on the wire stands for, and the bytes each message is written as, in
    literal numbers. */
module MessageFields {
  import opened Options
  import opened Integers
  import opened Varint
  import opened WireGrammar
  import opened MessageLoop
  import opened Codecs
  import opened Messages
  import opened WireFacts

  /** The number on the tag of a record, as an unsigned 32-bit number. */
  function Number(r: Record): (n: nat) { VarintValue(r.tag) / 8 % 0x1_0000_0000 }

  predicate OneRecord(r: Record) { WellFormed(r) && |Bytes(r)| < TWO_63 }

  lemma ValueFits(r: Record)
    requires OneRecord(r) && r.DelimitedRecord?
    ensures |r.value| < TWO_63
  {
  }

  // ---------------------------------------------------------------- one record at a time

  /** Condition: 1 Type, 2 Status, 3 LastTransitionTime, 4 ObservedGeneration, 5 Reason, 6 Message. */
  lemma ConditionField<T>(time: SubCodec<T>, m: Condition<T>, r: Record)
    requires OneRecord(r)
    ensures var n, d := Number(r), Decode(ConditionSchema(time), m, Bytes(r));
            && (n == 0 || n >= 0x8000_0000 ==> d == Rejected(IllegalTag))
            && (n in {1, 2, 3, 5, 6} && !r.DelimitedRecord? ==> d == Rejected(WrongWireType))
            && (n == 4 && !r.VarintRecord? ==> d == Rejected(WrongWireType))
            && (n == 1 && r.DelimitedRecord? ==> d == Decoded(m.(typ := r.value)))
            && (n == 2 && r.DelimitedRecord? ==> d == Decoded(m.(status := r.value)))
            && (n == 3 && r.DelimitedRecord? ==>
                  var t := time.unmarshal(m.lastTransitionTime, r.value);
                  (t.Decoded? ==> d == Decoded(m.(lastTransitionTime := t.m))) &&
                  (t.Rejected? ==> d == Rejected(t.err)))
            && (n == 4 && r.VarintRecord? ==>
                  var v := VarintValue(r.value);
                  var g := if v < 0x8000_0000_0000_0000 then v else v - 0x1_0000_0000_0000_0000;
                  d == Decoded(m.(observedGeneration := g)))
            && (n == 5 && r.DelimitedRecord? ==> d == Decoded(m.(reason := r.value)))
            && (n == 6 && r.DelimitedRecord? ==> d == Decoded(m.(message := r.value)))
            && (6 < n < 0x8000_0000 ==> d == Decoded(m))
  {
    hide Decode, VarintValue, WellFormed, Bytes, FieldNumber;
    DecodeOne(ConditionSchema(time), m, r);
    FieldNumberIs(VarintValue(r.tag));
    if r.DelimitedRecord? { ValueFits(r); }
  }

  /** SettingSpec: 1 Value. */
  lemma SpecField(m: SettingSpec, r: Record)
    requires OneRecord(r)
    ensures var n, d := Number(r), Decode(SpecSchema(), m, Bytes(r));
            && (n == 0 || n >= 0x8000_0000 ==> d == Rejected(IllegalTag))
            && (n == 1 && !r.DelimitedRecord? ==> d == Rejected(WrongWireType))
            && (n == 1 && r.DelimitedRecord? ==> d == Decoded(SettingSpec(Some(r.value))))
            && (1 < n < 0x8000_0000 ==> d == Decoded(m))
  {
    hide Decode, VarintValue, WellFormed, Bytes, FieldNumber;
    DecodeOne(SpecSchema(), m, r);
    FieldNumberIs(VarintValue(r.tag));
    if r.DelimitedRecord? { ValueFits(r); }
  }

  /** SettingStatus: 1 Description, 2 Editable, 3 Sensitive, 4 Value. */
  lemma SettingStatusField(m: SettingStatus, r: Record)
    requires OneRecord(r)
    ensures var n, d := Number(r), Decode(SettingStatusSchema(), m, Bytes(r));
            && (n == 0 || n >= 0x8000_0000 ==> d == Rejected(IllegalTag))
            && ((n == 1 || n == 4) && !r.DelimitedRecord? ==> d == Rejected(WrongWireType))
            && ((n == 2 || n == 3) && !r.VarintRecord? ==> d == Rejected(WrongWireType))
            && (n == 1 && r.DelimitedRecord? ==> d == Decoded(m.(description := r.value)))
            && (n == 2 && r.VarintRecord? ==> d == Decoded(m.(editable := VarintValue(r.value) != 0)))
            && (n == 3 && r.VarintRecord? ==> d == Decoded(m.(sensitive := VarintValue(r.value) != 0)))
            && (n == 4 && r.DelimitedRecord? ==> d == Decoded(m.(value := r.value)))
            && (4 < n < 0x8000_0000 ==> d == Decoded(m))
  {
    hide Decode, VarintValue, WellFormed, Bytes, FieldNumber;
    DecodeOne(SettingStatusSchema(), m, r);
    FieldNumberIs(VarintValue(r.tag));
    if r.DelimitedRecord? { ValueFits(r); }
  }

  /** Setting: 1 ObjectMeta, 2 Spec, 3 Status. */
  lemma SettingField<O>(meta: SubCodec<O>, m: Setting<O>, r: Record)
    requires OneRecord(r)
    ensures var n, d := Number(r), Decode(SettingSchema(meta), m, Bytes(r));
            && (n == 0 || n >= 0x8000_0000 ==> d == Rejected(IllegalTag))
            && (1 <= n <= 3 && !r.DelimitedRecord? ==> d == Rejected(WrongWireType))
            && (n == 1 && r.DelimitedRecord? ==>
                  var x := meta.unmarshal(m.objectMeta, r.value);
                  (x.Decoded? ==> d == Decoded(m.(objectMeta := x.m))) && (x.Rejected? ==> d == Rejected(x.err)))
            && (n == 2 && r.DelimitedRecord? ==>
                  var x := Decode(SpecSchema(), m.spec, r.value);
                  (x.Decoded? ==> d == Decoded(m.(spec := x.m))) && (x.Rejected? ==> d == Rejected(x.err)))
            && (n == 3 && r.DelimitedRecord? ==>
                  var x := Decode(SettingStatusSchema(), m.status, r.value);
                  (x.Decoded? ==> d == Decoded(m.(status := x.m))) && (x.Rejected? ==> d == Rejected(x.err)))
            && (3 < n < 0x8000_0000 ==> d == Decoded(m))
  {
    hide Decode, VarintValue, WellFormed, Bytes, FieldNumber;
    DecodeOne(SettingSchema(meta), m, r);
    FieldNumberIs(VarintValue(r.tag));
    if r.DelimitedRecord? { ValueFits(r); }
  }

  /** SettingList: 1 ListMeta, 2 Items.  An item starts out empty. */
  lemma ListField<L, O>(list: SubCodec<L>, meta: SubCodec<O>, m: SettingList<L, O>, r: Record)
    requires OneRecord(r)
    ensures var n, d := Number(r), Decode(ListSchema(list, meta), m, Bytes(r));
            && (n == 0 || n >= 0x8000_0000 ==> d == Rejected(IllegalTag))
            && (1 <= n <= 2 && !r.DelimitedRecord? ==> d == Rejected(WrongWireType))
            && (n == 1 && r.DelimitedRecord? ==>
                  var x := list.unmarshal(m.listMeta, r.value);
                  (x.Decoded? ==> d == Decoded(m.(listMeta := x.m))) && (x.Rejected? ==> d == Rejected(x.err)))
            && (n == 2 && r.DelimitedRecord? ==>
                  var none := Setting(meta.zero, SettingSpec(None), SettingStatus([], false, false, []));
                  var x := Decode(SettingSchema(meta), none, r.value);
                  (x.Decoded? ==> d == Decoded(m.(items := m.items + [x.m]))) && (x.Rejected? ==> d == Rejected(x.err)))
            && (2 < n < 0x8000_0000 ==> d == Decoded(m))
  {
    hide Decode, VarintValue, WellFormed, Bytes, FieldNumber;
    DecodeOne(ListSchema(list, meta), m, r);
    FieldNumberIs(VarintValue(r.tag));
    if r.DelimitedRecord? { ValueFits(r); }
  }

  /** Status: 1 Phase, 2 PhaseMessage, 3 Conditions.  A condition starts out empty. */
  lemma StatusField<T>(time: SubCodec<T>, m: Status<T>, r: Record)
    requires OneRecord(r)
    ensures var n, d := Number(r), Decode(StatusSchema(time), m, Bytes(r));
            && (n == 0 || n >= 0x8000_0000 ==> d == Rejected(IllegalTag))
            && (1 <= n <= 3 && !r.DelimitedRecord? ==> d == Rejected(WrongWireType))
            && (n == 1 && r.DelimitedRecord? ==> d == Decoded(m.(phase := r.value)))
            && (n == 2 && r.DelimitedRecord? ==> d == Decoded(m.(phaseMessage := r.value)))
            && (n == 3 && r.DelimitedRecord? ==>
                  var none := Condition([], [], time.zero, 0, [], []);
                  var x := Decode(ConditionSchema(time), none, r.value);
                  (x.Decoded? ==> d == Decoded(m.(conditions := m.conditions + [x.m]))) &&
                  (x.Rejected? ==> d == Rejected(x.err)))
            && (3 < n < 0x8000_0000 ==> d == Decoded(m))
  {
    hide Decode, VarintValue, WellFormed, Bytes, FieldNumber;
    DecodeOne(StatusSchema(time), m, r);
    FieldNumberIs(VarintValue(r.tag));
    if r.DelimitedRecord? { ValueFits(r); }
  }

  // ---------------------------------------------------------------- the same on literal bytes

  /** A delimited field as bytes: tag 8n + 2, the length, the payload. */
  lemma DelimitedBytes(n: nat, b: bytes) returns (r: Record)
    requires 0 < n < 0x2000_0000
    ensures WellFormed(r) && r.DelimitedRecord? && r.value == b && Number(r) == n
    ensures Bytes(r) == EncodeVarint(8 * n + 2) + EncodeVarint(|b|) + b
  {
    hide EncodeVarint, VarintValue, IsVarint;
    EncodeIsVarint(8 * n + 2);
    EncodeIsVarint(|b|);
    r := DelimitedRecord(EncodeVarint(8 * n + 2), EncodeVarint(|b|), b);
  }

  /** A number field as bytes: tag 8n, the number. */
  lemma NumberBytes(n: nat, v: uint64) returns (r: Record)
    requires 0 < n < 0x2000_0000
    ensures WellFormed(r) && r.VarintRecord? && VarintValue(r.value) == v && Number(r) == n
    ensures Bytes(r) == EncodeVarint(8 * n) + EncodeVarint(v)
  {
    hide EncodeVarint, VarintValue, IsVarint;
    EncodeIsVarint(8 * n);
    EncodeIsVarint(v);
    r := VarintRecord(EncodeVarint(8 * n), EncodeVarint(v));
  }

  /** Every other number is skipped by all six, whatever kind of record it is on. */
  lemma OthersSkipped<L, O, T>(
    list: SubCodec<L>, meta: SubCodec<O>, time: SubCodec<T>, c: Condition<T>, p: SettingSpec, u: SettingStatus,
    g: Setting<O>, l: SettingList<L, O>, s: Status<T>, n: nat, w: nat, r: Record)
    requires 0 < n < 0x2000_0000 && OneRecord(r) && w < 8 && r.tag == EncodeVarint(8 * n + w)
    ensures n > 6 ==> Decode(ConditionSchema(time), c, Bytes(r)) == Decoded(c)
    ensures n > 1 ==> Decode(SpecSchema(), p, Bytes(r)) == Decoded(p)
    ensures n > 4 ==> Decode(SettingStatusSchema(), u, Bytes(r)) == Decoded(u)
    ensures n > 3 ==> Decode(SettingSchema(meta), g, Bytes(r)) == Decoded(g)
    ensures n > 2 ==> Decode(ListSchema(list, meta), l, Bytes(r)) == Decoded(l)
    ensures n > 3 ==> Decode(StatusSchema(time), s, Bytes(r)) == Decoded(s)
  {
    hide Decode, EncodeVarint, VarintValue, WellFormed, Bytes;
    EncodeIsVarint(8 * n + w);
    assert Number(r) == n;
    ConditionField(time, c, r);
    SpecField(p, r);
    SettingStatusField(u, r);
    SettingField(meta, g, r);
    ListField(list, meta, l, r);
    StatusField(time, s, r);
  }

  /** Field 17 is not field 1, though the two agree in four bits. */
  lemma Field17<T>(time: SubCodec<T>, m: Condition<T>)
    ensures Decode(ConditionSchema(time), m, [0x8a, 0x01, 0x01, 0x78]) == Decoded(m)
    ensures Decode(ConditionSchema(time), m, [0x0a, 0x01, 0x78]) == Decoded(m.(typ := [0x78]))
  {
    hide Decode, ConditionSchema, EncodeVarint, Bytes, WellFormed;
    SmallVarints();
    var r := DelimitedBytes(17, [0x78]);
    assert EncodeVarint(138) + EncodeVarint(1) + [0x78] == [0x8a, 0x01, 0x01, 0x78];
    ConditionField(time, m, r);
    var q := DelimitedBytes(1, [0x78]);
    assert EncodeVarint(10) + EncodeVarint(1) + [0x78] == [0x0a, 0x01, 0x78];
    ConditionField(time, m, q);
  }

  lemma SmallVarints()
    ensures EncodeVarint(138) == [0x8a, 0x01] && EncodeVarint(1) == [0x01] && EncodeVarint(10) == [0x0a]
  {
    assert EncodeVarint(138) == [0x8a] + EncodeVarint(1);
  }

  // ---------------------------------------------------------------- what a failed record leaves

  lemma ReachedWhole<M>(sc: Schema<M>, m: M, b: bytes)
    requires Decode(sc, m, b).Decoded?
    ensures Reached(sc, m, b) == Decode(sc, m, b).m
  {
    hide DecodeFrom, ReachedFrom, ReadField;
    var k, m' := ReachedIsPrefix(sc, m, b, 0);
    assert b[..|b|] == b;
  }

  /** A rejected record of a Condition changes at most the time, and that only as its own codec left it. */
  lemma ConditionLeft<T>(time: SubCodec<T>, m: Condition<T>, r: Record)
    requires OneRecord(r) && Decode(ConditionSchema(time), m, Bytes(r)).Rejected?
    ensures Reached(ConditionSchema(time), m, Bytes(r)) ==
            if Number(r) == 3 && r.DelimitedRecord?
            then m.(lastTransitionTime := time.spill(m.lastTransitionTime, r.value)) else m
  {
    hide Decode, Reached, VarintValue, WellFormed, Bytes, FieldNumber;
    DecodeOne(ConditionSchema(time), m, r);
    FieldNumberIs(VarintValue(r.tag));
    if r.DelimitedRecord? { ValueFits(r); }
  }

  /** A generation that is cut off is left with the groups that were read. */
  lemma GenerationLeft<T>(time: SubCodec<T>, m: Condition<T>, rest: seq<byte>)
    requires Endless(rest) && |rest| < TWO_63 - 1
    ensures var v := VarintValue(if |rest| < 10 then rest else rest[..10]);
            var g := if v < 0x8000_0000_0000_0000 then v else v - 0x1_0000_0000_0000_0000;
            && Decode(ConditionSchema(time), m, [0x20] + rest) ==
               Rejected(if |rest| < 10 then UnexpectedEOF else IntOverflow)
            && Reached(ConditionSchema(time), m, [0x20] + rest) == m.(observedGeneration := g)
  {
    hide Decode, Reached, VarintValue, Groups;
    OneByteTag(0x20);
    DecodeCutNumber(ConditionSchema(time), m, [0x20], rest, 4);
  }

  /** A rejected spec or status is left as far as its own payload was decoded. */
  lemma SettingLeft<O>(meta: SubCodec<O>, m: Setting<O>, r: Record)
    requires OneRecord(r) && r.DelimitedRecord?
    ensures var left := Reached(SettingSchema(meta), m, Bytes(r));
            && (Number(r) == 1 && meta.unmarshal(m.objectMeta, r.value).Rejected? ==>
                  left == m.(objectMeta := meta.spill(m.objectMeta, r.value)))
            && (Number(r) == 2 ==> left == m.(spec := Reached(SpecSchema(), m.spec, r.value)))
            && (Number(r) == 3 ==> left == m.(status := Reached(SettingStatusSchema(), m.status, r.value)))
  {
    hide Decode, Reached, VarintValue, WellFormed, Bytes, FieldNumber;
    DecodeOne(SettingSchema(meta), m, r);
    FieldNumberIs(VarintValue(r.tag));
    ValueFits(r);
    if Decode(SpecSchema(), m.spec, r.value).Decoded? { ReachedWhole(SpecSchema(), m.spec, r.value); }
    if Decode(SettingStatusSchema(), m.status, r.value).Decoded? {
      ReachedWhole(SettingStatusSchema(), m.status, r.value);
    }
  }

  /** An item is there whether or not its payload was accepted. */
  lemma ListLeft<L, O>(list: SubCodec<L>, meta: SubCodec<O>, m: SettingList<L, O>, r: Record)
    requires OneRecord(r) && r.DelimitedRecord?
    ensures var left := Reached(ListSchema(list, meta), m, Bytes(r));
            var none := Setting(meta.zero, SettingSpec(None), SettingStatus([], false, false, []));
            && (Number(r) == 1 && list.unmarshal(m.listMeta, r.value).Rejected? ==>
                  left == m.(listMeta := list.spill(m.listMeta, r.value)))
            && (Number(r) == 2 ==> left == m.(items := m.items + [Reached(SettingSchema(meta), none, r.value)]))
  {
    hide Decode, Reached, VarintValue, WellFormed, Bytes, FieldNumber, SettingSchema;
    DecodeOne(ListSchema(list, meta), m, r);
    FieldNumberIs(VarintValue(r.tag));
    ValueFits(r);
    var none := Setting(meta.zero, SettingSpec(None), SettingStatus([], false, false, []));
    if Decode(SettingSchema(meta), none, r.value).Decoded? { ReachedWhole(SettingSchema(meta), none, r.value); }
  }

  /** And so is a condition. */
  lemma StatusLeft<T>(time: SubCodec<T>, m: Status<T>, r: Record)
    requires OneRecord(r) && r.DelimitedRecord? && Number(r) == 3
    ensures var none := Condition([], [], time.zero, 0, [], []);
            Reached(StatusSchema(time), m, Bytes(r)) ==
            m.(conditions := m.conditions + [Reached(ConditionSchema(time), none, r.value)])
  {
    hide Decode, Reached, VarintValue, WellFormed, Bytes, FieldNumber, ConditionSchema;
    DecodeOne(StatusSchema(time), m, r);
    FieldNumberIs(VarintValue(r.tag));
    ValueFits(r);
    var none := Condition([], [], time.zero, 0, [], []);
    if Decode(ConditionSchema(time), none, r.value).Decoded? { ReachedWhole(ConditionSchema(time), none, r.value); }
  }

  // ---------------------------------------------------------------- the bytes that are written

  /** A payload with its length in front. */
  function Sized(b: seq<byte>): seq<byte> { EncodeVarint(|b|) + b }

  lemma ConditionWire<T>(time: SubCodec<T>, v: Condition<T>)
    requires ConditionMarshals(time, v)
    ensures var g := if v.observedGeneration >= 0 then v.observedGeneration as int
                     else v.observedGeneration + 0x1_0000_0000_0000_0000;
            EncodeCondition(time, v) ==
            ([0x0a] + Sized(v.typ)) + ([0x12] + Sized(v.status))
            + ([0x1a] + Sized(time.marshal(v.lastTransitionTime).b)) + ([0x20] + EncodeVarint(g))
            + ([0x2a] + Sized(v.reason)) + ([0x32] + Sized(v.message))
  {
    hide EncodeVarint, Bytes, ChunkRecord, NumberRecord, Sized;
    SixBytes(ConditionRecords(time, v));
    ChunkWire(0x0a, v.typ);
    ChunkWire(0x12, v.status);
    ChunkWire(0x1a, time.marshal(v.lastTransitionTime).b);
    NumberWire(0x20, ToUint64(v.observedGeneration));
    ChunkWire(0x2a, v.reason);
    ChunkWire(0x32, v.message);
  }

  lemma ChunkWire(tag: byte, b: seq<byte>)
    ensures Bytes(ChunkRecord(tag, b)) == [tag] + Sized(b)
  {
    hide EncodeVarint;
  }

  lemma NumberWire(tag: byte, v: uint64)
    ensures Bytes(NumberRecord(tag, v)) == [tag] + EncodeVarint(v)
  {
    hide EncodeVarint;
  }

  lemma SixBytes(rs: seq<Record>)
    requires |rs| == 6
    ensures AllBytes(rs) == Bytes(rs[0]) + Bytes(rs[1]) + Bytes(rs[2]) + Bytes(rs[3]) + Bytes(rs[4]) + Bytes(rs[5])
  {
    hide Bytes;
    assert rs == rs[..4] + rs[4..];
    FourBytes(rs[..4]);
    TwoBytes(rs[4..]);
    BytesAppend(rs[..4], rs[4..]);
  }

  lemma FourBytes(rs: seq<Record>)
    requires |rs| == 4
    ensures AllBytes(rs) == Bytes(rs[0]) + Bytes(rs[1]) + Bytes(rs[2]) + Bytes(rs[3])
  {
    hide Bytes;
    assert rs == rs[..2] + rs[2..];
    TwoBytes(rs[..2]);
    TwoBytes(rs[2..]);
    BytesAppend(rs[..2], rs[2..]);
  }

  lemma TwoBytes(rs: seq<Record>)
    requires |rs| == 2
    ensures AllBytes(rs) == Bytes(rs[0]) + Bytes(rs[1])
  {
    hide Bytes;
    assert rs[1..] == [rs[1]] && rs[1..][1..] == [];
    assert AllBytes(rs[1..]) == Bytes(rs[1]) + AllBytes([]);
  }

  lemma {:induction false} BytesAppend(a: seq<Record>, b: seq<Record>)
    ensures AllBytes(a + b) == AllBytes(a) + AllBytes(b)
    decreases |a|
  {
    hide Bytes;
    if a == [] {
      assert a + b == b;
    } else {
      BytesAppend(a[1..], b);
      assert (a + b)[1..] == a[1..] + b;
    }
  }

  lemma SpecWire(v: SettingSpec)
    ensures EncodeSpec(v) == if v.value.None? then [] else [0x0a] + Sized(v.value.value)
  {
    hide EncodeVarint;
    if v.value.Some? {
      var r := ChunkRecord(0x0a, v.value.value);
      assert [r][1..] == [];
      assert AllBytes([r]) == Bytes(r) + AllBytes([]);
      ChunkWire(0x0a, v.value.value);
    }
  }

  lemma SettingStatusWire(v: SettingStatus)
    ensures EncodeSettingStatus(v) ==
            ([0x0a] + Sized(v.description)) + [0x10, if v.editable then 1 else 0]
            + [0x18, if v.sensitive then 1 else 0] + ([0x22] + Sized(v.value))
  {
    hide EncodeVarint, Bytes, ChunkRecord, NumberRecord, Sized;
    FourBytes(SettingStatusRecords(v));
    OneByteNumbers();
    ChunkWire(0x0a, v.description);
    NumberWire(0x10, BoolNumber(v.editable));
    NumberWire(0x18, BoolNumber(v.sensitive));
    ChunkWire(0x22, v.value);
  }

  lemma OneByteNumbers()
    ensures EncodeVarint(0) == [0] && EncodeVarint(1) == [1]
  {
  }

  lemma SettingWire<O>(meta: SubCodec<O>, v: Setting<O>)
    requires SettingMarshals(meta, v)
    ensures EncodeSetting(meta, v) ==
            ([0x0a] + Sized(meta.marshal(v.objectMeta).b)) + ([0x12] + Sized(EncodeSpec(v.spec)))
            + ([0x1a] + Sized(EncodeSettingStatus(v.status)))
  {
    hide EncodeVarint, EncodeSpec, EncodeSettingStatus, Bytes, ChunkRecord, Sized;
    var rs := SettingRecords(meta, v);
    TwoBytes(rs[1..]);
    assert AllBytes(rs) == Bytes(rs[0]) + AllBytes(rs[1..]);
    ChunkWire(0x0a, meta.marshal(v.objectMeta).b);
    ChunkWire(0x12, EncodeSpec(v.spec));
    ChunkWire(0x1a, EncodeSettingStatus(v.status));
  }

  /** Items in order, each with its own tag. */
  function ItemBytes<O>(meta: SubCodec<O>, items: seq<Setting<O>>): seq<byte>
    requires forall i :: 0 <= i < |items| ==> SettingMarshals(meta, items[i])
  {
    if items == [] then [] else [0x12] + Sized(EncodeSetting(meta, items[0])) + ItemBytes(meta, items[1..])
  }

  lemma {:induction false} ItemsWire<O>(meta: SubCodec<O>, items: seq<Setting<O>>)
    requires AllMarshal(SettingCodec(meta), items)
    ensures forall i :: 0 <= i < |items| ==> SettingMarshals(meta, items[i])
    ensures AllBytes(ElementRecords(0x12, SettingCodec(meta), items)) == ItemBytes(meta, items)
    decreases |items|
  {
    hide EncodeVarint, EncodeSetting;
    if items != [] {
      assert SettingCodec(meta).marshal(items[0]).Marshalled?;
      ItemsWire(meta, items[1..]);
      assert forall i :: 0 < i < |items| ==> items[i] == items[1..][i - 1];
      var rs := ElementRecords(0x12, SettingCodec(meta), items);
      assert rs[1..] == ElementRecords(0x12, SettingCodec(meta), items[1..]);
    }
  }

  lemma ListWire<L, O>(list: SubCodec<L>, meta: SubCodec<O>, v: SettingList<L, O>)
    requires ListMarshals(list, meta, v)
    ensures forall i :: 0 <= i < |v.items| ==> SettingMarshals(meta, v.items[i])
    ensures EncodeList(list, meta, v) == [0x0a] + Sized(list.marshal(v.listMeta).b) + ItemBytes(meta, v.items)
  {
    hide EncodeVarint, ItemBytes, ElementRecords, AllMarshal;
    ItemsWire(meta, v.items);
    var r := ChunkRecord(0x0a, list.marshal(v.listMeta).b);
    BytesAppend([r], ElementRecords(0x12, SettingCodec(meta), v.items));
    assert [r][1..] == [];
    assert AllBytes([r]) == Bytes(r) + AllBytes([]);
  }

  /** Conditions in order, each with its own tag. */
  function ConditionsBytes<T>(time: SubCodec<T>, cs: seq<Condition<T>>): seq<byte>
    requires forall i :: 0 <= i < |cs| ==> ConditionMarshals(time, cs[i])
  {
    if cs == [] then [] else [0x1a] + Sized(EncodeCondition(time, cs[0])) + ConditionsBytes(time, cs[1..])
  }

  lemma {:induction false} ConditionsWire<T>(time: SubCodec<T>, cs: seq<Condition<T>>)
    requires AllMarshal(ConditionCodec(time), cs)
    ensures forall i :: 0 <= i < |cs| ==> ConditionMarshals(time, cs[i])
    ensures AllBytes(ElementRecords(0x1a, ConditionCodec(time), cs)) == ConditionsBytes(time, cs)
    decreases |cs|
  {
    hide EncodeVarint, EncodeCondition;
    if cs != [] {
      assert ConditionCodec(time).marshal(cs[0]).Marshalled?;
      ConditionsWire(time, cs[1..]);
      assert forall i :: 0 < i < |cs| ==> cs[i] == cs[1..][i - 1];
      var rs := ElementRecords(0x1a, ConditionCodec(time), cs);
      assert rs[1..] == ElementRecords(0x1a, ConditionCodec(time), cs[1..]);
    }
  }

  lemma StatusWire<T>(time: SubCodec<T>, v: Status<T>)
    requires StatusMarshals(time, v)
    ensures forall i :: 0 <= i < |v.conditions| ==> ConditionMarshals(time, v.conditions[i])
    ensures EncodeStatus(time, v) ==
            ([0x0a] + Sized(v.phase)) + ([0x12] + Sized(v.phaseMessage)) + ConditionsBytes(time, v.conditions)
  {
    ChunkWire(0x0a, v.phase);
    ChunkWire(0x12, v.phaseMessage);
    hide EncodeVarint, ConditionsBytes, ElementRecords, AllMarshal;
    ConditionsWire(time, v.conditions);
    var rs := [ChunkRecord(0x0a, v.phase), ChunkRecord(0x12, v.phaseMessage)];
    BytesAppend(rs, ElementRecords(0x1a, ConditionCodec(time), v.conditions));
    TwoBytes(rs);
  }

  /** A reset message holds nothing. */
  lemma ZeroIsEmpty<L, O, T>(list: SubCodec<L>, meta: SubCodec<O>, time: SubCodec<T>)
    ensures ZeroCondition(time) == Condition([], [], time.zero, 0, [], [])
    ensures ZERO_SPEC == SettingSpec(None) && ZERO_SETTING_STATUS == SettingStatus([], false, false, [])
    ensures ZeroSetting(meta) == Setting(meta.zero, SettingSpec(None), SettingStatus([], false, false, []))
    ensures ZeroSettingList<L, O>(list) == SettingList(list.zero, []) && ZeroStatus<T>() == Status([], [], [])
  {
  }
}
