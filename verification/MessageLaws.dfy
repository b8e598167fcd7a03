/** What encoding, sizing and decoding the six messages promise together. */
module MessageLaws {
  import opened Integers
  import opened Varint
  import opened WireGrammar
  import opened MessageLoop
  import opened Codecs
  import opened Messages

  lemma ConditionBytes<T>(time: SubCodec<T>, v: Condition<T>)
    requires ConditionMarshals(time, v)
    ensures var rs := ConditionRecords(time, v);
            EncodeCondition(time, v) ==
            Bytes(rs[0]) + (Bytes(rs[1]) + (Bytes(rs[2]) + (Bytes(rs[3]) + (Bytes(rs[4]) + (Bytes(rs[5]) + [])))))
  {
    hide AllBytes, AllWellFormed, Bytes, WellFormed, ChunkRecord, NumberRecord, ToUint64;
    var rs := ConditionRecords(time, v);
    Cons(rs);
    Cons(rs[1..]);
    Cons(rs[2..]);
    Cons(rs[3..]);
    Cons(rs[4..]);
    Cons(rs[5..]);
    assert rs[1..][1..] == rs[2..] && rs[2..][1..] == rs[3..] && rs[3..][1..] == rs[4..];
    assert rs[4..][1..] == rs[5..] && rs[5..][1..] == [];
    NoBytes();
  }

  lemma SpecBytes(v: SettingSpec)
    ensures EncodeSpec(v) == if v.value.None? then [] else Bytes(ChunkRecord(0x0a, v.value.value)) + []
  {
    hide Bytes, ChunkRecord, AllBytes;
    NoBytes();
    if v.value.Some? {
      Cons(SpecRecords(v));
      assert SpecRecords(v)[1..] == [];
    }
  }

  lemma SettingStatusBytes(v: SettingStatus)
    ensures var rs := SettingStatusRecords(v);
            EncodeSettingStatus(v) == Bytes(rs[0]) + (Bytes(rs[1]) + (Bytes(rs[2]) + (Bytes(rs[3]) + [])))
  {
    hide AllBytes, AllWellFormed, Bytes, WellFormed, ChunkRecord, NumberRecord;
    var rs := SettingStatusRecords(v);
    Cons(rs);
    Cons(rs[1..]);
    Cons(rs[2..]);
    Cons(rs[3..]);
    assert rs[1..][1..] == rs[2..] && rs[2..][1..] == rs[3..] && rs[3..][1..] == [];
    NoBytes();
  }

  lemma SettingBytes<O>(meta: SubCodec<O>, v: Setting<O>)
    requires SettingMarshals(meta, v)
    ensures var rs := SettingRecords(meta, v);
            EncodeSetting(meta, v) == Bytes(rs[0]) + (Bytes(rs[1]) + (Bytes(rs[2]) + []))
  {
    hide AllBytes, AllWellFormed, Bytes, WellFormed, ChunkRecord;
    var rs := SettingRecords(meta, v);
    Cons(rs);
    Cons(rs[1..]);
    Cons(rs[2..]);
    assert rs[1..][1..] == rs[2..] && rs[2..][1..] == [];
    NoBytes();
  }

  lemma ConditionRecordsWellFormed<T>(time: SubCodec<T>, v: Condition<T>)
    requires ConditionMarshals(time, v)
    ensures Announces(time, v.lastTransitionTime) ==> |EncodeCondition(time, v)| == ConditionSize(time, v)
    ensures |EncodeCondition(time, v)| < TWO_63 ==> AllWellFormed(ConditionRecords(time, v))
  {
    hide AllBytes, AllWellFormed, Bytes, WellFormed, ChunkRecord, NumberRecord, Sov, ToUint64;
    var rs := ConditionRecords(time, v);
    var t := time.marshal(v.lastTransitionTime).b;
    ChunkWellFormed(0x0a, v.typ);
    ChunkWellFormed(0x12, v.status);
    ChunkLength(0x1a, t);
    NumberWellFormed(0x20, ToUint64(v.observedGeneration));
    ChunkWellFormed(0x2a, v.reason);
    ChunkWellFormed(0x32, v.message);
    Six(rs);
    if |EncodeCondition(time, v)| < TWO_63 { ChunkWellFormed(0x1a, t); }
  }

  lemma SpecRecordsWellFormed(v: SettingSpec)
    ensures AllWellFormed(SpecRecords(v))
    ensures |EncodeSpec(v)| == SpecSize(v)
  {
    hide AllBytes, AllWellFormed, Bytes, WellFormed, ChunkRecord, Sov;
    if v.value.Some? { ChunkWellFormed(0x0a, v.value.value); }
    Six(SpecRecords(v));
  }

  lemma SettingStatusRecordsWellFormed(v: SettingStatus)
    ensures AllWellFormed(SettingStatusRecords(v))
    ensures |EncodeSettingStatus(v)| == SettingStatusSize(v)
  {
    hide AllBytes, AllWellFormed, Bytes, WellFormed, ChunkRecord, NumberRecord, Sov;
    ChunkWellFormed(0x0a, v.description);
    NumberWellFormed(0x10, BoolNumber(v.editable));
    NumberWellFormed(0x18, BoolNumber(v.sensitive));
    OneByteNumber(BoolNumber(v.editable));
    OneByteNumber(BoolNumber(v.sensitive));
    ChunkWellFormed(0x22, v.value);
    Six(SettingStatusRecords(v));
  }

  lemma SettingRecordsWellFormed<O>(meta: SubCodec<O>, v: Setting<O>)
    requires SettingMarshals(meta, v)
    ensures Announces(meta, v.objectMeta) ==> |EncodeSetting(meta, v)| == SettingSize(meta, v)
    ensures |EncodeSetting(meta, v)| > |EncodeSpec(v.spec)|
    ensures |EncodeSetting(meta, v)| > |EncodeSettingStatus(v.status)|
    ensures |EncodeSetting(meta, v)| < TWO_63 ==> AllWellFormed(SettingRecords(meta, v))
  {
    hide AllBytes, AllWellFormed, Bytes, WellFormed, ChunkRecord, Sov, EncodeSpec, EncodeSettingStatus;
    ChunkLength(0x0a, meta.marshal(v.objectMeta).b);
    ChunkLength(0x12, EncodeSpec(v.spec));
    ChunkLength(0x1a, EncodeSettingStatus(v.status));
    SpecRecordsWellFormed(v.spec);
    SettingStatusRecordsWellFormed(v.status);
    Six(SettingRecords(meta, v));
    if |EncodeSetting(meta, v)| < TWO_63 {
      ChunkWellFormed(0x0a, meta.marshal(v.objectMeta).b);
      ChunkWellFormed(0x12, EncodeSpec(v.spec));
      ChunkWellFormed(0x1a, EncodeSettingStatus(v.status));
    }
  }

  /** Size announces exactly what is written, for a list and everything nested in it. */
  lemma ListSizeIsLength<L, O>(list: SubCodec<L>, meta: SubCodec<O>, v: SettingList<L, O>)
    requires ListMarshals(list, meta, v) && Announces(list, v.listMeta)
    requires forall i :: 0 <= i < |v.items| ==> Announces(meta, v.items[i].objectMeta)
    ensures |EncodeList(list, meta, v)| == ListSize(list, meta, v)
  {
    hide AllBytes, ChunkRecord, Bytes, ElementRecords, Sov, ElementsSize;
    var l := list.marshal(v.listMeta).b;
    AllBytesCons(ChunkRecord(0x0a, l), ElementRecords(0x12, SettingCodec(meta), v.items));
    ChunkLength(0x0a, l);
    SettingsAnnounce(meta, v.items);
    ElementsSizeIsLength(0x12, SettingCodec(meta), v.items);
  }

  lemma SettingsAnnounce<O>(meta: SubCodec<O>, items: seq<Setting<O>>)
    requires forall i :: 0 <= i < |items| ==> Announces(meta, items[i].objectMeta)
    ensures AllAnnounce(SettingCodec(meta), items)
  {
    hide EncodeSetting, SettingSize;
    forall i | 0 <= i < |items| ensures Announces(SettingCodec(meta), items[i]) {
      if SettingMarshals(meta, items[i]) { SettingRecordsWellFormed(meta, items[i]); }
    }
  }

  lemma StatusSizeIsLength<T>(time: SubCodec<T>, v: Status<T>)
    requires StatusMarshals(time, v)
    requires forall i :: 0 <= i < |v.conditions| ==> Announces(time, v.conditions[i].lastTransitionTime)
    ensures |EncodeStatus(time, v)| == StatusSize(time, v)
  {
    hide AllBytes, ChunkRecord, Bytes, ElementRecords, Sov, ElementsSize;
    StatusBytes(time, v);
    ChunkLength(0x0a, v.phase);
    ChunkLength(0x12, v.phaseMessage);
    ConditionsAnnounce(time, v.conditions);
    ElementsSizeIsLength(0x1a, ConditionCodec(time), v.conditions);
  }

  lemma ConditionsAnnounce<T>(time: SubCodec<T>, cs: seq<Condition<T>>)
    requires forall i :: 0 <= i < |cs| ==> Announces(time, cs[i].lastTransitionTime)
    ensures AllAnnounce(ConditionCodec(time), cs)
  {
    hide EncodeCondition, ConditionSize;
    forall i | 0 <= i < |cs| ensures Announces(ConditionCodec(time), cs[i]) {
      if ConditionMarshals(time, cs[i]) { ConditionRecordsWellFormed(time, cs[i]); }
    }
  }

  lemma ListBytes<L, O>(list: SubCodec<L>, meta: SubCodec<O>, v: SettingList<L, O>)
    requires ListMarshals(list, meta, v)
    ensures EncodeList(list, meta, v) ==
            Bytes(ChunkRecord(0x0a, list.marshal(v.listMeta).b))
            + AllBytes(ElementRecords(0x12, SettingCodec(meta), v.items))
  {
    hide AllBytes, Bytes, ChunkRecord;
    AllBytesCons(ChunkRecord(0x0a, list.marshal(v.listMeta).b), ElementRecords(0x12, SettingCodec(meta), v.items));
  }

  lemma StatusBytes<T>(time: SubCodec<T>, v: Status<T>)
    requires StatusMarshals(time, v)
    ensures EncodeStatus(time, v) ==
            Bytes(ChunkRecord(0x0a, v.phase)) + (Bytes(ChunkRecord(0x12, v.phaseMessage))
            + AllBytes(ElementRecords(0x1a, ConditionCodec(time), v.conditions)))
  {
    hide AllBytes, Bytes, ChunkRecord, ElementRecords;
    var tail := ElementRecords(0x1a, ConditionCodec(time), v.conditions);
    var r1, r2 := ChunkRecord(0x0a, v.phase), ChunkRecord(0x12, v.phaseMessage);
    assert StatusRecords(time, v) == [r1] + ([r2] + tail);
    AllBytesCons(r1, [r2] + tail);
    AllBytesCons(r2, tail);
  }

  // ---------------------------------------------------------------- decoding on top of a message

  lemma ConditionMerges<T>(time: SubCodec<T>, m: Condition<T>, v: Condition<T>)
    requires ConditionMarshals(time, v) && |EncodeCondition(time, v)| < TWO_63
    ensures Decode(ConditionSchema(time), m, EncodeCondition(time, v)) == MergeCondition(time, m, v)
  {
    hide Decode, ApplyAll, AllBytes, AllWellFormed, ChunkRecord, NumberRecord;
    var sc := ConditionSchema(time);
    var rs := ConditionRecords(time, v);
    ConditionRecordsWellFormed(time, v);
    DecodeAllRecords(sc, m, rs, AllBytes(rs));
    assert rs == rs[0..];
    ChunkAt(sc, m, rs, 0, 0x0a, v.typ);
    var m1 := m.(typ := v.typ);
    ChunkAt(sc, m1, rs, 1, 0x12, v.status);
    var m2 := m1.(status := v.status);
    ChunkAt(sc, m2, rs, 2, 0x1a, time.marshal(v.lastTransitionTime).b);
    var t := SubMerge(time, m.lastTransitionTime, v.lastTransitionTime);
    if t.Decoded? {
      var m3 := m2.(lastTransitionTime := t.m);
      NumberAt(sc, m3, rs, 3, 0x20, ToUint64(v.observedGeneration));
      var m4 := m3.(observedGeneration := v.observedGeneration);
      ChunkAt(sc, m4, rs, 4, 0x2a, v.reason);
      var m5 := m4.(reason := v.reason);
      ChunkAt(sc, m5, rs, 5, 0x32, v.message);
      ApplyNone(sc, m5.(message := v.message), rs);
    }
  }

  lemma SpecMerges(m: SettingSpec, v: SettingSpec)
    requires |EncodeSpec(v)| < TWO_63
    ensures Decode(SpecSchema(), m, EncodeSpec(v)) == Decoded(MergeSpec(m, v))
  {
    hide Decode, ApplyAll, AllBytes, AllWellFormed, ChunkRecord;
    var sc := SpecSchema();
    var rs := SpecRecords(v);
    SpecRecordsWellFormed(v);
    DecodeAllRecords(sc, m, rs, AllBytes(rs));
    assert rs == rs[0..];
    if v.value.Some? { ChunkAt(sc, m, rs, 0, 0x0a, v.value.value); }
    ApplyNone(sc, MergeSpec(m, v), rs);
  }

  lemma SettingStatusMerges(m: SettingStatus, v: SettingStatus)
    requires |EncodeSettingStatus(v)| < TWO_63
    ensures Decode(SettingStatusSchema(), m, EncodeSettingStatus(v)) == Decoded(v)
  {
    hide Decode, ApplyAll, AllBytes, AllWellFormed, ChunkRecord, NumberRecord;
    var sc := SettingStatusSchema();
    var rs := SettingStatusRecords(v);
    SettingStatusRecordsWellFormed(v);
    DecodeAllRecords(sc, m, rs, AllBytes(rs));
    assert rs == rs[0..];
    ChunkAt(sc, m, rs, 0, 0x0a, v.description);
    var m1 := m.(description := v.description);
    NumberAt(sc, m1, rs, 1, 0x10, BoolNumber(v.editable));
    var m2 := m1.(editable := v.editable);
    NumberAt(sc, m2, rs, 2, 0x18, BoolNumber(v.sensitive));
    var m3 := m2.(sensitive := v.sensitive);
    ChunkAt(sc, m3, rs, 3, 0x22, v.value);
    ApplyNone(sc, v, rs);
  }

  lemma SettingMerges<O>(meta: SubCodec<O>, m: Setting<O>, v: Setting<O>)
    requires SettingMarshals(meta, v) && |EncodeSetting(meta, v)| < TWO_63
    ensures Decode(SettingSchema(meta), m, EncodeSetting(meta, v)) == MergeSetting(meta, m, v)
  {
    hide Decode, ApplyAll, AllBytes, AllWellFormed, ChunkRecord, EncodeSpec, EncodeSettingStatus, Sov;
    var sc := SettingSchema(meta);
    var rs := SettingRecords(meta, v);
    SettingRecordsWellFormed(meta, v);
    DecodeAllRecords(sc, m, rs, AllBytes(rs));
    assert rs == rs[0..];
    ChunkAt(sc, m, rs, 0, 0x0a, meta.marshal(v.objectMeta).b);
    var o := SubMerge(meta, m.objectMeta, v.objectMeta);
    if o.Decoded? {
      var m1 := m.(objectMeta := o.m);
      ChunkAt(sc, m1, rs, 1, 0x12, EncodeSpec(v.spec));
      SpecMerges(m.spec, v.spec);
      var m2 := m1.(spec := MergeSpec(m.spec, v.spec));
      ChunkAt(sc, m2, rs, 2, 0x1a, EncodeSettingStatus(v.status));
      SettingStatusMerges(m.status, v.status);
      ApplyNone(sc, m2.(status := v.status), rs);
    }
  }

  lemma ListMerges<L, O>(list: SubCodec<L>, meta: SubCodec<O>, m: SettingList<L, O>, v: SettingList<L, O>)
    requires ListMarshals(list, meta, v) && |EncodeList(list, meta, v)| < TWO_63
    ensures Decode(ListSchema(list, meta), m, EncodeList(list, meta, v)) == MergeList(list, meta, m, v)
  {
    hide Decode, ApplyAll, AllBytes, AllWellFormed, ChunkRecord, ElementRecords;
    hide Bytes, WellFormed, AppendAll, AllMarshal;
    var sc := ListSchema(list, meta);
    var rs := ListRecords(list, meta, v);
    var l := list.marshal(v.listMeta).b;
    var c := SettingCodec(meta);
    var tail := ElementRecords(0x12, c, v.items);
    AllBytesCons(ChunkRecord(0x0a, l), tail);
    ChunkInside(0x0a, l);
    ChunkWellFormed(0x0a, l);
    ElementsWellFormed(0x12, c, v.items);
    DecodeAllRecords(sc, m, rs, AllBytes(rs));
    assert rs == rs[0..];
    assert rs[1..] == tail;
    ChunkAt(sc, m, rs, 0, 0x0a, l);
    var x := SubMerge(list, m.listMeta, v.listMeta);
    if x.Decoded? {
      var with := (items: seq<Setting<O>>) => SettingList(x.m, items);
      ElementsMerge(sc, 0x12, c, with, m.items, v.items);
    }
  }

  lemma StatusMerges<T>(time: SubCodec<T>, m: Status<T>, v: Status<T>)
    requires StatusMarshals(time, v) && |EncodeStatus(time, v)| < TWO_63
    ensures Decode(StatusSchema(time), m, EncodeStatus(time, v)) == MergeStatus(time, m, v)
  {
    hide Decode, ApplyAll, AllBytes, AllWellFormed, ChunkRecord, ElementRecords;
    hide Bytes, WellFormed, AppendAll, AllMarshal;
    var sc := StatusSchema(time);
    var rs := StatusRecords(time, v);
    var c := ConditionCodec(time);
    var tail := ElementRecords(0x1a, c, v.conditions);
    var r1, r2 := ChunkRecord(0x0a, v.phase), ChunkRecord(0x12, v.phaseMessage);
    assert rs == [r1] + ([r2] + tail);
    AllBytesCons(r1, [r2] + tail);
    AllBytesCons(r2, tail);
    ChunkWellFormed(0x0a, v.phase);
    ChunkWellFormed(0x12, v.phaseMessage);
    ElementsWellFormed(0x1a, c, v.conditions);
    DecodeAllRecords(sc, m, rs, AllBytes(rs));
    assert rs == rs[0..];
    assert rs[2..] == tail;
    ChunkAt(sc, m, rs, 0, 0x0a, v.phase);
    var m1 := m.(phase := v.phase);
    ChunkAt(sc, m1, rs, 1, 0x12, v.phaseMessage);
    var with := (cs: seq<Condition<T>>) => Status(v.phase, v.phaseMessage, cs);
    assert m1.(phaseMessage := v.phaseMessage) == with(m.conditions);
    ElementsMerge(sc, 0x1a, c, with, m.conditions, v.conditions);
  }

  // ---------------------------------------------------------------- round trips into a reset message

  lemma SpecRoundTrip(v: SettingSpec)
    requires |EncodeSpec(v)| < TWO_63
    ensures Decode(SpecSchema(), ZERO_SPEC, EncodeSpec(v)) == Decoded(v)
  {
    hide Decode, EncodeSpec;
    SpecMerges(ZERO_SPEC, v);
  }

  lemma ConditionRoundTrip<T>(time: SubCodec<T>, v: Condition<T>)
    requires ConditionMarshals(time, v) && |EncodeCondition(time, v)| < TWO_63
    ensures Decode(ConditionSchema(time), ZeroCondition(time), EncodeCondition(time, v)) == Decoded(v)
            <==> Survives(time, v.lastTransitionTime)
  {
    hide Decode, EncodeCondition;
    ConditionMerges(time, ZeroCondition(time), v);
  }

  lemma SettingRoundTrip<O>(meta: SubCodec<O>, v: Setting<O>)
    requires SettingMarshals(meta, v) && |EncodeSetting(meta, v)| < TWO_63
    ensures Decode(SettingSchema(meta), ZeroSetting(meta), EncodeSetting(meta, v)) == Decoded(v)
            <==> Survives(meta, v.objectMeta)
  {
    hide Decode, EncodeSetting;
    SettingMerges(meta, ZeroSetting(meta), v);
  }

  lemma ListFails<L, O>(list: SubCodec<L>, meta: SubCodec<O>, v: SettingList<L, O>)
    ensures ListFailure(list, meta, v).None? <==> ListMarshals(list, meta, v)
  {
    hide LastFailure, AllMarshal;
    NoFailure(SettingCodec(meta), v.items);
  }

  lemma ListRoundTrip<L, O>(list: SubCodec<L>, meta: SubCodec<O>, v: SettingList<L, O>)
    requires ListMarshals(list, meta, v) && |EncodeList(list, meta, v)| < TWO_63
    ensures Decode(ListSchema(list, meta), ZeroSettingList(list), EncodeList(list, meta, v)) == Decoded(v)
            <==> Survives(list, v.listMeta) && forall i :: 0 <= i < |v.items| ==> Survives(meta, v.items[i].objectMeta)
  {
    hide Decode, EncodeList, AppendAll;
    ListMerges(list, meta, ZeroSettingList(list), v);
    AppendExact(SettingCodec(meta), [], v.items);
    SettingsSurvive(list, meta, v);
    assert [] + v.items == v.items;
  }

  lemma SettingsSurvive<L, O>(list: SubCodec<L>, meta: SubCodec<O>, v: SettingList<L, O>)
    requires ListMarshals(list, meta, v) && |EncodeList(list, meta, v)| < TWO_63
    ensures AllSurvive(SettingCodec(meta), v.items) <==>
            forall i :: 0 <= i < |v.items| ==> Survives(meta, v.items[i].objectMeta)
  {
    hide Decode, EncodeSetting, EncodeList, AllBytes, ElementRecords;
    ListBytes(list, meta, v);
    forall i | 0 <= i < |v.items|
      ensures Survives(SettingCodec(meta), v.items[i]) <==> Survives(meta, v.items[i].objectMeta)
    {
      ElementInside(0x12, SettingCodec(meta), v.items, i);
      SettingRoundTrip(meta, v.items[i]);
    }
  }

  lemma {:induction false} ElementInside<E>(tag: byte, c: SubCodec<E>, es: seq<E>, i: nat)
    requires i < |es| && AllMarshal(c, es)
    ensures |c.marshal(es[i]).b| <= |AllBytes(ElementRecords(tag, c, es))|
    decreases i
  {
    hide Bytes, ChunkRecord;
    AllBytesCons(ChunkRecord(tag, c.marshal(es[0]).b), ElementRecords(tag, c, es[1..]));
    if i == 0 { ChunkInside(tag, c.marshal(es[0]).b); } else { ElementInside(tag, c, es[1..], i - 1); }
  }

  lemma StatusRoundTrip<T>(time: SubCodec<T>, v: Status<T>)
    requires StatusMarshals(time, v) && |EncodeStatus(time, v)| < TWO_63
    ensures Decode(StatusSchema(time), ZeroStatus(), EncodeStatus(time, v)) == Decoded(v)
            <==> forall i :: 0 <= i < |v.conditions| ==> Survives(time, v.conditions[i].lastTransitionTime)
  {
    hide Decode, EncodeStatus, AppendAll;
    StatusMerges(time, ZeroStatus(), v);
    AppendExact(ConditionCodec(time), [], v.conditions);
    ConditionsSurvive(time, v);
    assert [] + v.conditions == v.conditions;
  }

  lemma ConditionsSurvive<T>(time: SubCodec<T>, v: Status<T>)
    requires StatusMarshals(time, v) && |EncodeStatus(time, v)| < TWO_63
    ensures AllSurvive(ConditionCodec(time), v.conditions) <==>
            forall i :: 0 <= i < |v.conditions| ==> Survives(time, v.conditions[i].lastTransitionTime)
  {
    hide Decode, EncodeCondition, EncodeStatus, AllBytes, ElementRecords;
    StatusBytes(time, v);
    forall i | 0 <= i < |v.conditions|
      ensures Survives(ConditionCodec(time), v.conditions[i]) <==> Survives(time, v.conditions[i].lastTransitionTime)
    {
      ElementInside(0x1a, ConditionCodec(time), v.conditions, i);
      ConditionRoundTrip(time, v.conditions[i]);
    }
  }

  // ---------------------------------------------------------------- one encoding after another

  /** Last singular value wins, repeated fields append. */
  lemma StatusConcat<T>(time: SubCodec<T>, a: Status<T>, b: Status<T>)
    requires StatusMarshals(time, a) && StatusMarshals(time, b)
    requires |EncodeStatus(time, a) + EncodeStatus(time, b)| < TWO_63
    requires forall i :: 0 <= i < |a.conditions| ==> Survives(time, a.conditions[i].lastTransitionTime)
    requires forall i :: 0 <= i < |b.conditions| ==> Survives(time, b.conditions[i].lastTransitionTime)
    ensures Decode(StatusSchema(time), ZeroStatus(), EncodeStatus(time, a) + EncodeStatus(time, b)) ==
            Decoded(Status(b.phase, b.phaseMessage, a.conditions + b.conditions))
  {
    hide Decode, EncodeStatus, AppendAll, StatusSchema, Survives;
    ConditionsSurvive(time, b);
    StatusRoundTrip(time, a);
    StatusMerges(time, a, b);
    AppendExact(ConditionCodec(time), a.conditions, b.conditions);
    ConcatIsMerge(StatusSchema(time), ZeroStatus(), EncodeStatus(time, a), EncodeStatus(time, b));
  }

  lemma OneRecord<M>(sc: Schema<M>, m: M, tag: byte, b: bytes)
    requires tag < 128 && tag % 8 == 2 && tag >= 8 && sc.want(tag / 8) == WantBytes
    requires |Bytes(ChunkRecord(tag, b))| < TWO_63
    ensures Decode(sc, m, Bytes(ChunkRecord(tag, b))) == sc.put(m, tag / 8, Chunk(b))
  {
    hide DecodeFrom, Bytes, WellFormed, Apply, ChunkRecord;
    var r := ChunkRecord(tag, b);
    ChunkApplies(sc, m, tag, b);
    DecodeRecord(sc, m, r, [], 0);
    assert Bytes(r) + [] == Bytes(r);
    DecodeEmpty(sc, Apply(sc, m, r));
  }

  /** A message nested twice is merged: a Setting with two records for its spec, or two for its status, decodes
      as it would with one record that holds both payloads. */
  lemma NestedTwice<O>(meta: SubCodec<O>, m: Setting<O>, tag: byte, p: bytes, q: bytes)
    requires tag == 0x12 || tag == 0x1a
    requires |Bytes(ChunkRecord(tag, p)) + Bytes(ChunkRecord(tag, q))| < TWO_63
    requires |p + q| < TWO_63 && |Bytes(ChunkRecord(tag, p + q))| < TWO_63
    requires Decode(SettingSchema(meta), m, Bytes(ChunkRecord(tag, p))).Decoded?
    ensures SameOutcome(Decode(SettingSchema(meta), m, Bytes(ChunkRecord(tag, p)) + Bytes(ChunkRecord(tag, q))),
                        Decode(SettingSchema(meta), m, Bytes(ChunkRecord(tag, p + q))))
  {
    hide Decode, Bytes, ChunkRecord, SettingPut;
    var sc := SettingSchema(meta);
    var a, b := Bytes(ChunkRecord(tag, p)), Bytes(ChunkRecord(tag, q));
    OneRecord(sc, m, tag, p);
    var m1 := SettingPut(meta, m, tag / 8, Chunk(p)).m;
    OneRecord(sc, m1, tag, q);
    OneRecord(sc, m, tag, p + q);
    ConcatIsMerge(sc, m, a, b);
    PutTwice(meta, m, tag / 8, p, q);
  }

  lemma PutTwice<O>(meta: SubCodec<O>, m: Setting<O>, num: int, p: bytes, q: bytes)
    requires 2 <= num <= 3 && |p + q| < TWO_63 && SettingPut(meta, m, num, Chunk(p)).Decoded?
    ensures SameOutcome(SettingPut(meta, SettingPut(meta, m, num, Chunk(p)).m, num, Chunk(q)),
                        SettingPut(meta, m, num, Chunk(p + q)))
  {
    hide Decode, SpecSchema, SettingStatusSchema;
    if num == 2 {
      ConcatIsMerge(SpecSchema(), m.spec, p, q);
    } else {
      ConcatIsMerge(SettingStatusSchema(), m.status, p, q);
    }
  }

  /** An absent Value does not clear one that is already there; everything else is replaced. */
  lemma SettingConcat<O>(meta: SubCodec<O>, a: Setting<O>, b: Setting<O>)
    requires SettingMarshals(meta, a) && SettingMarshals(meta, b) && Survives(meta, a.objectMeta)
    requires |EncodeSetting(meta, a) + EncodeSetting(meta, b)| < TWO_63
    ensures var r := Decode(SettingSchema(meta), ZeroSetting(meta), EncodeSetting(meta, a) + EncodeSetting(meta, b));
            var o := SubMerge(meta, a.objectMeta, b.objectMeta);
            && (r.Decoded? <==> o.Decoded?)
            && (o.Decoded? ==> r.m == Setting(o.m, if b.spec.value.Some? then b.spec else a.spec, b.status))
  {
    hide Decode, EncodeSetting, SettingSchema;
    SettingRoundTrip(meta, a);
    SettingMerges(meta, a, b);
    ConcatIsMerge(SettingSchema(meta), ZeroSetting(meta), EncodeSetting(meta, a), EncodeSetting(meta, b));
  }
}
