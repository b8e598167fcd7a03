/** The six messages as the mutable objects they are: encoders that fill a buffer from its tail, decoders
    that update fields as they advance through the input. */
module MessageObjects {
  import opened Options
  import opened Integers
  import opened Varint
  import opened WireGrammar
  import opened MessageLoop
  import opened Codecs
  import M = Messages
  import opened Messages
  import opened MessageLaws

  datatype WriteResult = Wrote(n: nat) | WriteFailed(err: WireError)

  // ---------------------------------------------------------------- writing towards the front

  /** Tag and length in front of a payload that already ends at `end`'s tail. */
  method PutHeader(buf: array<byte>, i: nat, end: nat, tag: byte, size: nat, ghost tail: seq<byte>) returns (j: nat)
    requires size < TWO_63 && 1 + Sov(size) <= i && i + size <= end <= buf.Length
    requires buf[i + size..end] == tail
    modifies buf
    ensures j == i - 1 - Sov(size)
    ensures buf[j..end] == Bytes(ChunkRecord(tag, old(buf[i..i + size]))) + tail
    ensures forall k :: 0 <= k < j || i <= k < buf.Length ==> buf[k] == old(buf[k])
  {
    hide Sov, EncodeVarint;
    ghost var body := buf[i..i + size];
    var base := EncodeVarintAt(buf, i, size);
    ghost var len := buf[base..i];
    j := base - 1;
    buf[j] := tag;
    assert buf[base..i] == len;
    assert buf[i..i + size] == body;
    assert buf[i + size..end] == tail;
    assert buf[j..end] == [tag] + buf[base..i] + buf[i..i + size] + buf[i + size..end];
  }

  /** A string or byte field: the payload is copied in, then its header. */
  method PutChunk(buf: array<byte>, i: nat, end: nat, tag: byte, b: bytes, ghost tail: seq<byte>) returns (j: nat)
    requires 1 + Sov(|b|) + |b| <= i <= end <= buf.Length
    requires buf[i..end] == tail
    modifies buf
    ensures j == i - (1 + Sov(|b|) + |b|)
    ensures buf[j..end] == Bytes(ChunkRecord(tag, b)) + tail
    ensures forall k :: 0 <= k < j || i <= k < buf.Length ==> buf[k] == old(buf[k])
  {
    hide Sov, EncodeVarint, Bytes;
    var start := i - |b|;
    forall k | 0 <= k < |b| { buf[start + k] := b[k]; }
    assert buf[start..start + |b|] == b;
    assert buf[i..end] == tail;
    j := PutHeader(buf, start, end, tag, |b|, tail);
  }

  method PutNumber(buf: array<byte>, i: nat, end: nat, tag: byte, v: uint64, ghost tail: seq<byte>) returns (j: nat)
    requires 1 + Sov(v) <= i <= end <= buf.Length
    requires buf[i..end] == tail
    modifies buf
    ensures j == i - (1 + Sov(v))
    ensures buf[j..end] == Bytes(NumberRecord(tag, v)) + tail
    ensures forall k :: 0 <= k < j || i <= k < buf.Length ==> buf[k] == old(buf[k])
  {
    hide Sov, EncodeVarint;
    var base := EncodeVarintAt(buf, i, v);
    ghost var num := buf[base..i];
    j := base - 1;
    buf[j] := tag;
    assert buf[base..i] == num;
    assert buf[i..end] == tail;
    assert buf[j..end] == [tag] + buf[base..i] + buf[i..end];
  }

  /** A bool is one byte written without the varint encoder. */
  method PutBool(buf: array<byte>, i: nat, end: nat, tag: byte, v: bool, ghost tail: seq<byte>) returns (j: nat)
    requires 2 <= i <= end <= buf.Length
    requires buf[i..end] == tail
    modifies buf
    ensures j == i - 2
    ensures buf[j..end] == Bytes(NumberRecord(tag, BoolNumber(v))) + tail
    ensures forall k :: 0 <= k < j || i <= k < buf.Length ==> buf[k] == old(buf[k])
  {
    j := i - 1;
    if v { buf[j] := 1; } else { buf[j] := 0; }
    j := j - 1;
    buf[j] := tag;
    assert buf[i..end] == tail;
    assert buf[j..end] == [tag, BoolNumber(v)] + buf[i..end];
  }

  /** MarshalToSizedBuffer of a type defined elsewhere. */
  method MarshalForeign<T>(c: SubCodec<T>, x: T, buf: array<byte>, end: nat) returns (r: WriteResult)
    requires Announces(c, x) && c.size(x) <= end <= buf.Length
    modifies buf
    ensures c.marshal(x).Marshalled? ==>
              r == Wrote(c.size(x)) && buf[end - r.n..end] == c.marshal(x).b
    ensures c.marshal(x).MarshalFailed? ==> r == WriteFailed(c.marshal(x).err)
    ensures forall k :: 0 <= k < end - c.size(x) || end <= k < buf.Length ==> buf[k] == old(buf[k])
  {
    match c.marshal(x)
    case MarshalFailed(e) => r := WriteFailed(e);
    case Marshalled(b) =>
      var start := end - |b|;
      forall k | 0 <= k < |b| { buf[start + k] := b[k]; }
      assert buf[start..end] == b;
      r := Wrote(|b|);
  }

  /** A field of such a type: the payload, then its header. */
  method PutForeign<T>(c: SubCodec<T>, x: T, buf: array<byte>, i: nat, end: nat, tag: byte, ghost tail: seq<byte>)
    returns (r: WriteResult)
    requires Announces(c, x) && Delimited(c.size(x)) <= i <= end <= buf.Length < TWO_63
    requires buf[i..end] == tail
    modifies buf
    ensures c.marshal(x).Marshalled? ==>
              && r == Wrote(Delimited(c.size(x)))
              && buf[i - r.n..end] == Bytes(ChunkRecord(tag, c.marshal(x).b)) + tail
    ensures c.marshal(x).MarshalFailed? ==> r == WriteFailed(c.marshal(x).err)
    ensures forall k :: 0 <= k < i - Delimited(c.size(x)) || i <= k < buf.Length ==> buf[k] == old(buf[k])
  {
    hide Sov, Bytes, ChunkRecord;
    r := MarshalForeign(c, x, buf, i);
    if r.WriteFailed? { return; }
    assert buf[i..end] == tail;
    var j := PutHeader(buf, i - r.n, end, tag, r.n, tail);
    r := Wrote(i - j);
  }

  // ---------------------------------------------------------------- Condition

  class Condition<T> {
    var typ: bytes
    var status: bytes
    var lastTransitionTime: T
    var observedGeneration: int64
    var reason: bytes
    var message: bytes

    constructor (time: SubCodec<T>)
      ensures Value() == ZeroCondition(time)
    {
      typ, status, lastTransitionTime, observedGeneration, reason, message := [], [], time.zero, 0, [], [];
    }

    function Value(): M.Condition<T>
      reads this
    {
      M.Condition(typ, status, lastTransitionTime, observedGeneration, reason, message)
    }

    /** The three fields after the time, from the last to the first. */
    method MarshalTail(buf: array<byte>, end: nat) returns (i: nat)
      requires 1 + Sov(ToUint64(observedGeneration)) + Delimited(|reason|) + Delimited(|message|) <= end <= buf.Length
      modifies buf
      ensures i == end - (1 + Sov(ToUint64(observedGeneration)) + Delimited(|reason|) + Delimited(|message|))
      ensures buf[i..end] == Bytes(NumberRecord(0x20, ToUint64(observedGeneration)))
                             + (Bytes(ChunkRecord(0x2a, reason)) + (Bytes(ChunkRecord(0x32, message)) + []))
      ensures forall k :: 0 <= k < i || end <= k < buf.Length ==> buf[k] == old(buf[k])
    {
      hide Sov, ToUint64, Bytes, ChunkRecord, NumberRecord;
      i := PutChunk(buf, end, end, 0x32, message, []);
      i := PutChunk(buf, i, end, 0x2a, reason, buf[i..end]);
      i := PutNumber(buf, i, end, 0x20, ToUint64(observedGeneration), buf[i..end]);
    }

    method MarshalToSizedBuffer(time: SubCodec<T>, buf: array<byte>, end: nat) returns (r: WriteResult)
      requires Announces(time, lastTransitionTime) && buf.Length < TWO_63
      requires ConditionSize(time, Value()) <= end <= buf.Length
      modifies buf
      ensures ConditionMarshals(time, Value()) ==>
                && r == Wrote(ConditionSize(time, Value()))
                && buf[end - r.n..end] == EncodeCondition(time, Value())
      ensures !ConditionMarshals(time, Value()) ==> r == WriteFailed(time.marshal(lastTransitionTime).err)
      ensures forall k :: 0 <= k < end - ConditionSize(time, Value()) || end <= k < buf.Length ==> buf[k] == old(buf[k])
    {
      hide Sov, ToUint64, Bytes, ChunkRecord, NumberRecord, EncodeCondition;
      if ConditionMarshals(time, Value()) { ConditionBytes(time, Value()); }
      var i := MarshalTail(buf, end);
      ghost var tail := buf[i..end];
      r := PutForeign(time, lastTransitionTime, buf, i, end, 0x1a, tail);
      if r.WriteFailed? { return; }
      i := i - r.n;
      tail := buf[i..end];
      i := PutChunk(buf, i, end, 0x12, status, tail);
      tail := buf[i..end];
      i := PutChunk(buf, i, end, 0x0a, typ, tail);
      r := Wrote(end - i);
    }

    method Unmarshal(time: SubCodec<T>, data: bytes) returns (err: Option<WireError>)
      modifies this
      ensures err.None? ==> Decode(ConditionSchema(time), old(Value()), data) == Decoded(Value())
      ensures err.Some? ==> Decode(ConditionSchema(time), old(Value()), data) == Rejected(err.value)
      ensures Value() == Reached(ConditionSchema(time), old(Value()), data)
    {
      hide DecodeFrom, ReachedFrom, ReadField;
      ghost var sc := ConditionSchema(time);
      ghost var goal, stop := Decode(sc, Value(), data), Reached(sc, Value(), data);
      var index := 0;
      assert data[0..] == data;
      while index < |data|
        invariant index <= |data|
        invariant DecodeFrom(sc, Value(), data[index..], index) == goal
        invariant ReachedFrom(sc, Value(), data[index..], index) == stop
      {
        DecodeUnfold(sc, Value(), data[index..], index);
        ReachedUnfold(sc, Value(), data[index..], index);
        var f := NextField(ConditionWant, data, index);
        if f.BadField? {
          if f.cut.Some? { observedGeneration := ToInt64(f.cut.value.acc); }
          return Some(f.err);
        }
        TailSlices(data, index, index + f.next, |data|);
        if f.KnownField? {
          if f.num == 1 { typ := f.payload.b; }
          else if f.num == 2 { status := f.payload.b; }
          else if f.num == 3 {
            match time.unmarshal(lastTransitionTime, f.payload.b)
            case Rejected(e) =>
              lastTransitionTime := time.spill(lastTransitionTime, f.payload.b);
              return Some(e);
            case Decoded(t) => lastTransitionTime := t;
          }
          else if f.num == 4 { observedGeneration := ToInt64(f.payload.v); }
          else if f.num == 5 { reason := f.payload.b; }
          else { message := f.payload.b; }
        }
        index := index + f.next;
      }
      assert data[index..] == [];
      DecodeEmpty(sc, Decoded(Value()));
      ReachedEmpty(sc, Value());
      return None;
    }
  }

  // ---------------------------------------------------------------- SettingSpec and SettingStatus

  class SettingSpec {
    var value: Option<bytes>

    constructor ()
      ensures Value() == ZERO_SPEC
    {
      value := None;
    }

    function Value(): M.SettingSpec
      reads this
    {
      M.SettingSpec(value)
    }

    method MarshalToSizedBuffer(buf: array<byte>, end: nat) returns (n: nat)
      requires SpecSize(Value()) <= end <= buf.Length
      modifies buf
      ensures n == SpecSize(Value()) && buf[end - n..end] == EncodeSpec(Value())
      ensures forall k :: 0 <= k < end - n || end <= k < buf.Length ==> buf[k] == old(buf[k])
    {
      hide Sov, Bytes, ChunkRecord, EncodeSpec;
      SpecBytes(Value());
      var i := end;
      if value.Some? { i := PutChunk(buf, i, end, 0x0a, value.value, []); }
      n := end - i;
    }

    method Unmarshal(data: bytes) returns (err: Option<WireError>)
      modifies this
      ensures err.None? ==> Decode(SpecSchema(), old(Value()), data) == Decoded(Value())
      ensures err.Some? ==> Decode(SpecSchema(), old(Value()), data) == Rejected(err.value)
      ensures Value() == Reached(SpecSchema(), old(Value()), data)
    {
      hide DecodeFrom, ReachedFrom, ReadField;
      ghost var sc := SpecSchema();
      ghost var goal, stop := Decode(sc, Value(), data), Reached(sc, Value(), data);
      var index := 0;
      assert data[0..] == data;
      while index < |data|
        invariant index <= |data|
        invariant DecodeFrom(sc, Value(), data[index..], index) == goal
        invariant ReachedFrom(sc, Value(), data[index..], index) == stop
      {
        DecodeUnfold(sc, Value(), data[index..], index);
        ReachedUnfold(sc, Value(), data[index..], index);
        var f := NextField(SpecWant, data, index);
        if f.BadField? { return Some(f.err); }
        TailSlices(data, index, index + f.next, |data|);
        if f.KnownField? { value := Some(f.payload.b); }
        index := index + f.next;
      }
      assert data[index..] == [];
      DecodeEmpty(sc, Decoded(Value()));
      ReachedEmpty(sc, Value());
      return None;
    }
  }

  class SettingStatus {
    var description: bytes
    var editable: bool
    var sensitive: bool
    var value: bytes

    constructor ()
      ensures Value() == ZERO_SETTING_STATUS
    {
      description, editable, sensitive, value := [], false, false, [];
    }

    function Value(): M.SettingStatus
      reads this
    {
      M.SettingStatus(description, editable, sensitive, value)
    }

    method MarshalToSizedBuffer(buf: array<byte>, end: nat) returns (n: nat)
      requires SettingStatusSize(Value()) <= end <= buf.Length
      modifies buf
      ensures n == SettingStatusSize(Value()) && buf[end - n..end] == EncodeSettingStatus(Value())
      ensures forall k :: 0 <= k < end - n || end <= k < buf.Length ==> buf[k] == old(buf[k])
    {
      hide Sov, Bytes, ChunkRecord, NumberRecord, EncodeSettingStatus;
      SettingStatusBytes(Value());
      var i := PutChunk(buf, end, end, 0x22, value, []);
      ghost var tail := buf[i..end];
      i := PutBool(buf, i, end, 0x18, sensitive, tail);
      tail := buf[i..end];
      i := PutBool(buf, i, end, 0x10, editable, tail);
      tail := buf[i..end];
      i := PutChunk(buf, i, end, 0x0a, description, tail);
      n := end - i;
    }

    method Unmarshal(data: bytes) returns (err: Option<WireError>)
      modifies this
      ensures err.None? ==> Decode(SettingStatusSchema(), old(Value()), data) == Decoded(Value())
      ensures err.Some? ==> Decode(SettingStatusSchema(), old(Value()), data) == Rejected(err.value)
      ensures Value() == Reached(SettingStatusSchema(), old(Value()), data)
    {
      hide DecodeFrom, ReachedFrom, ReadField;
      ghost var sc := SettingStatusSchema();
      ghost var goal, stop := Decode(sc, Value(), data), Reached(sc, Value(), data);
      var index := 0;
      assert data[0..] == data;
      while index < |data|
        invariant index <= |data|
        invariant DecodeFrom(sc, Value(), data[index..], index) == goal
        invariant ReachedFrom(sc, Value(), data[index..], index) == stop
      {
        DecodeUnfold(sc, Value(), data[index..], index);
        ReachedUnfold(sc, Value(), data[index..], index);
        var f := NextField(SettingStatusWant, data, index);
        if f.BadField? { return Some(f.err); }
        TailSlices(data, index, index + f.next, |data|);
        if f.KnownField? {
          if f.num == 1 { description := f.payload.b; }
          else if f.num == 2 { editable := f.payload.v != 0; }
          else if f.num == 3 { sensitive := f.payload.v != 0; }
          else { value := f.payload.b; }
        }
        index := index + f.next;
      }
      assert data[index..] == [];
      DecodeEmpty(sc, Decoded(Value()));
      ReachedEmpty(sc, Value());
      return None;
    }
  }

  // ---------------------------------------------------------------- Setting

  class Setting<O> {
    var objectMeta: O
    const spec: SettingSpec
    const status: SettingStatus

    constructor (meta: SubCodec<O>)
      ensures Value() == ZeroSetting(meta) && fresh(spec) && fresh(status)
    {
      objectMeta := meta.zero;
      spec := new SettingSpec();
      status := new SettingStatus();
    }

    function Value(): M.Setting<O>
      reads this, spec, status
    {
      M.Setting(objectMeta, spec.Value(), status.Value())
    }

    method MarshalToSizedBuffer(meta: SubCodec<O>, buf: array<byte>, end: nat) returns (r: WriteResult)
      requires Announces(meta, objectMeta) && buf.Length < TWO_63
      requires SettingSize(meta, Value()) <= end <= buf.Length
      modifies buf
      ensures SettingMarshals(meta, Value()) ==>
                && r == Wrote(SettingSize(meta, Value()))
                && buf[end - r.n..end] == EncodeSetting(meta, Value())
      ensures !SettingMarshals(meta, Value()) ==> r == WriteFailed(meta.marshal(objectMeta).err)
      ensures forall k :: 0 <= k < end - SettingSize(meta, Value()) || end <= k < buf.Length ==> buf[k] == old(buf[k])
    {
      hide Sov, Bytes, ChunkRecord, EncodeSetting, EncodeSpec, EncodeSettingStatus, SpecSize, SettingStatusSize;
      if SettingMarshals(meta, Value()) { SettingBytes(meta, Value()); }
      var size := status.MarshalToSizedBuffer(buf, end);
      var i := PutHeader(buf, end - size, end, 0x1a, size, []);
      ghost var tail := buf[i..end];
      size := spec.MarshalToSizedBuffer(buf, i);
      assert buf[i..end] == tail;
      i := PutHeader(buf, i - size, end, 0x12, size, tail);
      tail := buf[i..end];
      r := PutForeign(meta, objectMeta, buf, i, end, 0x0a, tail);
      if r.WriteFailed? { return; }
      r := Wrote(end - i + r.n);
    }

    method Unmarshal(meta: SubCodec<O>, data: bytes) returns (err: Option<WireError>)
      modifies this, spec, status
      ensures err.None? ==> Decode(SettingSchema(meta), old(Value()), data) == Decoded(Value())
      ensures err.Some? ==> Decode(SettingSchema(meta), old(Value()), data) == Rejected(err.value)
      ensures Value() == Reached(SettingSchema(meta), old(Value()), data)
    {
      hide DecodeFrom, ReachedFrom, ReadField;
      ghost var sc := SettingSchema(meta);
      ghost var goal, stop := Decode(sc, Value(), data), Reached(sc, Value(), data);
      var index := 0;
      assert data[0..] == data;
      while index < |data|
        invariant index <= |data|
        invariant DecodeFrom(sc, Value(), data[index..], index) == goal
        invariant ReachedFrom(sc, Value(), data[index..], index) == stop
      {
        DecodeUnfold(sc, Value(), data[index..], index);
        ReachedUnfold(sc, Value(), data[index..], index);
        var f := NextField(SettingWant, data, index);
        if f.BadField? { return Some(f.err); }
        TailSlices(data, index, index + f.next, |data|);
        if f.KnownField? {
          if f.num == 1 {
            match meta.unmarshal(objectMeta, f.payload.b)
            case Rejected(e) =>
              objectMeta := meta.spill(objectMeta, f.payload.b);
              return Some(e);
            case Decoded(x) => objectMeta := x;
          } else if f.num == 2 {
            err := spec.Unmarshal(f.payload.b);
            if err.Some? { return; }
          } else {
            err := status.Unmarshal(f.payload.b);
            if err.Some? { return; }
          }
        }
        index := index + f.next;
      }
      assert data[index..] == [];
      DecodeEmpty(sc, Decoded(Value()));
      ReachedEmpty(sc, Value());
      return None;
    }
  }

  // ---------------------------------------------------------------- SettingList

  /** The objects an item is made of. */
  ghost function Footprint<O>(items: seq<Setting<O>>): set<object> {
    (set x | x in items :: x as object) + (set x | x in items :: x.spec as object)
    + (set x | x in items :: x.status as object)
  }

  ghost function ItemValues<O>(items: seq<Setting<O>>): (vs: seq<M.Setting<O>>)
    reads Footprint(items)
    ensures |vs| == |items|
    ensures forall i :: 0 <= i < |items| ==> vs[i] == items[i].Value()
  {
    if items == [] then [] else ItemValues(items[..|items| - 1]) + [items[|items| - 1].Value()]
  }

  twostate predicate AllFresh<O>(new items: seq<Setting<O>>, from: nat) {
    forall i :: from <= i < |items| ==> fresh(items[i]) && fresh(items[i].spec) && fresh(items[i].status)
  }

  class SettingList<L, O> {
    var listMeta: L
    var items: seq<Setting<O>>

    constructor (list: SubCodec<L>)
      ensures Value() == ZeroSettingList(list)
    {
      listMeta, items := list.zero, [];
    }

    ghost function Value(): M.SettingList<L, O>
      reads this, Footprint(items)
    {
      M.SettingList(listMeta, ItemValues(items))
    }

    method Size(list: SubCodec<L>, meta: SubCodec<O>) returns (n: nat)
      ensures n == ListSize(list, meta, Value())
    {
      hide Sov, SettingSize;
      ghost var vs := ItemValues(items);
      n := Delimited(list.size(listMeta));
      assert vs[0..] == vs;
      for k := 0 to |items|
        invariant n + ElementsSize(SettingCodec(meta), vs[k..]) == ListSize(list, meta, Value())
      {
        ElementsStep(0x12, SettingCodec(meta), vs, k);
        n := n + Delimited(SettingSize(meta, items[k].Value()));
      }
    }

    /** The loop over the items, from the last to the first. */
    method MarshalItems(meta: SubCodec<O>, buf: array<byte>, end: nat) returns (r: WriteResult)
      requires forall i :: 0 <= i < |items| ==> Announces(meta, ItemValues(items)[i].objectMeta)
      requires ElementsSize(SettingCodec(meta), ItemValues(items)) <= end <= buf.Length < TWO_63
      modifies buf
      ensures LastFailure(SettingCodec(meta), ItemValues(items)) == if r.Wrote? then None else Some(r.err)
      ensures r.Wrote? ==> AllMarshal(SettingCodec(meta), ItemValues(items))
      ensures r.Wrote? ==> r.n == ElementsSize(SettingCodec(meta), ItemValues(items)) <= end
      ensures r.Wrote? ==> buf[end - r.n..end] == AllBytes(ElementRecords(0x12, SettingCodec(meta), ItemValues(items)))
      ensures var size := ElementsSize(SettingCodec(meta), ItemValues(items));
              forall k :: 0 <= k < end - size || end <= k < buf.Length ==> buf[k] == old(buf[k])
    {
      hide Sov, SettingSize, Bytes, AllBytes, ChunkRecord, EncodeSetting;
      hide ElementsSize, ElementRecords, LastFailure, ItemValues, AllMarshal;
      ghost var vs := ItemValues(items);
      var i, k := end, |items|;
      NoElements(0x12, SettingCodec(meta), vs);
      while k > 0
        invariant 0 <= k <= |items| && ItemValues(items) == vs
        invariant AllMarshal(SettingCodec(meta), vs[k..]) && LastFailure(SettingCodec(meta), vs[k..]).None?
        invariant 0 <= i == end - ElementsSize(SettingCodec(meta), vs[k..])
        invariant buf[i..end] == AllBytes(ElementRecords(0x12, SettingCodec(meta), vs[k..]))
        invariant forall j :: 0 <= j < end - ElementsSize(SettingCodec(meta), vs) || end <= j < buf.Length ==>
                    buf[j] == old(buf[j])
      {
        k := k - 1;
        ElementsStep(0x12, SettingCodec(meta), vs, k);
        ElementsSuffix(SettingCodec(meta), vs, k);
        ghost var tail := buf[i..end];
        r := items[k].MarshalToSizedBuffer(meta, buf, i);
        assert ItemValues(items) == vs;
        if r.WriteFailed? { return; }
        assert buf[i..end] == tail;
        i := PutHeader(buf, i - r.n, end, 0x12, r.n, tail);
        assert ItemValues(items) == vs;
      }
      assert vs[0..] == vs;
      r := Wrote(end - i);
    }

    method MarshalToSizedBuffer(list: SubCodec<L>, meta: SubCodec<O>, buf: array<byte>, end: nat)
      returns (r: WriteResult)
      requires Announces(list, listMeta)
      requires forall i :: 0 <= i < |items| ==> Announces(meta, ItemValues(items)[i].objectMeta)
      requires ListSize(list, meta, Value()) <= end <= buf.Length < TWO_63
      modifies buf
      ensures ListFailure(list, meta, Value()) == if r.Wrote? then None else Some(r.err)
      ensures r.Wrote? ==> ListMarshals(list, meta, Value()) && r.n == ListSize(list, meta, Value()) <= end
      ensures r.Wrote? ==> buf[end - r.n..end] == EncodeList(list, meta, Value())
      ensures forall k :: 0 <= k < end - ListSize(list, meta, Value()) || end <= k < buf.Length ==>
                buf[k] == old(buf[k])
    {
      hide Sov, Bytes, AllBytes, ChunkRecord, EncodeList;
      hide ElementsSize, ElementRecords, LastFailure, ItemValues, AllMarshal;
      ghost var v := Value();
      r := MarshalItems(meta, buf, end);
      assert ItemValues(items) == v.items;
      if r.WriteFailed? { return; }
      var i := end - r.n;
      ghost var tail := buf[i..end];
      r := PutForeign(list, listMeta, buf, i, end, 0x0a, tail);
      assert ItemValues(items) == v.items;
      if r.WriteFailed? { return; }
      ListBytes(list, meta, v);
      r := Wrote(end - i + r.n);
    }

    /** Marshal: a buffer of exactly the announced size. */
    method Marshal(list: SubCodec<L>, meta: SubCodec<O>) returns (r: MarshalResult)
      requires Announces(list, listMeta)
      requires forall i :: 0 <= i < |items| ==> Announces(meta, ItemValues(items)[i].objectMeta)
      requires ListSize(list, meta, Value()) < TWO_63
      ensures r.Marshalled? <==> ListMarshals(list, meta, Value())
      ensures r.Marshalled? ==> r.b == EncodeList(list, meta, Value()) && |r.b| == ListSize(list, meta, Value())
      ensures r.MarshalFailed? ==> ListFailure(list, meta, Value()) == Some(r.err)
    {
      hide EncodeList, ElementsSize, Sov, ItemValues, LastFailure, AllMarshal;
      ghost var v := Value();
      var size := Size(list, meta);
      assert Value() == v;
      var buf := new byte[size];
      assert Value() == v;
      var n := MarshalToSizedBuffer(list, meta, buf, size);
      assert Value() == v;
      ListFails(list, meta, v);
      if n.WriteFailed? { return MarshalFailed(n.err); }
      return Marshalled(buf[..n.n]);
    }

    /** Appends a fresh item and decodes into it; the items already there are left alone. */
    method DecodeItem(meta: SubCodec<O>, b: bytes) returns (err: Option<WireError>)
      modifies this
      ensures listMeta == old(listMeta) && |items| == |old(items)| + 1 && items[..|old(items)|] == old(items)
      ensures var item := items[|items| - 1]; fresh(item) && fresh(item.spec) && fresh(item.status)
      ensures ItemValues(items) == old(ItemValues(items)) + [Reached(SettingSchema(meta), ZeroSetting(meta), b)]
      ensures err.None? ==>
                Decode(SettingSchema(meta), ZeroSetting(meta), b) ==
                Decoded(Reached(SettingSchema(meta), ZeroSetting(meta), b))
      ensures err.Some? ==> Decode(SettingSchema(meta), ZeroSetting(meta), b) == Rejected(err.value)
    {
      hide Decode, Reached, SettingSchema, ItemValues;
      ghost var before, values := items, ItemValues(items);
      var item := new Setting(meta);
      err := item.Unmarshal(meta, b);
      items := items + [item];
      assert items[..|before|] == before;
      assert ItemValues(before) == values;
      assert ItemValues(items) == values + [item.Value()];
    }

    /** The body of the loop, once a field has been read. */
    method Store(list: SubCodec<L>, meta: SubCodec<O>, num: int, payload: Payload) returns (err: Option<WireError>)
      requires 1 <= num <= 2 && payload.Chunk?
      modifies this
      ensures err.None? ==> ListPut(list, meta, old(Value()), num, payload) == Decoded(Value())
      ensures err.Some? ==>
                && ListPut(list, meta, old(Value()), num, payload) == Rejected(err.value)
                && forall n: nat :: Value() == ListSpill(list, meta, old(Value()), KnownField(num, payload, n))
      ensures old(items) <= items && AllFresh(items, |old(items)|)
    {
      hide Decode, Reached, SettingSchema, ItemValues;
      err := None;
      ghost var at := Value();
      if num == 1 {
        match list.unmarshal(listMeta, payload.b)
        case Rejected(e) =>
          listMeta, err := list.spill(listMeta, payload.b), Some(e);
        case Decoded(x) => listMeta := x;
        assert ItemValues(items) == at.items;
      } else {
        err := DecodeItem(meta, payload.b);
      }
    }

    method Unmarshal(list: SubCodec<L>, meta: SubCodec<O>, data: bytes) returns (err: Option<WireError>)
      modifies this
      ensures err.None? ==> Decode(ListSchema(list, meta), old(Value()), data) == Decoded(Value())
      ensures err.Some? ==> Decode(ListSchema(list, meta), old(Value()), data) == Rejected(err.value)
      ensures old(items) <= items && AllFresh(items, |old(items)|)
      ensures Value() == Reached(ListSchema(list, meta), old(Value()), data)
    {
      hide DecodeFrom, ReachedFrom, ReadField, ItemValues, ListPut;
      ghost var sc := ListSchema(list, meta);
      ghost var goal, stop := Decode(sc, Value(), data), Reached(sc, Value(), data);
      ghost var n := |items|;
      var index := 0;
      assert data[0..] == data;
      while index < |data|
        invariant index <= |data|
        invariant old(items) <= items
        invariant AllFresh(items, n)
        invariant DecodeFrom(sc, Value(), data[index..], index) == goal
        invariant ReachedFrom(sc, Value(), data[index..], index) == stop
      {
        ghost var at := Value();
        DecodeUnfold(sc, at, data[index..], index);
        ReachedUnfold(sc, at, data[index..], index);
        var f := NextField(ListWant, data, index);
        assert Value() == at;
        if f.BadField? { return Some(f.err); }
        TailSlices(data, index, index + f.next, |data|);
        if f.KnownField? {
          err := Store(list, meta, f.num, f.payload);
          if err.Some? { return; }
        }
        index := index + f.next;
      }
      assert data[index..] == [];
      DecodeEmpty(sc, Decoded(Value()));
      ReachedEmpty(sc, Value());
      return None;
    }
  }

  // ---------------------------------------------------------------- Status

  ghost function ConditionValues<T>(cs: seq<Condition<T>>): (vs: seq<M.Condition<T>>)
    reads cs
    ensures |vs| == |cs|
    ensures forall i :: 0 <= i < |cs| ==> vs[i] == cs[i].Value()
  {
    if cs == [] then [] else ConditionValues(cs[..|cs| - 1]) + [cs[|cs| - 1].Value()]
  }

  class Status<T> {
    var phase: bytes
    var phaseMessage: bytes
    var conditions: seq<Condition<T>>

    constructor ()
      ensures Value() == ZeroStatus()
    {
      phase, phaseMessage, conditions := [], [], [];
    }

    ghost function Value(): M.Status<T>
      reads this, conditions
    {
      M.Status(phase, phaseMessage, ConditionValues(conditions))
    }

    method Size(time: SubCodec<T>) returns (n: nat)
      ensures n == StatusSize(time, Value())
    {
      hide Sov, ConditionSize;
      ghost var vs := ConditionValues(conditions);
      n := Delimited(|phase|) + Delimited(|phaseMessage|);
      assert vs[0..] == vs;
      for k := 0 to |conditions|
        invariant n + ElementsSize(ConditionCodec(time), vs[k..]) == StatusSize(time, Value())
      {
        ElementsStep(0x1a, ConditionCodec(time), vs, k);
        n := n + Delimited(ConditionSize(time, conditions[k].Value()));
      }
    }

    method MarshalConditions(time: SubCodec<T>, buf: array<byte>, end: nat) returns (r: WriteResult)
      requires forall i :: 0 <= i < |conditions| ==> Announces(time, ConditionValues(conditions)[i].lastTransitionTime)
      requires ElementsSize(ConditionCodec(time), ConditionValues(conditions)) <= end <= buf.Length < TWO_63
      modifies buf
      ensures LastFailure(ConditionCodec(time), ConditionValues(conditions)) == if r.Wrote? then None else Some(r.err)
      ensures r.Wrote? ==> AllMarshal(ConditionCodec(time), ConditionValues(conditions))
      ensures r.Wrote? ==> r.n == ElementsSize(ConditionCodec(time), ConditionValues(conditions)) <= end
      ensures r.Wrote? ==>
                buf[end - r.n..end] == AllBytes(ElementRecords(0x1a, ConditionCodec(time), ConditionValues(conditions)))
      ensures var size := ElementsSize(ConditionCodec(time), ConditionValues(conditions));
              forall k :: 0 <= k < end - size || end <= k < buf.Length ==> buf[k] == old(buf[k])
    {
      hide Sov, ConditionSize, Bytes, AllBytes, ChunkRecord, EncodeCondition;
      hide ElementsSize, ElementRecords, LastFailure, ConditionValues, AllMarshal;
      ghost var vs := ConditionValues(conditions);
      var i, k := end, |conditions|;
      NoElements(0x1a, ConditionCodec(time), vs);
      while k > 0
        invariant 0 <= k <= |conditions| && ConditionValues(conditions) == vs
        invariant AllMarshal(ConditionCodec(time), vs[k..]) && LastFailure(ConditionCodec(time), vs[k..]).None?
        invariant 0 <= i == end - ElementsSize(ConditionCodec(time), vs[k..])
        invariant buf[i..end] == AllBytes(ElementRecords(0x1a, ConditionCodec(time), vs[k..]))
        invariant forall j :: 0 <= j < end - ElementsSize(ConditionCodec(time), vs) || end <= j < buf.Length ==>
                    buf[j] == old(buf[j])
      {
        k := k - 1;
        ElementsStep(0x1a, ConditionCodec(time), vs, k);
        ElementsSuffix(ConditionCodec(time), vs, k);
        ghost var tail := buf[i..end];
        r := conditions[k].MarshalToSizedBuffer(time, buf, i);
        assert ConditionValues(conditions) == vs;
        if r.WriteFailed? { return; }
        assert buf[i..end] == tail;
        i := PutHeader(buf, i - r.n, end, 0x1a, r.n, tail);
        assert ConditionValues(conditions) == vs;
      }
      assert vs[0..] == vs;
      r := Wrote(end - i);
    }

    method MarshalToSizedBuffer(time: SubCodec<T>, buf: array<byte>, end: nat) returns (r: WriteResult)
      requires forall i :: 0 <= i < |conditions| ==> Announces(time, ConditionValues(conditions)[i].lastTransitionTime)
      requires StatusSize(time, Value()) <= end <= buf.Length < TWO_63
      modifies buf
      ensures LastFailure(ConditionCodec(time), Value().conditions) == if r.Wrote? then None else Some(r.err)
      ensures r.Wrote? ==> StatusMarshals(time, Value()) && r.n == StatusSize(time, Value()) <= end
      ensures r.Wrote? ==> buf[end - r.n..end] == EncodeStatus(time, Value())
      ensures forall k :: 0 <= k < end - StatusSize(time, Value()) || end <= k < buf.Length ==> buf[k] == old(buf[k])
    {
      hide Sov, Bytes, AllBytes, ChunkRecord, EncodeStatus;
      hide ElementsSize, ElementRecords, LastFailure, ConditionValues, AllMarshal;
      ghost var v := Value();
      r := MarshalConditions(time, buf, end);
      assert ConditionValues(conditions) == v.conditions;
      if r.WriteFailed? { return; }
      StatusBytes(time, v);
      var i := end - r.n;
      ghost var tail := buf[i..end];
      i := PutChunk(buf, i, end, 0x12, phaseMessage, tail);
      tail := buf[i..end];
      i := PutChunk(buf, i, end, 0x0a, phase, tail);
      assert ConditionValues(conditions) == v.conditions;
      r := Wrote(end - i);
    }

    /** Marshal: a buffer of exactly the announced size. */
    method Marshal(time: SubCodec<T>) returns (r: MarshalResult)
      requires forall i :: 0 <= i < |conditions| ==> Announces(time, ConditionValues(conditions)[i].lastTransitionTime)
      requires StatusSize(time, Value()) < TWO_63
      ensures r.Marshalled? <==> StatusMarshals(time, Value())
      ensures r.Marshalled? ==> r.b == EncodeStatus(time, Value()) && |r.b| == StatusSize(time, Value())
      ensures r.MarshalFailed? ==> LastFailure(ConditionCodec(time), Value().conditions) == Some(r.err)
    {
      hide EncodeStatus, StatusSize, ConditionValues, LastFailure, AllMarshal;
      ghost var v := Value();
      var size := Size(time);
      var buf := new byte[size];
      assert ConditionValues(conditions) == v.conditions;
      var n := MarshalToSizedBuffer(time, buf, size);
      assert ConditionValues(conditions) == v.conditions;
      NoFailure(ConditionCodec(time), v.conditions);
      if n.WriteFailed? { return MarshalFailed(n.err); }
      return Marshalled(buf[..n.n]);
    }

    /** Appends a fresh condition and decodes into it; the conditions already there are left alone. */
    method DecodeCondition(time: SubCodec<T>, b: bytes) returns (err: Option<WireError>)
      modifies this
      ensures phase == old(phase) && phaseMessage == old(phaseMessage)
      ensures |conditions| == |old(conditions)| + 1 && conditions[..|old(conditions)|] == old(conditions)
      ensures fresh(conditions[|conditions| - 1])
      ensures ConditionValues(conditions) ==
              old(ConditionValues(conditions)) + [Reached(ConditionSchema(time), ZeroCondition(time), b)]
      ensures err.None? ==>
                Decode(ConditionSchema(time), ZeroCondition(time), b) ==
                Decoded(Reached(ConditionSchema(time), ZeroCondition(time), b))
      ensures err.Some? ==> Decode(ConditionSchema(time), ZeroCondition(time), b) == Rejected(err.value)
    {
      hide Decode, Reached, ConditionSchema, ConditionValues;
      ghost var before, values := conditions, ConditionValues(conditions);
      var c := new Condition(time);
      err := c.Unmarshal(time, b);
      conditions := conditions + [c];
      assert conditions[..|before|] == before;
      assert ConditionValues(before) == values;
      assert ConditionValues(conditions) == values + [c.Value()];
    }

    /** The body of the loop, once a field has been read. */
    method Store(time: SubCodec<T>, num: int, payload: Payload) returns (err: Option<WireError>)
      requires 1 <= num <= 3 && payload.Chunk?
      modifies this
      ensures err.None? ==> StatusPut(time, old(Value()), num, payload) == Decoded(Value())
      ensures err.Some? ==>
                && StatusPut(time, old(Value()), num, payload) == Rejected(err.value)
                && forall n: nat :: Value() == StatusSpill(time, old(Value()), KnownField(num, payload, n))
      ensures old(conditions) <= conditions
      ensures forall i :: |old(conditions)| <= i < |conditions| ==> fresh(conditions[i])
    {
      hide Decode, Reached, ConditionSchema, ConditionValues;
      err := None;
      ghost var at := Value();
      if num == 1 {
        phase := payload.b;
        assert ConditionValues(conditions) == at.conditions;
      } else if num == 2 {
        phaseMessage := payload.b;
        assert ConditionValues(conditions) == at.conditions;
      } else {
        err := DecodeCondition(time, payload.b);
      }
    }

    method Unmarshal(time: SubCodec<T>, data: bytes) returns (err: Option<WireError>)
      modifies this
      ensures err.None? ==> Decode(StatusSchema(time), old(Value()), data) == Decoded(Value())
      ensures err.Some? ==> Decode(StatusSchema(time), old(Value()), data) == Rejected(err.value)
      ensures Value() == Reached(StatusSchema(time), old(Value()), data)
      ensures old(conditions) <= conditions
      ensures forall i :: |old(conditions)| <= i < |conditions| ==> fresh(conditions[i])
    {
      hide DecodeFrom, ReachedFrom, ReadField, ConditionValues, StatusPut;
      ghost var sc := StatusSchema(time);
      ghost var goal, stop := Decode(sc, Value(), data), Reached(sc, Value(), data);
      var index := 0;
      assert data[0..] == data;
      while index < |data|
        invariant index <= |data|
        invariant old(conditions) <= conditions
        invariant forall i :: |old(conditions)| <= i < |conditions| ==> fresh(conditions[i])
        invariant DecodeFrom(sc, Value(), data[index..], index) == goal
        invariant ReachedFrom(sc, Value(), data[index..], index) == stop
      {
        ghost var at := Value();
        DecodeUnfold(sc, at, data[index..], index);
        ReachedUnfold(sc, at, data[index..], index);
        var f := NextField(StatusWant, data, index);
        assert Value() == at;
        if f.BadField? { return Some(f.err); }
        TailSlices(data, index, index + f.next, |data|);
        if f.KnownField? {
          err := Store(time, f.num, f.payload);
          if err.Some? { return; }
        }
        index := index + f.next;
      }
      assert data[index..] == [];
      DecodeEmpty(sc, Decoded(Value()));
      ReachedEmpty(sc, Value());
      return None;
    }
  }

  // ---------------------------------------------------------------- there and back

  /** Marshalling a list and unmarshalling the bytes into a new one: if it marshals at all, an equal list comes
      back exactly when its metadata and that of every item survive their own codec. */
  method CopyList<L, O>(list: SubCodec<L>, meta: SubCodec<O>, src: SettingList<L, O>)
    returns (dst: SettingList<L, O>, err: Option<WireError>)
    requires Announces(list, src.listMeta)
    requires forall i :: 0 <= i < |src.items| ==> Announces(meta, ItemValues(src.items)[i].objectMeta)
    requires ListSize(list, meta, src.Value()) < TWO_63
    ensures fresh(dst) && AllFresh(dst.items, 0)
    ensures ListMarshals(list, meta, src.Value()) ==>
              ((err.None? && dst.Value() == src.Value()) <==>
               (&& Survives(list, src.Value().listMeta)
                && forall i :: 0 <= i < |src.Value().items| ==> Survives(meta, src.Value().items[i].objectMeta)))
    ensures !ListMarshals(list, meta, src.Value()) ==> err == ListFailure(list, meta, src.Value())
  {
    hide EncodeList, ElementsSize, Sov, ItemValues, LastFailure, AllMarshal, Decode, ListSchema, Survives;
    ghost var v := src.Value();
    dst := new SettingList(list);
    assert src.Value() == v;
    var r := src.Marshal(list, meta);
    assert src.Value() == v;
    if r.MarshalFailed? { return dst, Some(r.err); }
    ListRoundTrip(list, meta, v);
    err := dst.Unmarshal(list, meta, r.b);
    assert src.Value() == v;
  }

  /** The same of a Status and the times of its conditions. */
  method CopyStatus<T>(time: SubCodec<T>, src: Status<T>) returns (dst: Status<T>, err: Option<WireError>)
    requires forall i :: 0 <= i < |src.conditions| ==>
               Announces(time, ConditionValues(src.conditions)[i].lastTransitionTime)
    requires StatusSize(time, src.Value()) < TWO_63
    ensures fresh(dst) && forall i :: 0 <= i < |dst.conditions| ==> fresh(dst.conditions[i])
    ensures StatusMarshals(time, src.Value()) ==>
              ((err.None? && dst.Value() == src.Value()) <==>
               forall i :: 0 <= i < |src.Value().conditions| ==>
                 Survives(time, src.Value().conditions[i].lastTransitionTime))
    ensures !StatusMarshals(time, src.Value()) ==> err == LastFailure(ConditionCodec(time), src.Value().conditions)
  {
    hide EncodeStatus, StatusSize, ConditionValues, LastFailure, AllMarshal, Decode, StatusSchema, Survives;
    ghost var v := src.Value();
    dst := new Status();
    assert ConditionValues(src.conditions) == v.conditions;
    var r := src.Marshal(time);
    if r.MarshalFailed? { return dst, Some(r.err); }
    StatusRoundTrip(time, v);
    err := dst.Unmarshal(time, r.b);
    assert ConditionValues(src.conditions) == v.conditions;
  }
}
