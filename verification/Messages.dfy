/** The six message types of the v1 API as values: the records each is written as, its size, its decoding
    schema, and what decoding one encoded message on top of another yields. */
module Messages {
  import opened Options
  import opened Integers
  import opened Varint
  import opened WireGrammar
  import opened MessageLoop
  import opened Codecs

  // ---------------------------------------------------------------- values

  datatype Condition<T> = Condition(
    typ: bytes, status: bytes, lastTransitionTime: T, observedGeneration: int64, reason: bytes, message: bytes)

  datatype SettingSpec = SettingSpec(value: Option<bytes>)

  datatype SettingStatus = SettingStatus(description: bytes, editable: bool, sensitive: bool, value: bytes)

  datatype Setting<O> = Setting(objectMeta: O, spec: SettingSpec, status: SettingStatus)

  datatype SettingList<L, O> = SettingList(listMeta: L, items: seq<Setting<O>>)

  datatype Status<T> = Status(phase: bytes, phaseMessage: bytes, conditions: seq<Condition<T>>)

  function ZeroCondition<T>(time: SubCodec<T>): Condition<T> { Condition([], [], time.zero, 0, [], []) }
  const ZERO_SPEC := SettingSpec(None)
  const ZERO_SETTING_STATUS := SettingStatus([], false, false, [])
  function ZeroSetting<O>(meta: SubCodec<O>): Setting<O> { Setting(meta.zero, ZERO_SPEC, ZERO_SETTING_STATUS) }
  function ZeroSettingList<L, O>(list: SubCodec<L>): SettingList<L, O> { SettingList(list.zero, []) }
  function ZeroStatus<T>(): Status<T> { Status([], [], []) }

  // ---------------------------------------------------------------- schemas

  function ConditionWant(num: int): Want {
    if num == 4 then WantVarint else if 1 <= num <= 6 then WantBytes else Unknown
  }

  function ConditionPut<T>(time: SubCodec<T>, m: Condition<T>, num: int, p: Payload): DecodeResult<Condition<T>> {
    match p
    case Number(v) => Decoded(m.(observedGeneration := ToInt64(v)))
    case Chunk(b) =>
      if num == 1 then Decoded(m.(typ := b))
      else if num == 2 then Decoded(m.(status := b))
      else if num == 3 then
        match time.unmarshal(m.lastTransitionTime, b) {
          case Rejected(e) => Rejected(e)
          case Decoded(t) => Decoded(m.(lastTransitionTime := t))
        }
      else if num == 5 then Decoded(m.(reason := b))
      else Decoded(m.(message := b))
  }

  /** The time is decoded in place and the generation is accumulated in place, so both can be left half read. */
  function ConditionSpill<T>(time: SubCodec<T>, m: Condition<T>, f: Field): Condition<T> {
    match f
    case KnownField(num, Chunk(b), _) =>
      if num == 3 then m.(lastTransitionTime := time.spill(m.lastTransitionTime, b)) else m
    case BadField(_, Some(Cut(num, acc))) => m.(observedGeneration := ToInt64(acc))
    case _ => m
  }

  function ConditionSchema<T>(time: SubCodec<T>): Schema<Condition<T>> {
    Schema(ConditionWant, (m, num, p) => ConditionPut(time, m, num, p), (m, f) => ConditionSpill(time, m, f))
  }

  function SpecWant(num: int): Want { if num == 1 then WantBytes else Unknown }

  function SpecPut(m: SettingSpec, num: int, p: Payload): DecodeResult<SettingSpec> {
    match p
    case Number(_) => Decoded(m)
    case Chunk(b) => Decoded(SettingSpec(Some(b)))
  }

  function SpecSchema(): Schema<SettingSpec> { Schema(SpecWant, SpecPut, (m, f) => m) }

  function SettingStatusWant(num: int): Want {
    if num == 1 || num == 4 then WantBytes else if num == 2 || num == 3 then WantVarint else Unknown
  }

  function SettingStatusPut(m: SettingStatus, num: int, p: Payload): DecodeResult<SettingStatus> {
    match p
    case Number(v) => Decoded(if num == 2 then m.(editable := v != 0) else m.(sensitive := v != 0))
    case Chunk(b) => Decoded(if num == 1 then m.(description := b) else m.(value := b))
  }

  function SettingStatusSchema(): Schema<SettingStatus> {
    Schema(SettingStatusWant, SettingStatusPut, (m, f) => m)
  }

  function SettingWant(num: int): Want { if 1 <= num <= 3 then WantBytes else Unknown }

  function SettingPut<O>(meta: SubCodec<O>, m: Setting<O>, num: int, p: Payload): DecodeResult<Setting<O>> {
    match p
    case Number(_) => Decoded(m)
    case Chunk(b) =>
      if num == 1 then
        match meta.unmarshal(m.objectMeta, b) {
          case Rejected(e) => Rejected(e)
          case Decoded(x) => Decoded(m.(objectMeta := x))
        }
      else if num == 2 then
        match Decode(SpecSchema(), m.spec, b) {
          case Rejected(e) => Rejected(e)
          case Decoded(x) => Decoded(m.(spec := x))
        }
      else
        match Decode(SettingStatusSchema(), m.status, b) {
          case Rejected(e) => Rejected(e)
          case Decoded(x) => Decoded(m.(status := x))
        }
  }

  /** A nested message is decoded in place, as far as it goes. */
  function SettingSpill<O>(meta: SubCodec<O>, m: Setting<O>, f: Field): Setting<O> {
    match f
    case KnownField(num, Chunk(b), _) =>
      if num == 1 then m.(objectMeta := meta.spill(m.objectMeta, b))
      else if num == 2 then m.(spec := Reached(SpecSchema(), m.spec, b))
      else m.(status := Reached(SettingStatusSchema(), m.status, b))
    case _ => m
  }

  function SettingSchema<O>(meta: SubCodec<O>): Schema<Setting<O>> {
    Schema(SettingWant, (m, num, p) => SettingPut(meta, m, num, p), (m, f) => SettingSpill(meta, m, f))
  }

  function ListWant(num: int): Want { if 1 <= num <= 2 then WantBytes else Unknown }

  function ListPut<L, O>(list: SubCodec<L>, meta: SubCodec<O>, m: SettingList<L, O>, num: int, p: Payload)
    : DecodeResult<SettingList<L, O>>
  {
    match p
    case Number(_) => Decoded(m)
    case Chunk(b) =>
      if num == 1 then
        match list.unmarshal(m.listMeta, b) {
          case Rejected(e) => Rejected(e)
          case Decoded(x) => Decoded(m.(listMeta := x))
        }
      else
        match Decode(SettingSchema(meta), ZeroSetting(meta), b) {
          case Rejected(e) => Rejected(e)
          case Decoded(x) => Decoded(m.(items := m.items + [x]))
        }
  }

  /** An item is appended before it is decoded. */
  function ListSpill<L, O>(list: SubCodec<L>, meta: SubCodec<O>, m: SettingList<L, O>, f: Field): SettingList<L, O> {
    match f
    case KnownField(num, Chunk(b), _) =>
      if num == 1 then m.(listMeta := list.spill(m.listMeta, b))
      else m.(items := m.items + [Reached(SettingSchema(meta), ZeroSetting(meta), b)])
    case _ => m
  }

  function ListSchema<L, O>(list: SubCodec<L>, meta: SubCodec<O>): Schema<SettingList<L, O>> {
    Schema(ListWant, (m, num, p) => ListPut(list, meta, m, num, p), (m, f) => ListSpill(list, meta, m, f))
  }

  function StatusWant(num: int): Want { if 1 <= num <= 3 then WantBytes else Unknown }

  function StatusPut<T>(time: SubCodec<T>, m: Status<T>, num: int, p: Payload): DecodeResult<Status<T>> {
    match p
    case Number(_) => Decoded(m)
    case Chunk(b) =>
      if num == 1 then Decoded(m.(phase := b))
      else if num == 2 then Decoded(m.(phaseMessage := b))
      else
        match Decode(ConditionSchema(time), ZeroCondition(time), b) {
          case Rejected(e) => Rejected(e)
          case Decoded(x) => Decoded(m.(conditions := m.conditions + [x]))
        }
  }

  /** A condition is appended before it is decoded. */
  function StatusSpill<T>(time: SubCodec<T>, m: Status<T>, f: Field): Status<T> {
    match f
    case KnownField(num, Chunk(b), _) =>
      if num == 3 then m.(conditions := m.conditions + [Reached(ConditionSchema(time), ZeroCondition(time), b)]) else m
    case _ => m
  }

  function StatusSchema<T>(time: SubCodec<T>): Schema<Status<T>> {
    Schema(StatusWant, (m, num, p) => StatusPut(time, m, num, p), (m, f) => StatusSpill(time, m, f))
  }

  // ---------------------------------------------------------------- encodings

  function BoolNumber(b: bool): uint64 { if b then 1 else 0 }

  predicate ConditionMarshals<T>(time: SubCodec<T>, v: Condition<T>) {
    time.marshal(v.lastTransitionTime).Marshalled?
  }

  function ConditionRecords<T>(time: SubCodec<T>, v: Condition<T>): seq<Record>
    requires ConditionMarshals(time, v)
  {
    [ ChunkRecord(0x0a, v.typ), ChunkRecord(0x12, v.status),
      ChunkRecord(0x1a, time.marshal(v.lastTransitionTime).b),
      NumberRecord(0x20, ToUint64(v.observedGeneration)),
      ChunkRecord(0x2a, v.reason), ChunkRecord(0x32, v.message) ]
  }

  function EncodeCondition<T>(time: SubCodec<T>, v: Condition<T>): seq<byte>
    requires ConditionMarshals(time, v)
  { AllBytes(ConditionRecords(time, v)) }

  function SpecRecords(v: SettingSpec): seq<Record> {
    if v.value.None? then [] else [ChunkRecord(0x0a, v.value.value)]
  }

  function EncodeSpec(v: SettingSpec): seq<byte> { AllBytes(SpecRecords(v)) }

  function SettingStatusRecords(v: SettingStatus): seq<Record> {
    [ ChunkRecord(0x0a, v.description), NumberRecord(0x10, BoolNumber(v.editable)),
      NumberRecord(0x18, BoolNumber(v.sensitive)), ChunkRecord(0x22, v.value) ]
  }

  function EncodeSettingStatus(v: SettingStatus): seq<byte> { AllBytes(SettingStatusRecords(v)) }

  predicate SettingMarshals<O>(meta: SubCodec<O>, v: Setting<O>) { meta.marshal(v.objectMeta).Marshalled? }

  function SettingRecords<O>(meta: SubCodec<O>, v: Setting<O>): seq<Record>
    requires SettingMarshals(meta, v)
  {
    [ ChunkRecord(0x0a, meta.marshal(v.objectMeta).b), ChunkRecord(0x12, EncodeSpec(v.spec)),
      ChunkRecord(0x1a, EncodeSettingStatus(v.status)) ]
  }

  function EncodeSetting<O>(meta: SubCodec<O>, v: Setting<O>): seq<byte>
    requires SettingMarshals(meta, v)
  { AllBytes(SettingRecords(meta, v)) }

  predicate ListMarshals<L, O>(list: SubCodec<L>, meta: SubCodec<O>, v: SettingList<L, O>) {
    list.marshal(v.listMeta).Marshalled? && AllMarshal(SettingCodec(meta), v.items)
  }

  function ListRecords<L, O>(list: SubCodec<L>, meta: SubCodec<O>, v: SettingList<L, O>): seq<Record>
    requires ListMarshals(list, meta, v)
  {
    [ChunkRecord(0x0a, list.marshal(v.listMeta).b)] + ElementRecords(0x12, SettingCodec(meta), v.items)
  }

  function EncodeList<L, O>(list: SubCodec<L>, meta: SubCodec<O>, v: SettingList<L, O>): seq<byte>
    requires ListMarshals(list, meta, v)
  { AllBytes(ListRecords(list, meta, v)) }

  /** What stops the encoder of a list, if anything does. */
  function ListFailure<L, O>(list: SubCodec<L>, meta: SubCodec<O>, v: SettingList<L, O>): (e: Option<WireError>) {
    match LastFailure(SettingCodec(meta), v.items)
    case Some(e) => Some(e)
    case None => Failure(list.marshal(v.listMeta))
  }

  predicate StatusMarshals<T>(time: SubCodec<T>, v: Status<T>) { AllMarshal(ConditionCodec(time), v.conditions) }

  function StatusRecords<T>(time: SubCodec<T>, v: Status<T>): seq<Record>
    requires StatusMarshals(time, v)
  {
    [ChunkRecord(0x0a, v.phase), ChunkRecord(0x12, v.phaseMessage)]
    + ElementRecords(0x1a, ConditionCodec(time), v.conditions)
  }

  function EncodeStatus<T>(time: SubCodec<T>, v: Status<T>): seq<byte>
    requires StatusMarshals(time, v)
  { AllBytes(StatusRecords(time, v)) }

  // ---------------------------------------------------------------- announced sizes

  function ConditionSize<T>(time: SubCodec<T>, v: Condition<T>): nat {
    Delimited(|v.typ|) + Delimited(|v.status|) + Delimited(time.size(v.lastTransitionTime))
    + (1 + Sov(ToUint64(v.observedGeneration))) + Delimited(|v.reason|) + Delimited(|v.message|)
  }

  function SpecSize(v: SettingSpec): nat {
    if v.value.None? then 0 else Delimited(|v.value.value|)
  }

  function SettingStatusSize(v: SettingStatus): nat {
    Delimited(|v.description|) + 2 + 2 + Delimited(|v.value|)
  }

  function SettingSize<O>(meta: SubCodec<O>, v: Setting<O>): nat {
    Delimited(meta.size(v.objectMeta)) + Delimited(SpecSize(v.spec)) + Delimited(SettingStatusSize(v.status))
  }

  function ListSize<L, O>(list: SubCodec<L>, meta: SubCodec<O>, v: SettingList<L, O>): nat {
    Delimited(list.size(v.listMeta)) + ElementsSize(SettingCodec(meta), v.items)
  }

  function StatusSize<T>(time: SubCodec<T>, v: Status<T>): nat {
    Delimited(|v.phase|) + Delimited(|v.phaseMessage|) + ElementsSize(ConditionCodec(time), v.conditions)
  }

  // ---------------------------------------------------------------- messages as codecs of other messages

  function ConditionCodec<T>(time: SubCodec<T>): SubCodec<Condition<T>> {
    SubCodec(
      ZeroCondition(time),
      v => ConditionSize(time, v),
      v => if ConditionMarshals(time, v) then Marshalled(EncodeCondition(time, v))
           else MarshalFailed(time.marshal(v.lastTransitionTime).err),
      (m, b) => Decode(ConditionSchema(time), m, b),
      (m, b) => Reached(ConditionSchema(time), m, b))
  }

  function SettingCodec<O>(meta: SubCodec<O>): SubCodec<Setting<O>> {
    SubCodec(
      ZeroSetting(meta),
      v => SettingSize(meta, v),
      v => if SettingMarshals(meta, v) then Marshalled(EncodeSetting(meta, v))
           else MarshalFailed(meta.marshal(v.objectMeta).err),
      (m, b) => Decode(SettingSchema(meta), m, b),
      (m, b) => Reached(SettingSchema(meta), m, b))
  }

  // ---------------------------------------------------------------- what merging means

  function MergeCondition<T>(time: SubCodec<T>, m: Condition<T>, v: Condition<T>): DecodeResult<Condition<T>>
    requires ConditionMarshals(time, v)
  {
    match SubMerge(time, m.lastTransitionTime, v.lastTransitionTime)
    case Rejected(e) => Rejected(e)
    case Decoded(t) => Decoded(v.(lastTransitionTime := t))
  }

  function MergeSpec(m: SettingSpec, v: SettingSpec): SettingSpec { if v.value.None? then m else v }

  function MergeSetting<O>(meta: SubCodec<O>, m: Setting<O>, v: Setting<O>): DecodeResult<Setting<O>>
    requires SettingMarshals(meta, v)
  {
    match SubMerge(meta, m.objectMeta, v.objectMeta)
    case Rejected(e) => Rejected(e)
    case Decoded(x) => Decoded(Setting(x, MergeSpec(m.spec, v.spec), v.status))
  }

  function MergeList<L, O>(list: SubCodec<L>, meta: SubCodec<O>, m: SettingList<L, O>, v: SettingList<L, O>)
    : DecodeResult<SettingList<L, O>>
    requires ListMarshals(list, meta, v)
  {
    match SubMerge(list, m.listMeta, v.listMeta)
    case Rejected(e) => Rejected(e)
    case Decoded(x) =>
      match AppendAll(SettingCodec(meta), m.items, v.items)
      case Rejected(e) => Rejected(e)
      case Decoded(items) => Decoded(SettingList(x, items))
  }

  function MergeStatus<T>(time: SubCodec<T>, m: Status<T>, v: Status<T>): DecodeResult<Status<T>>
    requires StatusMarshals(time, v)
  {
    match AppendAll(ConditionCodec(time), m.conditions, v.conditions)
    case Rejected(e) => Rejected(e)
    case Decoded(cs) => Decoded(Status(v.phase, v.phaseMessage, cs))
  }
}
