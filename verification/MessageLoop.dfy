/** The loop every message decoder shares: read a tag, dispatch on the field number, read the payload the
    field accepts or skip a record nobody knows.  A message type supplies a schema: which field numbers it
    has and what storing a payload in one does.  The byte-level loop is shown to decode exactly the
    sequences of well-formed records, by applying them one after another. */
module MessageLoop {
  import opened Options
  import opened Integers
  import opened Varint
  import opened WireGrammar

  /** A Go byte slice or string: its length is an `int`. */
  type bytes = s: seq<byte> | |s| < TWO_63

  datatype Want = Unknown | WantVarint | WantBytes
  datatype Payload = Number(v: uint64) | Chunk(b: bytes)
  datatype DecodeResult<M> = Decoded(m: M) | Rejected(err: WireError)

  /** What a message type supplies: the payload each field number wants, what storing one does, and what is left
      of the message by a field that cannot be read or stored. */
  datatype Schema<!M> = Schema(
    want: int -> Want,
    put: (M, int, Payload) -> DecodeResult<M>,
    spill: (M, Field) -> M)

  /** The number field that was being read, and what had been accumulated of it. */
  datatype Cut = Cut(num: int, acc: uint64)

  datatype Field =
    | KnownField(num: int, payload: Payload, next: nat)
    | SkippedField(next: nat)
    | BadField(err: WireError, cut: Option<Cut>)

  // ---------------------------------------------------------------- the byte level

  function FieldNumber(wire: uint64): (num: int) {
    ToInt32(wire / 8)
  }

  /** `off` is the index of s in the whole input: the checks for wrap-around see absolute indices. */
  function ReadChunk(num: int, s: seq<byte>, n: nat, off: nat): (f: Field)
    requires n <= |s| && off + |s| < TWO_63
    ensures !f.BadField? ==> f.KnownField? && f.num == num && f.payload.Chunk? && n < f.next <= |s|
  {
    match ReadVarint(s[n..])
    case VarintFail(e, _) => BadField(e, None)
    case VarintOk(len, k) =>
      if ToInt64(len) < 0 then BadField(InvalidLength, None)
      else
        var post := WrapAdd(off + n + k, len);
        if post < 0 then BadField(InvalidLength, None)
        else if post > off + |s| then BadField(UnexpectedEOF, None)
        else KnownField(num, Chunk(s[n + k..n + k + len]), n + k + len)
  }

  function ReadNumber(num: int, s: seq<byte>, n: nat): (f: Field)
    requires n <= |s|
    ensures !f.BadField? ==> f.KnownField? && n < f.next <= |s|
  {
    match ReadVarint(s[n..])
    case VarintFail(e, acc) => BadField(e, Some(Cut(num, acc)))
    case VarintOk(v, k) => KnownField(num, Number(v), n + k)
  }

  function ReadUnknown(s: seq<byte>, off: nat): (f: Field)
    requires off + |s| < TWO_63
    ensures !f.BadField? ==> f.SkippedField? && 0 < f.next <= |s|
  {
    match Skip(s)
    case SkipFail(e) => BadField(e, None)
    case SkipOk(k) =>
      if WrapAdd(off, k) < 0 then BadField(InvalidLength, None)
      else if WrapAdd(off, k) > off + |s| then BadField(UnexpectedEOF, None)
      else SkippedField(k)
  }

  /** One turn of a decoder's loop, up to storing the payload. */
  function ReadField(want: int -> Want, s: seq<byte>, off: nat): (f: Field)
    requires off + |s| < TWO_63
    ensures !f.BadField? ==> 0 < f.next <= |s|
    ensures f.KnownField? ==> want(f.num) == if f.payload.Chunk? then WantBytes else WantVarint
  {
    match ReadVarint(s)
    case VarintFail(e, _) => BadField(e, None)
    case VarintOk(wire, n) =>
      var num := FieldNumber(wire);
      var wireType := wire % 8;
      if wireType == 4 then BadField(EndGroupForNonGroup, None)
      else if num <= 0 then BadField(IllegalTag, None)
      else match want(num)
        case WantBytes => if wireType != 2 then BadField(WrongWireType, None) else ReadChunk(num, s, n, off)
        case WantVarint => if wireType != 0 then BadField(WrongWireType, None) else ReadNumber(num, s, n)
        case Unknown => ReadUnknown(s, off)
  }

  /** What the rest of a decoder's run does, from index `off` with s still to read. */
  function DecodeFrom<M>(sc: Schema<M>, m: M, s: seq<byte>, off: nat): (r: DecodeResult<M>)
    requires off + |s| < TWO_63
    decreases |s|
  {
    if s == [] then Decoded(m)
    else match ReadField(sc.want, s, off)
      case BadField(e, _) => Rejected(e)
      case SkippedField(n) => DecodeFrom(sc, m, s[n..], off + n)
      case KnownField(num, payload, n) =>
        match sc.put(m, num, payload)
        case Rejected(e) => Rejected(e)
        case Decoded(m') => DecodeFrom(sc, m', s[n..], off + n)
  }

  lemma DecodeUnfold<M>(sc: Schema<M>, m: M, s: seq<byte>, off: nat)
    requires s != [] && off + |s| < TWO_63
    ensures var f := ReadField(sc.want, s, off);
            && (f.BadField? ==> DecodeFrom(sc, m, s, off) == Rejected(f.err))
            && (f.SkippedField? ==> DecodeFrom(sc, m, s, off) == DecodeFrom(sc, m, s[f.next..], off + f.next))
            && (f.KnownField? ==> DecodeFrom(sc, m, s, off) ==
                                  ThenDecode(sc, sc.put(m, f.num, f.payload), s[f.next..], off + f.next))
  {
    hide ReadField;
  }

  /** What the message holds when the decoder returns: everything it decoded, and if it stops at a field, what
      that field leaves. */
  function ReachedFrom<M>(sc: Schema<M>, m: M, s: seq<byte>, off: nat): (r: M)
    requires off + |s| < TWO_63
    decreases |s|
  {
    if s == [] then m
    else match ReadField(sc.want, s, off)
      case BadField(e, cut) => sc.spill(m, BadField(e, cut))
      case SkippedField(n) => ReachedFrom(sc, m, s[n..], off + n)
      case KnownField(num, payload, n) =>
        match sc.put(m, num, payload)
        case Rejected(_) => sc.spill(m, KnownField(num, payload, n))
        case Decoded(m') => ReachedFrom(sc, m', s[n..], off + n)
  }

  lemma ReachedUnfold<M>(sc: Schema<M>, m: M, s: seq<byte>, off: nat)
    requires s != [] && off + |s| < TWO_63
    ensures var f := ReadField(sc.want, s, off);
            && (f.BadField? ==> ReachedFrom(sc, m, s, off) == sc.spill(m, f))
            && (f.SkippedField? ==> ReachedFrom(sc, m, s, off) == ReachedFrom(sc, m, s[f.next..], off + f.next))
            && (f.KnownField? ==> var p := sc.put(m, f.num, f.payload);
                                  && (p.Rejected? ==> ReachedFrom(sc, m, s, off) == sc.spill(m, f))
                                  && (p.Decoded? ==> ReachedFrom(sc, m, s, off) ==
                                                     ReachedFrom(sc, p.m, s[f.next..], off + f.next)))
  {
    hide ReadField;
  }

  function Reached<M>(sc: Schema<M>, m: M, b: bytes): (r: M) {
    ReachedFrom(sc, m, b, 0)
  }

  lemma ReachedEmpty<M>(sc: Schema<M>, m: M)
    ensures forall off: nat :: off < TWO_63 ==> ReachedFrom(sc, m, [], off) == m
  {
  }

  /** Unmarshal: decodes b on top of what m already holds. */
  function Decode<M>(sc: Schema<M>, m: M, b: bytes): (r: DecodeResult<M>) {
    DecodeFrom(sc, m, b, 0)
  }

  /** The shared part of a decoder's loop body, run at `index`. */
  method NextField(want: int -> Want, data: bytes, index: nat) returns (f: Field)
    requires index < |data|
    ensures f == ReadField(want, data[index..], index)
  {
    hide ReadVarint, Skip, FieldNumber;
    var tag := DecodeVarint(data, index);
    if tag.VarintFail? { return BadField(tag.err, None); }
    var at := index + tag.n;
    var num := FieldNumber(tag.v);
    var wireType := tag.v % 8;
    if wireType == 4 { return BadField(EndGroupForNonGroup, None); }
    if num <= 0 { return BadField(IllegalTag, None); }
    match want(num)
    case WantBytes =>
      if wireType != 2 { return BadField(WrongWireType, None); }
      f := NextChunk(num, data, index, at);
    case WantVarint =>
      if wireType != 0 { return BadField(WrongWireType, None); }
      var value := DecodeVarint(data, at);
      TailSlices(data, index, at, at);
      if value.VarintFail? { return BadField(value.err, Some(Cut(num, value.acc))); }
      f := KnownField(num, Number(value.v), tag.n + value.n);
    case Unknown =>
      var skippy := SkipGenerated(data[index..]);
      if skippy.SkipFail? { return BadField(skippy.err, None); }
      if WrapAdd(index, skippy.n) < 0 { return BadField(InvalidLength, None); }
      if WrapAdd(index, skippy.n) > |data| { return BadField(UnexpectedEOF, None); }
      f := SkippedField(skippy.n);
  }

  method NextChunk(num: int, data: bytes, index: nat, at: nat) returns (f: Field)
    requires index <= at <= |data|
    ensures f == ReadChunk(num, data[index..], at - index, index)
  {
    hide ReadVarint;
    var length := DecodeVarint(data, at);
    TailSlices(data, index, at, at);
    if length.VarintFail? { return BadField(length.err, None); }
    var start := at + length.n;
    if ToInt64(length.v) < 0 { return BadField(InvalidLength, None); }
    var post := WrapAdd(start, ToInt64(length.v));
    if post < 0 { return BadField(InvalidLength, None); }
    if post > |data| { return BadField(UnexpectedEOF, None); }
    TailSlices(data, index, start, post);
    f := KnownField(num, Chunk(data[start..post]), post - index);
  }

  lemma TailSlices(data: seq<byte>, index: nat, i: nat, j: nat)
    requires index <= i <= j <= |data|
    ensures data[index..][i - index..] == data[i..] && data[index..][i - index..j - index] == data[i..j]
  {
  }

  // ---------------------------------------------------------------- the record level

  /** What one record does to a message. */
  function Apply<M>(sc: Schema<M>, m: M, r: Record): (res: DecodeResult<M>)
    requires WellFormed(r) && |Bytes(r)| < TWO_63
  {
    var num := FieldNumber(VarintValue(r.tag));
    if num <= 0 then Rejected(IllegalTag)
    else match sc.want(num)
      case Unknown => Decoded(m)
      case WantBytes => if r.DelimitedRecord? then sc.put(m, num, Chunk(r.value)) else Rejected(WrongWireType)
      case WantVarint =>
        if r.VarintRecord? then sc.put(m, num, Number(VarintValue(r.value))) else Rejected(WrongWireType)
  }

  function ApplyAll<M>(sc: Schema<M>, m: M, rs: seq<Record>): (res: DecodeResult<M>)
    requires AllWellFormed(rs) && |AllBytes(rs)| < TWO_63
  {
    if rs == [] then Decoded(m)
    else match Apply(sc, m, rs[0])
      case Rejected(e) => Rejected(e)
      case Decoded(m') => ApplyAll(sc, m', rs[1..])
  }

  /** Goes on with more records, or with more bytes, unless already rejected. */
  function ThenApply<M>(sc: Schema<M>, x: DecodeResult<M>, rs: seq<Record>): (res: DecodeResult<M>)
    requires AllWellFormed(rs) && |AllBytes(rs)| < TWO_63
  {
    if x.Decoded? then ApplyAll(sc, x.m, rs) else x
  }

  function ThenDecode<M>(sc: Schema<M>, x: DecodeResult<M>, s: seq<byte>, off: nat): (res: DecodeResult<M>)
    requires off + |s| < TWO_63
  {
    if x.Decoded? then DecodeFrom(sc, x.m, s, off) else x
  }

  // ---------------------------------------------------------------- the two levels agree

  lemma RecordStart(r: Record)
    requires WellFormed(r)
    ensures IsVarint(r.tag) && r.tag <= Bytes(r) && VarintValue(r.tag) % 8 != 4
    ensures VarintValue(r.tag) % 8 == 0 <==> r.VarintRecord?
    ensures VarintValue(r.tag) % 8 == 2 <==> r.DelimitedRecord?
  {
    hide VarintValue, IsVarint;
  }

  lemma ReadRecordTag(r: Record, rest: seq<byte>)
    requires WellFormed(r)
    ensures ReadVarint(Bytes(r) + rest) == VarintOk(VarintValue(r.tag), |r.tag|)
  {
    hide ReadVarint, VarintValue, IsVarint, WellFormed, Bytes;
    RecordStart(r);
    var tail := Bytes(r)[|r.tag|..];
    ReadVarintOf(r.tag, tail + rest);
    assert r.tag + (tail + rest) == Bytes(r) + rest;
  }

  lemma ReadChunkOf(num: int, r: Record, rest: seq<byte>, off: nat)
    requires WellFormed(r) && r.DelimitedRecord? && off + |Bytes(r)| + |rest| < TWO_63
    ensures ReadChunk(num, Bytes(r) + rest, |r.tag|, off) == KnownField(num, Chunk(r.value), |Bytes(r)|)
  {
    hide ReadVarint, VarintValue, IsVarint;
    var s := Bytes(r) + rest;
    assert s[|r.tag|..] == r.length + (r.value + rest);
    ReadVarintOf(r.length, r.value + rest);
    var k := |r.tag| + |r.length|;
    assert s[k..k + |r.value|] == r.value;
  }

  lemma ReadNumberOf(num: int, r: Record, rest: seq<byte>)
    requires WellFormed(r) && r.VarintRecord?
    ensures ReadNumber(num, Bytes(r) + rest, |r.tag|) == KnownField(num, Number(VarintValue(r.value)), |Bytes(r)|)
  {
    hide ReadVarint, VarintValue, IsVarint;
    assert (Bytes(r) + rest)[|r.tag|..] == r.value + rest;
    ReadVarintOf(r.value, rest);
  }

  lemma ReadUnknownOf(r: Record, rest: seq<byte>, off: nat)
    requires WellFormed(r) && off + |Bytes(r)| + |rest| < TWO_63
    ensures ReadUnknown(Bytes(r) + rest, off) == SkippedField(|Bytes(r)|)
  {
    hide WellFormed, Bytes;
    SkipRecord(Bytes(r) + rest, 0, r, 0);
  }

  /** How a record is read does not depend on what follows it. */
  lemma ReadRecord(want: int -> Want, r: Record, rest: seq<byte>, off: nat)
    requires WellFormed(r) && off + |Bytes(r)| + |rest| < TWO_63
    ensures ReadField(want, Bytes(r) + rest, off) == RecordField(want, r)
  {
    hide ReadVarint, VarintValue, WellFormed, Bytes, ReadChunk, ReadNumber, ReadUnknown, FieldNumber;
    RecordStart(r);
    ReadRecordTag(r, rest);
    var num := FieldNumber(VarintValue(r.tag));
    if r.DelimitedRecord? { ReadChunkOf(num, r, rest, off); }
    if r.VarintRecord? { ReadNumberOf(num, r, rest); }
    ReadUnknownOf(r, rest, off);
  }

  function RecordField(want: int -> Want, r: Record): (f: Field)
    requires WellFormed(r) && |Bytes(r)| < TWO_63
  {
    var num := FieldNumber(VarintValue(r.tag));
    if num <= 0 then BadField(IllegalTag, None)
    else match want(num)
      case Unknown => SkippedField(|Bytes(r)|)
      case WantBytes =>
        if r.DelimitedRecord? then KnownField(num, Chunk(r.value), |Bytes(r)|) else BadField(WrongWireType, None)
      case WantVarint =>
        if r.VarintRecord? then KnownField(num, Number(VarintValue(r.value)), |Bytes(r)|)
        else BadField(WrongWireType, None)
  }

  /** Decoding a record and whatever follows it is applying the record and decoding what follows. */
  lemma DecodeRecord<M>(sc: Schema<M>, m: M, r: Record, rest: seq<byte>, off: nat)
    requires WellFormed(r) && off + |Bytes(r)| + |rest| < TWO_63
    ensures DecodeFrom(sc, m, Bytes(r) + rest, off) ==
            ThenDecode(sc, Apply(sc, m, r), rest, off + |Bytes(r)|)
  {
    hide ReadField, VarintValue, WellFormed, Bytes, FieldNumber;
    ReadRecord(sc.want, r, rest, off);
    RecordStart(r);
    assert (Bytes(r) + rest)[|Bytes(r)|..] == rest;
  }

  lemma {:induction false} DecodeRecords<M>(sc: Schema<M>, m: M, rs: seq<Record>, rest: seq<byte>, off: nat)
    requires AllWellFormed(rs) && off + |AllBytes(rs)| + |rest| < TWO_63
    ensures DecodeFrom(sc, m, AllBytes(rs) + rest, off) ==
            ThenDecode(sc, ApplyAll(sc, m, rs), rest, off + |AllBytes(rs)|)
    decreases |rs|
  {
    hide DecodeFrom, Apply, Bytes, WellFormed;
    if rs == [] {
      assert AllBytes(rs) + rest == rest;
    } else {
      var r := rs[0];
      var tail := AllBytes(rs[1..]) + rest;
      assert AllBytes(rs) + rest == Bytes(r) + tail;
      DecodeRecord(sc, m, r, tail, off);
      var first := Apply(sc, m, r);
      if first.Decoded? { DecodeRecords(sc, first.m, rs[1..], rest, off + |Bytes(r)|); }
    }
  }

  /** The field a turn of the loop reads is a well-formed record. */
  lemma FieldIsRecord(want: int -> Want, s: seq<byte>, off: nat) returns (r: Record)
    requires off + |s| < TWO_63 && !ReadField(want, s, off).BadField?
    ensures WellFormed(r) && Bytes(r) == s[..ReadField(want, s, off).next]
  {
    hide ReadVarint, VarintValue, IsVarint, FieldNumber, Skip;
    var f := ReadField(want, s, off);
    if f.SkippedField? {
      r := SkippedRecord(s, f.next);
      return;
    }
    assert s[0..] == s;
    var tag := VarintReadAt(s, 0);
    var value := VarintReadAt(s, |tag|);
    var k := |tag| + |value|;
    if f.payload.Chunk? {
      r := DelimitedRecord(tag, value, s[k..f.next]);
    } else {
      r := VarintRecord(tag, value);
    }
    JoinSlices(s, 0, |tag|, k);
    JoinSlices(s, 0, k, f.next);
  }

  /** An input is accepted only as a sequence of well-formed records with nothing left over. */
  lemma {:induction false} AcceptedRecords<M>(sc: Schema<M>, m: M, s: seq<byte>, off: nat) returns (rs: seq<Record>)
    requires off + |s| < TWO_63 && DecodeFrom(sc, m, s, off).Decoded?
    ensures AllWellFormed(rs) && AllBytes(rs) == s
    decreases |s|
  {
    hide ReadField, WellFormed, Bytes;
    rs := [];
    if s != [] {
      var f := ReadField(sc.want, s, off);
      var r := FieldIsRecord(sc.want, s, off);
      var m' := if f.SkippedField? then m else sc.put(m, f.num, f.payload).m;
      var tail := AcceptedRecords(sc, m', s[f.next..], off + f.next);
      rs := [r] + tail;
      AllBytesCons(r, tail);
      assert s == s[..f.next] + s[f.next..];
    }
  }

  /** Nothing after a field affects how it is read. */
  lemma ReadFieldPrefix(want: int -> Want, s: seq<byte>, off: nat, rest: seq<byte>)
    requires off + |s| < TWO_63 && !ReadField(want, s, off).BadField?
    requires off + ReadField(want, s, off).next + |rest| < TWO_63
    ensures ReadField(want, s[..ReadField(want, s, off).next] + rest, off) == ReadField(want, s, off)
  {
    hide ReadVarint, VarintValue, WellFormed, Bytes, ReadChunk, ReadNumber, ReadUnknown, FieldNumber;
    var n := ReadField(want, s, off).next;
    var r := FieldIsRecord(want, s, off);
    assert s == Bytes(r) + s[n..];
    ReadRecord(want, r, s[n..], off);
    ReadRecord(want, r, rest, off);
  }

  lemma TakeMore(s: seq<byte>, n: nat, j: nat)
    requires n + j <= |s|
    ensures s[..n + j] == s[..n] + s[n..][..j] && s[..n + j][n..] == s[n..][..j] && s[n..][j..] == s[n + j..]
  {
  }

  /** A field that stops the decoder of a message holding m. */
  ghost predicate Stops<M>(sc: Schema<M>, m: M, f: Field) {
    f.BadField? || (f.KnownField? && sc.put(m, f.num, f.payload).Rejected?)
  }

  /** When a decoder returns, some prefix of the input has been decoded: all of it if it accepts, and otherwise
      what comes before the field that stops it, which leaves what it leaves of the message decoded so far. */
  lemma {:induction false} ReachedIsPrefix<M>(sc: Schema<M>, m: M, s: seq<byte>, off: nat) returns (k: nat, m': M)
    requires off + |s| < TWO_63
    ensures k <= |s| && DecodeFrom(sc, m, s[..k], off) == Decoded(m')
    ensures DecodeFrom(sc, m, s, off).Decoded? <==> k == |s|
    ensures k == |s| ==> ReachedFrom(sc, m, s, off) == m'
    ensures k < |s| ==> var f := ReadField(sc.want, s[k..], off + k);
                        Stops(sc, m', f) && ReachedFrom(sc, m, s, off) == sc.spill(m', f)
    decreases |s|
  {
    hide ReadField;
    k, m' := 0, m;
    assert s[0..] == s;
    if s != [] {
      var f := ReadField(sc.want, s, off);
      if !Stops(sc, m, f) {
        var rest := s[f.next..];
        var next := if f.KnownField? then sc.put(m, f.num, f.payload).m else m;
        var j;
        j, m' := ReachedIsPrefix(sc, next, rest, off + f.next);
        k := f.next + j;
        ReadFieldPrefix(sc.want, s, off, rest[..j]);
        TakeMore(s, f.next, j);
      }
    }
  }

  /** The decoder against the grammar: it accepts b, yielding m', exactly when b is some sequence of
      well-formed records whose application to m yields m'. */
  lemma DecodeIffRecords<M>(sc: Schema<M>, m: M, b: bytes, m': M)
    ensures Decode(sc, m, b) == Decoded(m') <==>
            exists rs :: AllWellFormed(rs) && AllBytes(rs) == b && ApplyAll(sc, m, rs) == Decoded(m')
  {
    hide DecodeFrom, ApplyAll, AllBytes, AllWellFormed;
    if Decode(sc, m, b).Decoded? {
      var rs := AcceptedRecords(sc, m, b, 0);
      DecodeAllRecords(sc, m, rs, b);
    }
    forall rs | AllWellFormed(rs) && AllBytes(rs) == b && ApplyAll(sc, m, rs) == Decoded(m')
      ensures Decode(sc, m, b) == Decoded(m')
    {
      DecodeAllRecords(sc, m, rs, b);
    }
  }

  lemma DecodeAllRecords<M>(sc: Schema<M>, m: M, rs: seq<Record>, b: bytes)
    requires AllWellFormed(rs) && AllBytes(rs) == b
    ensures Decode(sc, m, b) == ApplyAll(sc, m, rs)
  {
    hide DecodeFrom, ApplyAll, AllBytes, AllWellFormed;
    DecodeRecords(sc, m, rs, [], 0);
    assert AllBytes(rs) + [] == b;
    DecodeEmpty(sc, ApplyAll(sc, m, rs));
  }

  // ---------------------------------------------------------------- where the input starts

  /** Equal, or both rejected; the error can differ only in whether a length that runs past the end
      also wraps around. */
  ghost predicate SameOutcome<M>(x: DecodeResult<M>, y: DecodeResult<M>) {
    || x == y
    || (x.Rejected? && y.Rejected? && {x.err, y.err} == {InvalidLength, UnexpectedEOF})
  }

  lemma ReadFieldShift(want: int -> Want, s: seq<byte>, off: nat, off': nat)
    requires off + |s| < TWO_63 && off' + |s| < TWO_63
    ensures var f, g := ReadField(want, s, off), ReadField(want, s, off');
            f == g || (f.BadField? && g.BadField? && {f.err, g.err} == {InvalidLength, UnexpectedEOF})
  {
    hide ReadVarint, Skip, FieldNumber;
  }

  lemma {:induction false} DecodeShift<M>(sc: Schema<M>, m: M, s: seq<byte>, off: nat, off': nat)
    requires off + |s| < TWO_63 && off' + |s| < TWO_63
    ensures SameOutcome(DecodeFrom(sc, m, s, off), DecodeFrom(sc, m, s, off'))
    decreases |s|
  {
    hide ReadField;
    if s != [] {
      ReadFieldShift(sc.want, s, off, off');
      var f := ReadField(sc.want, s, off);
      if f.SkippedField? {
        DecodeShift(sc, m, s[f.next..], off + f.next, off' + f.next);
      } else if f.KnownField? {
        var p := sc.put(m, f.num, f.payload);
        if p.Decoded? { DecodeShift(sc, p.m, s[f.next..], off + f.next, off' + f.next); }
      }
    }
  }

  // ---------------------------------------------------------------- concatenation and unknown fields

  /** If a decodes on top of m, decoding a followed by anything is decoding a and then the rest. */
  lemma ConcatIsMerge<M>(sc: Schema<M>, m: M, a: bytes, b: bytes)
    requires |a + b| < TWO_63 && Decode(sc, m, a).Decoded?
    ensures SameOutcome(Decode(sc, m, a + b), Decode(sc, Decode(sc, m, a).m, b))
  {
    hide DecodeFrom, ApplyAll, AllBytes, AllWellFormed;
    var rs := AcceptedRecords(sc, m, a, 0);
    DecodeAllRecords(sc, m, rs, a);
    DecodeRecords(sc, m, rs, b, 0);
    DecodeShift(sc, Decode(sc, m, a).m, b, |a|, 0);
  }

  lemma DecodeEmpty<M>(sc: Schema<M>, r: DecodeResult<M>)
    ensures forall off: nat :: r.Decoded? && off < TWO_63 ==> DecodeFrom(sc, r.m, [], off) == r
  {
  }

  /** A well-formed record whose field number is positive and not in the schema may be inserted at any
      field boundary, whatever follows, without changing what is decoded. */
  lemma UnknownTransparent<M>(sc: Schema<M>, m: M, a: bytes, r: Record, b: bytes)
    requires |a| + |Bytes(r)| + |b| < TWO_63 && Decode(sc, m, a).Decoded? && WellFormed(r)
    requires FieldNumber(VarintValue(r.tag)) > 0
    requires sc.want(FieldNumber(VarintValue(r.tag))) == Unknown
    ensures SameOutcome(Decode(sc, m, a + Bytes(r) + b), Decode(sc, m, a + b))
  {
    hide DecodeFrom, ApplyAll, AllBytes, AllWellFormed, WellFormed, Bytes, FieldNumber, VarintValue;
    var rs := AcceptedRecords(sc, m, a, 0);
    DecodeAllRecords(sc, m, rs, a);
    var m1 := Decode(sc, m, a).m;
    DecodeRecords(sc, m, rs, Bytes(r) + b, 0);
    assert a + (Bytes(r) + b) == a + Bytes(r) + b;
    DecodeRecord(sc, m1, r, b, |a|);
    DecodeRecords(sc, m, rs, b, 0);
    DecodeShift(sc, m1, b, |a| + |Bytes(r)|, |a|);
  }
}
