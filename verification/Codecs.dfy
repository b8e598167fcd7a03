/** How one value is laid out inside another message: single fields, values of types with their own codec,
    and repeated fields. */
module Codecs {
  import opened Options
  import opened Integers
  import opened Varint
  import opened WireGrammar
  import opened MessageLoop

  datatype MarshalResult = Marshalled(b: seq<byte>) | MarshalFailed(err: WireError)

  /** The codec of a nested type.  Of a type defined elsewhere (ObjectMeta, ListMeta, Time) nothing is known
      but that Size announces what MarshalToSizedBuffer writes. */
  datatype SubCodec<!T> = SubCodec(
    zero: T,
    size: T -> nat,
    marshal: T -> MarshalResult,
    unmarshal: (T, bytes) -> DecodeResult<T>,
    spill: (T, bytes) -> T)   // what a failed unmarshal leaves

  predicate Announces<T>(c: SubCodec<T>, x: T) {
    c.marshal(x).Marshalled? ==> |c.marshal(x).b| == c.size(x)
  }

  /** Unmarshalling what x marshals to, on top of y.  No slice is longer than an int can say. */
  function SubMerge<T>(c: SubCodec<T>, y: T, x: T): (r: DecodeResult<T>)
    requires c.marshal(x).Marshalled?
  {
    if |c.marshal(x).b| < TWO_63 then c.unmarshal(y, c.marshal(x).b) else Rejected(InvalidLength)
  }

  /** Whether a value survives its own codec. */
  ghost predicate Survives<T>(c: SubCodec<T>, x: T) {
    c.marshal(x).Marshalled? && SubMerge(c, c.zero, x) == Decoded(x)
  }

  function ChunkRecord(tag: byte, b: seq<byte>): Record { DelimitedRecord([tag], EncodeVarint(|b|), b) }
  function NumberRecord(tag: byte, v: uint64): Record { VarintRecord([tag], EncodeVarint(v)) }

  /** The size of a delimited field whose payload has n bytes. */
  function Delimited(n: nat): nat { 1 + n + Sov(n) }

  // ---------------------------------------------------------------- single records

  lemma OneByteTag(tag: byte)
    requires tag < 128
    ensures IsVarint([tag]) && VarintValue([tag]) == tag && FieldNumber(tag) == tag / 8
  {
    assert Groups([tag]) == tag;
  }

  lemma ChunkApplies<M>(sc: Schema<M>, m: M, tag: byte, b: seq<byte>)
    requires tag < 128 && tag % 8 == 2 && tag >= 8 && sc.want(tag / 8) == WantBytes
    requires |Bytes(ChunkRecord(tag, b))| < TWO_63
    ensures |b| < TWO_63 && WellFormed(ChunkRecord(tag, b))
    ensures Apply(sc, m, ChunkRecord(tag, b)) == sc.put(m, tag / 8, Chunk(b))
  {
    hide IsVarint, VarintValue, EncodeVarint, FieldNumber;
    OneByteTag(tag);
    EncodeIsVarint(|b|);
  }

  lemma NumberApplies<M>(sc: Schema<M>, m: M, tag: byte, v: uint64)
    requires tag < 128 && tag % 8 == 0 && tag >= 8 && sc.want(tag / 8) == WantVarint
    requires |Bytes(NumberRecord(tag, v))| < TWO_63
    ensures WellFormed(NumberRecord(tag, v))
    ensures Apply(sc, m, NumberRecord(tag, v)) == sc.put(m, tag / 8, Number(v))
  {
    hide IsVarint, VarintValue, EncodeVarint, FieldNumber;
    OneByteTag(tag);
    EncodeIsVarint(v);
  }

  // ---------------------------------------------------------------- record after record

  lemma {:induction false} Suffix(rs: seq<Record>, k: nat)
    requires k <= |rs| && AllWellFormed(rs)
    ensures AllWellFormed(rs[k..]) && |AllBytes(rs[k..])| <= |AllBytes(rs)|
    ensures k < |rs| ==> WellFormed(rs[k]) && |Bytes(rs[k])| <= |AllBytes(rs)|
    decreases k
  {
    hide WellFormed, Bytes;
    if k == 0 {
      assert rs[0..] == rs;
    } else {
      Suffix(rs[1..], k - 1);
      assert rs[k..] == rs[1..][k - 1..];
    }
  }

  lemma ApplyAt<M>(sc: Schema<M>, m: M, rs: seq<Record>, k: nat)
    requires k < |rs| && AllWellFormed(rs) && |AllBytes(rs)| < TWO_63
    ensures AllWellFormed(rs[k..]) && AllWellFormed(rs[k + 1..]) && WellFormed(rs[k])
    ensures |AllBytes(rs[k..])| < TWO_63 && |AllBytes(rs[k + 1..])| < TWO_63 && |Bytes(rs[k])| < TWO_63
    ensures ApplyAll(sc, m, rs[k..]) == ThenApply(sc, Apply(sc, m, rs[k]), rs[k + 1..])
  {
    hide Apply, Bytes, WellFormed;
    Suffix(rs, k);
    Suffix(rs, k + 1);
    assert rs[k..][1..] == rs[k + 1..];
  }

  lemma ChunkAt<M>(sc: Schema<M>, m: M, rs: seq<Record>, k: nat, tag: byte, b: seq<byte>)
    requires k < |rs| && AllWellFormed(rs) && |AllBytes(rs)| < TWO_63 && rs[k] == ChunkRecord(tag, b)
    requires tag < 128 && tag % 8 == 2 && tag >= 8 && sc.want(tag / 8) == WantBytes
    ensures |b| < TWO_63 && AllWellFormed(rs[k..]) && AllWellFormed(rs[k + 1..])
    ensures |AllBytes(rs[k..])| < TWO_63 && |AllBytes(rs[k + 1..])| < TWO_63
    ensures ApplyAll(sc, m, rs[k..]) == ThenApply(sc, sc.put(m, tag / 8, Chunk(b)), rs[k + 1..])
  {
    hide Apply, Bytes, WellFormed, AllBytes, AllWellFormed, ApplyAll;
    ApplyAt(sc, m, rs, k);
    ChunkApplies(sc, m, tag, b);
  }

  lemma NumberAt<M>(sc: Schema<M>, m: M, rs: seq<Record>, k: nat, tag: byte, v: uint64)
    requires k < |rs| && AllWellFormed(rs) && |AllBytes(rs)| < TWO_63 && rs[k] == NumberRecord(tag, v)
    requires tag < 128 && tag % 8 == 0 && tag >= 8 && sc.want(tag / 8) == WantVarint
    ensures AllWellFormed(rs[k..]) && AllWellFormed(rs[k + 1..])
    ensures |AllBytes(rs[k..])| < TWO_63 && |AllBytes(rs[k + 1..])| < TWO_63
    ensures ApplyAll(sc, m, rs[k..]) == ThenApply(sc, sc.put(m, tag / 8, Number(v)), rs[k + 1..])
  {
    hide Apply, Bytes, WellFormed, AllBytes, AllWellFormed, ApplyAll;
    ApplyAt(sc, m, rs, k);
    NumberApplies(sc, m, tag, v);
  }

  lemma ApplyNone<M>(sc: Schema<M>, m: M, rs: seq<Record>)
    ensures AllWellFormed(rs[|rs|..]) && ApplyAll(sc, m, rs[|rs|..]) == Decoded(m)
  {
  }

  // ---------------------------------------------------------------- what is encoded is well formed

  lemma ChunkWellFormed(tag: byte, b: seq<byte>)
    requires tag < 128 && tag % 8 == 2 && |b| < TWO_63
    ensures WellFormed(ChunkRecord(tag, b))
    ensures |Bytes(ChunkRecord(tag, b))| == 1 + Sov(|b|) + |b|
  {
    hide IsVarint, VarintValue, EncodeVarint, Sov;
    OneByteTag(tag);
    EncodeIsVarint(|b|);
    SovIsLength(|b|);
  }

  lemma NumberWellFormed(tag: byte, v: uint64)
    requires tag < 128 && tag % 8 == 0
    ensures WellFormed(NumberRecord(tag, v))
    ensures |Bytes(NumberRecord(tag, v))| == 1 + Sov(v)
  {
    hide IsVarint, VarintValue, EncodeVarint, Sov;
    OneByteTag(tag);
    EncodeIsVarint(v);
    SovIsLength(v);
  }

  lemma ChunkInside(tag: byte, b: seq<byte>)
    ensures |b| <= |Bytes(ChunkRecord(tag, b))|
  {
  }

  /** AllBytes and AllWellFormed of a display, off the front. */
  lemma Cons(rs: seq<Record>)
    requires rs != []
    ensures AllBytes(rs) == Bytes(rs[0]) + AllBytes(rs[1..])
    ensures AllWellFormed(rs) <==> WellFormed(rs[0]) && AllWellFormed(rs[1..])
  {
    hide Bytes, WellFormed;
  }

  lemma ChunkLength(tag: byte, b: seq<byte>)
    ensures |Bytes(ChunkRecord(tag, b))| == 1 + Sov(|b|) + |b|
  {
    hide EncodeVarint, Sov;
    SovIsLength(|b|);
  }

  lemma NoBytes()
    ensures AllBytes([]) == []
  {
  }

  lemma OneByteNumber(v: nat)
    requires v < 128
    ensures Sov(v) == 1
  {
    hide Sov;
    SovIsLength(v);
  }

  lemma Six(rs: seq<Record>)
    requires |rs| <= 6
    ensures |AllBytes(rs)| == (if |rs| > 0 then |Bytes(rs[0])| else 0) + (if |rs| > 1 then |Bytes(rs[1])| else 0)
                            + (if |rs| > 2 then |Bytes(rs[2])| else 0) + (if |rs| > 3 then |Bytes(rs[3])| else 0)
                            + (if |rs| > 4 then |Bytes(rs[4])| else 0) + (if |rs| > 5 then |Bytes(rs[5])| else 0)
    ensures AllWellFormed(rs) <==> forall i :: 0 <= i < |rs| ==> WellFormed(rs[i])
    decreases |rs|
  {
    hide Bytes, WellFormed;
    if rs != [] {
      var tail := rs[1..];
      Six(tail);
      if |rs| > 1 { assert tail[0] == rs[1]; }
      if |rs| > 2 { assert tail[1] == rs[2]; }
      if |rs| > 3 { assert tail[2] == rs[3]; }
      if |rs| > 4 { assert tail[3] == rs[4]; }
      if |rs| > 5 { assert tail[4] == rs[5]; }
      assert forall i :: 0 <= i < |tail| ==> tail[i] == rs[i + 1];
      assert forall i :: 0 < i < |rs| ==> rs[i] == tail[i - 1];
    }
  }

  // ---------------------------------------------------------------- repeated fields

  predicate AllMarshal<E>(c: SubCodec<E>, es: seq<E>) {
    forall i :: 0 <= i < |es| ==> c.marshal(es[i]).Marshalled?
  }

  ghost predicate AllAnnounce<E>(c: SubCodec<E>, es: seq<E>) {
    forall i :: 0 <= i < |es| ==> Announces(c, es[i])
  }

  ghost predicate AllSurvive<E>(c: SubCodec<E>, es: seq<E>) {
    forall i :: 0 <= i < |es| ==> Survives(c, es[i])
  }

  function ElementRecords<E>(tag: byte, c: SubCodec<E>, es: seq<E>): seq<Record>
    requires AllMarshal(c, es)
  {
    if es == [] then [] else [ChunkRecord(tag, c.marshal(es[0]).b)] + ElementRecords(tag, c, es[1..])
  }

  function ElementsSize<E>(c: SubCodec<E>, es: seq<E>): nat {
    if es == [] then 0 else Delimited(c.size(es[0])) + ElementsSize(c, es[1..])
  }

  /** Encoders run from the last element to the first, so the last failure is the one reported. */
  function LastFailure<E>(c: SubCodec<E>, es: seq<E>): (e: Option<WireError>) {
    if es == [] then None
    else match LastFailure(c, es[1..])
      case Some(e) => Some(e)
      case None => Failure(c.marshal(es[0]))
  }

  function Failure(r: MarshalResult): Option<WireError> {
    if r.Marshalled? then None else Some(r.err)
  }

  /** The failure is that of the last element that cannot be marshalled. */
  lemma {:induction false} FailureIsLast<E>(c: SubCodec<E>, es: seq<E>, e: WireError)
    ensures LastFailure(c, es) == Some(e) <==>
            exists k: nat :: k < |es| && c.marshal(es[k]) == MarshalFailed(e) && AllMarshal(c, es[k + 1..])
    decreases |es|
  {
    hide AllMarshal;
    if es != [] {
      var tail := es[1..];
      FailureIsLast(c, tail, e);
      NoFailure(c, tail);
      if LastFailure(c, tail) == Some(e) {
        var k: nat :| k < |tail| && c.marshal(tail[k]) == MarshalFailed(e) && AllMarshal(c, tail[k + 1..]);
        assert es[k + 1] == tail[k] && es[k + 1 + 1..] == tail[k + 1..];
      }
      forall k: nat | k < |es| && c.marshal(es[k]) == MarshalFailed(e) && AllMarshal(c, es[k + 1..])
        ensures LastFailure(c, es) == Some(e)
      {
        if k > 0 {
          var j: nat := k - 1;
          assert es[k + 1..] == tail[j + 1..] && tail[j] == es[k];
        }
      }
    }
  }

  lemma {:induction false} NoFailure<E>(c: SubCodec<E>, es: seq<E>)
    ensures LastFailure(c, es).None? <==> AllMarshal(c, es)
    decreases |es|
  {
    if es != [] {
      NoFailure(c, es[1..]);
      assert forall i :: 0 < i < |es| ==> es[i] == es[1..][i - 1];
    }
  }

  /** Elements are decoded in order, each into a zero value, and appended. */
  function AppendAll<E>(c: SubCodec<E>, es: seq<E>, more: seq<E>): DecodeResult<seq<E>>
    requires AllMarshal(c, more)
    decreases |more|
  {
    if more == [] then Decoded(es)
    else match SubMerge(c, c.zero, more[0])
      case Rejected(e) => Rejected(e)
      case Decoded(x) => AppendAll(c, es + [x], more[1..])
  }

  lemma {:induction false} ElementsWellFormed<E>(tag: byte, c: SubCodec<E>, es: seq<E>)
    requires tag < 128 && tag % 8 == 2
    requires AllMarshal(c, es) && |AllBytes(ElementRecords(tag, c, es))| < TWO_63
    ensures AllWellFormed(ElementRecords(tag, c, es))
    decreases |es|
  {
    hide Bytes, WellFormed, ChunkRecord;
    if es != [] {
      var b := c.marshal(es[0]).b;
      AllBytesCons(ChunkRecord(tag, b), ElementRecords(tag, c, es[1..]));
      ChunkInside(tag, b);
      ChunkWellFormed(tag, b);
      ElementsWellFormed(tag, c, es[1..]);
    }
  }

  lemma {:induction false} ElementsSizeIsLength<E>(tag: byte, c: SubCodec<E>, es: seq<E>)
    requires AllMarshal(c, es) && AllAnnounce(c, es)
    ensures |AllBytes(ElementRecords(tag, c, es))| == ElementsSize(c, es)
    decreases |es|
  {
    hide Bytes, WellFormed, ChunkRecord, Sov, AllBytes;
    if es == [] {
      NoBytes();
    } else {
      AllBytesCons(ChunkRecord(tag, c.marshal(es[0]).b), ElementRecords(tag, c, es[1..]));
      ChunkLength(tag, c.marshal(es[0]).b);
      assert Announces(c, es[0]);
      ElementsSizeIsLength(tag, c, es[1..]);
    }
  }

  lemma {:induction false} ElementsSuffix<E>(c: SubCodec<E>, es: seq<E>, k: nat)
    requires k <= |es|
    ensures ElementsSize(c, es[k..]) <= ElementsSize(c, es)
    ensures LastFailure(c, es[k..]).Some? ==> LastFailure(c, es) == LastFailure(c, es[k..])
    decreases k
  {
    hide Delimited;
    if k == 0 {
      assert es[0..] == es;
    } else {
      ElementsSuffix(c, es[1..], k - 1);
      assert es[1..][k - 1..] == es[k..];
    }
  }

  /** One more element in front of the ones already written. */
  lemma ElementsStep<E>(tag: byte, c: SubCodec<E>, es: seq<E>, k: nat)
    requires k < |es|
    ensures ElementsSize(c, es[k..]) == Delimited(c.size(es[k])) + ElementsSize(c, es[k + 1..])
    ensures AllMarshal(c, es[k..]) <==> c.marshal(es[k]).Marshalled? && AllMarshal(c, es[k + 1..])
    ensures AllMarshal(c, es[k..]) ==>
              AllBytes(ElementRecords(tag, c, es[k..])) ==
              Bytes(ChunkRecord(tag, c.marshal(es[k]).b)) + AllBytes(ElementRecords(tag, c, es[k + 1..]))
    ensures LastFailure(c, es[k + 1..]).None? ==> LastFailure(c, es[k..]) == Failure(c.marshal(es[k]))
  {
    hide Delimited, AllBytes, Bytes, ChunkRecord;
    var rest := es[k..];
    var tail := es[k + 1..];
    assert rest[1..] == tail;
    assert forall i :: 0 <= i < |tail| ==> tail[i] == rest[i + 1];
    assert forall i :: 0 < i < |rest| ==> rest[i] == tail[i - 1];
    if AllMarshal(c, rest) {
      AllBytesCons(ChunkRecord(tag, c.marshal(rest[0]).b), ElementRecords(tag, c, tail));
    }
  }

  lemma NoElements<E>(tag: byte, c: SubCodec<E>, es: seq<E>)
    ensures ElementsSize(c, es[|es|..]) == 0 && LastFailure(c, es[|es|..]).None?
    ensures AllMarshal(c, es[|es|..]) && AllBytes(ElementRecords(tag, c, es[|es|..])) == []
  {
  }

  /** Decoding a repeated field appends its elements, in any message that stores them that way. */
  lemma {:induction false} ElementsMerge<M, E>(
    sc: Schema<M>, tag: byte, c: SubCodec<E>, with: seq<E> -> M, es: seq<E>, more: seq<E>)
    requires tag < 128 && tag % 8 == 2 && tag >= 8 && sc.want(tag / 8) == WantBytes
    requires forall xs: seq<E>, b: bytes ::
               sc.put(with(xs), tag / 8, Chunk(b)) == Appended(with, xs, c.unmarshal(c.zero, b))
    requires AllMarshal(c, more) && AllWellFormed(ElementRecords(tag, c, more))
    requires |AllBytes(ElementRecords(tag, c, more))| < TWO_63
    ensures ApplyAll(sc, with(es), ElementRecords(tag, c, more)) == Stored(with, AppendAll(c, es, more))
    decreases |more|
  {
    hide Decode, AllBytes, AllWellFormed, ChunkRecord, Apply;
    var rs := ElementRecords(tag, c, more);
    if more != [] {
      assert rs[0..] == rs;
      assert rs[1..] == ElementRecords(tag, c, more[1..]);
      ChunkAt(sc, with(es), rs, 0, tag, c.marshal(more[0]).b);
      var x := SubMerge(c, c.zero, more[0]);
      if x.Decoded? { ElementsMerge(sc, tag, c, with, es + [x.m], more[1..]); }
    }
  }

  function Stored<M, E>(with: seq<E> -> M, r: DecodeResult<seq<E>>): DecodeResult<M> {
    if r.Decoded? then Decoded(with(r.m)) else Rejected(r.err)
  }

  function Appended<M, E>(with: seq<E> -> M, es: seq<E>, r: DecodeResult<E>): DecodeResult<M> {
    if r.Decoded? then Decoded(with(es + [r.m])) else Rejected(r.err)
  }

  /** The elements come back exactly as they were if and only if each survives on its own. */
  lemma {:induction false} AppendExact<E>(c: SubCodec<E>, es: seq<E>, more: seq<E>)
    requires AllMarshal(c, more)
    ensures AppendAll(c, es, more).Decoded? ==> |AppendAll(c, es, more).m| == |es| + |more|
    ensures AppendAll(c, es, more).Decoded? ==> es <= AppendAll(c, es, more).m
    ensures AppendAll(c, es, more) == Decoded(es + more) <==> AllSurvive(c, more)
    decreases |more|
  {
    var res := AppendAll(c, es, more);
    if more == [] {
      assert es + more == es;
    } else {
      var x := SubMerge(c, c.zero, more[0]);
      if x.Decoded? {
        var tail := more[1..];
        AppendExact(c, es + [x.m], tail);
        assert (es + [more[0]]) + tail == es + more;
        if res == Decoded(es + more) { assert (es + [x.m])[|es|] == res.m[|es|] == more[0]; }
        assert forall i :: 0 < i < |more| ==> more[i] == tail[i - 1];
        assert forall i :: 0 <= i < |tail| ==> tail[i] == more[i + 1];
      }
    }
  }
}
