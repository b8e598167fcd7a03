/** The record grammar of the protobuf wire format, and the skipper that steps over one record with a
    depth counter instead of a recursive descent. */
module WireGrammar {
  import opened Integers
  import opened Varint

  // ---------------------------------------------------------------- the grammar

  /** One record as it lies on the wire.  Tags and lengths are kept as bytes because a varint need not
      be minimal to be accepted. */
  datatype Record =
    | VarintRecord(tag: seq<byte>, value: seq<byte>)
    | Fixed64Record(tag: seq<byte>, value: seq<byte>)
    | DelimitedRecord(tag: seq<byte>, length: seq<byte>, value: seq<byte>)
    | GroupRecord(tag: seq<byte>, body: seq<Record>, end: seq<byte>)
    | Fixed32Record(tag: seq<byte>, value: seq<byte>)

  predicate IsTag(tag: seq<byte>, wireType: nat) {
    IsVarint(tag) && VarintValue(tag) % 8 == wireType
  }

  /** The field number of an end-group tag is not compared with that of its start. */
  predicate WellFormed(r: Record) {
    match r
    case VarintRecord(tag, value) => IsTag(tag, 0) && IsVarint(value)
    case Fixed64Record(tag, value) => IsTag(tag, 1) && |value| == 8
    case DelimitedRecord(tag, length, value) => IsTag(tag, 2) && IsVarint(length) && VarintValue(length) == |value|
    case GroupRecord(tag, body, end) => IsTag(tag, 3) && IsTag(end, 4) && AllWellFormed(body)
    case Fixed32Record(tag, value) => IsTag(tag, 5) && |value| == 4
  }

  predicate AllWellFormed(rs: seq<Record>) {
    rs == [] || (WellFormed(rs[0]) && AllWellFormed(rs[1..]))
  }

  function Bytes(r: Record): (b: seq<byte>) {
    match r
    case VarintRecord(tag, value) => tag + value
    case Fixed64Record(tag, value) => tag + value
    case DelimitedRecord(tag, length, value) => tag + length + value
    case GroupRecord(tag, body, end) => tag + AllBytes(body) + end
    case Fixed32Record(tag, value) => tag + value
  }

  function AllBytes(rs: seq<Record>): (b: seq<byte>) {
    if rs == [] then [] else Bytes(rs[0]) + AllBytes(rs[1..])
  }

  // ---------------------------------------------------------------- the skipper

  datatype SkipStep = StepTo(at: nat, depth: nat) | StepFail(err: WireError)
  datatype SkipResult = SkipOk(n: nat) | SkipFail(err: WireError)

  /** `iNdEx += n`, which is checked for wrap-around after the switch. */
  function Advance(at: nat, n: nat, depth: nat): (r: SkipStep)
    requires at < TWO_63 && n < TWO_63
  {
    var t := WrapAdd(at, n);
    if t < 0 then StepFail(InvalidLength) else StepTo(t, depth)
  }

  /** One turn of the loop: a tag and what follows it directly. */
  function SkipOne(s: seq<byte>, i: nat, depth: nat): (r: SkipStep)
    requires i < |s| < TWO_63
    ensures r.StepTo? ==> i < r.at < TWO_63 && r.depth <= depth + 1
  {
    match ReadVarint(s[i..])
    case VarintFail(e, _) => StepFail(e)
    case VarintOk(v, n) =>
      var j := i + n;
      var wireType := v % 8;
      if wireType == 0 then
        match ReadVarint(s[j..])
        case VarintFail(e, _) => StepFail(e)
        case VarintOk(_, k) => StepTo(j + k, depth)
      else if wireType == 1 then Advance(j, 8, depth)
      else if wireType == 2 then
        match ReadVarint(s[j..])
        case VarintFail(e, _) => StepFail(e)
        case VarintOk(len, k) =>
          if ToInt64(len) < 0 then StepFail(InvalidLength) else Advance(j + k, len, depth)
      else if wireType == 3 then StepTo(j, depth + 1)
      else if wireType == 4 then
        if depth == 0 then StepFail(UnexpectedEndOfGroup) else StepTo(j, depth - 1)
      else if wireType == 5 then Advance(j, 4, depth)
      else StepFail(IllegalWireType)
  }

  function SkipFrom(s: seq<byte>, i: nat, depth: nat): (r: SkipResult)
    requires |s| < TWO_63
    ensures r.SkipOk? ==> i < r.n < TWO_63
    decreases |s| - i
  {
    if i >= |s| then SkipFail(UnexpectedEOF)
    else match SkipOne(s, i, depth)
      case StepFail(e) => SkipFail(e)
      case StepTo(at, d) => if d == 0 then SkipOk(at) else SkipFrom(s, at, d)
  }

  lemma SkipUnfold(s: seq<byte>, i: nat, depth: nat)
    requires i < |s| < TWO_63
    ensures SkipFrom(s, i, depth) ==
            match SkipOne(s, i, depth) {
              case StepFail(e) => SkipFail(e)
              case StepTo(at, d) => if d == 0 then SkipOk(at) else SkipFrom(s, at, d)
            }
  {
    hide SkipOne;
  }

  lemma SkipAtEnd(s: seq<byte>, i: nat, depth: nat)
    requires i >= |s| && |s| < TWO_63
    ensures SkipFrom(s, i, depth) == SkipFail(UnexpectedEOF)
  {
  }

  /** skipGenerated as a function of its input. */
  function Skip(s: seq<byte>): (r: SkipResult)
    requires |s| < TWO_63
    ensures r.SkipOk? ==> 0 < r.n < TWO_63
  {
    SkipFrom(s, 0, 0)
  }

  /** skipGenerated. */
  method SkipGenerated(data: seq<byte>) returns (r: SkipResult)
    requires |data| < TWO_63
    ensures r == Skip(data)
  {
    hide ReadVarint, SkipFrom;
    var index: int64 := 0;
    var depth: nat := 0;
    while index < |data|
      invariant 0 <= index
      invariant SkipFrom(data, index, depth) == Skip(data)
    {
      SkipUnfold(data, index, depth);
      var tag := DecodeVarint(data, index);
      if tag.VarintFail? { return SkipFail(tag.err); }
      index := index + tag.n;
      var wireType := tag.v % 8;
      if wireType == 0 {
        var value := DecodeVarint(data, index);
        if value.VarintFail? { return SkipFail(value.err); }
        index := index + value.n;
      } else if wireType == 1 {
        index := WrapAdd(index, 8);
      } else if wireType == 2 {
        var length := DecodeVarint(data, index);
        if length.VarintFail? { return SkipFail(length.err); }
        index := index + length.n;
        if ToInt64(length.v) < 0 { return SkipFail(InvalidLength); }
        index := WrapAdd(index, ToInt64(length.v));
      } else if wireType == 3 {
        depth := depth + 1;
      } else if wireType == 4 {
        if depth == 0 { return SkipFail(UnexpectedEndOfGroup); }
        depth := depth - 1;
      } else if wireType == 5 {
        index := WrapAdd(index, 4);
      } else {
        return SkipFail(IllegalWireType);
      }
      if index < 0 { return SkipFail(InvalidLength); }
      if depth == 0 { return SkipOk(index); }
    }
    SkipAtEnd(data, index, depth);
    return SkipFail(UnexpectedEOF);
  }

  // ---------------------------------------------------------------- every record is skipped

  predicate At(s: seq<byte>, i: nat, b: seq<byte>) {
    i + |b| <= |s| && s[i..i + |b|] == b
  }

  lemma ReadVarintAt(s: seq<byte>, i: nat, b: seq<byte>)
    requires IsVarint(b) && At(s, i, b)
    ensures ReadVarint(s[i..]) == VarintOk(VarintValue(b), |b|) && |b| > 0
  {
    ReadVarintOf(b, s[i + |b|..]);
    assert b + s[i + |b|..] == s[i..];
  }

  lemma AtFits(s: seq<byte>, i: nat, b: seq<byte>)
    requires At(s, i, b)
    ensures i + |b| <= |s|
  {
  }

  lemma AtSplit(s: seq<byte>, i: nat, a: seq<byte>, b: seq<byte>)
    requires At(s, i, a + b)
    ensures At(s, i, a) && At(s, i + |a|, b)
  {
    assert s[i..i + |a|] == (a + b)[..|a|] == a;
    assert s[i + |a|..i + |a| + |b|] == (a + b)[|a|..] == b;
  }

  lemma DelimitedStep(s: seq<byte>, i: nat, r: Record, depth: nat)
    requires |s| < TWO_63 && WellFormed(r) && At(s, i, Bytes(r)) && r.DelimitedRecord?
    ensures i < |s| && SkipOne(s, i, depth) == StepTo(i + |Bytes(r)|, depth)
  {
    hide ReadVarint, VarintValue, IsVarint, At;
    AtSplit(s, i, r.tag + r.length, r.value);
    AtSplit(s, i, r.tag, r.length);
    ReadVarintAt(s, i, r.tag);
    ReadVarintAt(s, i + |r.tag|, r.length);
    AtFits(s, i, Bytes(r));
  }

  /** A record that is not a group is crossed in one turn, at any depth. */
  lemma FlatRecordStep(s: seq<byte>, i: nat, r: Record, depth: nat)
    requires |s| < TWO_63 && WellFormed(r) && At(s, i, Bytes(r)) && !r.GroupRecord?
    ensures i < |s| && SkipOne(s, i, depth) == StepTo(i + |Bytes(r)|, depth)
  {
    hide ReadVarint, VarintValue, IsVarint, At;
    if r.DelimitedRecord? {
      DelimitedStep(s, i, r, depth);
    } else {
      AtSplit(s, i, r.tag, r.value);
      ReadVarintAt(s, i, r.tag);
      AtFits(s, i, Bytes(r));
      if r.VarintRecord? { ReadVarintAt(s, i + |r.tag|, r.value); }
    }
  }

  lemma TagStep(s: seq<byte>, i: nat, tag: seq<byte>, depth: nat)
    requires |s| < TWO_63 && At(s, i, tag)
    ensures IsTag(tag, 3) ==> i < |s| && SkipOne(s, i, depth) == StepTo(i + |tag|, depth + 1)
    ensures IsTag(tag, 4) && depth > 0 ==> i < |s| && SkipOne(s, i, depth) == StepTo(i + |tag|, depth - 1)
  {
    hide ReadVarint, VarintValue;
    if IsVarint(tag) { ReadVarintAt(s, i, tag); }
  }

  lemma {:induction false} SkipRecord(s: seq<byte>, i: nat, r: Record, depth: nat)
    requires |s| < TWO_63 && WellFormed(r) && At(s, i, Bytes(r))
    ensures SkipFrom(s, i, depth) ==
            if depth == 0 then SkipOk(i + |Bytes(r)|) else SkipFrom(s, i + |Bytes(r)|, depth)
    decreases r, 1
  {
    hide SkipOne, SkipFrom, At, IsTag;
    if r.GroupRecord? {
      AtSplit(s, i, r.tag + AllBytes(r.body), r.end);
      AtSplit(s, i, r.tag, AllBytes(r.body));
      var j := i + |r.tag|;
      var e := j + |AllBytes(r.body)|;
      TagStep(s, i, r.tag, depth);
      SkipUnfold(s, i, depth);
      SkipRecords(s, j, r.body, depth + 1);
      TagStep(s, e, r.end, depth + 1);
      SkipUnfold(s, e, depth + 1);
    } else {
      FlatRecordStep(s, i, r, depth);
      SkipUnfold(s, i, depth);
    }
  }

  lemma {:induction false} SkipRecords(s: seq<byte>, i: nat, rs: seq<Record>, depth: nat)
    requires |s| < TWO_63 && AllWellFormed(rs) && At(s, i, AllBytes(rs)) && depth > 0
    ensures SkipFrom(s, i, depth) == SkipFrom(s, i + |AllBytes(rs)|, depth)
    decreases rs, 0
  {
    hide SkipFrom, Bytes, WellFormed, At;
    if rs != [] {
      AtSplit(s, i, Bytes(rs[0]), AllBytes(rs[1..]));
      SkipRecord(s, i, rs[0], depth);
      SkipRecords(s, i + |Bytes(rs[0])|, rs[1..], depth);
    }
  }

  // ---------------------------------------------------------------- whatever is skipped is a record

  /** What is still to come inside one open group. */
  datatype Closing = Closing(body: seq<Record>, end: seq<byte>)

  ghost predicate AllClosed(cs: seq<Closing>) {
    forall i :: 0 <= i < |cs| ==> AllWellFormed(cs[i].body) && IsTag(cs[i].end, 4)
  }

  ghost function ClosingBytes(cs: seq<Closing>): (b: seq<byte>) {
    if cs == [] then [] else AllBytes(cs[0].body) + cs[0].end + ClosingBytes(cs[1..])
  }

  lemma VarintReadAt(s: seq<byte>, i: nat) returns (b: seq<byte>)
    requires i <= |s| && ReadVarint(s[i..]).VarintOk?
    ensures var n := ReadVarint(s[i..]).n;
            i + n <= |s| && b == s[i..i + n] && IsVarint(b) && VarintValue(b) == ReadVarint(s[i..]).v
  {
    hide VarintValue;
    var n := ReadVarint(s[i..]).n;
    b := s[i..i + n];
    assert s[i..][..n] == b;
    ReadVarintOf(b, s[i + n..]);
    assert b + s[i + n..] == s[i..];
  }

  lemma JoinSlices(s: seq<byte>, i: nat, j: nat, k: nat)
    requires i <= j <= k <= |s|
    ensures s[i..j] + s[j..k] == s[i..k]
  {
  }

  /** A turn of the loop that stays inside the input has read one flat record, a start tag or an end tag. */
  lemma FlatStep(s: seq<byte>, i: nat, depth: nat) returns (r: Record)
    requires i < |s| < TWO_63 && SkipOne(s, i, depth).StepTo? && SkipOne(s, i, depth).at <= |s|
    ensures var step := SkipOne(s, i, depth);
            var b := s[i..step.at];
            if step.depth == depth then WellFormed(r) && Bytes(r) == b
            else if step.depth == depth + 1 then IsTag(b, 3)
            else step.depth == depth - 1 && IsTag(b, 4)
  {
    hide ReadVarint, VarintValue, IsVarint;
    var tag := VarintReadAt(s, i);
    var j := i + |tag|;
    var at := SkipOne(s, i, depth).at;
    var wireType := VarintValue(tag) % 8;
    r := VarintRecord(tag, s[j..at]);
    if wireType == 2 {
      r := DelimitedRead(s, i, depth);
    } else if wireType != 3 && wireType != 4 {
      if wireType == 0 {
        var value := VarintReadAt(s, j);
      } else if wireType == 1 {
        r := Fixed64Record(tag, s[j..at]);
      } else {
        r := Fixed32Record(tag, s[j..at]);
      }
      JoinSlices(s, i, j, at);
    }
  }

  lemma DelimitedRead(s: seq<byte>, i: nat, depth: nat) returns (r: Record)
    requires i < |s| < TWO_63 && SkipOne(s, i, depth).StepTo? && SkipOne(s, i, depth).at <= |s|
    requires ReadVarint(s[i..]).VarintOk? && ReadVarint(s[i..]).v % 8 == 2
    ensures WellFormed(r) && Bytes(r) == s[i..SkipOne(s, i, depth).at]
  {
    hide ReadVarint, VarintValue, IsVarint;
    var tag := VarintReadAt(s, i);
    var j := i + |tag|;
    var length := VarintReadAt(s, j);
    var k := j + |length|;
    var at := SkipOne(s, i, depth).at;
    r := DelimitedRecord(tag, length, s[k..at]);
    JoinSlices(s, i, j, k);
    JoinSlices(s, i, k, at);
  }

  lemma AllBytesCons(r: Record, rs: seq<Record>)
    ensures AllBytes([r] + rs) == Bytes(r) + AllBytes(rs)
    ensures AllWellFormed([r] + rs) <==> WellFormed(r) && AllWellFormed(rs)
  {
    hide Bytes, WellFormed;
    assert ([r] + rs)[1..] == rs;
  }

  lemma ClosingCons(c: Closing, cs: seq<Closing>)
    ensures ClosingBytes([c] + cs) == AllBytes(c.body) + c.end + ClosingBytes(cs)
    ensures AllClosed([c] + cs) <==> AllWellFormed(c.body) && IsTag(c.end, 4) && AllClosed(cs)
  {
    hide AllBytes, AllWellFormed, IsTag;
    var all := [c] + cs;
    assert all[1..] == cs;
    if AllClosed(all) {
      assert all[0] == c;
      assert forall i :: 0 <= i < |cs| ==> cs[i] == all[i + 1];
    }
  }

  /** Puts a record in front of everything still to come in the innermost open group. */
  lemma ClosingPrepend(r: Record, cs: seq<Closing>) returns (all: seq<Closing>)
    requires WellFormed(r) && AllClosed(cs) && cs != []
    ensures |all| == |cs| && AllClosed(all) && ClosingBytes(all) == Bytes(r) + ClosingBytes(cs)
  {
    hide Bytes, WellFormed, AllBytes, AllWellFormed, IsTag, ClosingBytes, AllClosed;
    var c := cs[0];
    var c' := Closing([r] + c.body, c.end);
    all := [c'] + cs[1..];
    assert cs == [c] + cs[1..];
    ClosingCons(c, cs[1..]);
    ClosingCons(c', cs[1..]);
    AllBytesCons(r, c.body);
    assert Bytes(r) + AllBytes(c.body) + c.end + ClosingBytes(cs[1..])
        == Bytes(r) + (AllBytes(c.body) + c.end + ClosingBytes(cs[1..]));
  }

  /** Folds the innermost open group, once its start tag is known, into a record of the next one out. */
  lemma ClosingFold(tag: seq<byte>, cs: seq<Closing>) returns (all: seq<Closing>)
    requires IsTag(tag, 3) && AllClosed(cs) && |cs| > 1
    ensures |all| == |cs| - 1 && AllClosed(all) && ClosingBytes(all) == tag + ClosingBytes(cs)
  {
    hide AllBytes, AllWellFormed, IsTag, ClosingBytes, AllClosed;
    var inner := cs[1..];
    var c := cs[0];
    assert cs == [c] + inner;
    ClosingCons(c, inner);
    var g := GroupRecord(tag, c.body, c.end);
    all := ClosingPrepend(g, inner);
    assert tag + AllBytes(c.body) + c.end + ClosingBytes(inner)
           == tag + (AllBytes(c.body) + c.end + ClosingBytes(inner));
  }

  lemma {:induction false} SkippedCloses(s: seq<byte>, i: nat, depth: nat, n: nat) returns (cs: seq<Closing>)
    requires n <= |s| < TWO_63 && depth > 0 && SkipFrom(s, i, depth) == SkipOk(n)
    ensures |cs| == depth && AllClosed(cs) && i < n && ClosingBytes(cs) == s[i..n]
    decreases |s| - i
  {
    hide SkipOne, IsTag, WellFormed, AllClosed, ClosingBytes;
    var StepTo(at, d) := SkipOne(s, i, depth);
    assert at <= n;
    var r := FlatStep(s, i, depth);
    var head := s[i..at];
    if d == 0 {
      var c := Closing([], head);
      NoClosings();
      ClosingCons(c, []);
      cs := [c] + [];
      return;
    }
    var rest := SkippedCloses(s, at, d, n);
    assert s[i..n] == head + s[at..n];
    if d == depth {
      cs := ClosingPrepend(r, rest);
    } else if d == depth - 1 {
      cs := [Closing([], head)] + rest;
      ClosingCons(cs[0], rest);
    } else {
      cs := ClosingFold(head, rest);
    }
  }

  lemma NoClosings()
    ensures ClosingBytes([]) == [] && AllClosed([])
  {
  }

  lemma SkippedRecord(s: seq<byte>, n: nat) returns (r: Record)
    requires n <= |s| < TWO_63 && Skip(s) == SkipOk(n)
    ensures WellFormed(r) && Bytes(r) == s[..n]
  {
    hide SkipOne, IsTag, AllClosed, ClosingBytes;
    var StepTo(at, d) := SkipOne(s, 0, 0);
    r := FlatStep(s, 0, 0);
    assert s[0..at] == s[..at];
    if d != 0 {
      assert SkipFrom(s, at, d) == SkipOk(n);
      var cs := SkippedCloses(s, at, d, n);
      assert cs == [cs[0]] + [];
      NoClosings();
      ClosingCons(cs[0], []);
      r := GroupRecord(s[0..at], cs[0].body, cs[0].end);
      assert s[..n] == s[..at] + s[at..n];
    }
  }

  /** The depth counter decides the recursive grammar: it reports n, within the input, exactly when the
      first n bytes are one well-formed record. */
  lemma SkipIffRecord(s: seq<byte>, n: nat)
    requires n <= |s| < TWO_63
    ensures Skip(s) == SkipOk(n) <==> exists r :: WellFormed(r) && Bytes(r) == s[..n]
  {
    if Skip(s) == SkipOk(n) {
      var r := SkippedRecord(s, n);
    }
    forall r | WellFormed(r) && Bytes(r) == s[..n] ensures Skip(s) == SkipOk(n) {
      SkipRecord(s, 0, r, 0);
    }
  }
}
