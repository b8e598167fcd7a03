/** Base 128 varints: the encoder that fills a buffer in place, the decode loop every message decoder
    inlines, and their agreement with a declarative reading of the format. */
module Varint {
  import opened Integers

  datatype WireError =
    | IntOverflow            // ErrIntOverflowGenerated
    | UnexpectedEOF          // io.ErrUnexpectedEOF
    | InvalidLength          // ErrInvalidLengthGenerated
    | UnexpectedEndOfGroup   // ErrUnexpectedEndOfGroupGenerated
    | EndGroupForNonGroup    // "wiretype end group for non-group"
    | IllegalTag             // "illegal tag"
    | WrongWireType          // "wrong wireType"
    | IllegalWireType        // "illegal wireType"
    | Foreign(code: int)     // an error of a codec defined elsewhere

  /** A failed read has accumulated the groups it got to. */
  datatype VarintResult = VarintOk(v: uint64, n: nat) | VarintFail(err: WireError, acc: uint64)

  const MAX_VARINT: nat := 10

  // ---------------------------------------------------------------- the format

  /** One to ten bytes, of which exactly the last has its continuation bit clear. */
  predicate IsVarint(b: seq<byte>) {
    && 1 <= |b| <= MAX_VARINT
    && b[|b| - 1] < 128
    && forall i :: 0 <= i < |b| - 1 ==> b[i] >= 128
  }

  /** The 7-bit groups, least significant first. */
  function Groups(b: seq<byte>): (v: nat) {
    if b == [] then 0 else b[0] % 128 + 128 * Groups(b[1..])
  }

  /** The value a varint denotes: bits beyond the 64th are lost. */
  function VarintValue(b: seq<byte>): (v: uint64) {
    Groups(b) % TWO_64
  }

  /** How many leading bytes have their continuation bit set. */
  function Continued(s: seq<byte>): (k: nat)
    ensures k <= |s|
    ensures forall i :: 0 <= i < k ==> s[i] >= 128
    ensures k < |s| ==> s[k] < 128
  {
    if s == [] || s[0] < 128 then 0 else 1 + Continued(s[1..])
  }

  /** What reading a varint off the front of s yields. */
  function ReadVarint(s: seq<byte>): (r: VarintResult)
    ensures r.VarintOk? ==> 1 <= r.n <= |s| && IsVarint(s[..r.n])
  {
    var k := Continued(s);
    if k >= MAX_VARINT then VarintFail(IntOverflow, VarintValue(s[..MAX_VARINT]))
    else if k == |s| then VarintFail(UnexpectedEOF, VarintValue(s))
    else VarintOk(VarintValue(s[..k + 1]), k + 1)
  }

  function EncodeVarint(v: nat): (b: seq<byte>)
    ensures b != []
  {
    if v < 128 then [v] else [v % 128 + 128] + EncodeVarint(v / 128)
  }

  /** sovGenerated: the number of bytes the encoder will write. */
  function Sov(x: nat): (n: nat) {
    (BitLen(BitOr(x, 1)) + 6) / 7
  }

  // ---------------------------------------------------------------- groups and sizes

  lemma NextGroup(n: nat)
    ensures Pow2(7 * (n + 1)) == 128 * Pow2(7 * n)
  {
    hide Pow2;
    Pow2Constants();
    Pow2Add(7, 7 * n);
  }

  lemma ScaleGroup(x: nat, p: nat)
    ensures 128 * (x * p) == x * (128 * p)
  {
  }

  lemma {:induction false} GroupsBound(b: seq<byte>)
    ensures Groups(b) < Pow2(7 * |b|)
  {
    if b != [] {
      GroupsBound(b[1..]);
      NextGroup(|b| - 1);
    }
  }

  lemma {:induction false} GroupsAppend(b: seq<byte>, x: byte)
    ensures Groups(b + [x]) == Groups(b) + (x % 128) * Pow2(7 * |b|)
  {
    if b == [] {
    } else {
      assert (b + [x])[1..] == b[1..] + [x];
      GroupsAppend(b[1..], x);
      NextGroup(|b| - 1);
      ScaleGroup(x % 128, Pow2(7 * |b[1..]|));
    }
  }

  lemma {:induction false} EncodeVarintShape(v: nat)
    ensures var b := EncodeVarint(v);
            && b[|b| - 1] < 128
            && (forall i :: 0 <= i < |b| - 1 ==> b[i] >= 128)
            && Groups(b) == v
  {
    if v >= 128 {
      EncodeVarintShape(v / 128);
      var t := EncodeVarint(v / 128);
      assert EncodeVarint(v)[1..] == t;
    }
  }

  /** Byte i carries bits 7i to 7i + 6 of the number, and a flag while there are more. */
  lemma {:induction false} EncodeVarintByte(v: nat, i: nat)
    requires i < |EncodeVarint(v)|
    ensures EncodeVarint(v)[i] == (v / Pow2(7 * i)) % 128 + if i < |EncodeVarint(v)| - 1 then 128 else 0
    decreases i
  {
    if i == 0 {
      assert v / Pow2(0) == v;
    } else {
      EncodeVarintByte(v / 128, i - 1);
      NextGroup(i - 1);
      DivGroup(v, Pow2(7 * (i - 1)));
    }
  }

  lemma DivGroup(v: nat, p: nat)
    requires p > 0
    ensures v / (128 * p) == (v / 128) / p
  {
    var q, r := (v / 128) / p, (v / 128) % p;
    assert v / 128 == q * p + r;
    assert v == q * (128 * p) + (128 * r + v % 128);
    DivUnique(v, 128 * p, q, 128 * r + v % 128);
  }

  /** What a read that finds no last byte reports: the end of the input before the tenth byte, an overflow from
      the tenth on. */
  lemma ReadVarintCut(s: seq<byte>)
    requires forall i :: 0 <= i < |s| && i < 10 ==> s[i] >= 128
    ensures |s| < 10 ==> ReadVarint(s) == VarintFail(UnexpectedEOF, VarintValue(s))
    ensures |s| >= 10 ==> ReadVarint(s) == VarintFail(IntOverflow, VarintValue(s[..10]))
  {
    hide VarintValue;
    assert Continued(s) == |s| || Continued(s) >= 10;
  }

  /** v fits in k groups exactly when its encoding has at most k bytes. */
  lemma {:induction false} EncodeVarintLength(v: nat, k: nat)
    requires k > 0
    ensures |EncodeVarint(v)| <= k <==> v < Pow2(7 * k)
  {
    Pow2Constants();
    if v < 128 {
      Pow2Monotone(7, 7 * k);
    } else if k > 1 {
      EncodeVarintLength(v / 128, k - 1);
      Pow2Add(7, 7 * (k - 1));
      var p := Pow2(7 * (k - 1));
      assert Pow2(7 * k) == 128 * p;
      assert v / 128 < p <==> v < 128 * p;
    }
  }

  lemma {:induction false} BitOrOne(x: nat)
    ensures BitOr(x, 1) == if x % 2 == 1 then x else x + 1
  {
    BitOrZero(x / 2);
  }

  /** The bit-length formula counts exactly the bytes the encoder writes. */
  lemma SovIsLength(v: nat)
    ensures Sov(v) == |EncodeVarint(v)| >= 1
    ensures v < TWO_64 ==> Sov(v) <= MAX_VARINT
  {
    hide Pow2, BitOr, BitLen, EncodeVarint;
    var w := BitOr(v, 1);
    BitOrOne(v);
    var n := BitLen(w);
    BitLenBounds(w);
    var k := (n + 6) / 7;
    assert 7 * (k - 1) < n <= 7 * k;
    Pow2Monotone(n, 7 * k);
    EncodeVarintLength(v, k);
    if k > 1 {
      Pow2Monotone(7 * (k - 1), n - 1);
      SameGroups(v, w, k - 1);
      EncodeVarintLength(v, k - 1);
    }
    if v < TWO_64 {
      Pow2Constants();
      Pow2Monotone(64, 70);
      EncodeVarintLength(v, MAX_VARINT);
    }
  }

  /** Setting the lowest bit never moves a number across a power of two. */
  lemma SameGroups(v: nat, w: nat, k: nat)
    requires k > 0 && w == if v % 2 == 1 then v else v + 1
    requires w >= Pow2(7 * k)
    ensures v >= Pow2(7 * k)
  {
    assert Pow2(7 * k) == 2 * Pow2(7 * k - 1);
  }

  // ---------------------------------------------------------------- decoding inverts encoding

  /** Reading succeeds exactly on a varint prefix, which is unique, and yields its value. */
  lemma ReadVarintOf(b: seq<byte>, rest: seq<byte>)
    requires IsVarint(b)
    ensures ReadVarint(b + rest) == VarintOk(VarintValue(b), |b|)
  {
    var s := b + rest;
    var k := Continued(s);
    assert s[|b| - 1] < 128;
    assert forall i :: 0 <= i < |b| - 1 ==> s[i] == b[i];
    assert k == |b| - 1;
    assert s[..k + 1] == b;
  }

  lemma EncodeIsVarint(v: uint64)
    ensures IsVarint(EncodeVarint(v)) && VarintValue(EncodeVarint(v)) == v
  {
    EncodeVarintShape(v);
    SovIsLength(v);
  }

  lemma VarintRoundTrip(v: uint64, rest: seq<byte>)
    ensures ReadVarint(EncodeVarint(v) + rest) == VarintOk(v, Sov(v))
  {
    EncodeIsVarint(v);
    SovIsLength(v);
    ReadVarintOf(EncodeVarint(v), rest);
  }

  /** No accepted encoding of v is shorter than the one the encoder writes. */
  lemma VarintMinimal(b: seq<byte>)
    requires IsVarint(b)
    ensures Sov(VarintValue(b)) <= |b|
  {
    var v := VarintValue(b);
    SovIsLength(v);
    if |b| < MAX_VARINT {
      GroupsBound(b);
      Pow2Constants();
      Pow2Monotone(7 * |b|, 63);
      EncodeVarintLength(v, |b|);
    }
  }

  // ---------------------------------------------------------------- the loops

  lemma ShlSmall(y: uint64, s: nat)
    requires y * Pow2(s) < TWO_64
    ensures Shl64(y, s) == y * Pow2(s)
  {
    hide Pow2;
  }

  lemma DropHighWords(q: nat, r: uint64)
    ensures (q * TWO_64 + r) % TWO_64 == r
  {
  }

  /** Of the tenth group only the lowest bit survives the shift by 63. */
  lemma ShlTop(y: uint64)
    ensures Shl64(y, 63) == (y % 2) * TWO_63
  {
    hide Pow2;
    Pow63();
    DropHighWords(y / 2, (y % 2) * TWO_63);
  }

  lemma GroupFits(n: nat, v: nat, y: nat)
    requires n < 9 && y < 128 && v < Pow2(7 * n)
    ensures v + y * Pow2(7 * n) < TWO_63
  {
    hide Pow2;
    var p := Pow2(7 * n);
    assert 128 * p <= TWO_63 by {
      Pow2Constants();
      Pow2Add(7, 7 * n);
      Pow2Monotone(7 * n + 7, 63);
    }
    assert y * p <= 127 * p;
  }

  lemma LowGroup(v: nat, y: uint64, n: nat)
    requires n < 9 && y < 128 && v < Pow2(7 * n)
    ensures BitOr(v, Shl64(y, 7 * n)) == v + y * Pow2(7 * n) < TWO_63
  {
    hide Pow2, BitOr, Shl64;
    GroupFits(n, v, y);
    ShlSmall(y, 7 * n);
    BitOrDisjoint(v, y, 7 * n);
  }

  lemma TopGroup(v: nat, y: uint64)
    requires v < TWO_63
    ensures BitOr(v, Shl64(y, 63)) == (v + y * TWO_63) % TWO_64
  {
    hide Pow2, BitOr, Shl64;
    var bit := y % 2;
    ShlTop(y);
    Pow63();
    BitOrDisjoint(v, bit, 63);
    DropHighWords(y / 2, v + bit * TWO_63);
  }

  lemma AccumulateGroup(v: uint64, x: byte, b: seq<byte>)
    requires |b| < MAX_VARINT && v == Groups(b)
    ensures BitOr(v, Shl64(x % 128, 7 * |b|)) == VarintValue(b + [x])
    ensures |b| < 9 ==> VarintValue(b + [x]) == Groups(b + [x])
  {
    hide Pow2, BitOr, Shl64, Groups;
    var s := 7 * |b|;
    GroupsBound(b);
    GroupsAppend(b, x);
    if |b| < 9 {
      LowGroup(v, x % 128, |b|);
    } else {
      assert s == 63;
      Pow63();
      TopGroup(v, x % 128);
    }
  }

  lemma NoGroups()
    ensures VarintValue([]) == 0
  {
  }

  /** The varint loop inlined at every read of a tag, length or number. */
  method DecodeVarint(data: seq<byte>, start: nat) returns (r: VarintResult)
    requires start <= |data|
    ensures r == ReadVarint(data[start..])
  {
    hide BitOr, Shl64, VarintValue;
    ghost var s := data[start..];
    var v: uint64 := 0;
    var shift := 0;
    var index := start;
    assert VarintValue([]) == 0 by { NoGroups(); }
    while true
      invariant start <= index <= |data|
      invariant shift == 7 * (index - start) && index - start <= MAX_VARINT
      invariant Continued(s) >= index - start
      invariant v == VarintValue(s[..index - start])
      invariant index - start < MAX_VARINT ==> v == Groups(s[..index - start])
      decreases |data| - index
    {
      ghost var k := index - start;
      if shift >= 64 { return VarintFail(IntOverflow, v); }
      if index >= |data| {
        assert s[..k] == s;
        return VarintFail(UnexpectedEOF, v);
      }
      var b := data[index];
      assert b == s[k];
      AccumulateGroup(v, b, s[..k]);
      assert s[..k] + [b] == s[..k + 1];
      index := index + 1;
      v := BitOr(v, Shl64(b % 128, shift));
      if b < 128 { return VarintOk(v, index - start); }
      shift := shift + 7;
    }
  }

  /** `v&0x7f | 0x80`: the next group with its continuation bit set. */
  function ContinuationByte(v: uint64): (b: byte)
    ensures b == v % 128 + 128
  {
    hide BitOr, Pow2;
    Pow2Constants();
    BitOrDisjoint(v % 128, 1, 7);
    BitOr(v % 128, 128)
  }

  /** encodeVarintGenerated: writes v so that it ends just before `offset`, and returns where it starts. */
  method EncodeVarintAt(buf: array<byte>, offset: nat, v0: uint64) returns (base: nat)
    requires Sov(v0) <= offset <= buf.Length
    modifies buf
    ensures base == offset - Sov(v0)
    ensures buf[base..offset] == EncodeVarint(v0)
    ensures forall k :: 0 <= k < base || offset <= k < buf.Length ==> buf[k] == old(buf[k])
  {
    hide Sov, ContinuationByte;
    SovIsLength(v0);
    var v := v0;
    var at := offset - Sov(v0);
    base := at;
    ghost var rest := EncodeVarint(v0);
    while v >= 128
      invariant base <= at && at + |rest| == offset && rest == EncodeVarint(v)
      invariant buf[base..at] + rest == EncodeVarint(v0)
      invariant forall k :: 0 <= k < base || offset <= k < buf.Length ==> buf[k] == old(buf[k])
    {
      ghost var before := buf[base..at];
      buf[at] := ContinuationByte(v);
      assert buf[base..at] == before;
      assert rest == [buf[at]] + rest[1..];
      rest := rest[1..];
      v := v / 128;
      at := at + 1;
    }
    buf[at] := v;
  }
}
