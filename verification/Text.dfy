/** The pieces of Go's string library the text formats rest on: splitting, joining, trimming, and decimal
    numbers.  A string is a sequence of code points. */
module Text {
  import opened Options
  import opened Integers

  // ---------------------------------------------------------------- split and join

  /** strings.Split with a one-character separator. */
  function Split(s: string, sep: char): (parts: seq<string>)
    ensures |parts| >= 1
    ensures sep in s <==> |parts| > 1
  {
    if s == [] then [[]]
    else
      var rest := Split(s[1..], sep);
      if s[0] == sep then [[]] + rest else [[s[0]] + rest[0]] + rest[1..]
  }

  /** strings.Join. */
  function Join(parts: seq<string>, sep: char): (s: string) {
    if parts == [] then [] else if |parts| == 1 then parts[0] else parts[0] + [sep] + Join(parts[1..], sep)
  }

  lemma {:induction false} SplitNone(s: string, sep: char)
    requires sep !in s
    ensures Split(s, sep) == [s]
  {
    if s != [] {
      SplitNone(s[1..], sep);
      assert [s[0]] + s[1..] == s;
    }
  }

  lemma {:induction false} SplitAt(a: string, sep: char, b: string)
    requires sep !in a
    ensures Split(a + [sep] + b, sep) == [a] + Split(b, sep)
  {
    var s := a + [sep] + b;
    if a == [] {
      assert s[1..] == b;
    } else {
      SplitAt(a[1..], sep, b);
      assert s[1..] == a[1..] + [sep] + b;
      assert [a[0]] + a[1..] == a;
    }
  }

  /** Splitting undoes joining, as long as no part contains the separator. */
  lemma {:induction false} SplitJoin(parts: seq<string>, sep: char)
    requires parts != [] && forall p :: p in parts ==> sep !in p
    ensures Split(Join(parts, sep), sep) == parts
    decreases |parts|
  {
    if |parts| == 1 {
      SplitNone(parts[0], sep);
    } else {
      SplitJoin(parts[1..], sep);
      SplitAt(parts[0], sep, Join(parts[1..], sep));
    }
  }

  /** What stands before the first separator goes to the first part. */
  lemma {:induction false} SplitBefore(u: string, s: string, sep: char)
    requires sep !in u
    ensures Split(u + s, sep) == Split(s, sep)[0 := u + Split(s, sep)[0]]
  {
    var first := Split(s, sep)[0];
    if u == [] {
      assert u + s == s && u + first == first;
    } else {
      SplitBefore(u[1..], s, sep);
      assert (u + s)[1..] == u[1..] + s;
      assert [u[0]] + (u[1..] + first) == u + first;
    }
  }

  function AppendToLast(parts: seq<string>, v: string): (r: seq<string>)
    requires parts != []
  {
    if |parts| == 1 then [parts[0] + v] else [parts[0]] + AppendToLast(parts[1..], v)
  }

  /** What stands after the last separator goes to the last part. */
  lemma {:induction false} SplitAfter(s: string, v: string, sep: char)
    requires sep !in v
    ensures Split(s + v, sep) == AppendToLast(Split(s, sep), v)
  {
    hide Split;
    if s == [] {
      assert s + v == v;
      SplitNone(v, sep);
      SplitNone([], sep);
    } else {
      SplitAfter(s[1..], v, sep);
      assert (s + v)[1..] == s[1..] + v;
      SplitUnfold(s, sep);
      SplitUnfold(s + v, sep);
      var rest := Split(s[1..], sep);
      if s[0] == sep {
        assert ([[]] + rest)[1..] == rest;
      } else {
        AppendAfterFirst([s[0]], rest, v);
      }
    }
  }

  lemma SplitUnfold(s: string, sep: char)
    requires s != []
    ensures var rest := Split(s[1..], sep);
            Split(s, sep) == if s[0] == sep then [[]] + rest else [[s[0]] + rest[0]] + rest[1..]
  {
  }

  lemma AppendAfterFirst(u: string, parts: seq<string>, v: string)
    requires parts != []
    ensures var more := AppendToLast(parts, v);
            more != [] && AppendToLast([u + parts[0]] + parts[1..], v) == [u + more[0]] + more[1..]
  {
    if |parts| == 1 {
      assert u + parts[0] + v == u + (parts[0] + v);
    } else {
      assert ([u + parts[0]] + parts[1..])[1..] == parts[1..];
    }
  }

  // ---------------------------------------------------------------- white space

  /** unicode.IsSpace. */
  predicate IsSpace(c: char) {
    || '\t' <= c <= '\r'
    || c == ' ' || c == '\U{0085}' || c == '\U{00A0}' || c == '\U{1680}'
    || '\U{2000}' <= c <= '\U{200a}'
    || c == '\U{2028}' || c == '\U{2029}' || c == '\U{202f}' || c == '\U{205f}' || c == '\U{3000}'
  }

  function TrimLeft(s: string): (t: string)
    ensures |t| <= |s|
  {
    if s != [] && IsSpace(s[0]) then TrimLeft(s[1..]) else s
  }

  function TrimRight(s: string): (t: string)
    ensures |t| <= |s|
  {
    if s != [] && IsSpace(s[|s| - 1]) then TrimRight(s[..|s| - 1]) else s
  }

  /** strings.TrimSpace. */
  function TrimSpace(s: string): (t: string) {
    TrimRight(TrimLeft(s))
  }

  lemma {:induction false} TrimLeftMeaning(s: string)
    ensures var k := |s| - |TrimLeft(s)|;
            TrimLeft(s) == s[k..] && (k < |s| ==> !IsSpace(s[k])) && forall i :: 0 <= i < k ==> IsSpace(s[i])
  {
    hide IsSpace;
    if s != [] && IsSpace(s[0]) { TrimLeftMeaning(s[1..]); }
  }

  lemma {:induction false} TrimRightMeaning(s: string)
    ensures var k := |TrimRight(s)|;
            TrimRight(s) == s[..k] && (k > 0 ==> !IsSpace(s[k - 1])) && forall i :: k <= i < |s| ==> IsSpace(s[i])
  {
    hide IsSpace;
    if s != [] && IsSpace(s[|s| - 1]) { TrimRightMeaning(s[..|s| - 1]); }
  }

  /** What is trimmed is white space, and all of it at either end. */
  lemma TrimMeaning(s: string) returns (i: nat, j: nat)
    ensures i <= j <= |s| && TrimSpace(s) == s[i..j]
    ensures i < j ==> !IsSpace(s[i]) && !IsSpace(s[j - 1])
    ensures forall k :: 0 <= k < i || j <= k < |s| ==> IsSpace(s[k])
  {
    hide IsSpace, TrimLeft, TrimRight;
    TrimLeftMeaning(s);
    var t := TrimLeft(s);
    TrimRightMeaning(t);
    i := |s| - |t|;
    j := i + |TrimRight(t)|;
    forall k | j <= k < |s| ensures IsSpace(s[k]) { assert s[k] == t[k - i]; }
  }

  lemma TrimNothing(s: string)
    requires s == [] || (!IsSpace(s[0]) && !IsSpace(s[|s| - 1]))
    ensures TrimSpace(s) == s
  {
  }

  predicate AllSpace(s: string) { forall i :: 0 <= i < |s| ==> IsSpace(s[i]) }

  lemma {:induction false} TrimBefore(u: string, s: string)
    requires AllSpace(u)
    ensures TrimSpace(u + s) == TrimSpace(s)
  {
    hide IsSpace, TrimRight;
    if u == [] {
      assert u + s == s;
    } else {
      TrimBefore(u[1..], s);
      assert (u + s)[1..] == u[1..] + s;
    }
  }

  lemma {:induction false} TrimRightAfter(s: string, v: string)
    requires AllSpace(v)
    ensures TrimRight(s + v) == TrimRight(s)
  {
    hide IsSpace;
    if v == [] {
      assert s + v == s;
    } else {
      var w := v[..|v| - 1];
      TrimRightAfter(s, w);
      assert (s + v)[..|s + v| - 1] == s + w;
    }
  }

  lemma {:induction false} TrimAfter(s: string, v: string)
    requires AllSpace(v)
    ensures TrimSpace(s + v) == TrimSpace(s)
  {
    hide IsSpace, TrimRight;
    if s == [] {
      assert s + v == v && v + [] == v;
      TrimBefore(v, []);
    } else if IsSpace(s[0]) {
      TrimAfter(s[1..], v);
      assert (s + v)[1..] == s[1..] + v;
    } else {
      TrimRightAfter(s, v);
    }
  }

  // ---------------------------------------------------------------- decimal numbers

  predicate IsDigit(c: char) { '0' <= c <= '9' }

  predicate AllDigits(s: string) { forall i :: 0 <= i < |s| ==> IsDigit(s[i]) }

  function DigitsValue(s: string): (n: nat)
    requires AllDigits(s)
  {
    if s == [] then 0 else 10 * DigitsValue(s[..|s| - 1]) + (s[|s| - 1] as int - '0' as int)
  }

  /** strconv.FormatUint in base 10. */
  function FormatNat(n: nat): (s: string)
    ensures s != [] && AllDigits(s)
  {
    if n < 10 then [DigitChar(n)] else FormatNat(n / 10) + [DigitChar(n % 10)]
  }

  function DigitChar(d: nat): (c: char)
    requires d < 10
    ensures IsDigit(c) && c as int - '0' as int == d
  {
    (d + '0' as int) as char
  }

  lemma {:induction false} FormatValue(n: nat)
    ensures DigitsValue(FormatNat(n)) == n
  {
    hide DigitChar;
    if n < 10 {
      assert FormatNat(n)[..0] == [];
    } else {
      FormatValue(n / 10);
      var s := FormatNat(n);
      assert s[..|s| - 1] == FormatNat(n / 10);
    }
  }

  /** strconv.Atoi: an optional sign, at least one digit, and a value that fits. */
  function Atoi(s: string): (r: Option<int>)
    ensures r.Some? ==> -TWO_63 <= r.value < TWO_63
  {
    var signed := s != [] && (s[0] == '+' || s[0] == '-');
    var body := if signed then s[1..] else s;
    if body == [] || !AllDigits(body) then None
    else
      var v: int := DigitsValue(body);
      var v := if signed && s[0] == '-' then -v else v;
      if -TWO_63 <= v < TWO_63 then Some(v) else None
  }

  /** safeInt: trims, and falls back on anything Atoi rejects. */
  function SafeInt(s: string, def: int): (n: int) {
    match Atoi(TrimSpace(s))
    case Some(v) => v
    case None => def
  }

  lemma NumberText(n: nat)
    ensures var s := FormatNat(n);
            s != [] && TrimSpace(s) == s && forall c :: c in s ==> IsDigit(c)
  {
    var s := FormatNat(n);
    TrimNothing(s);
  }

  lemma SafeIntOfNat(n: nat, def: int)
    ensures SafeInt(FormatNat(n), def) == if n < TWO_63 then n else def
  {
    hide FormatNat, TrimSpace, DigitsValue;
    NumberText(n);
    FormatValue(n);
    assert IsDigit(FormatNat(n)[0]);
  }

  function FormatInt(v: int): (s: string) {
    if v < 0 then "-" + FormatNat(-v) else FormatNat(v)
  }

  /** Atoi reads back every int64 as it is usually written, and with an explicit plus sign. */
  lemma AtoiInverts(v: int64)
    ensures Atoi(FormatInt(v)) == Some(v)
    ensures v >= 0 ==> Atoi("+" + FormatNat(v)) == Some(v)
  {
    hide FormatNat, DigitsValue, TrimSpace;
    var n: nat := if v < 0 then -(v as int) else v;
    NumberText(n);
    FormatValue(n);
    assert ("-" + FormatNat(n))[1..] == FormatNat(n) && ("+" + FormatNat(n))[1..] == FormatNat(n);
    assert IsDigit(FormatNat(n)[0]);
  }

  /** Space around a number does not show, wherever it is cut off. */
  lemma SafeIntTrims(u: string, s: string, v: string, def: int)
    requires AllSpace(u) && AllSpace(v)
    ensures SafeInt(u + s, def) == SafeInt(s + v, def) == SafeInt(s, def)
  {
    hide TrimSpace, AllSpace;
    TrimBefore(u, s);
    TrimAfter(s, v);
  }
}
