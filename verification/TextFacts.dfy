/** Go's string helpers from the outside: which texts are numbers and what they are worth, what a part of a
    separated text is, and what trimming leaves, none of it in terms of the functions that compute it. */
module TextFacts {
  import opened Options
  import opened Integers
  import opened Text

  // ---------------------------------------------------------------- numbers

  predicate Digits(s: string) { s != "" && forall i :: 0 <= i < |s| ==> '0' <= s[i] <= '9' }

  function Pow10(n: nat): (p: nat) { if n == 0 then 1 else 10 * Pow10(n - 1) }

  /** The value of digits by their places. */
  function Places(s: string): (n: int)
    requires forall i :: 0 <= i < |s| ==> '0' <= s[i] <= '9'
  {
    if s == "" then 0 else (s[0] as int - '0' as int) * Pow10(|s| - 1) + Places(s[1..])
  }

  lemma {:induction false} PlacesNonnegative(s: string)
    requires forall i :: 0 <= i < |s| ==> '0' <= s[i] <= '9'
    ensures Places(s) >= 0
    decreases |s|
  {
    if s != "" {
      PlacesNonnegative(s[1..]);
      Product(s[0] as int - '0' as int, Pow10(|s| - 1));
    }
  }

  lemma Product(d: nat, p: nat)
    ensures d * p >= 0
  {
  }

  lemma {:induction false} PlacesShift(s: string, c: char)
    requires (forall i :: 0 <= i < |s| ==> '0' <= s[i] <= '9') && '0' <= c <= '9'
    ensures Places(s + [c]) == 10 * Places(s) + (c as int - '0' as int)
    decreases |s|
  {
    if s == "" {
      assert ("" + [c])[1..] == "" && Pow10(0) == 1;
    } else {
      PlacesShift(s[1..], c);
      assert (s + [c])[1..] == s[1..] + [c] && (s + [c])[0] == s[0];
      var d, p := s[0] as int - '0' as int, Pow10(|s| - 1);
      assert Pow10(|s|) == 10 * p;
      assert d * (10 * p) == 10 * (d * p);
    }
  }

  lemma {:induction false} ValueIsPlaces(s: string)
    requires AllDigits(s)
    ensures DigitsValue(s) == Places(s)
    decreases |s|
  {
    if s != "" {
      var n := |s| - 1;
      ValueIsPlaces(s[..n]);
      PlacesShift(s[..n], s[n]);
      assert s == s[..n] + [s[n]];
    }
  }

  /** An optional sign and at least one digit, worth v, which fits an int. */
  predicate IsDecimal(s: string, v: int) {
    && -0x8000_0000_0000_0000 <= v < 0x8000_0000_0000_0000
    && (|| (Digits(s) && v == Places(s))
        || (s != "" && s[0] == '+' && Digits(s[1..]) && v == Places(s[1..]))
        || (s != "" && s[0] == '-' && Digits(s[1..]) && v == -Places(s[1..])))
  }

  /** Atoi reads exactly these. */
  lemma AtoiExactly(s: string, v: int)
    ensures Atoi(s) == Some(v) <==> IsDecimal(s, v)
  {
    hide DigitsValue, Places;
    var signed := s != [] && (s[0] == '+' || s[0] == '-');
    var body := if signed then s[1..] else s;
    if AllDigits(body) { ValueIsPlaces(body); }
    if Digits(s) { assert '0' <= s[0] <= '9'; }
  }

  /** Decimal digits without a needless zero in front, worth n. */
  predicate IsNumeral(s: string, n: nat) {
    Digits(s) && Places(s) == n && (|s| > 1 ==> s[0] != '0')
  }

  lemma {:induction false} FormatIsNumeral(n: nat)
    ensures IsNumeral(FormatNat(n), n)
    ensures n > 0 ==> FormatNat(n)[0] != '0'
  {
    hide Places;
    if n < 10 {
      var c := DigitChar(n);
      assert c as int - '0' as int == n;
      PlacesShift("", c);
      assert "" + [c] == [c];
      NoPlaces();
    } else {
      FormatIsNumeral(n / 10);
      PlacesShift(FormatNat(n / 10), DigitChar(n % 10));
    }
  }

  lemma NoPlaces()
    ensures Places("") == 0
  {
  }

  /** A number has one numeral. */
  lemma {:induction false} NumeralUnique(s: string, t: string, n: nat)
    requires IsNumeral(s, n) && IsNumeral(t, n)
    ensures s == t
    decreases |s|
  {
    hide Places;
    LastPlace(s);
    LastPlace(t);
    var i, j := |s| - 1, |t| - 1;
    var p, q := s[..i], t[..j];
    var c, d := s[i] as int - '0' as int, t[j] as int - '0' as int;
    assert 10 * Places(p) + c == n == 10 * Places(q) + d;
    assert Places(p) == Places(q) && c == d;
    assert s == p + [s[i]] && t == q + [t[j]];
    if i > 0 && j > 0 { NumeralUnique(p, q, Places(p)); }
  }

  lemma LastPlace(s: string)
    requires Digits(s)
    ensures var n := |s| - 1;
            && Places(s) == 10 * Places(s[..n]) + (s[n] as int - '0' as int)
            && (n == 0 ==> Places(s[..n]) == 0)
            && (n > 0 && s[0] != '0' ==> Digits(s[..n]) && s[..n][0] != '0' && Places(s[..n]) > 0)
  {
    hide Places;
    var n := |s| - 1;
    var front := s[..n];
    PlacesShift(front, s[n]);
    assert s == front + [s[n]];
    if n == 0 {
      NoPlaces();
    } else if s[0] != '0' {
      assert front[0] == s[0];
      FirstPlace(front);
    }
  }

  lemma {:induction false} FirstPlace(s: string)
    requires Digits(s) && s[0] != '0'
    ensures Places(s) > 0
  {
    hide Pow10;
    Pow10Positive(|s| - 1);
    PlacesNonnegative(s[1..]);
    AtLeast(s[0] as int - '0' as int, Pow10(|s| - 1));
  }

  lemma AtLeast(d: nat, p: nat)
    requires d > 0
    ensures d * p >= p
  {
  }

  lemma {:induction false} Pow10Positive(n: nat)
    ensures Pow10(n) > 0
  {
    if n > 0 { Pow10Positive(n - 1); }
  }

  // ---------------------------------------------------------------- parts

  /** p stands in s between separators, or between one and an end. */
  ghost predicate IsPart(s: string, p: string, sep: char) {
    exists a: string, b: string :: IsPartBetween(s, a, p, b, sep)
  }

  predicate IsPartBetween(s: string, a: string, p: string, b: string, sep: char) {
    s == a + p + b && sep !in p && (a == "" || a[|a| - 1] == sep) && (b == "" || b[0] == sep)
  }

  /** Splitting loses nothing, and no part holds a separator. */
  lemma {:induction false} JoinSplit(s: string, sep: char)
    ensures Join(Split(s, sep), sep) == s
    ensures forall p :: p in Split(s, sep) ==> sep !in p
  {
    hide Split, Join;
    if s == [] {
      SplitNone(s, sep);
      JoinOne(s, sep);
    } else {
      JoinSplit(s[1..], sep);
      SplitUnfold(s, sep);
      var rest := Split(s[1..], sep);
      assert s == [s[0]] + s[1..];
      if s[0] == sep {
        JoinEmpty(rest, sep);
      } else {
        JoinFirst(s[0], rest, sep);
        NoSeparator(s[0], rest, sep);
      }
    }
  }

  lemma JoinOne(p: string, sep: char)
    ensures Join([p], sep) == p
  {
  }

  lemma JoinEmpty(parts: seq<string>, sep: char)
    requires parts != []
    ensures Join([[]] + parts, sep) == [sep] + Join(parts, sep)
  {
    assert ([[]] + parts)[1..] == parts;
  }

  lemma NoSeparator(c: char, parts: seq<string>, sep: char)
    requires parts != [] && c != sep && forall p :: p in parts ==> sep !in p
    ensures forall p :: p in [[c] + parts[0]] + parts[1..] ==> sep !in p
  {
    assert parts == [parts[0]] + parts[1..];
    assert sep !in parts[0];
  }

  lemma JoinFirst(c: char, parts: seq<string>, sep: char)
    requires parts != []
    ensures Join([[c] + parts[0]] + parts[1..], sep) == [c] + Join(parts, sep)
  {
    var more := [[c] + parts[0]] + parts[1..];
    if |parts| > 1 {
      assert more[1..] == parts[1..];
      assert [c] + parts[0] + [sep] + Join(parts[1..], sep) == [c] + (parts[0] + [sep] + Join(parts[1..], sep));
    }
  }

  /** The parts are exactly what splitting gives. */
  lemma SplitExactly(s: string, p: string, sep: char)
    ensures p in Split(s, sep) <==> IsPart(s, p, sep)
  {
    if p in Split(s, sep) { PartOfSplit(s, p, sep); }
    if IsPart(s, p, sep) {
      var a, b :| IsPartBetween(s, a, p, b, sep);
      SplitHasPart(s, a, p, b, sep);
    }
  }

  lemma {:induction false} PartOfSplit(s: string, p: string, sep: char)
    requires p in Split(s, sep)
    ensures IsPart(s, p, sep)
    decreases |s|
  {
    hide Split;
    if sep !in s {
      SplitNone(s, sep);
      assert IsPartBetween(s, "", s, "", sep);
    } else {
      var i := FirstAt(s, sep);
      var head, tail := s[..i], s[i + 1..];
      assert s == head + [sep] + tail;
      SplitAt(head, sep, tail);
      if p == head {
        assert IsPartBetween(s, "", head, [sep] + tail, sep);
      } else {
        PartOfSplit(tail, p, sep);
        var a, b :| IsPartBetween(tail, a, p, b, sep);
        PartFurther(s, head, tail, a, p, b, sep);
      }
    }
  }

  lemma PartFurther(s: string, head: string, tail: string, a: string, p: string, b: string, sep: char)
    requires s == head + [sep] + tail && IsPartBetween(tail, a, p, b, sep)
    ensures IsPart(s, p, sep)
  {
    var before := head + [sep] + a;
    assert s == before + p + b;
    assert IsPartBetween(s, before, p, b, sep);
  }

  lemma {:induction false} FirstAt(s: string, sep: char) returns (i: nat)
    requires sep in s
    ensures i < |s| && s[i] == sep && sep !in s[..i]
    decreases |s|
  {
    if s[0] == sep {
      i := 0;
    } else {
      i := FirstAt(s[1..], sep);
      i := i + 1;
      assert s[..i] == [s[0]] + s[1..][..i - 1];
    }
  }

  lemma {:induction false} SplitHasPart(s: string, a: string, p: string, b: string, sep: char)
    requires IsPartBetween(s, a, p, b, sep)
    ensures p in Split(s, sep)
    decreases |a|
  {
    hide Split;
    if a == "" {
      assert s == p + b;
      if b == "" {
        assert s == p;
        SplitNone(p, sep);
      } else {
        assert s == p + [sep] + b[1..];
        SplitAt(p, sep, b[1..]);
      }
    } else {
      var i := FirstAt(a, sep);
      var rest := a[i + 1..];
      assert a == a[..i] + [sep] + rest;
      assert s == a[..i] + [sep] + (rest + p + b);
      SplitAt(a[..i], sep, rest + p + b);
      if rest != "" { assert rest[|rest| - 1] == a[|a| - 1]; }
      SplitHasPart(rest + p + b, rest, p, b, sep);
    }
  }

  // ---------------------------------------------------------------- white space

  /** White space, one by one. */
  lemma SpaceTable(c: char)
    ensures IsSpace(c) <==>
            c in "\t\n\U{000B}\U{000C}\r \U{0085}\U{00A0}\U{1680}\U{2000}\U{2001}\U{2002}\U{2003}\U{2004}\U{2005}" ||
            c in "\U{2006}\U{2007}\U{2008}\U{2009}\U{200A}\U{2028}\U{2029}\U{202F}\U{205F}\U{3000}"
  {
  }

  /** A number with space around it. */
  ghost predicate Reads(s: string, v: int) {
    exists u: string, d: string, w: string :: s == u + d + w && AllSpace(u) && AllSpace(w) && IsDecimal(d, v)
  }

  /** safeInt reads exactly these, and answers anything else with its default. */
  lemma SafeIntExactly(s: string, def: int)
    ensures forall v :: Reads(s, v) ==> SafeInt(s, def) == v
    ensures SafeInt(s, def) == def || Reads(s, SafeInt(s, def))
  {
    hide TrimSpace, Atoi, IsDecimal, AllSpace;
    var i, j := TrimMeaning(s);
    var u, d, w := s[..i], s[i..j], s[j..];
    assert s == u + d + w;
    assert AllSpace(u) && AllSpace(w) by { SpaceEnds(s, i, j); }
    AtoiAll(d);
    forall v | Reads(s, v) ensures SafeInt(s, def) == v {
      var u', d', w' :| s == u' + d' + w' && AllSpace(u') && AllSpace(w') && IsDecimal(d', v);
      TrimDecimal(u', d', w', v);
      AtoiExactly(d', v);
    }
    if Atoi(d).Some? { AtoiExactly(d, Atoi(d).value); }
  }

  lemma AtoiAll(d: string)
    ensures Atoi(d).Some? ==> IsDecimal(d, Atoi(d).value)
  {
    hide Atoi, IsDecimal;
    if Atoi(d).Some? { AtoiExactly(d, Atoi(d).value); }
  }

  lemma SpaceEnds(s: string, i: nat, j: nat)
    requires i <= j <= |s| && forall k :: 0 <= k < i || j <= k < |s| ==> IsSpace(s[k])
    ensures AllSpace(s[..i]) && AllSpace(s[j..])
  {
    hide IsSpace;
  }

  lemma TrimDecimal(u: string, d: string, w: string, v: int)
    requires AllSpace(u) && AllSpace(w) && IsDecimal(d, v)
    ensures TrimSpace(u + d + w) == d
  {
    hide TrimSpace, AllSpace, Places;
    assert u + d + w == u + (d + w);
    TrimBefore(u, d + w);
    TrimAfter(d, w);
    var e := d[|d| - 1];
    assert '0' <= e <= '9' by { if !Digits(d) { assert e == d[1..][|d| - 2]; } }
    assert '0' <= d[0] <= '9' || d[0] == '+' || d[0] == '-';
    TrimNothing(d);
  }
}
