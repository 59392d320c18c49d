/** String operations the handler relies on: Go's byte-wise string order (as code point
    order), `sort.Strings`, the stable `byLongest` sort, `%d` integer rendering,
    ASCII upper-casing and `strings.Join`. */
module Text {
  import opened Wrappers

  // ---------------------------------------------------------------------------
  // Lexicographic order

  /** `a <= b` in Go's string order. Comparing UTF-8 bytes orders strings as comparing
      their code points does, so the order is stated on characters. */
  predicate LexLe(a: string, b: string)
    decreases |a|
  {
    a == [] || (b != [] && (a[0] < b[0] || (a[0] == b[0] && LexLe(a[1..], b[1..]))))
  }

  lemma {:induction false} LexLeReflexive(a: string)
    decreases |a|
    ensures LexLe(a, a)
  {
    if a != [] { LexLeReflexive(a[1..]); }
  }

  lemma {:induction false} LexLeTotal(a: string, b: string)
    decreases |a|
    ensures LexLe(a, b) || LexLe(b, a)
  {
    if a != [] && b != [] && a[0] == b[0] { LexLeTotal(a[1..], b[1..]); }
  }

  lemma {:induction false} LexLeAntisymmetric(a: string, b: string)
    decreases |a|
    requires LexLe(a, b) && LexLe(b, a)
    ensures a == b
  {
    if a != [] {
      LexLeAntisymmetric(a[1..], b[1..]);
      assert a == [a[0]] + a[1..] && b == [b[0]] + b[1..];
    }
  }

  lemma {:induction false} LexLeTransitive(a: string, b: string, c: string)
    decreases |a|
    requires LexLe(a, b) && LexLe(b, c)
    ensures LexLe(a, c)
  {
    if a != [] && a[0] == b[0] && b[0] == c[0] { LexLeTransitive(a[1..], b[1..], c[1..]); }
  }

  predicate LexSorted(s: seq<string>) {
    forall i, j :: 0 <= i < j < |s| ==> LexLe(s[i], s[j])
  }

  // ---------------------------------------------------------------------------
  // sort.Strings

  /** The head of a sorted sequence is no greater than any of its elements. */
  lemma SortedHeadLeast(s: seq<string>)
    requires LexSorted(s) && s != []
    ensures forall y :: y in s ==> LexLe(s[0], y)
  {
    LexLeReflexive(s[0]);
  }

  lemma SortedCons(x: string, s: seq<string>)
    requires LexSorted(s)
    requires forall y :: y in s ==> LexLe(x, y)
    ensures LexSorted([x] + s)
  {
    forall i, j | 0 <= i < j < |s| + 1 ensures LexLe(([x] + s)[i], ([x] + s)[j]) {
      assert ([x] + s)[j] == s[j - 1];
      if i == 0 { assert s[j - 1] in s; } else { assert ([x] + s)[i] == s[i - 1]; }
    }
  }

  lemma SortedTail(s: seq<string>)
    requires LexSorted(s) && s != []
    ensures LexSorted(s[1..])
  {
    forall i, j | 0 <= i < j < |s| - 1 ensures LexLe(s[1..][i], s[1..][j]) {
      assert s[1..][i] == s[i + 1] && s[1..][j] == s[j + 1];
    }
  }

  function Insert(x: string, s: seq<string>): (r: seq<string>)
    requires LexSorted(s)
    ensures LexSorted(r)
    ensures multiset(r) == multiset(s) + multiset{x}
  {
    if s == [] then [x]
    else if LexLe(x, s[0]) then
      InsertFront(x, s);
      [x] + s
    else
      SortedTail(s);
      var t := Insert(x, s[1..]);
      InsertBehind(x, s, t);
      [s[0]] + t
  }

  lemma InsertFront(x: string, s: seq<string>)
    requires LexSorted(s) && s != [] && LexLe(x, s[0])
    ensures LexSorted([x] + s)
    ensures multiset([x] + s) == multiset(s) + multiset{x}
  {
    SortedHeadLeast(s);
    forall y | y in s ensures LexLe(x, y) { LexLeTransitive(x, s[0], y); }
    SortedCons(x, s);
  }

  lemma InsertBehind(x: string, s: seq<string>, t: seq<string>)
    requires LexSorted(s) && s != [] && !LexLe(x, s[0])
    requires LexSorted(t) && multiset(t) == multiset(s[1..]) + multiset{x}
    ensures LexSorted([s[0]] + t)
    ensures multiset([s[0]] + t) == multiset(s) + multiset{x}
  {
    LexLeTotal(x, s[0]);
    SortedHeadLeast(s);
    forall y | y in t ensures LexLe(s[0], y) {
      assert y in multiset(t);
      if y != x { assert y in multiset(s[1..]); assert y in s[1..]; }
    }
    SortedCons(s[0], t);
    assert s == [s[0]] + s[1..];
  }

  /** `sort.Strings`: the strings in ascending order, as a permutation of the input. */
  function SortStrings(s: seq<string>): (r: seq<string>)
    ensures LexSorted(r)
    ensures multiset(r) == multiset(s)
  {
    if s == [] then []
    else
      assert s == [s[0]] + s[1..];
      Insert(s[0], SortStrings(s[1..]))
  }

  /** A sorted arrangement of a multiset of strings is unique, so sorting removes every
      trace of the order in which the strings were produced. */
  lemma {:induction false} SortedUnique(a: seq<string>, b: seq<string>)
    requires LexSorted(a) && LexSorted(b)
    requires multiset(a) == multiset(b)
    ensures a == b
  {
    if a != [] {
      assert a[0] in multiset(b);
      SortedSameHead(a, b);
      SortedTail(a);
      SortedTail(b);
      SameTailBag(a, b);
      SortedUnique(a[1..], b[1..]);
      assert a == [a[0]] + a[1..] && b == [b[0]] + b[1..];
    }
  }

  /** Two sorted arrangements of one multiset start with the same string. */
  lemma SortedSameHead(a: seq<string>, b: seq<string>)
    requires LexSorted(a) && LexSorted(b)
    requires multiset(a) == multiset(b) && a != []
    ensures b != [] && a[0] == b[0]
  {
    assert a[0] in multiset(b);
    assert b[0] in multiset(a);
    assert a[0] in b && b[0] in a;
    SortedHeadLeast(a);
    SortedHeadLeast(b);
    LexLeAntisymmetric(a[0], b[0]);
  }

  lemma SameTailBag(a: seq<string>, b: seq<string>)
    requires a != [] && b != [] && a[0] == b[0] && multiset(a) == multiset(b)
    ensures multiset(a[1..]) == multiset(b[1..])
  {
    assert a == [a[0]] + a[1..] && b == [b[0]] + b[1..];
    assert multiset(a[1..]) == multiset(a) - multiset{a[0]};
    assert multiset(b[1..]) == multiset(b) - multiset{b[0]};
  }

  // ---------------------------------------------------------------------------
  // sort.Stable(byLongest(kv)): a stable sort by ascending length

  predicate LengthSorted(s: seq<string>) {
    forall i, j :: 0 <= i < j < |s| ==> |s[i]| <= |s[j]|
  }

  /** Shorter first; equal lengths in string order. */
  predicate LenLexLe(a: string, b: string) {
    |a| < |b| || (|a| == |b| && LexLe(a, b))
  }

  predicate LenLexSorted(s: seq<string>) {
    forall i, j :: 0 <= i < j < |s| ==> LenLexLe(s[i], s[j])
  }

  /** Places `x` before the first element at least as long as it, so it stays ahead of
      equally long elements that came after it in the input. */
  function InsertByLength(x: string, s: seq<string>): (r: seq<string>)
    ensures multiset(r) == multiset(s) + multiset{x}
  {
    if s == [] || |x| <= |s[0]| then
      assert multiset([x] + s) == multiset(s) + multiset{x};
      [x] + s
    else
      assert s == [s[0]] + s[1..];
      [s[0]] + InsertByLength(x, s[1..])
  }

  lemma LengthCons(x: string, s: seq<string>)
    requires LengthSorted(s)
    requires forall y :: y in s ==> |x| <= |y|
    ensures LengthSorted([x] + s)
  {
    forall i, j | 0 <= i < j < |s| + 1 ensures |([x] + s)[i]| <= |([x] + s)[j]| {
      assert ([x] + s)[j] == s[j - 1];
      if i == 0 { assert s[j - 1] in s; } else { assert ([x] + s)[i] == s[i - 1]; }
    }
  }

  lemma LenLexCons(x: string, s: seq<string>)
    requires LenLexSorted(s)
    requires forall y :: y in s ==> LenLexLe(x, y)
    ensures LenLexSorted([x] + s)
  {
    forall i, j | 0 <= i < j < |s| + 1 ensures LenLexLe(([x] + s)[i], ([x] + s)[j]) {
      assert ([x] + s)[j] == s[j - 1];
      if i == 0 { assert s[j - 1] in s; } else { assert ([x] + s)[i] == s[i - 1]; }
    }
  }

  lemma {:induction false} InsertByLengthSorted(x: string, s: seq<string>)
    requires LengthSorted(s)
    ensures LengthSorted(InsertByLength(x, s))
  {
    if s == [] || |x| <= |s[0]| {
      forall y | y in s ensures |x| <= |y| {
        var k :| 0 <= k < |s| && s[k] == y;
      }
      LengthCons(x, s);
    } else {
      assert LengthSorted(s[1..]) by {
        forall i, j | 0 <= i < j < |s| - 1 ensures |s[1..][i]| <= |s[1..][j]| {
          assert s[1..][i] == s[i + 1] && s[1..][j] == s[j + 1];
        }
      }
      InsertByLengthSorted(x, s[1..]);
      var t := InsertByLength(x, s[1..]);
      forall y | y in t ensures |s[0]| <= |y| {
        assert y in multiset(t);
        if y != x { assert y in multiset(s[1..]); var k :| 0 <= k < |s[1..]| && s[1..][k] == y; assert y == s[k + 1]; }
      }
      LengthCons(s[0], t);
    }
  }

  /** When `x` is no greater than every element of `s` in string order, inserting it by
      length into a length-then-string sorted `s` keeps it length-then-string sorted. */
  lemma {:induction false} InsertByLengthLenLex(x: string, s: seq<string>)
    requires LenLexSorted(s)
    requires forall y :: y in s ==> LexLe(x, y)
    ensures LenLexSorted(InsertByLength(x, s))
  {
    if s == [] || |x| <= |s[0]| {
      forall y | y in s ensures LenLexLe(x, y) {
        var k :| 0 <= k < |s| && s[k] == y;
        if k > 0 { assert LenLexLe(s[0], s[k]); }
      }
      LenLexCons(x, s);
    } else {
      assert LenLexSorted(s[1..]) by {
        forall i, j | 0 <= i < j < |s| - 1 ensures LenLexLe(s[1..][i], s[1..][j]) {
          assert s[1..][i] == s[i + 1] && s[1..][j] == s[j + 1];
        }
      }
      assert forall y :: y in s[1..] ==> LexLe(x, y) by {
        forall y | y in s[1..] ensures LexLe(x, y) { assert y in s; }
      }
      InsertByLengthLenLex(x, s[1..]);
      var t := InsertByLength(x, s[1..]);
      forall y | y in t ensures LenLexLe(s[0], y) {
        assert y in multiset(t);
        if y != x { assert y in multiset(s[1..]); var k :| 0 <= k < |s[1..]| && s[1..][k] == y; assert y == s[k + 1]; }
      }
      LenLexCons(s[0], t);
    }
  }

  /** `sort.Stable(byLongest(s))`: ascending length, a permutation of the input. */
  function SortByLength(s: seq<string>): (r: seq<string>)
    ensures multiset(r) == multiset(s)
    ensures LengthSorted(r)
  {
    if s == [] then []
    else
      assert s == [s[0]] + s[1..];
      var t := SortByLength(s[1..]);
      InsertByLengthSorted(s[0], t);
      InsertByLength(s[0], t)
  }

  /** Being stable, the length sort of a string-sorted sequence orders by length first and
      by string order among equal lengths. */
  lemma {:induction false} SortByLengthOfSorted(s: seq<string>)
    requires LexSorted(s)
    ensures LenLexSorted(SortByLength(s))
  {
    if s != [] {
      assert LexSorted(s[1..]) by {
        forall i, j | 0 <= i < j < |s[1..]| ensures LexLe(s[1..][i], s[1..][j]) {
          assert s[1..][i] == s[i + 1] && s[1..][j] == s[j + 1];
        }
      }
      SortByLengthOfSorted(s[1..]);
      var t := SortByLength(s[1..]);
      forall y | y in t ensures LexLe(s[0], y) {
        assert y in multiset(s[1..]);
        var k :| 0 <= k < |s[1..]| && s[1..][k] == y;
        assert y == s[k + 1];
      }
      InsertByLengthLenLex(s[0], t);
    }
  }

  // ---------------------------------------------------------------------------
  // %d

  function DigitChar(d: nat): char
    requires d < 10
  {
    "0123456789"[d]
  }

  function DigitValue(c: char): Option<nat> {
    if '0' <= c <= '9' then Some((c as int - '0' as int) as nat) else None
  }

  /** Decimal digits of a natural number, most significant first, without leading zeros. */
  function Digits(n: nat): (r: string)
    ensures r != []
    ensures forall i :: 0 <= i < |r| ==> '0' <= r[i] <= '9'
    ensures r[0] == '0' ==> n == 0
  {
    if n < 10 then [DigitChar(n)] else Digits(n / 10) + [DigitChar(n % 10)]
  }

  /** `fmt.Sprintf("%d", n)`. */
  function FormatInt(n: int): (r: string)
    ensures r != [] && (r[0] == '-' <==> n < 0)
  {
    if n < 0 then "-" + Digits(-n) else Digits(n)
  }

  /** Reads back a string of decimal digits. */
  function ParseDigits(s: string): Option<nat>
    requires s != []
  {
    var d := DigitValue(s[|s| - 1]);
    if d.None? then None
    else if |s| == 1 then d
    else match ParseDigits(s[..|s| - 1])
      case None => None
      case Some(hi) => Some(hi * 10 + d.value)
  }

  /** Reads back an optionally negative decimal integer. */
  function ParseInt(s: string): Option<int> {
    if s == [] then None
    else if s[0] == '-' then
      if |s| == 1 then None
      else match ParseDigits(s[1..])
        case None => None
        case Some(n) => Some(-(n as int))
    else match ParseDigits(s)
      case None => None
      case Some(n) => Some(n)
  }

  lemma {:induction false} DigitsRoundTrip(n: nat)
    ensures ParseDigits(Digits(n)) == Some(n)
  {
    if n >= 10 {
      DigitsRoundTrip(n / 10);
      var s := Digits(n);
      assert s[..|s| - 1] == Digits(n / 10);
    }
  }

  lemma ParseSigned(d: string)
    requires d != [] && d[0] != '-'
    ensures ParseDigits(d).Some? ==> ParseInt("-" + d) == Some(-(ParseDigits(d).value as int))
    ensures ParseDigits(d).Some? ==> ParseInt(d) == Some(ParseDigits(d).value as int)
  {
    assert ("-" + d)[0] == '-' && ("-" + d)[1..] == d;
  }

  /** `%d` output reads back as the integer it renders. */
  lemma FormatIntRoundTrip(n: int)
    ensures ParseInt(FormatInt(n)) == Some(n)
  {
    var m: nat := if n < 0 then -n else n;
    DigitsRoundTrip(m);
    ParseSigned(Digits(m));
  }

  // ---------------------------------------------------------------------------
  // strings.ToUpper (ASCII) and strings.Join

  function UpperChar(c: char): char {
    if 'a' <= c <= 'z' then (c as int - 32) as char else c
  }

  function ToUpper(s: string): (r: string)
    ensures |r| == |s|
    ensures forall i :: 0 <= i < |s| ==> r[i] == UpperChar(s[i])
  {
    if s == [] then [] else [UpperChar(s[0])] + ToUpper(s[1..])
  }

  function Join(parts: seq<string>, sep: string): (r: string)
    ensures parts != [] ==> |parts[0]| <= |r| && r[..|parts[0]|] == parts[0]
  {
    if parts == [] then ""
    else if |parts| == 1 then parts[0]
    else parts[0] + sep + Join(parts[1..], sep)
  }

  /** `part` occurs in `s` starting at position `o`. */
  predicate OccursAt(part: string, s: string, o: int) {
    0 <= o <= |s| - |part| && s[o..o + |part|] == part
  }

  /** Every part appears, whole, in the joined string. */
  lemma {:induction false} JoinContains(parts: seq<string>, sep: string, i: int)
    requires 0 <= i < |parts|
    ensures exists o :: OccursAt(parts[i], Join(parts, sep), o)
  {
    var j := Join(parts, sep);
    if |parts| == 1 {
      assert OccursAt(parts[0], j, 0);
    } else if i == 0 {
      assert OccursAt(parts[0], j, 0);
    } else {
      var tail := Join(parts[1..], sep);
      JoinContains(parts[1..], sep, i - 1);
      assert parts[1..][i - 1] == parts[i];
      var o :| OccursAt(parts[i], tail, o);
      assert j == (parts[0] + sep) + tail;
      OccursAfter(parts[i], parts[0] + sep, tail, o);
    }
  }

  /** An occurrence in `s` is one in `p + s`, shifted by the length of `p`. */
  lemma OccursAfter(part: string, p: string, s: string, o: int)
    requires OccursAt(part, s, o)
    ensures OccursAt(part, p + s, |p| + o)
  {
    assert (p + s)[|p| + o..|p| + o + |part|] == s[o..o + |part|];
  }
}
