/** Strings: decimal and hexadecimal numerals, joining and splitting, and sorting. */
module Text {
  import Radix

  function DigitChar(d: nat): (c: char)
    requires d < 16
    ensures c != '.' && c != '=' && c != '\n' && c != '-' && c as int < 128
  {
    if d < 10 then '0' + d as char else 'a' + (d - 10) as char
  }

  function CharDigit(c: char): (d: nat)
    ensures d < 16
  {
    if '0' <= c <= '9' then (c - '0') as nat
    else if 'a' <= c <= 'f' then (c - 'a') as nat + 10
    else if 'A' <= c <= 'F' then (c - 'A') as nat + 10
    else 0
  }

  function Numeral(base: nat, v: nat): (s: string)
    requires 2 <= base <= 16
    ensures s != "" && forall i :: 0 <= i < |s| ==> s[i] != '.' && s[i] != '=' && s[i] != '\n' && s[i] != '-'
    ensures forall i :: 0 <= i < |s| ==> s[i] as int < 128
  {
    Radix.ValueOfDigits(base, v);
    var ds := Radix.Digits(base, v);
    if v == 0 then "0" else seq(|ds|, i requires 0 <= i < |ds| => DigitChar(ds[i]))
  }

  function DigitValues(s: string): (ds: seq<nat>)
    ensures |ds| == |s| && Radix.AreDigits(16, ds)
  {
    seq(|s|, i requires 0 <= i < |s| => CharDigit(s[i]))
  }

  /** The number a numeral stands for. */
  function NumeralValue(base: nat, s: string): nat {
    Radix.Value(base, DigitValues(s))
  }

  lemma NumeralDenotes(base: nat, v: nat)
    requires 2 <= base <= 16
    ensures NumeralValue(base, Numeral(base, v)) == v
  {
    Radix.ValueOfDigits(base, v);
    Radix.NoDigits(base);
    if v == 0 {
      assert DigitValues("0") == [] + [0];
      Radix.ValueSnoc(base, [], 0);
    } else {
      assert DigitValues(Numeral(base, v)) == Radix.Digits(base, v);
    }
  }

  lemma NumeralInjective(base: nat, v: nat, w: nat)
    requires 2 <= base <= 16 && Numeral(base, v) == Numeral(base, w)
    ensures v == w
  {
    NumeralDenotes(base, v);
    NumeralDenotes(base, w);
  }

  // ---- joining and splitting ----------------------------------------------------------------

  function Join(parts: seq<string>, sep: char): string {
    if parts == [] then "" else if |parts| == 1 then parts[0] else parts[0] + [sep] + Join(parts[1..], sep)
  }

  function Split(s: string, sep: char): (parts: seq<string>)
    ensures parts != []
  {
    if s == "" then [""]
    else
      var rest := Split(s[1..], sep);
      if s[0] == sep then [""] + rest else [[s[0]] + rest[0]] + rest[1..]
  }

  ghost predicate Free(s: string, sep: char) {
    forall i :: 0 <= i < |s| ==> s[i] != sep
  }

  lemma {:induction false} SplitWhole(p: string, sep: char)
    requires Free(p, sep)
    ensures Split(p, sep) == [p]
  {
    if p != "" {
      SplitWhole(p[1..], sep);
      assert p == [p[0]] + p[1..];
    }
  }

  lemma {:induction false} SplitFirst(p: string, s: string, sep: char)
    requires Free(p, sep)
    ensures Split(p + [sep] + s, sep) == [p] + Split(s, sep)
  {
    var w := p + [sep] + s;
    if p == "" {
      assert w[1..] == s;
    } else {
      assert w[1..] == p[1..] + [sep] + s && w[0] == p[0];
      SplitFirst(p[1..], s, sep);
      assert p == [p[0]] + p[1..];
    }
  }

  /** Splitting recovers what was joined, for a nonempty list of strings free of the separator. */
  lemma {:induction false} SplitOfJoin(parts: seq<string>, sep: char)
    requires parts != [] && forall i :: 0 <= i < |parts| ==> Free(parts[i], sep)
    ensures Split(Join(parts, sep), sep) == parts
  {
    if |parts| == 1 {
      SplitWhole(parts[0], sep);
    } else {
      SplitOfJoin(parts[1..], sep);
      SplitFirst(parts[0], Join(parts[1..], sep), sep);
    }
  }

  // ---- sorting ------------------------------------------------------------------------------

  predicate LessEq(a: string, b: string) {
    a == "" || (b != "" && (a[0] < b[0] || (a[0] == b[0] && LessEq(a[1..], b[1..]))))
  }

  lemma {:induction false} LessEqTotal(a: string, b: string)
    ensures LessEq(a, b) || LessEq(b, a)
  {
    if a != "" && b != "" { LessEqTotal(a[1..], b[1..]); }
  }

  lemma {:induction false} LessEqAntisymmetric(a: string, b: string)
    requires LessEq(a, b) && LessEq(b, a)
    ensures a == b
  {
    if a != "" {
      LessEqAntisymmetric(a[1..], b[1..]);
      assert a == [a[0]] + a[1..] && b == [b[0]] + b[1..];
    }
  }

  lemma {:induction false} LessEqTransitive(a: string, b: string, c: string)
    requires LessEq(a, b) && LessEq(b, c)
    ensures LessEq(a, c)
  {
    if a != "" && a[0] == b[0] == c[0] { LessEqTransitive(a[1..], b[1..], c[1..]); }
  }

  ghost predicate Sorted(s: seq<string>) {
    forall i, j :: 0 <= i < j < |s| ==> LessEq(s[i], s[j])
  }

  function Insert(x: string, s: seq<string>): seq<string> {
    if s == [] || LessEq(x, s[0]) then [x] + s else [s[0]] + Insert(x, s[1..])
  }

  /** Array.prototype.sort on strings: any sorting of them gives this list. */
  function Sort(s: seq<string>): seq<string> {
    if s == [] then [] else Insert(s[0], Sort(s[1..]))
  }

  lemma {:induction false} InsertSorts(x: string, s: seq<string>)
    requires Sorted(s)
    ensures Sorted(Insert(x, s)) && multiset(Insert(x, s)) == multiset(s) + multiset{x}
  {
    hide LessEq;
    if s == [] {
    } else if LessEq(x, s[0]) {
      forall j | 0 <= j < |s| ensures LessEq(x, s[j]) {
        if j > 0 { LessEqTransitive(x, s[0], s[j]); }
      }
    } else {
      InsertSorts(x, s[1..]);
      LessEqTotal(x, s[0]);
      var r := Insert(x, s[1..]);
      assert s == [s[0]] + s[1..];
      forall j | 0 <= j < |r| ensures LessEq(s[0], r[j]) {
        assert r[j] in multiset(r);
        assert r[j] == x || r[j] in s[1..];
      }
    }
  }

  lemma {:induction false} SortSorts(s: seq<string>)
    ensures Sorted(Sort(s)) && multiset(Sort(s)) == multiset(s)
  {
    if s != [] {
      SortSorts(s[1..]);
      InsertSorts(s[0], Sort(s[1..]));
      assert s == [s[0]] + s[1..];
    }
  }

  /** The head of a sorted list is below every element. */
  lemma SortedHead(s: seq<string>, x: string)
    requires Sorted(s) && x in multiset(s)
    ensures LessEq(s[0], x)
  {
    var i :| 0 <= i < |s| && s[i] == x;
    LessEqTotal(x, x);
  }

  lemma SortedTail(s: seq<string>)
    requires Sorted(s) && s != []
    ensures Sorted(s[1..]) && multiset(s[1..]) == multiset(s) - multiset{s[0]}
  {
    assert s == [s[0]] + s[1..];
  }

  lemma SameLength(a: seq<string>, b: seq<string>)
    requires multiset(a) == multiset(b)
    ensures |a| == |b|
  {
    assert |multiset(a)| == |a| && |multiset(b)| == |b|;
  }

  lemma {:induction false} SortedUnique(a: seq<string>, b: seq<string>)
    requires Sorted(a) && Sorted(b) && multiset(a) == multiset(b)
    ensures a == b
  {
    hide LessEq, Sorted;
    SameLength(a, b);
    if a != [] {
      assert a[0] in multiset(a) && b[0] in multiset(b);
      SortedHead(a, b[0]);
      SortedHead(b, a[0]);
      LessEqAntisymmetric(a[0], b[0]);
      assert a == [a[0]] + a[1..] && b == [b[0]] + b[1..];
      SortedTail(a);
      SortedTail(b);
      SortedUnique(a[1..], b[1..]);
    }
  }

  /** Comparing sorted lists is comparing multisets. */
  lemma SortDecidesMultisets(a: seq<string>, b: seq<string>)
    ensures Sort(a) == Sort(b) <==> multiset(a) == multiset(b)
  {
    SortSorts(a);
    SortSorts(b);
    if multiset(a) == multiset(b) {
      SortedUnique(Sort(a), Sort(b));
    }
  }

  /** b begins with a, or is larger where they first differ. */
  ghost predicate Before(a: string, b: string) {
    a <= b || exists k :: DiffersAt(a, b, k)
  }

  ghost predicate DiffersAt(a: string, b: string, k: nat) {
    k < |a| && k < |b| && a[..k] == b[..k] && a[k] < b[k]
  }

  lemma {:induction false} LessEqIsBefore(a: string, b: string)
    ensures LessEq(a, b) <==> Before(a, b)
  {
    if a != "" && b != "" {
      LessEqIsBefore(a[1..], b[1..]);
      assert a == [a[0]] + a[1..] && b == [b[0]] + b[1..];
      if a[0] < b[0] { assert DiffersAt(a, b, 0); }
      if k: nat :| DiffersAt(a[1..], b[1..], k) && a[0] == b[0] {
        assert a[..k + 1] == [a[0]] + a[1..][..k] && b[..k + 1] == [b[0]] + b[1..][..k];
        assert DiffersAt(a, b, k + 1);
      }
      if k: nat :| DiffersAt(a, b, k) && k > 0 {
        assert a[..k][0] == a[0] && b[..k][0] == b[0];
        assert a[..k][1..] == a[1..][..k - 1] && b[..k][1..] == b[1..][..k - 1];
        assert DiffersAt(a[1..], b[1..], k - 1);
      }
    }
  }

  /** Sorting gives the one list of these strings in ascending order of their code units. */
  lemma SortIsAscending(s: seq<string>, r: seq<string>)
    ensures Sort(s) == r <==>
            multiset(r) == multiset(s) && forall i, j :: 0 <= i < j < |r| ==> Before(r[i], r[j])
  {
    SortSorts(s);
    forall i, j | 0 <= i < j < |r| ensures LessEq(r[i], r[j]) <==> Before(r[i], r[j]) {
      LessEqIsBefore(r[i], r[j]);
    }
    hide LessEq, Before, Sort;
    if multiset(r) == multiset(s) && Sorted(r) { SortedUnique(Sort(s), r); }
  }
}
