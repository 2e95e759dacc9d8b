/** The order `Array.prototype.sort()` puts object keys in when it is given
    no comparator: strings compared by their UTF-16 code units.

    `Less` compares strings character by character through `CodeUnitRank`,
    which places each scalar value where its code units fall:
    `CodeUnitRankMatchesUtf16` shows this for two characters, and
    `LessMatchesUnits` shows that `Less` on whole strings is the comparison
    of their UTF-16 code-unit sequences.
    The engine's sorting algorithm is not visible; since object keys are
    distinct and `Less` is a strict total order, there is exactly one
    ascending arrangement (`SortedUnique`), so insertion sort stands for it. */
module KeyOrder {

  /** The position of `c` in UTF-16 code-unit order: characters below
      U+D800 keep their value, characters beyond U+FFFF (encoded with a
      surrogate pair starting in U+D800..U+DBFF) come next, and U+E000..U+FFFF
      come last. */
  function CodeUnitRank(c: char): (k: int)
    ensures (c as int < 0xD800) ==> k == c as int
  {
    var cp := c as int;
    if cp < 0xD800 then cp
    else if cp >= 0x10000 then 0xD800 + (cp - 0x10000)
    else cp + 0x100000
  }

  /** The UTF-16 code units of one character. */
  function Utf16(c: char): (units: seq<int>)
    ensures 1 <= |units| <= 2
  {
    var cp := c as int;
    if cp < 0x10000 then [cp]
    else [0xD800 + (cp - 0x10000) / 0x400, 0xDC00 + (cp - 0x10000) % 0x400]
  }

  /** Lexicographic order on code-unit sequences, as JavaScript compares
      strings. */
  predicate UnitsLess(x: seq<int>, y: seq<int>)
    decreases |x|
  {
    if y == [] then false
    else if x == [] then true
    else if x[0] != y[0] then x[0] < y[0]
    else UnitsLess(x[1..], y[1..])
  }

  /** Comparing two different characters by rank is comparing their code
      units. */
  lemma CodeUnitRankMatchesUtf16(a: char, b: char)
    requires a != b
    ensures CodeUnitRank(a) != CodeUnitRank(b)
    ensures CodeUnitRank(a) < CodeUnitRank(b) <==> UnitsLess(Utf16(a), Utf16(b))
  {
    var x, y := Utf16(a), Utf16(b);
    var p, q := a as int, b as int;
    if p >= 0x10000 && q >= 0x10000 {
      var u, v := p - 0x10000, q - 0x10000;
      assert u == (u / 0x400) * 0x400 + u % 0x400;
      assert v == (v / 0x400) * 0x400 + v % 0x400;
      if x[0] == y[0] {
        assert x[1..] == [x[1]] && y[1..] == [y[1]];
        assert UnitsLess(x, y) == UnitsLess([x[1]], [y[1]]);
      }
    }
  }

  /** The UTF-16 code units of a string. */
  function Units(s: string): (units: seq<int>)
    ensures |units| >= |s|
  {
    if s == [] then [] else Utf16(s[0]) + Units(s[1..])
  }

  /** Two unit sequences that first differ at position `k` compare the
      same way whatever follows them. */
  lemma {:induction false} UnitsLessDiffAt(x: seq<int>, y: seq<int>, xs: seq<int>, ys: seq<int>, k: nat)
    requires k < |x| && k < |y| && x[..k] == y[..k] && x[k] != y[k]
    ensures UnitsLess(x + xs, y + ys) <==> UnitsLess(x, y)
  {
    if k > 0 {
      assert x[0] == x[..k][0] && y[0] == y[..k][0];
      assert (x + xs)[1..] == x[1..] + xs && (y + ys)[1..] == y[1..] + ys;
      assert x[1..][..k - 1] == x[..k][1..] && y[1..][..k - 1] == y[..k][1..];
      UnitsLessDiffAt(x[1..], y[1..], xs, ys, k - 1);
    }
  }

  /** The units of two different characters differ before either ends, so
      what follows them does not matter. */
  lemma CharUnitsDecide(a: char, b: char, xs: seq<int>, ys: seq<int>)
    requires a != b
    ensures UnitsLess(Utf16(a) + xs, Utf16(b) + ys) <==> UnitsLess(Utf16(a), Utf16(b))
  {
    var x, y := Utf16(a), Utf16(b);
    var p, q := a as int, b as int;
    if p >= 0x10000 && q >= 0x10000 && x[0] == y[0] {
      var u, v := p - 0x10000, q - 0x10000;
      assert u == (u / 0x400) * 0x400 + u % 0x400;
      assert v == (v / 0x400) * 0x400 + v % 0x400;
      assert x[..1] == y[..1];
      UnitsLessDiffAt(x, y, xs, ys, 1);
    } else {
      UnitsLessDiffAt(x, y, xs, ys, 0);
    }
  }

  /** A shared prefix of units does not change the comparison. */
  lemma {:induction false} UnitsLessCommonPrefix(p: seq<int>, x: seq<int>, y: seq<int>)
    ensures UnitsLess(p + x, p + y) <==> UnitsLess(x, y)
  {
    if p != [] {
      assert (p + x)[1..] == p[1..] + x && (p + y)[1..] == p[1..] + y;
      UnitsLessCommonPrefix(p[1..], x, y);
    } else {
      assert p + x == x && p + y == y;
    }
  }

  /** `a` sorts before `b`. */
  predicate Less(a: string, b: string)
    decreases |a|
  {
    if b == [] then false
    else if a == [] then true
    else if a[0] != b[0] then CodeUnitRank(a[0]) < CodeUnitRank(b[0])
    else Less(a[1..], b[1..])
  }

  /** `Less` is the comparison of the UTF-16 code units of the two strings,
      as JavaScript compares strings. */
  lemma {:induction false} LessMatchesUnits(a: string, b: string)
    ensures Less(a, b) <==> UnitsLess(Units(a), Units(b))
  {
    if a != [] && b != [] {
      if a[0] != b[0] {
        CodeUnitRankMatchesUtf16(a[0], b[0]);
        CharUnitsDecide(a[0], b[0], Units(a[1..]), Units(b[1..]));
      } else {
        UnitsLessCommonPrefix(Utf16(a[0]), Units(a[1..]), Units(b[1..]));
        LessMatchesUnits(a[1..], b[1..]);
      }
    }
  }

  lemma {:induction false} LessIrreflexive(a: string)
    ensures !Less(a, a)
  {
    if a != [] {
      LessIrreflexive(a[1..]);
    }
  }

  lemma {:induction false} LessAsymmetric(a: string, b: string)
    requires Less(a, b)
    ensures !Less(b, a)
  {
    if a != [] && a[0] == b[0] {
      LessAsymmetric(a[1..], b[1..]);
    }
  }

  lemma {:induction false} LessTransitive(a: string, b: string, c: string)
    requires Less(a, b) && Less(b, c)
    ensures Less(a, c)
  {
    if a != [] && a[0] == b[0] && b[0] == c[0] {
      LessTransitive(a[1..], b[1..], c[1..]);
    }
  }

  lemma {:induction false} LessTotal(a: string, b: string)
    requires a != b
    ensures Less(a, b) || Less(b, a)
  {
    if a != [] && b != [] {
      if a[0] == b[0] {
        assert a == [a[0]] + a[1..] && b == [b[0]] + b[1..];
        LessTotal(a[1..], b[1..]);
      } else {
        CodeUnitRankMatchesUtf16(a[0], b[0]);
      }
    }
  }

  /** A common prefix does not change the comparison. */
  lemma {:induction false} LessCommonPrefix(p: string, a: string, b: string)
    ensures Less(p + a, p + b) <==> Less(a, b)
  {
    if p != [] {
      assert (p + a)[1..] == p[1..] + a && (p + b)[1..] == p[1..] + b;
      LessCommonPrefix(p[1..], a, b);
    } else {
      assert p + a == a && p + b == b;
    }
  }

  /** A proper prefix sorts first. */
  lemma {:induction false} LessProperPrefix(a: string, b: string)
    requires b != []
    ensures Less(a, a + b)
  {
    if a != [] {
      assert (a + b)[1..] == a[1..] + b;
      LessProperPrefix(a[1..], b);
    } else {
      assert a + b == b;
    }
  }

  ghost predicate Distinct(s: seq<string>) {
    forall i, j :: 0 <= i < j < |s| ==> s[i] != s[j]
  }

  /** Ascending with no repeats. */
  ghost predicate StrictlySorted(s: seq<string>) {
    forall i, j :: 0 <= i < j < |s| ==> Less(s[i], s[j])
  }

  /** Ascending, repeats allowed. */
  ghost predicate Sorted(s: seq<string>) {
    forall i, j :: 0 <= i < j < |s| ==> !Less(s[j], s[i])
  }

  /** Inserts `x` in front of the first element it does not follow. */
  function Insert(x: string, s: seq<string>): (r: seq<string>)
    ensures |r| == |s| + 1
    ensures multiset(r) == multiset(s) + multiset{x}
  {
    assert s != [] ==> s == [s[0]] + s[1..];
    if s == [] then [x]
    else if Less(s[0], x) then [s[0]] + Insert(x, s[1..])
    else [x] + s
  }

  /** `keys.sort()`. */
  function Sort(s: seq<string>): (r: seq<string>)
    ensures |r| == |s|
    ensures multiset(r) == multiset(s)
  {
    assert s != [] ==> s == [s[0]] + s[1..];
    if s == [] then [] else Insert(s[0], Sort(s[1..]))
  }

  lemma {:induction false} InsertSorted(x: string, s: seq<string>)
    requires Sorted(s)
    ensures Sorted(Insert(x, s))
  {
    if s != [] {
      var r := Insert(x, s);
      if Less(s[0], x) {
        var t := s[1..];
        InsertSorted(x, t);
        forall j | 1 <= j < |r| ensures !Less(r[j], r[0]) {
          assert r[j] in multiset(Insert(x, t));
          if r[j] == x {
            LessAsymmetric(s[0], x);
          } else {
            assert r[j] in t;
          }
        }
      } else {
        forall j | 1 <= j < |r| ensures !Less(r[j], x) {
          if Less(r[j], x) {
            if r[j] == s[0] {
            } else {
              assert Less(s[0], r[j]) by {
                LessTotal(s[0], r[j]);
              }
              LessTransitive(s[0], r[j], x);
            }
          }
        }
      }
    }
  }

  lemma {:induction false} SortSorted(s: seq<string>)
    ensures Sorted(Sort(s))
  {
    if s != [] {
      SortSorted(s[1..]);
      InsertSorted(s[0], Sort(s[1..]));
    }
  }

  lemma DistinctByMultiset(s: seq<string>)
    ensures Distinct(s) <==> forall x :: multiset(s)[x] <= 1
  {
    if Distinct(s) {
      DistinctCounts(s);
    } else {
      var i, j :| 0 <= i < j < |s| && s[i] == s[j];
      assert s == s[..i] + [s[i]] + s[i + 1..j] + [s[j]] + s[j + 1..];
      assert multiset(s)[s[i]] >= 2;
    }
  }

  lemma {:induction false} DistinctCounts(s: seq<string>)
    requires Distinct(s)
    ensures forall x :: multiset(s)[x] <= 1
  {
    if s != [] {
      DistinctCounts(s[1..]);
      assert s == [s[0]] + s[1..];
      assert s[0] !in s[1..];
    }
  }

  /** Sorting distinct keys lists each of them once, in strictly ascending
      order. */
  lemma SortStrictlySorted(s: seq<string>)
    requires Distinct(s)
    ensures StrictlySorted(Sort(s))
    ensures forall x :: x in Sort(s) <==> x in s
  {
    var r := Sort(s);
    SortSorted(s);
    DistinctByMultiset(s);
    DistinctByMultiset(r);
    forall i, j | 0 <= i < j < |r| ensures Less(r[i], r[j]) {
      LessTotal(r[i], r[j]);
    }
    forall x ensures x in r <==> x in s {
      assert x in r <==> x in multiset(r);
    }
  }

  /** Two strictly ascending lists of the same keys are the same list. */
  lemma {:induction false} SortedUnique(a: seq<string>, b: seq<string>)
    requires StrictlySorted(a) && StrictlySorted(b)
    requires forall x :: x in a <==> x in b
    ensures a == b
  {
    if a != [] { assert a[0] in b; }
    if b != [] { assert b[0] in a; }
    if a != [] {
      if a[0] != b[0] {
        assert a[0] in b && b[0] in a;
        var i :| 0 < i < |b| && b[i] == a[0];
        var j :| 0 < j < |a| && a[j] == b[0];
        LessAsymmetric(b[0], a[0]);
        assert false;
      }
      LessIrreflexive(a[0]);
      forall x ensures x in a[1..] <==> x in b[1..] {
        if x in a[1..] {
          var k :| 1 <= k < |a| && a[k] == x;
          assert x in b;
          assert x != b[0];
        }
        if x in b[1..] {
          var k :| 1 <= k < |b| && b[k] == x;
          assert x in a;
          assert x != a[0];
        }
      }
      SortedUnique(a[1..], b[1..]);
      assert a == [a[0]] + a[1..] && b == [b[0]] + b[1..];
    }
  }

  /** The sorted keys do not depend on the order they were listed in. */
  lemma SortIndependentOfOrder(xs: seq<string>, ys: seq<string>)
    requires Distinct(xs) && Distinct(ys)
    requires forall x :: x in xs <==> x in ys
    ensures Sort(xs) == Sort(ys)
  {
    SortStrictlySorted(xs);
    SortStrictlySorted(ys);
    SortedUnique(Sort(xs), Sort(ys));
  }

  /** Neighbours in ascending order are enough for the whole list. */
  lemma {:induction false} StrictlySortedByNeighbours(s: seq<string>)
    requires forall i :: 0 <= i < |s| - 1 ==> Less(s[i], s[i + 1])
    ensures StrictlySorted(s)
  {
    if |s| > 1 {
      StrictlySortedByNeighbours(s[1..]);
      forall j | 1 <= j < |s| ensures Less(s[0], s[j]) {
        if j > 1 {
          assert Less(s[1], s[j]) by { assert s[1..][0] == s[1] && s[1..][j - 1] == s[j]; }
          LessTransitive(s[0], s[1], s[j]);
        }
      }
    }
  }
}
