/**
 * Ordering rows by a text key. Python compares `str` values code point by
 * code point, and SQLite's default BINARY collation compares UTF-8 bytes,
 * which orders text the same way; both are the lexicographic order below.
 */
module TextOrder {

  /** a sorts before or equal to b. */
  predicate Le(a: string, b: string)
  {
    a == [] || (b != [] && (a[0] < b[0] || (a[0] == b[0] && Le(a[1..], b[1..]))))
  }

  /** a sorts strictly before b. */
  predicate Lt(a: string, b: string)
  {
    !Le(b, a)
  }

  lemma {:induction false} LeReflexive(a: string)
    ensures Le(a, a)
  {
    if a != [] {
      LeReflexive(a[1..]);
    }
  }

  lemma {:induction false} LeTotal(a: string, b: string)
    ensures Le(a, b) || Le(b, a)
  {
    if a != [] && b != [] && a[0] == b[0] {
      LeTotal(a[1..], b[1..]);
    }
  }

  lemma {:induction false} LeTransitive(a: string, b: string, c: string)
    requires Le(a, b) && Le(b, c)
    ensures Le(a, c)
  {
    if a != [] && a[0] == b[0] && b[0] == c[0] {
      LeTransitive(a[1..], b[1..], c[1..]);
    }
  }

  lemma {:induction false} LeAntisymmetric(a: string, b: string)
    requires Le(a, b) && Le(b, a)
    ensures a == b
  {
    if a != [] {
      LeAntisymmetric(a[1..], b[1..]);
      assert a == [a[0]] + a[1..] && b == [b[0]] + b[1..];
    }
  }

  /** Every later element's key sorts before or equal to every earlier one's: descending order. */
  predicate SortedDesc<T>(s: seq<T>, key: T -> string)
  {
    forall i, j | 0 <= i < j < |s| :: Le(key(s[j]), key(s[i]))
  }

  /** The elements of s whose key is k, in their order in s. */
  function Filter<T>(s: seq<T>, key: T -> string, k: string): seq<T>
  {
    if s == [] then [] else (if key(s[0]) == k then [s[0]] else []) + Filter(s[1..], key, k)
  }

  /**
   * Inserts x into a descending sequence just before the first element whose
   * key is strictly smaller, hence after every element with an equal key.
   */
  function InsertDesc<T>(x: T, s: seq<T>, key: T -> string): seq<T>
  {
    if s == [] then [x]
    else if Lt(key(s[0]), key(x)) then [x] + s
    else [s[0]] + InsertDesc(x, s[1..], key)
  }

  /**
   * The stable descending sort: Python's `sorted(s, key=key, reverse=True)`,
   * which keeps elements with equal keys in their original order.
   */
  function SortDesc<T>(s: seq<T>, key: T -> string): seq<T>
  {
    if s == [] then [] else InsertDesc(s[|s| - 1], SortDesc(s[..|s| - 1], key), key)
  }

  lemma {:induction false} FilterAppend<T>(a: seq<T>, b: seq<T>, key: T -> string, k: string)
    ensures Filter(a + b, key, k) == Filter(a, key, k) + Filter(b, key, k)
  {
    if a == [] {
      assert a + b == b;
    } else {
      FilterAppend(a[1..], b, key, k);
      FilterCons(a[0], a[1..] + b, key, k);
      FilterCons(a[0], a[1..], key, k);
      assert [a[0]] + (a[1..] + b) == a + b;
      assert [a[0]] + a[1..] == a;
    }
  }

  lemma {:induction false} InsertDescPermutes<T>(x: T, s: seq<T>, key: T -> string)
    ensures multiset(InsertDesc(x, s, key)) == multiset(s) + multiset{x}
  {
    if s != [] && !Lt(key(s[0]), key(x)) {
      InsertDescPermutes(x, s[1..], key);
      assert s == [s[0]] + s[1..];
    }
  }

  lemma {:induction false} InsertDescSorted<T>(x: T, s: seq<T>, key: T -> string)
    requires SortedDesc(s, key)
    ensures SortedDesc(InsertDesc(x, s, key), key)
  {
    if s == [] {
    } else if Lt(key(s[0]), key(x)) {
      LeTotal(key(s[0]), key(x));
      var r := [x] + s;
      forall i, j | 0 <= i < j < |r| ensures Le(key(r[j]), key(r[i])) {
        if i == 0 {
          if j > 1 {
            LeTransitive(key(s[j - 1]), key(s[0]), key(x));
          }
        }
      }
    } else {
      LeTotal(key(s[0]), key(x));
      InsertDescSorted(x, s[1..], key);
      InsertDescPermutes(x, s[1..], key);
      var t := InsertDesc(x, s[1..], key);
      var r := [s[0]] + t;
      forall i, j | 0 <= i < j < |r| ensures Le(key(r[j]), key(r[i])) {
        if i == 0 {
          var e := r[j];
          assert e in multiset(t);
          assert e in multiset(s[1..]) || e == x;
          if e != x {
            var m :| 0 <= m < |s[1..]| && s[1..][m] == e;
            assert s[m + 1] == e;
          }
        }
      }
    }
  }

  /** Inserting x keeps the order of the elements that share x's key, with x last among them. */
  lemma {:induction false} InsertDescFilter<T>(x: T, s: seq<T>, key: T -> string, k: string)
    requires SortedDesc(s, key)
    ensures Filter(InsertDesc(x, s, key), key, k)
         == Filter(s, key, k) + (if key(x) == k then [x] else [])
  {
    if s == [] {
    } else if Lt(key(s[0]), key(x)) {
      FilterCons(x, s, key, k);
      if key(x) == k {
        NoneAbove(s, key, k);
      }
    } else {
      SortedTail(s, key);
      InsertDescFilter(x, s[1..], key, k);
      FilterCons(s[0], InsertDesc(x, s[1..], key), key, k);
      FilterCons(s[0], s[1..], key, k);
      assert [s[0]] + s[1..] == s;
    }
  }

  lemma FilterCons<T>(h: T, t: seq<T>, key: T -> string, k: string)
    ensures Filter([h] + t, key, k) == (if key(h) == k then [h] else []) + Filter(t, key, k)
  {
    assert ([h] + t)[1..] == t;
  }

  lemma SortedTail<T>(s: seq<T>, key: T -> string)
    requires SortedDesc(s, key) && s != []
    ensures SortedDesc(s[1..], key)
  {
    forall i, j | 0 <= i < j < |s[1..]| ensures Le(key(s[1..][j]), key(s[1..][i])) {
      assert s[1..][j] == s[j + 1] && s[1..][i] == s[i + 1];
    }
  }

  /** In a descending sequence whose first key sorts strictly below k, no key equals k. */
  lemma NoneAbove<T>(s: seq<T>, key: T -> string, k: string)
    requires SortedDesc(s, key) && s != [] && Lt(key(s[0]), k)
    ensures Filter(s, key, k) == []
  {
    LeReflexive(key(s[0]));
    forall i | 0 <= i < |s| ensures key(s[i]) != k {
      if i > 0 {
        assert Le(key(s[i]), key(s[0]));
      }
    }
    FilterNone(s, key, k);
  }

  lemma {:induction false} FilterNone<T>(s: seq<T>, key: T -> string, k: string)
    requires forall i | 0 <= i < |s| :: key(s[i]) != k
    ensures Filter(s, key, k) == []
  {
    if s != [] {
      FilterNone(s[1..], key, k);
    }
  }

  /**
   * The sort yields a descending sequence with the same elements, and keeps
   * the elements of each key in their input order (stability).
   */
  lemma {:induction false} SortDescCorrect<T>(s: seq<T>, key: T -> string)
    ensures SortedDesc(SortDesc(s, key), key)
    ensures multiset(SortDesc(s, key)) == multiset(s)
    ensures forall k :: Filter(SortDesc(s, key), key, k) == Filter(s, key, k)
  {
    if s != [] {
      var init, last := s[..|s| - 1], s[|s| - 1];
      assert s == init + [last];
      SortDescCorrect(init, key);
      InsertDescSorted(last, SortDesc(init, key), key);
      InsertDescPermutes(last, SortDesc(init, key), key);
      forall k ensures Filter(SortDesc(s, key), key, k) == Filter(s, key, k) {
        InsertDescFilter(last, SortDesc(init, key), key, k);
        FilterAppend(init, [last], key, k);
      }
    }
  }
}
