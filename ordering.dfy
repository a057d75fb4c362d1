/**
  Ruby's `sort_by {|d| d[key]}` over attribute bags. The key is the raw
  attribute string, so keys compare as Ruby's `String#<=>` does:
  lexicographically, a proper prefix first ("10" before "2"). An absent key
  is nil: nil compares equal to nil, but nil against a string fails.
 */
module Ordering {
  import opened Wrappers

  /** An attribute bag: attribute name to attribute value. */
  type AttrBag = map<string, string>

  // ---------------------------------------------------------------------
  // Lexicographic order on strings
  // ---------------------------------------------------------------------

  /** `a <= b` in Ruby's string order. Code-point order on characters agrees
      with the byte order of their UTF-8 encodings, which Ruby compares. */
  predicate LexLe(a: string, b: string)
    ensures a <= b ==> LexLe(a, b)
  {
    a == [] || (b != [] && (a[0] < b[0] || (a[0] == b[0] && LexLe(a[1..], b[1..]))))
  }

  lemma {:induction false} LexLeTotal(a: string, b: string)
    ensures LexLe(a, b) || LexLe(b, a)
  {
    if a != [] && b != [] && a[0] == b[0] {
      LexLeTotal(a[1..], b[1..]);
    }
  }

  lemma {:induction false} LexLeTransitive(a: string, b: string, c: string)
    requires LexLe(a, b) && LexLe(b, c)
    ensures LexLe(a, c)
  {
    if a != [] && a[0] == b[0] && b[0] == c[0] {
      LexLeTransitive(a[1..], b[1..], c[1..]);
    }
  }

  lemma {:induction false} LexLeAntisymmetric(a: string, b: string)
    requires LexLe(a, b) && LexLe(b, a)
    ensures a == b
  {
    if a != [] {
      LexLeAntisymmetric(a[1..], b[1..]);
      assert a == [a[0]] + a[1..];
      assert b == [b[0]] + b[1..];
    }
  }

  /** The raw-string comparison puts "10" before "2": no numeric reading. */
  lemma TenSortsBeforeTwo()
    ensures LexLe("10", "2") && !LexLe("2", "10")
  {
  }

  // ---------------------------------------------------------------------
  // Keys of attribute bags
  // ---------------------------------------------------------------------

  /** `d[key]`: the value under `key`, or nil. */
  function KeyOf(d: AttrBag, key: string): (r: Option<string>)
    ensures r.None? <==> key !in d
    ensures r.Some? ==> r.value == d[key]
  {
    if key in d then Some(d[key]) else None
  }

  /** The order the sort uses. Between two present keys it is the string
      order; two absent keys are equal; a present and an absent key are never
      compared when the sort succeeds, and are put absent-first here only to
      make the order total. */
  predicate KeyLe(a: AttrBag, b: AttrBag, key: string)
  {
    match (KeyOf(a, key), KeyOf(b, key))
    case (None, _) => true
    case (Some(_), None) => false
    case (Some(x), Some(y)) => LexLe(x, y)
  }

  lemma KeyLeTotal(a: AttrBag, b: AttrBag, key: string)
    ensures KeyLe(a, b, key) || KeyLe(b, a, key)
  {
    if key in a && key in b {
      LexLeTotal(a[key], b[key]);
    }
  }

  lemma KeyLeTransitive(a: AttrBag, b: AttrBag, c: AttrBag, key: string)
    requires KeyLe(a, b, key) && KeyLe(b, c, key)
    ensures KeyLe(a, c, key)
  {
    if key in a && key in b && key in c {
      LexLeTransitive(a[key], b[key], c[key]);
    }
  }

  /** Ascending by `key`. */
  predicate SortedBy(s: seq<AttrBag>, key: string)
  {
    forall i, j :: 0 <= i < j < |s| ==> KeyLe(s[i], s[j], key)
  }

  /** Some bag carries `key` and some bag does not, so that Ruby would have
      to compare a string with nil and raise. */
  predicate Mixed(g: seq<AttrBag>, key: string)
    ensures !Mixed(g, key) <==> (forall i :: 0 <= i < |g| ==> key in g[i]) || (forall i :: 0 <= i < |g| ==> key !in g[i])
    ensures Mixed(g, key) ==> |g| >= 2
  {
    exists i, j :: 0 <= i < |g| && 0 <= j < |g| && key in g[i] && key !in g[j]
  }

  // ---------------------------------------------------------------------
  // The sort
  // ---------------------------------------------------------------------

  function Insert(x: AttrBag, s: seq<AttrBag>, key: string): (r: seq<AttrBag>)
    requires SortedBy(s, key)
    ensures SortedBy(r, key)
    ensures multiset(r) == multiset(s) + multiset{x}
  {
    if s == [] then [x]
    else if KeyLe(x, s[0], key) then
      BelowHeadBelowAll(x, s, key);
      ConsSorted(x, s, key);
      [x] + s
    else
      KeyLeTotal(x, s[0], key);
      var t := Insert(x, s[1..], key);
      assert s == [s[0]] + s[1..];
      assert SortedBy(s[1..], key);
      HeadBelowAll(s[0], x, s[1..], t, key);
      ConsSorted(s[0], t, key);
      [s[0]] + t
  }

  /** A bag below every bag of a sorted sequence can be put in front of it. */
  lemma ConsSorted(h: AttrBag, t: seq<AttrBag>, key: string)
    requires SortedBy(t, key)
    requires forall j :: 0 <= j < |t| ==> KeyLe(h, t[j], key)
    ensures SortedBy([h] + t, key)
  {
    var r := [h] + t;
    forall i, j | 0 <= i < j < |r| ensures KeyLe(r[i], r[j], key) {
      assert r[j] == t[j - 1];
      if i > 0 { assert r[i] == t[i - 1]; }
    }
  }

  /** A bag below the head of a sorted sequence is below all of it. */
  lemma BelowHeadBelowAll(x: AttrBag, s: seq<AttrBag>, key: string)
    requires SortedBy(s, key) && s != [] && KeyLe(x, s[0], key)
    ensures forall j :: 0 <= j < |s| ==> KeyLe(x, s[j], key)
  {
    forall j | 0 < j < |s| ensures KeyLe(x, s[j], key) {
      KeyLeTransitive(x, s[0], s[j], key);
    }
  }

  /** A bag below `x` and below every bag of `s` is below every bag of any
      arrangement of `s` and `x`. */
  lemma HeadBelowAll(h: AttrBag, x: AttrBag, s: seq<AttrBag>, t: seq<AttrBag>, key: string)
    requires KeyLe(h, x, key)
    requires forall j :: 0 <= j < |s| ==> KeyLe(h, s[j], key)
    requires multiset(t) == multiset(s) + multiset{x}
    ensures forall j :: 0 <= j < |t| ==> KeyLe(h, t[j], key)
  {
    forall j | 0 <= j < |t| ensures KeyLe(h, t[j], key) {
      assert t[j] in multiset(t);
      if t[j] != x {
        assert t[j] in multiset(s);
        var k :| 0 <= k < |s| && s[k] == t[j];
      }
    }
  }

  /** Insertion sort; it happens to be stable, which Ruby's sort is not
      promised to be, so nothing below depends on the order of ties. */
  function InsertionSort(s: seq<AttrBag>, key: string): (r: seq<AttrBag>)
    ensures SortedBy(r, key)
    ensures multiset(r) == multiset(s)
  {
    if s == [] then []
    else
      assert s == [s[0]] + s[1..];
      Insert(s[0], InsertionSort(s[1..], key), key)
  }

  /** `g.sort_by {|d| d[key]}`: None when the comparison would raise. */
  function SortBy(g: seq<AttrBag>, key: string): (r: Option<seq<AttrBag>>)
    ensures r.None? <==> Mixed(g, key)
    ensures r.Some? ==> SortedBy(r.value, key) && multiset(r.value) == multiset(g)
  {
    if Mixed(g, key) then None else Some(InsertionSort(g, key))
  }

  /** When the sort succeeds on bags that carry the key, the result is
      ascending by the key's string, and every bag still carries the key. */
  lemma SortByAscending(g: seq<AttrBag>, key: string)
    requires SortBy(g, key).Some?
    requires |g| > 0 && key in g[0]
    ensures var r := SortBy(g, key).value;
      |r| == |g| &&
      (forall i :: 0 <= i < |r| ==> key in r[i]) &&
      (forall i, j :: 0 <= i < j < |r| ==> LexLe(r[i][key], r[j][key]))
  {
    var r := SortBy(g, key).value;
    assert |r| == |multiset(r)| == |multiset(g)| == |g|;
    forall i | 0 <= i < |r| ensures key in r[i] {
      assert r[i] in multiset(g);
      var k :| 0 <= k < |g| && g[k] == r[i];
    }
  }

  /** The same, read off the result: if its first bag carries the key, all
      do, and they ascend by the key's string. */
  lemma SortedResultAscending(g: seq<AttrBag>, key: string)
    requires SortBy(g, key).Some?
    requires SortBy(g, key).value != [] && key in SortBy(g, key).value[0]
    ensures var r := SortBy(g, key).value;
      (forall i :: 0 <= i < |r| ==> key in r[i]) &&
      (forall i, j :: 0 <= i < j < |r| ==> LexLe(r[i][key], r[j][key]))
  {
    var r := SortBy(g, key).value;
    assert r[0] in multiset(g);
    var k :| 0 <= k < |g| && g[k] == r[0];
    assert !(key in g[k] && key !in g[0]);
    SortByAscending(g, key);
  }

  // ---------------------------------------------------------------------
  // Uniqueness of the sorted order
  // ---------------------------------------------------------------------

  /** No two different bags of `g` carry the same value under `key`. */
  predicate KeysDistinct(g: seq<AttrBag>, key: string)
  {
    forall i, j :: 0 <= i < |g| && 0 <= j < |g| && key in g[i] && key in g[j] && g[i][key] == g[j][key] ==> g[i] == g[j]
  }

  /** Two sorted arrangements of the same bags, whose keys are all present
      and distinct, start with the same bag. */
  lemma SortedSameHead(a: seq<AttrBag>, b: seq<AttrBag>, key: string)
    requires a != [] && multiset(a) == multiset(b)
    requires SortedBy(a, key) && SortedBy(b, key)
    requires forall i :: 0 <= i < |a| ==> key in a[i]
    requires KeysDistinct(a, key)
    ensures b != [] && a[0] == b[0]
  {
    assert a[0] in multiset(b);
    var i :| 0 <= i < |b| && b[i] == a[0];
    assert b[0] in multiset(a);
    var j :| 0 <= j < |a| && a[j] == b[0];
    if i != 0 && j != 0 {
      assert KeyLe(b[0], b[i], key);
      assert KeyLe(a[0], a[j], key);
      LexLeAntisymmetric(a[0][key], b[0][key]);
    }
  }

  lemma TailsSameMultiset(a: seq<AttrBag>, b: seq<AttrBag>)
    requires a != [] && b != [] && a[0] == b[0] && multiset(a) == multiset(b)
    ensures multiset(a[1..]) == multiset(b[1..])
  {
    assert a == [a[0]] + a[1..];
    assert b == [b[0]] + b[1..];
    assert multiset(a[1..]) == multiset(a) - multiset{a[0]};
    assert multiset(b[1..]) == multiset(b) - multiset{b[0]};
  }

  lemma {:induction false} SortedUnique(a: seq<AttrBag>, b: seq<AttrBag>, key: string)
    requires multiset(a) == multiset(b)
    requires SortedBy(a, key) && SortedBy(b, key)
    requires forall i :: 0 <= i < |a| ==> key in a[i]
    requires KeysDistinct(a, key)
    ensures a == b
  {
    if a == [] {
      assert |b| == |multiset(b)| == 0;
    } else {
      SortedSameHead(a, b, key);
      TailsSameMultiset(a, b);
      var a', b' := a[1..], b[1..];
      assert SortedBy(a', key) && SortedBy(b', key);
      assert forall i :: 0 <= i < |a'| ==> key in a'[i];
      assert KeysDistinct(a', key);
      SortedUnique(a', b', key);
      assert a == [a[0]] + a';
      assert b == [b[0]] + b';
    }
  }

  /** Reordering the declarations does not change the sorted result, as long
      as every bag carries the key and no two different bags share a key. */
  lemma SortByOrderIndependent(g1: seq<AttrBag>, g2: seq<AttrBag>, key: string)
    requires multiset(g1) == multiset(g2)
    requires forall i :: 0 <= i < |g1| ==> key in g1[i]
    requires KeysDistinct(g1, key)
    ensures SortBy(g1, key).Some? && SortBy(g2, key).Some?
    ensures SortBy(g1, key) == SortBy(g2, key)
  {
    assert !Mixed(g1, key);
    forall j | 0 <= j < |g2| ensures key in g2[j] {
      assert g2[j] in multiset(g1);
    }
    assert !Mixed(g2, key);
    var r1, r2 := SortBy(g1, key).value, SortBy(g2, key).value;
    forall i | 0 <= i < |r1| ensures key in r1[i] {
      assert r1[i] in multiset(g1);
    }
    forall i, j | 0 <= i < |r1| && 0 <= j < |r1| && key in r1[i] && key in r1[j] && r1[i][key] == r1[j][key]
      ensures r1[i] == r1[j]
    {
      assert r1[i] in multiset(g1);
      assert r1[j] in multiset(g1);
      var p :| 0 <= p < |g1| && g1[p] == r1[i];
      var q :| 0 <= q < |g1| && g1[q] == r1[j];
    }
    SortedUnique(r1, r2, key);
  }
}
