/**
 The ranking step: `sorted(nameDict.items(), key=lambda x: x[1], reverse=True)`.
 Python's sort is stable also when reversed, so the result is ordered by count,
 largest first, and entries of equal count keep their dictionary (first-seen)
 order. Modelled as an insertion sort on sequences.
 */
module Ranking {
  import opened LoginTally

  /** Counts never increase along the sequence. */
  predicate ByCountDescending(s: seq<Entry>)
  {
    forall i, j :: 0 <= i < j < |s| ==> s[i].count >= s[j].count
  }

  /** The entries of `s` whose count is `c`, in their order in `s`. */
  function WithCount(s: seq<Entry>, c: nat): seq<Entry>
  {
    if s == [] then [] else (if s[0].count == c then [s[0]] else []) + WithCount(s[1..], c)
  }

  /** Inserts `x`, which came before every entry of `s` in the input, after the
      entries of larger count and ahead of those of equal or smaller count. */
  function InsertByCount(x: Entry, s: seq<Entry>): (r: seq<Entry>)
    ensures |r| == |s| + 1
  {
    if s == [] || s[0].count <= x.count then [x] + s
    else [s[0]] + InsertByCount(x, s[1..])
  }

  /** Insertion adds exactly `x`. */
  lemma {:induction false} InsertByCountPermutes(x: Entry, s: seq<Entry>)
    ensures multiset(InsertByCount(x, s)) == multiset(s) + multiset{x}
    ensures forall e :: e in InsertByCount(x, s) <==> e == x || e in s
    decreases |s|
  {
    if !(s == [] || s[0].count <= x.count) {
      InsertByCountPermutes(x, s[1..]);
      assert s == [s[0]] + s[1..];
    }
  }

  /** Inserting into a count-descending sequence keeps it count-descending. */
  lemma {:induction false} InsertByCountSorted(x: Entry, s: seq<Entry>)
    requires ByCountDescending(s)
    ensures ByCountDescending(InsertByCount(x, s))
    decreases |s|
  {
    var r := InsertByCount(x, s);
    if s == [] || s[0].count <= x.count {
      forall i, j | 0 <= i < j < |r|
        ensures r[i].count >= r[j].count
      {
        if i > 0 {
          assert r[i] == s[i - 1] && r[j] == s[j - 1];
        } else if s != [] {
          assert r[j] == s[j - 1];
        }
      }
    } else {
      var rest := InsertByCount(x, s[1..]);
      assert ByCountDescending(s[1..]) by {
        forall i, j | 0 <= i < j < |s[1..]|
          ensures s[1..][i].count >= s[1..][j].count
        {
          assert s[1..][i] == s[i + 1] && s[1..][j] == s[j + 1];
        }
      }
      InsertByCountSorted(x, s[1..]);
      InsertByCountPermutes(x, s[1..]);
      forall i, j | 0 <= i < j < |r|
        ensures r[i].count >= r[j].count
      {
        assert r[j] == rest[j - 1];
        if i == 0 {
          assert rest[j - 1] in rest;
          if rest[j - 1] != x {
            var k :| 0 <= k < |s[1..]| && s[1..][k] == rest[j - 1];
            assert s[k + 1] == rest[j - 1];
          }
        } else {
          assert r[i] == rest[i - 1];
        }
      }
    }
  }

  /** Insertion puts `x` ahead of the entries of its own count, so for every
      count the entries of that count keep their relative order. */
  lemma {:induction false} InsertByCountStable(x: Entry, s: seq<Entry>, c: nat)
    ensures WithCount(InsertByCount(x, s), c) == (if x.count == c then [x] else []) + WithCount(s, c)
    decreases |s|
  {
    var r := InsertByCount(x, s);
    var hx := if x.count == c then [x] else [];
    if s == [] || s[0].count <= x.count {
      assert r[1..] == s;
      assert WithCount(r, c) == hx + WithCount(s, c);
    } else {
      var rest := InsertByCount(x, s[1..]);
      var hs := if s[0].count == c then [s[0]] else [];
      assert r[1..] == rest;
      InsertByCountStable(x, s[1..], c);
      assert WithCount(r, c) == hs + (hx + WithCount(s[1..], c));
      assert WithCount(s, c) == hs + WithCount(s[1..], c);
      assert hs == [] || hx == [];
    }
  }

  /** The ranked sequence of a dictionary's items. */
  function RankByCount(s: seq<Entry>): (r: seq<Entry>)
    ensures ByCountDescending(r)
    ensures multiset(r) == multiset(s)
    ensures forall e :: e in r <==> e in s
    ensures |r| == |s|
  {
    if s == [] then []
    else
      assert s == [s[0]] + s[1..];
      InsertByCountSorted(s[0], RankByCount(s[1..]));
      InsertByCountPermutes(s[0], RankByCount(s[1..]));
      InsertByCount(s[0], RankByCount(s[1..]))
  }

  /** Ranking is stable: for every count, the entries of that count appear in
      the ranked sequence in the same order as in the input. */
  lemma {:induction false} RankByCountStable(s: seq<Entry>, c: nat)
    ensures WithCount(RankByCount(s), c) == WithCount(s, c)
    decreases |s|
  {
    if s != [] {
      RankByCountStable(s[1..], c);
      InsertByCountStable(s[0], RankByCount(s[1..]), c);
    }
  }

  /** Every key of `t` is the name of one of its entries. */
  lemma {:induction false} NameSetMember(t: seq<Entry>, n: string)
    requires n in NameSet(t)
    ensures exists i :: 0 <= i < |t| && t[i].name == n
    decreases |t|
  {
    if t[0].name != n {
      NameSetMember(t[1..], n);
      var i :| 0 <= i < |t[1..]| && t[1..][i].name == n;
      assert t[i + 1].name == n;
    }
  }

  /** Two entry sequences with the same entries have the same keys. */
  lemma SameEntriesSameNames(a: seq<Entry>, b: seq<Entry>)
    requires forall e :: e in a <==> e in b
    ensures NameSet(a) == NameSet(b)
  {
    ToMapLookup(a);
    ToMapLookup(b);
    forall n | n in NameSet(a)
      ensures n in NameSet(b)
    {
      NameSetMember(a, n);
      var i :| 0 <= i < |a| && a[i].name == n;
      assert a[i] in b;
      var j :| 0 <= j < |b| && b[j] == a[i];
    }
    forall n | n in NameSet(b)
      ensures n in NameSet(a)
    {
      NameSetMember(b, n);
      var j :| 0 <= j < |b| && b[j].name == n;
      assert b[j] in a;
      var i :| 0 <= i < |a| && a[i] == b[j];
    }
  }

  /** Two entry sequences with the same entries, each without a repeated
      key, describe the same dictionary. */
  lemma SameEntriesSameMap(a: seq<Entry>, b: seq<Entry>)
    requires DistinctNames(a) && DistinctNames(b)
    requires forall e :: e in a <==> e in b
    ensures ToMap(a) == ToMap(b)
  {
    ToMapLookup(a);
    ToMapLookup(b);
    SameEntriesSameNames(a, b);
    forall n | n in NameSet(a)
      ensures ToMap(a)[n] == ToMap(b)[n]
    {
      NameSetMember(a, n);
      var i :| 0 <= i < |a| && a[i].name == n;
      assert a[i] in b;
      var j :| 0 <= j < |b| && b[j] == a[i];
    }
  }

  /** Ranking a sequence without repeated keys repeats none. */
  lemma {:induction false} RankKeepsKeysDistinct(s: seq<Entry>)
    requires DistinctNames(s)
    ensures DistinctNames(RankByCount(s))
    decreases |s|
  {
    if s != [] {
      RankKeepsKeysDistinct(s[1..]);
      var rest := RankByCount(s[1..]);
      var r := RankByCount(s);
      assert r == InsertByCount(s[0], rest);
      ToMapLookup(s[1..]);
      assert s[0].name !in NameSet(s[1..]) by {
        if s[0].name in NameSet(s[1..]) {
          NameSetMember(s[1..], s[0].name);
          assert false;
        }
      }
      SameEntriesSameNames(rest, s[1..]);
      InsertKeepsKeysDistinct(s[0], rest);
    }
  }

  /** Inserting an entry whose key is new keeps keys distinct. */
  lemma {:induction false} InsertKeepsKeysDistinct(x: Entry, s: seq<Entry>)
    requires DistinctNames(s)
    requires x.name !in NameSet(s)
    ensures DistinctNames(InsertByCount(x, s))
    decreases |s|
  {
    var r := InsertByCount(x, s);
    ToMapLookup(s);
    if s == [] || s[0].count <= x.count {
      assert r == [x] + s;
      forall i, j | 0 <= i < j < |r|
        ensures r[i].name != r[j].name
      {
        if i > 0 {
          assert r[i] == s[i - 1] && r[j] == s[j - 1];
        } else {
          assert r[j] == s[j - 1];
        }
      }
    } else {
      var rest := InsertByCount(x, s[1..]);
      assert r == [s[0]] + rest;
      InsertByCountPermutes(x, s[1..]);
      ToMapLookup(s[1..]);
      assert x.name !in NameSet(s[1..]);
      InsertKeepsKeysDistinct(x, s[1..]);
      assert s[0].name !in NameSet(s[1..]) by {
        if s[0].name in NameSet(s[1..]) {
          NameSetMember(s[1..], s[0].name);
          assert false;
        }
      }
      forall i, j | 0 <= i < j < |r|
        ensures r[i].name != r[j].name
      {
        assert r[j] == rest[j - 1];
        if i > 0 {
          assert r[i] == rest[i - 1];
        } else {
          assert rest[j - 1] in rest;
          if rest[j - 1] != x {
            assert rest[j - 1] in s[1..];
            var k :| 0 <= k < |s[1..]| && s[1..][k] == rest[j - 1];
          }
        }
      }
    }
  }

  /** Ranking a tally keeps it a tally with the same dictionary view: no key
      lost, none added, none repeated, every count unchanged. */
  lemma RankKeepsTally(t: Tally)
    requires Valid(t)
    ensures Valid(RankByCount(t))
    ensures ToMap(RankByCount(t)) == ToMap(t)
  {
    var r := RankByCount(t);
    RankKeepsKeysDistinct(t);
    forall i | 0 <= i < |r|
      ensures r[i].count >= 1
    {
      assert r[i] in t;
    }
    SameEntriesSameMap(r, t);
  }

  /** The first entry of count `c`. */
  lemma {:induction false} WithCountHead(s: seq<Entry>)
    requires s != []
    ensures WithCount(s, s[0].count) != [] && WithCount(s, s[0].count)[0] == s[0]
  {
  }

  /** An entry of count `c` exists exactly when the filter for `c` is non-empty. */
  lemma {:induction false} WithCountNonEmpty(s: seq<Entry>, c: nat)
    requires WithCount(s, c) != []
    ensures exists k :: 0 <= k < |s| && s[k].count == c
    decreases |s|
  {
    if s[0].count != c {
      WithCountNonEmpty(s[1..], c);
      var k :| 0 <= k < |s[1..]| && s[1..][k].count == c;
      assert s[k + 1].count == c;
    }
  }

  /** Being ordered by count descending and stable on ties pins the result
      down: two sequences with both properties and the same entries of each
      count are equal. So `RankByCount` is the only stable descending sort. */
  lemma {:induction false} StableDescendingSortIsUnique(a: seq<Entry>, b: seq<Entry>)
    requires ByCountDescending(a) && ByCountDescending(b)
    requires forall c :: WithCount(a, c) == WithCount(b, c)
    ensures a == b
    decreases |a|
  {
    if a == [] {
      if b != [] {
        WithCountHead(b);
      }
    } else if b == [] {
      WithCountHead(a);
    } else {
      WithCountHead(a);
      WithCountHead(b);
      if a[0].count < b[0].count {
        WithCountNonEmpty(a, b[0].count);
      } else if b[0].count < a[0].count {
        WithCountNonEmpty(b, a[0].count);
      } else {
        assert a[0] == b[0];
        forall c
          ensures WithCount(a[1..], c) == WithCount(b[1..], c)
        {
          var head := if a[0].count == c then [a[0]] else [];
          assert WithCount(a, c) == head + WithCount(a[1..], c);
          assert WithCount(b, c) == head + WithCount(b[1..], c);
          assert WithCount(a[1..], c) == (head + WithCount(a[1..], c))[|head|..];
          assert WithCount(b[1..], c) == (head + WithCount(b[1..], c))[|head|..];
        }
        StableDescendingSortIsUnique(a[1..], b[1..]);
        assert a == [a[0]] + a[1..] && b == [b[0]] + b[1..];
      }
    }
  }

  /** Every entry of count `c` appears in the filter for `c`. */
  lemma {:induction false} WithCountHas(s: seq<Entry>, c: nat, i: nat)
    requires i < |s| && s[i].count == c
    ensures exists q :: 0 <= q < |WithCount(s, c)| && WithCount(s, c)[q] == s[i]
    decreases |s|
  {
    if i > 0 {
      WithCountHas(s[1..], c, i - 1);
      var q :| 0 <= q < |WithCount(s[1..], c)| && WithCount(s[1..], c)[q] == s[1..][i - 1];
      var head := if s[0].count == c then [s[0]] else [];
      assert WithCount(s, c)[|head| + q] == s[i];
    } else {
      assert WithCount(s, c)[0] == s[0];
    }
  }

  /** The filter holds only entries of `s`. */
  lemma {:induction false} WithCountElements(s: seq<Entry>, c: nat)
    ensures forall e :: e in WithCount(s, c) ==> e in s
    decreases |s|
  {
    if s != [] {
      WithCountElements(s[1..], c);
    }
  }

  /** Two entries of count `c` appear in the filter in their order in `s`. */
  lemma {:induction false} WithCountOrder(s: seq<Entry>, c: nat, i: nat, j: nat)
    requires i < j < |s| && s[i].count == c && s[j].count == c
    ensures exists p, q :: 0 <= p < q < |WithCount(s, c)| &&
              WithCount(s, c)[p] == s[i] && WithCount(s, c)[q] == s[j]
    decreases |s|
  {
    var w := WithCount(s, c);
    if i == 0 {
      WithCountHas(s[1..], c, j - 1);
      var q :| 0 <= q < |WithCount(s[1..], c)| && WithCount(s[1..], c)[q] == s[1..][j - 1];
      assert w[0] == s[0] && w[q + 1] == s[j];
    } else {
      WithCountOrder(s[1..], c, i - 1, j - 1);
      var p, q :| 0 <= p < q < |WithCount(s[1..], c)| &&
                  WithCount(s[1..], c)[p] == s[1..][i - 1] && WithCount(s[1..], c)[q] == s[1..][j - 1];
      var head := if s[0].count == c then [s[0]] else [];
      assert w[|head| + p] == s[i] && w[|head| + q] == s[j];
    }
  }

  /** Keeping only the entries of one count keeps first-seen order. */
  lemma {:induction false} WithCountKeepsFirstSeenOrder(t: seq<Entry>, names: seq<string>, c: nat)
    requires InFirstSeenOrder(t, names)
    ensures InFirstSeenOrder(WithCount(t, c), names)
    decreases |t|
  {
    if t != [] {
      var rest := WithCount(t[1..], c);
      FirstSeenOrderTail(t, names);
      WithCountKeepsFirstSeenOrder(t[1..], names, c);
      if t[0].count == c {
        var w := WithCount(t, c);
        assert w == [t[0]] + rest;
        WithCountElements(t[1..], c);
        forall i | 0 <= i < |w|
          ensures w[i].name in names
        {
          if i > 0 {
            assert w[i] == rest[i - 1];
          }
        }
        forall i, j | 0 <= i < j < |w|
          ensures FirstIndex(names, w[i].name) < FirstIndex(names, w[j].name)
        {
          assert w[j] == rest[j - 1];
          if i == 0 {
            assert rest[j - 1] in rest;
            FirstSeenBeforeLater(t, names, rest[j - 1]);
          } else {
            assert w[i] == rest[i - 1];
          }
        }
      } else {
        assert WithCount(t, c) == rest;
      }
    }
  }

  /** Dropping the first entry keeps first-seen order. */
  lemma FirstSeenOrderTail(t: seq<Entry>, names: seq<string>)
    requires t != []
    requires InFirstSeenOrder(t, names)
    ensures InFirstSeenOrder(t[1..], names)
  {
    forall i | 0 <= i < |t[1..]|
      ensures t[1..][i].name in names
    {
      assert t[1..][i] == t[i + 1];
    }
    forall i, j | 0 <= i < j < |t[1..]|
      ensures FirstIndex(names, t[1..][i].name) < FirstIndex(names, t[1..][j].name)
    {
      assert t[1..][i] == t[i + 1] && t[1..][j] == t[j + 1];
    }
  }

  /** In first-seen order, the first entry was seen before every later one. */
  lemma FirstSeenBeforeLater(t: seq<Entry>, names: seq<string>, y: Entry)
    requires t != [] && InFirstSeenOrder(t, names)
    requires y in t[1..]
    ensures y.name in names
    ensures FirstIndex(names, t[0].name) < FirstIndex(names, y.name)
  {
    var k :| 0 <= k < |t[1..]| && t[1..][k] == y;
    assert t[k + 1] == y;
  }
}
