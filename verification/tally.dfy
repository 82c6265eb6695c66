/**
 The tally (`nameDict` and `countName`): a dictionary from player name to login
 count. Python dictionaries iterate in first-insertion order and that order
 decides how ties are ranked, so the tally is an insertion-ordered sequence of
 entries; `ToMap` is its plain dictionary view.
 */
module LoginTally {

  /** One `(name, count)` item of the dictionary. */
  datatype Entry = Entry(name: string, count: nat)

  /** The dictionary's items, in insertion order. */
  type Tally = seq<Entry>

  /** Keys appear at most once. */
  predicate DistinctNames(t: seq<Entry>)
  {
    forall i, j :: 0 <= i < j < |t| ==> t[i].name != t[j].name
  }

  /** What every tally built by counting satisfies: unique keys, counts at least 1. */
  predicate Valid(t: Tally)
  {
    && DistinctNames(t)
    && forall i :: 0 <= i < |t| ==> t[i].count >= 1
  }

  /** The set of keys. */
  function NameSet(t: seq<Entry>): set<string>
  {
    if t == [] then {} else {t[0].name} + NameSet(t[1..])
  }

  /** The dictionary view: each key mapped to the count of its (first) entry. */
  function ToMap(t: seq<Entry>): map<string, nat>
  {
    if t == [] then map[] else ToMap(t[1..])[t[0].name := t[0].count]
  }

  /** The dictionary view has the tally's keys, each with its entry's count. */
  lemma {:induction false} ToMapLookup(t: seq<Entry>)
    ensures ToMap(t).Keys == NameSet(t)
    ensures forall i :: 0 <= i < |t| ==> t[i].name in NameSet(t)
    ensures DistinctNames(t) ==> forall i :: 0 <= i < |t| ==> ToMap(t)[t[i].name] == t[i].count
    decreases |t|
  {
    if t != [] {
      ToMapLookup(t[1..]);
      assert forall i :: 1 <= i < |t| ==> t[i] == t[1..][i - 1];
    }
  }

  /** Every entry's name is a key. */
  lemma {:induction false} NameSetHas(t: seq<Entry>, i: nat)
    requires i < |t|
    ensures t[i].name in NameSet(t)
    decreases i
  {
    if i > 0 {
      NameSetHas(t[1..], i - 1);
    }
  }

  /** Sum of all counts. */
  function Total(t: seq<Entry>): nat
  {
    if t == [] then 0 else t[0].count + Total(t[1..])
  }

  /** `countName`: an absent name is added at the end with count 1; a present
      name's count goes up by 1 in place. */
  function CountName(t: Tally, name: string): (t': Tally)
    ensures |t'| > 0
  {
    if t == [] then [Entry(name, 1)]
    else if t[0].name == name then [Entry(name, t[0].count + 1)] + t[1..]
    else [t[0]] + CountName(t[1..], name)
  }

  /** Where `countName` puts things: the key set gains the name; a new name
      is appended with count 1; every existing key keeps its position, and
      every entry for another key is unchanged. */
  lemma {:induction false} CountNameShape(t: Tally, name: string)
    ensures NameSet(CountName(t, name)) == NameSet(t) + {name}
    ensures name in NameSet(t) ==> |CountName(t, name)| == |t|
    ensures name !in NameSet(t) ==>
              |CountName(t, name)| == |t| + 1 && CountName(t, name)[|t|] == Entry(name, 1)
    ensures forall i :: 0 <= i < |t| ==> CountName(t, name)[i].name == t[i].name
    ensures forall i :: 0 <= i < |t| && t[i].name != name ==> CountName(t, name)[i] == t[i]
    decreases |t|
  {
    var t' := CountName(t, name);
    if t != [] {
      if t[0].name == name {
        assert t'[1..] == t[1..];
        assert forall i :: 1 <= i < |t| ==> t'[i] == t[i];
      } else {
        var rest := CountName(t[1..], name);
        CountNameShape(t[1..], name);
        assert t'[1..] == rest;
        assert forall i :: 1 <= i < |t| ==> t'[i] == rest[i - 1] && t[i] == t[1..][i - 1];
      }
    }
  }

  /** Each call of `countName` counts exactly one more login. */
  lemma {:induction false} CountNameTotal(t: Tally, name: string)
    ensures Total(CountName(t, name)) == Total(t) + 1
    decreases |t|
  {
    if t != [] {
      var t' := CountName(t, name);
      assert t'[1..] == (if t[0].name == name then t[1..] else CountName(t[1..], name));
      if t[0].name != name {
        CountNameTotal(t[1..], name);
      }
    }
  }

  /** In the dictionary view `countName` is `d[name] = d.get(name, 0) + 1`. */
  lemma {:induction false} CountNameUpdatesMap(t: Tally, name: string)
    ensures ToMap(CountName(t, name))
            == ToMap(t)[name := if name in ToMap(t) then ToMap(t)[name] + 1 else 1]
    decreases |t|
  {
    var t' := CountName(t, name);
    if t == [] {
      assert t'[1..] == [];
    } else if t[0].name == name {
      assert t'[1..] == t[1..];
    } else {
      var rest := CountName(t[1..], name);
      var m := ToMap(t[1..]);
      var v := if name in m then m[name] + 1 else 1;
      assert ToMap(t') == m[name := v][t[0].name := t[0].count] by {
        assert t'[1..] == rest;
        CountNameUpdatesMap(t[1..], name);
      }
      assert ToMap(t)[name := if name in ToMap(t) then ToMap(t)[name] + 1 else 1]
             == m[t[0].name := t[0].count][name := v];
      assert m[name := v][t[0].name := t[0].count] == m[t[0].name := t[0].count][name := v];
    }
  }

  /** Counting keeps keys unique and counts positive. */
  lemma CountNameKeepsValid(t: Tally, name: string)
    requires Valid(t)
    ensures Valid(CountName(t, name))
  {
    CountNameKeepsDistinct(t, name);
    CountNameKeepsPositive(t, name);
  }

  lemma CountNameKeepsDistinct(t: Tally, name: string)
    requires DistinctNames(t)
    ensures DistinctNames(CountName(t, name))
  {
    var t' := CountName(t, name);
    CountNameShape(t, name);
    forall i, j | 0 <= i < j < |t'|
      ensures t'[i].name != t'[j].name
    {
      if j == |t| {
        NameSetHas(t, i);
      }
    }
  }

  lemma {:induction false} CountNameKeepsPositive(t: Tally, name: string)
    requires forall i :: 0 <= i < |t| ==> t[i].count >= 1
    ensures forall i :: 0 <= i < |CountName(t, name)| ==> CountName(t, name)[i].count >= 1
    decreases |t|
  {
    var t' := CountName(t, name);
    if t != [] {
      if t[0].name == name {
        assert forall i :: 1 <= i < |t'| ==> t'[i] == t[i];
      } else {
        var rest := CountName(t[1..], name);
        CountNameKeepsPositive(t[1..], name);
        assert forall i :: 1 <= i < |t'| ==> t'[i] == rest[i - 1];
      }
    }
  }

  /** The tally after counting `names` in order, starting from `{}`. */
  function CountAll(names: seq<string>): (t: Tally)
    ensures Valid(t)
  {
    if names == [] then []
    else
      CountNameKeepsValid(CountAll(names[..|names| - 1]), names[|names| - 1]);
      CountName(CountAll(names[..|names| - 1]), names[|names| - 1])
  }

  /** Index of the first occurrence of `x` in `names`. */
  function FirstIndex(names: seq<string>, x: string): (k: nat)
    requires x in names
    ensures k < |names| && names[k] == x && x !in names[..k]
  {
    if names[0] == x then 0 else 1 + FirstIndex(names[1..], x)
  }

  /** After counting `names`, the keys are exactly the names seen and each
      count is the number of times its name was seen. */
  lemma {:induction false} CountAllCounts(names: seq<string>)
    ensures forall n :: n in NameSet(CountAll(names)) <==> n in names
    ensures forall n :: n in ToMap(CountAll(names)) ==> ToMap(CountAll(names))[n] == multiset(names)[n]
    ensures Total(CountAll(names)) == |names|
    decreases |names|
  {
    if names != [] {
      var init := names[..|names| - 1];
      var last := names[|names| - 1];
      assert names == init + [last];
      CountAllCounts(init);
      CountNameUpdatesMap(CountAll(init), last);
      CountNameShape(CountAll(init), last);
      CountNameTotal(CountAll(init), last);
      ToMapLookup(CountAll(init));
      ToMapLookup(CountAll(names));
      assert forall n :: n in names <==> n in init || n == last;
    }
  }

  /** Keys listed earlier in `t` were seen earlier in `names`. */
  predicate InFirstSeenOrder(t: Tally, names: seq<string>)
  {
    && (forall i :: 0 <= i < |t| ==> t[i].name in names)
    && (forall i, j :: 0 <= i < j < |t| ==> FirstIndex(names, t[i].name) < FirstIndex(names, t[j].name))
  }

  /** Keys are kept in first-seen order: of two keys, the one listed first
      was seen first. */
  lemma {:induction false} CountAllFirstSeenOrder(names: seq<string>)
    ensures InFirstSeenOrder(CountAll(names), names)
    decreases |names|
  {
    if names != [] {
      var init := names[..|names| - 1];
      var last := names[|names| - 1];
      assert names == init + [last];
      CountAllFirstSeenOrder(init);
      CountAllCounts(init);
      CountNameKeepsFirstSeenOrder(CountAll(init), init, last);
    } else {
      assert CountAll(names) == [];
    }
  }

  /** Counting one more name keeps the keys in first-seen order. */
  lemma CountNameKeepsFirstSeenOrder(t: Tally, init: seq<string>, last: string)
    requires InFirstSeenOrder(t, init)
    requires forall n :: n in NameSet(t) <==> n in init
    ensures InFirstSeenOrder(CountName(t, last), init + [last])
  {
    var t' := CountName(t, last);
    CountNameShape(t, last);
    forall i | 0 <= i < |t'|
      ensures t'[i].name in init + [last]
    {
      NameSetHas(t', i);
    }
    forall i, j | 0 <= i < j < |t'|
      ensures FirstIndex(init + [last], t'[i].name) < FirstIndex(init + [last], t'[j].name)
    {
      FirstSeenPair(t, init, last, i, j);
    }
  }

  /** The pair of keys at `i < j` after counting `last`. */
  lemma FirstSeenPair(t: Tally, init: seq<string>, last: string, i: nat, j: nat)
    requires InFirstSeenOrder(t, init)
    requires forall n :: n in NameSet(t) <==> n in init
    requires i < j < |CountName(t, last)|
    ensures CountName(t, last)[i].name in init + [last]
    ensures CountName(t, last)[j].name in init + [last]
    ensures FirstIndex(init + [last], CountName(t, last)[i].name)
            < FirstIndex(init + [last], CountName(t, last)[j].name)
  {
    CountNameKeepsNames(t, last);
    NameSetHas(t, i);
    FirstIndexOfExtended(init, last, t[i].name);
    if j < |t| {
      NameSetHas(t, j);
      FirstIndexOfExtended(init, last, t[j].name);
    } else {
      FirstIndexOfLast(t, init, last);
    }
  }

  /** `countName` keeps every key where it was and adds at most one. */
  lemma CountNameKeepsNames(t: Tally, name: string)
    ensures |t| <= |CountName(t, name)| <= |t| + 1
    ensures forall i :: 0 <= i < |t| ==> CountName(t, name)[i].name == t[i].name
  {
    CountNameShape(t, name);
  }

  /** A name not counted before is first seen at the end. */
  lemma FirstIndexOfLast(t: Tally, init: seq<string>, last: string)
    requires forall n :: n in NameSet(t) <==> n in init
    requires |CountName(t, last)| > |t|
    ensures last !in init
    ensures CountName(t, last)[|t|].name == last
    ensures FirstIndex(init + [last], last) == |init|
  {
    CountNameShape(t, last);
    assert (init + [last])[..|init|] == init;
    FirstIndexUnique(init + [last], last, |init|);
  }

  /** The first index is the only index holding `x` with no `x` before it. */
  lemma FirstIndexUnique(names: seq<string>, x: string, k: nat)
    requires k < |names| && names[k] == x && x !in names[..k]
    ensures FirstIndex(names, x) == k
  {
    var k' := FirstIndex(names, x);
  }

  /** Appending to a list leaves the first index of an existing element alone. */
  lemma FirstIndexOfExtended(init: seq<string>, last: string, x: string)
    requires x in init
    ensures x in init + [last]
    ensures FirstIndex(init + [last], x) == FirstIndex(init, x)
  {
    var k := FirstIndex(init, x);
    assert (init + [last])[..k] == init[..k];
    FirstIndexUnique(init + [last], x, k);
  }
}
