/** Reference definitions for frequency tables: how often a value occurs in a
    sequence, the distinct values of a sequence in first-occurrence order, and
    where a value first occurs. The insertion-ordered dictionaries built by
    count_words and calculate_mode are proved against these. */
module Sequences {

  function Last<T>(s: seq<T>): T
    requires |s| > 0
  {
    s[|s| - 1]
  }

  function Init<T>(s: seq<T>): seq<T>
    requires |s| > 0
  {
    s[..|s| - 1]
  }

  lemma PrefixSuffix<T>(s: seq<T>, k: nat)
    requires k <= |s|
    ensures s[..k] + s[k..] == s
  {
  }

  lemma DropAppend<T>(a: seq<T>, b: seq<T>, k: nat)
    requires k <= |a|
    ensures (a + b)[k..] == a[k..] + b
  {
  }

  lemma HeadTail<T>(s: seq<T>)
    requires |s| > 0
    ensures [s[0]] + s[1..] == s
  {
  }

  predicate NoDuplicates<T(==)>(s: seq<T>)
  {
    forall i, j :: 0 <= i < j < |s| ==> s[i] != s[j]
  }

  /** The number of occurrences of x in s. */
  function Count<T(==)>(s: seq<T>, x: T): (n: nat)
    ensures n <= |s|
    ensures n > 0 <==> x in s
  {
    if s == [] then 0
    else Count(Init(s), x) + (if Last(s) == x then 1 else 0)
  }

  /** The position of the first occurrence of x in s. */
  function FirstIndex<T(==)>(s: seq<T>, x: T): (i: nat)
    requires x in s
    ensures i < |s| && s[i] == x
    ensures forall j :: 0 <= j < i ==> s[j] != x
  {
    if s[0] == x then 0 else 1 + FirstIndex(s[1..], x)
  }

  /** r lists values of s, ordered by where each first occurs in s. */
  predicate InFirstOccurrenceOrder<T(==)>(r: seq<T>, s: seq<T>)
  {
    (forall i :: 0 <= i < |r| ==> r[i] in s) &&
    forall i, j :: 0 <= i < j < |r| ==>
      r[i] in s && r[j] in s && FirstIndex(s, r[i]) < FirstIndex(s, r[j])
  }

  /** The distinct values of s, each kept where it first occurs: the key order
      of a dictionary filled by scanning s from left to right. */
  function Distinct<T(==)>(s: seq<T>): (d: seq<T>)
    ensures forall i :: 0 <= i < |d| ==> d[i] in s
    ensures forall i :: 0 <= i < |s| ==> s[i] in d
    ensures NoDuplicates(d)
  {
    if s == [] then []
    else
      var p := Distinct(Init(s));
      if Last(s) in p then p else p + [Last(s)]
  }

  /** Count(s, k) summed over the keys, in order. */
  function SumCounts<T(==)>(keys: seq<T>, s: seq<T>): nat
  {
    if keys == [] then 0 else SumCounts(Init(keys), s) + Count(s, Last(keys))
  }

  lemma CountSnoc<T>(s: seq<T>, y: T, x: T)
    ensures Count(s + [y], x) == Count(s, x) + (if y == x then 1 else 0)
  {
    assert Init(s + [y]) == s;
  }

  /** In a sequence without duplicates a value occurs at most once. */
  lemma {:induction false} CountNoDuplicates<T>(keys: seq<T>, y: T)
    requires NoDuplicates(keys)
    ensures Count(keys, y) == if y in keys then 1 else 0
  {
    if keys != [] {
      CountNoDuplicates(Init(keys), y);
      forall i | 0 <= i < |Init(keys)| ensures Init(keys)[i] != Last(keys) {
        assert Init(keys)[i] == keys[i];
      }
      assert keys == Init(keys) + [Last(keys)];
    }
  }

  lemma {:induction false} SumCountsSnoc<T>(keys: seq<T>, s: seq<T>, y: T)
    ensures SumCounts(keys, s + [y]) == SumCounts(keys, s) + Count(keys, y)
  {
    if keys != [] {
      SumCountsSnoc(Init(keys), s, y);
      CountSnoc(s, y, Last(keys));
    }
  }

  /** Summing the occurrence counts of the distinct values gives the length. */
  lemma {:induction false} SumCountsDistinct<T>(s: seq<T>)
    ensures SumCounts(Distinct(s), s) == |s|
  {
    if s != [] {
      var t, y := Init(s), Last(s);
      assert s == t + [y];
      var p := Distinct(t);
      SumCountsDistinct(t);
      SumCountsSnoc(p, t, y);
      CountNoDuplicates(p, y);
      if y !in p {
        assert Init(p + [y]) == p;
        CountSnoc(t, y, y);
      }
    }
  }

  /** A value that occurs in a prefix keeps its first index in the whole. */
  lemma FirstIndexPrefix<T>(t: seq<T>, y: T, x: T)
    requires x in t
    ensures FirstIndex(t + [y], x) == FirstIndex(t, x)
  {
    var i, j := FirstIndex(t, x), FirstIndex(t + [y], x);
    assert (t + [y])[i] == x;
    assert t[j] == x by { assert j <= i; }
  }

  /** A value that first occurs after every value of r may follow them. */
  lemma OrderSnoc<T>(r: seq<T>, y: T, s: seq<T>)
    requires InFirstOccurrenceOrder(r, s) && y in s
    requires forall i :: 0 <= i < |r| ==> FirstIndex(s, r[i]) < FirstIndex(s, y)
    ensures InFirstOccurrenceOrder(r + [y], s)
  {
    var d := r + [y];
    forall i, j | 0 <= i < j < |d|
      ensures d[i] in s && d[j] in s && FirstIndex(s, d[i]) < FirstIndex(s, d[j])
    {
      assert d[i] == r[i];
      if j < |r| {
        assert d[j] == r[j];
      }
    }
  }

  /** Distinct(s) lists each value of s at the place of its first occurrence,
      so its order is first-occurrence order. */
  lemma {:induction false} DistinctOrder<T>(s: seq<T>)
    ensures InFirstOccurrenceOrder(Distinct(s), s)
  {
    if s != [] {
      var t, y := Init(s), Last(s);
      assert s == t + [y];
      var p := Distinct(t);
      DistinctOrder(t);
      forall x | x in t ensures FirstIndex(s, x) == FirstIndex(t, x) {
        FirstIndexPrefix(t, y, x);
      }
      if y !in p {
        assert FirstIndex(s, y) == |t|;
        assert forall i :: 0 <= i < |p| ==> p[i] in t;
        OrderSnoc(p, y, s);
      }
    }
  }

  /** Keeping only values with a given number of occurrences keeps the order. */
  function KeepWithCount<T(==)>(keys: seq<T>, s: seq<T>, c: nat): (r: seq<T>)
    ensures forall i :: 0 <= i < |r| ==> r[i] in keys && Count(s, r[i]) == c
    ensures forall i :: 0 <= i < |keys| && Count(s, keys[i]) == c ==> keys[i] in r
  {
    if keys == [] then []
    else
      var p := KeepWithCount(Init(keys), s, c);
      if Count(s, Last(keys)) == c then p + [Last(keys)] else p
  }

  lemma {:induction false} KeepWithCountOrder<T>(keys: seq<T>, s: seq<T>, c: nat)
    requires InFirstOccurrenceOrder(keys, s)
    ensures InFirstOccurrenceOrder(KeepWithCount(keys, s, c), s)
    ensures NoDuplicates(KeepWithCount(keys, s, c))
  {
    if keys != [] {
      var k, y := Init(keys), Last(keys);
      assert keys == k + [y];
      assert InFirstOccurrenceOrder(k, s) by {
        forall i, j | 0 <= i < j < |k|
          ensures k[i] in s && k[j] in s && FirstIndex(s, k[i]) < FirstIndex(s, k[j])
        {
          assert k[i] == keys[i] && k[j] == keys[j];
        }
      }
      KeepWithCountOrder(k, s, c);
      var p := KeepWithCount(k, s, c);
      if Count(s, y) == c {
        forall i | 0 <= i < |p| ensures p[i] in s && FirstIndex(s, p[i]) < FirstIndex(s, y) {
          var a :| 0 <= a < |k| && k[a] == p[i];
          assert keys[a] == p[i] && keys[|keys| - 1] == y;
        }
        OrderSnoc(p, y, s);
      }
    }
  }

  // ---------------------------------------------------------------------------
  // Frequency tables

  /** keys and counts are the frequency table of s: keys are the distinct
      values of s in first-occurrence order, and counts gives each value of s
      its number of occurrences and has no other entries. */
  ghost predicate IsTally<T(!new)>(keys: seq<T>, counts: map<T, nat>, s: seq<T>)
  {
    keys == Distinct(s) &&
    (forall x :: x in counts <==> x in s) &&
    (forall x :: x in counts ==> counts[x] == Count(s, x))
  }

  lemma CountsAfter<T>(s: seq<T>, x: T)
    ensures Init(s + [x]) == s && Last(s + [x]) == x
    ensures forall y :: Count(s + [x], y) == Count(s, y) + (if x == y then 1 else 0)
  {
    forall y ensures Count(s + [x], y) == Count(s, y) + (if x == y then 1 else 0) {
      CountSnoc(s, x, y);
    }
  }

  /** Counting a value seen before only increments its count. */
  lemma TallySeen<T(!new)>(keys: seq<T>, counts: map<T, nat>, s: seq<T>, x: T)
    requires IsTally(keys, counts, s)
    requires x in counts
    ensures IsTally(keys, counts[x := counts[x] + 1], s + [x])
  {
    CountsAfter(s, x);
  }

  /** Counting a value at its first sighting appends it with count one. */
  lemma TallyFirst<T(!new)>(keys: seq<T>, counts: map<T, nat>, s: seq<T>, x: T)
    requires IsTally(keys, counts, s)
    requires x !in counts
    ensures IsTally(keys + [x], counts[x := 1], s + [x])
  {
    CountsAfter(s, x);
  }

  /** Every key of a frequency table is stored with its number of occurrences. */
  lemma TallyLookup<T(!new)>(keys: seq<T>, counts: map<T, nat>, s: seq<T>)
    requires IsTally(keys, counts, s)
    ensures forall i :: 0 <= i < |keys| ==> keys[i] in counts && counts[keys[i]] == Count(s, keys[i])
  {
  }

  /** The values stored under the keys, summed in key order. */
  function SumValues<T>(keys: seq<T>, counts: map<T, nat>): nat
    requires forall i :: 0 <= i < |keys| ==> keys[i] in counts
  {
    if keys == [] then 0 else SumValues(Init(keys), counts) + counts[Last(keys)]
  }

  lemma {:induction false} SumValuesOfCounts<T>(keys: seq<T>, counts: map<T, nat>, s: seq<T>)
    requires forall i :: 0 <= i < |keys| ==> keys[i] in counts && counts[keys[i]] == Count(s, keys[i])
    ensures SumValues(keys, counts) == SumCounts(keys, s)
  {
    if keys != [] {
      SumValuesOfCounts(Init(keys), counts, s);
    }
  }

  /** What a frequency table promises: its keys come in first-occurrence order
      and are all present, every count is at least one, and the counts add up
      to the length of the input. */
  lemma TallyFacts<T(!new)>(keys: seq<T>, counts: map<T, nat>, s: seq<T>)
    requires IsTally(keys, counts, s)
    ensures InFirstOccurrenceOrder(keys, s)
    ensures forall i :: 0 <= i < |keys| ==> keys[i] in counts
    ensures forall x :: x in counts ==> counts[x] >= 1
    ensures SumValues(keys, counts) == |s|
  {
    DistinctOrder(s);
    SumValuesOfCounts(keys, counts, s);
    SumCountsDistinct(s);
  }
}
