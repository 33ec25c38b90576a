/** compute_statistics.py: the median and the mode of the parsed data. The
    data are modelled as integers; the median is a real because the average of
    the two middle values need not be an integer. */
module ComputeStatistics {
  import opened Sequences
  import opened OrderedDict

  // ---------------------------------------------------------------------------
  // Median

  predicate SortedAsc(s: seq<int>)
  {
    forall i, j :: 0 <= i < j < |s| ==> s[i] <= s[j]
  }

  lemma MultisetHeadTail(x: seq<int>)
    requires |x| > 0
    ensures multiset(x) == multiset{x[0]} + multiset(x[1..])
  {
    assert x == [x[0]] + x[1..];
  }

  lemma MultisetCancel(a: int, p: multiset<int>, q: multiset<int>)
    requires multiset{a} + p == multiset{a} + q
    ensures p == q
  {
    forall v ensures p[v] == q[v] {
      assert (multiset{a} + p)[v] == (multiset{a} + q)[v];
    }
  }

  /** The first element of an ascending sequence is its least. */
  lemma SortedHeadLeast(x: seq<int>)
    requires SortedAsc(x) && |x| > 0
    ensures forall v :: v in multiset(x) ==> x[0] <= v
  {
    forall v | v in multiset(x) ensures x[0] <= v {
      var i :| 0 <= i < |x| && x[i] == v;
    }
  }

  lemma SortedCons(a: int, t: seq<int>)
    requires SortedAsc(t)
    requires forall j :: 0 <= j < |t| ==> a <= t[j]
    ensures SortedAsc([a] + t)
  {
    var r := [a] + t;
    forall i, j | 0 <= i < j < |r| ensures r[i] <= r[j] {
      assert r[j] == t[j - 1];
      if i > 0 {
        assert r[i] == t[i - 1];
      }
    }
  }

  /** x inserted into the ascending sequence s at the first place where it fits. */
  function Insert(x: int, s: seq<int>): (r: seq<int>)
    ensures |r| == |s| + 1
    ensures multiset(r) == multiset(s) + multiset{x}
  {
    if s == [] || x <= s[0] then [x] + s
    else
      MultisetHeadTail(s);
      [s[0]] + Insert(x, s[1..])
  }

  /** Inserting into an ascending sequence keeps it ascending. */
  lemma {:induction false} InsertSorted(x: int, s: seq<int>)
    requires SortedAsc(s)
    ensures SortedAsc(Insert(x, s))
  {
    if s == [] || x <= s[0] {
      forall j | 0 <= j < |s| ensures x <= s[j] {
        if j > 0 {
          assert s[0] <= s[j];
        }
      }
      SortedCons(x, s);
    } else {
      var rest := Insert(x, s[1..]);
      InsertSorted(x, s[1..]);
      MultisetHeadTail(s);
      forall j | 0 <= j < |rest| ensures s[0] <= rest[j] {
        assert rest[j] in multiset(rest);
        if rest[j] != x {
          assert rest[j] in multiset(s[1..]);
          SortedHeadLeast(s);
        }
      }
      SortedCons(s[0], rest);
    }
  }

  /** `sorted(data)`: the data in ascending order, duplicates kept. */
  function Sorted(data: seq<int>): (r: seq<int>)
    ensures |r| == |data|
    ensures multiset(r) == multiset(data)
    ensures SortedAsc(r)
  {
    if data == [] then []
    else
      MultisetHeadTail(data);
      var rest := Sorted(data[1..]);
      InsertSorted(data[0], rest);
      Insert(data[0], rest)
  }

  /** calculate_median: the middle element of the sorted data for an odd
      count, the average of the two middle elements for an even one. The
      source indexes `sorted_data[-1]` on empty data, so data must not be
      empty. */
  function Median(data: seq<int>): (m: real)
    requires |data| > 0
    ensures Sorted(data)[(|data| - 1) / 2] as real <= m <= Sorted(data)[|data| / 2] as real
  {
    var sortedData := Sorted(data);
    var n := |sortedData|;
    if n % 2 == 1 then
      assert (n - 1) / 2 == n / 2;
      sortedData[n / 2] as real
    else
      assert (n - 1) / 2 == n / 2 - 1;
      var lo, hi := sortedData[n / 2 - 1], sortedData[n / 2];
      assert lo <= hi;
      Midpoint(lo, hi);
      (lo + hi) as real / 2.0
  }

  /** The mean of two ordered integers lies between them. */
  lemma Midpoint(lo: int, hi: int)
    requires lo <= hi
    ensures lo as real <= (lo + hi) as real / 2.0 <= hi as real
  {
  }

  /** Two ascending sequences with the same elements are equal: sorting
      determines its result from the multiset of the input alone. */
  lemma {:induction false} SortedUnique(x: seq<int>, y: seq<int>)
    requires SortedAsc(x) && SortedAsc(y)
    requires multiset(x) == multiset(y)
    ensures x == y
  {
    assert |y| == |x| by { assert |multiset(x)| == |multiset(y)|; }
    if x != [] {
      assert x[0] in multiset(y) && y[0] in multiset(x);
      SortedHeadLeast(x);
      SortedHeadLeast(y);
      MultisetHeadTail(x);
      MultisetHeadTail(y);
      assert x[0] == y[0];
      MultisetCancel(x[0], multiset(x[1..]), multiset(y[1..]));
      SortedUnique(x[1..], y[1..]);
      HeadTail(x);
      HeadTail(y);
    }
  }

  /** The median is unchanged by any reordering of the data. */
  lemma MedianPermutation(a: seq<int>, b: seq<int>)
    requires |a| > 0
    requires multiset(a) == multiset(b)
    ensures |b| > 0 && Median(a) == Median(b)
  {
    assert |b| > 0 by { assert |multiset(a)| == |multiset(b)|; }
    assert Sorted(a) == Sorted(b) by { SortedUnique(Sorted(a), Sorted(b)); }
  }

  /** For an odd count the median is one of the data values, with as many
      values sorted before it as after it. */
  lemma MedianOdd(data: seq<int>)
    requires |data| % 2 == 1
    ensures exists i :: 0 <= i < |data| && Median(data) == data[i] as real
    ensures Median(data) == Sorted(data)[|data| / 2] as real
  {
    var s := Sorted(data);
    var m := s[|s| / 2];
    assert m in multiset(data) by { assert m in multiset(s); }
    var i :| 0 <= i < |data| && data[i] == m;
  }

  /** For an even count the median is the average of the two middle values
      of the sorted data, so it lies between them, and both are data values. */
  lemma MedianEven(data: seq<int>)
    requires |data| > 0 && |data| % 2 == 0
    ensures var s := Sorted(data); var n := |data|;
      s[n / 2 - 1] as real <= Median(data) <= s[n / 2] as real &&
      Median(data) == (s[n / 2 - 1] as real + s[n / 2] as real) / 2.0 &&
      s[n / 2 - 1] in data && s[n / 2] in data
  {
    var s := Sorted(data);
    var n := |data|;
    var lo, hi := s[n / 2 - 1], s[n / 2];
    assert lo <= hi;
    assert Median(data) == (lo + hi) as real / 2.0;
    assert lo in data by { assert lo in multiset(s); }
    assert hi in data by { assert hi in multiset(s); }
  }

  // ---------------------------------------------------------------------------
  // Mode

  /** The result of calculate_mode: the single value when exactly one value
      occurs most often, otherwise the list of all of them. */
  datatype Mode = One(value: int) | Many(values: seq<int>)

  function ModeValues(m: Mode): seq<int>
  {
    match m
    case One(x) => [x]
    case Many(xs) => xs
  }

  /** `max(xs)` */
  function Max(xs: seq<nat>): (m: nat)
    requires |xs| > 0
    ensures exists i :: 0 <= i < |xs| && xs[i] == m
    ensures forall i :: 0 <= i < |xs| ==> xs[i] <= m
  {
    if |xs| == 1 then xs[0]
    else
      var r := Max(Init(xs));
      if Last(xs) > r then Last(xs) else r
  }

  /** The occurrence counts of the keys, in key order. */
  function CountsOf(keys: seq<int>, data: seq<int>): (cs: seq<nat>)
    ensures |cs| == |keys|
    ensures forall i :: 0 <= i < |keys| ==> cs[i] == Count(data, keys[i])
  {
    seq(|keys|, i requires 0 <= i < |keys| => Count(data, keys[i]))
  }

  /** The largest number of times any value occurs in data. */
  function MaxCount(data: seq<int>): (c: nat)
    requires |data| > 0
    ensures exists i :: 0 <= i < |data| && Count(data, data[i]) == c
    ensures forall x :: Count(data, x) <= c
  {
    var keys := Distinct(data);
    var c := Max(CountsOf(keys, data));
    assert exists i :: 0 <= i < |data| && Count(data, data[i]) == c by {
      var k :| 0 <= k < |keys| && Count(data, keys[k]) == c;
      var i :| 0 <= i < |data| && data[i] == keys[k];
    }
    assert forall x :: Count(data, x) <= c by {
      forall x ensures Count(data, x) <= c {
        if x in data {
          var i :| 0 <= i < |data| && data[i] == x;
          var k :| 0 <= k < |keys| && keys[k] == x;
        }
      }
    }
    c
  }

  /** The values of data that occur MaxCount(data) times, each once, in the
      order of their first occurrence. */
  function Modes(data: seq<int>): seq<int>
    requires |data| > 0
  {
    KeepWithCount(Distinct(data), data, MaxCount(data))
  }

  /** What Modes promises: every mode occurs the maximal number of times, no
      value occurs more often, every value that occurs that often is a mode,
      and the modes come without repetition in first-occurrence order. */
  lemma ModesMeaning(data: seq<int>)
    requires |data| > 0
    ensures |Modes(data)| > 0
    ensures forall i :: 0 <= i < |Modes(data)| ==> Count(data, Modes(data)[i]) == MaxCount(data)
    ensures forall x :: Count(data, x) <= MaxCount(data)
    ensures forall x :: x in data && Count(data, x) == MaxCount(data) ==> x in Modes(data)
    ensures NoDuplicates(Modes(data))
    ensures InFirstOccurrenceOrder(Modes(data), data)
  {
    var keys := Distinct(data);
    DistinctOrder(data);
    KeepWithCountOrder(keys, data, MaxCount(data));
    forall x | x in data && Count(data, x) == MaxCount(data) ensures x in Modes(data) {
      var k :| 0 <= k < |keys| && keys[k] == x;
    }
    var i :| 0 <= i < |data| && Count(data, data[i]) == MaxCount(data);
    assert data[i] in Modes(data);
  }

  /** `dict.values()`: the stored values in key order. */
  function ValuesOf(keys: seq<int>, values: map<int, nat>): (r: seq<nat>)
    requires forall i :: 0 <= i < |keys| ==> keys[i] in values
    ensures |r| == |keys|
    ensures forall i :: 0 <= i < |keys| ==> r[i] == values[keys[i]]
  {
    seq(|keys|, i requires 0 <= i < |keys| => values[keys[i]])
  }

  /** `[key for key, val in d.items() if val == v]` */
  function KeysWithValue(keys: seq<int>, values: map<int, nat>, v: nat): (r: seq<int>)
    requires forall i :: 0 <= i < |keys| ==> keys[i] in values
    ensures forall i :: 0 <= i < |r| ==> r[i] in keys && r[i] in values && values[r[i]] == v
    ensures forall i :: 0 <= i < |keys| && values[keys[i]] == v ==> keys[i] in r
  {
    if keys == [] then []
    else
      var p := KeysWithValue(Init(keys), values, v);
      if values[Last(keys)] == v then p + [Last(keys)] else p
  }

  lemma {:induction false} KeysWithCount(keys: seq<int>, values: map<int, nat>, data: seq<int>, v: nat)
    requires forall i :: 0 <= i < |keys| ==> keys[i] in values && values[keys[i]] == Count(data, keys[i])
    ensures KeysWithValue(keys, values, v) == KeepWithCount(keys, data, v)
  {
    if keys != [] {
      KeysWithCount(Init(keys), values, data, v);
    }
  }

  /** Counting one more value in a frequency table: `d[x] = d.get(x, 0) + 1`. */
  lemma TallyBump(keys: seq<int>, counts: map<int, nat>, s: seq<int>, x: int)
    requires IsTally(keys, counts, s)
    ensures IsTally(if x in counts then keys else keys + [x],
                    counts[x := (if x in counts then counts[x] else 0) + 1], s + [x])
  {
    if x in counts {
      TallySeen(keys, counts, s, x);
    } else {
      TallyFirst(keys, counts, s, x);
    }
  }

  /** Reading the modes off a frequency table of data, as calculate_mode
      does, gives Modes(data). */
  lemma ModesOfTally(keys: seq<int>, values: map<int, nat>, data: seq<int>)
    requires |data| > 0
    requires IsTally(keys, values, data)
    ensures forall i :: 0 <= i < |keys| ==> keys[i] in values
    ensures KeysWithValue(keys, values, Max(ValuesOf(keys, values))) == Modes(data)
  {
    TallyLookup(keys, values, data);
    var vs, cs := ValuesOf(keys, values), CountsOf(keys, data);
    assert |vs| == |cs|;
    assert forall i :: 0 <= i < |vs| ==> vs[i] == cs[i];
    assert vs == cs;
    assert Max(vs) == MaxCount(data);
    KeysWithCount(keys, values, data, MaxCount(data));
  }

  /** `modes[0] if len(modes) == 1 else modes` */
  function ModeOf(modes: seq<int>): (m: Mode)
    requires |modes| > 0
    ensures ModeValues(m) == modes
    ensures m.One? <==> |modes| == 1
    ensures m.Many? ==> |m.values| >= 2
  {
    if |modes| == 1 then One(modes[0]) else Many(modes)
  }

  /** calculate_mode. The source takes `max` of the counts, which raises on
      empty data; its caller never passes empty data. */
  method CalculateMode(data: seq<int>) returns (mode: Mode)
    requires |data| > 0
    ensures ModeValues(mode) == Modes(data)
    ensures forall i :: 0 <= i < |ModeValues(mode)| ==> Count(data, ModeValues(mode)[i]) == MaxCount(data)
    ensures forall x :: x in data && Count(data, x) == MaxCount(data) ==> x in ModeValues(mode)
    ensures InFirstOccurrenceOrder(ModeValues(mode), data) && NoDuplicates(ModeValues(mode))
    ensures mode.One? <==> |Modes(data)| == 1
    ensures mode.Many? ==> |mode.values| >= 2
  {
    var frequency := new Dict<int, nat>();
    for i := 0 to |data|
      invariant frequency.Valid()
      invariant IsTally(frequency.keys, frequency.values, data[..i])
    {
      var number := data[i];
      assert data[..i + 1] == data[..i] + [number];
      TallyBump(frequency.keys, frequency.values, data[..i], number);
      frequency.Put(number, frequency.Get(number, 0) + 1);
    }
    assert data[..|data|] == data;
    ModesOfTally(frequency.keys, frequency.values, data);
    var maxFrequency := Max(ValuesOf(frequency.keys, frequency.values));
    var modes := KeysWithValue(frequency.keys, frequency.values, maxFrequency);
    ModesMeaning(data);
    mode := ModeOf(modes);
  }
}
