/**
 * Per-currency averages of the live store (getAveragesByMonth and
 * getAveragesByYear): the stored observations of one currency grouped by
 * a key, each group mapped to the mean of its rates. The mean is exact;
 * see the README for the floating-point averaging it stands for.
 */
module Averages {
  import opened Wrappers
  import opened Model
  import opened Strings
  import opened Store

  function Sum(xs: seq<real>): real
  {
    if |xs| == 0 then 0.0 else Sum(xs[..|xs| - 1]) + xs[|xs| - 1]
  }

  /** `averagingDouble`: the arithmetic mean, 0 for no values at all. */
  function Mean(xs: seq<real>): real
  {
    if |xs| == 0 then 0.0 else Sum(xs) / |xs| as real
  }

  /** The keys that occur among the observations. */
  function KeysOf<K(==)>(obs: seq<Obs>, key: Obs -> K): set<K>
  {
    set o | o in obs :: key(o)
  }

  /** The rates of the observations with key `k`, in order. */
  function RatesWithKey<K(==)>(obs: seq<Obs>, key: Obs -> K, k: K): (r: seq<real>)
    ensures |r| <= |obs|
  {
    if |obs| == 0 then []
    else
      RatesWithKey(obs[..|obs| - 1], key, k)
        + (if key(obs[|obs| - 1]) == k then [obs[|obs| - 1].rate] else [])
  }

  /** A key has rates exactly when some observation carries it, so no group is empty. */
  lemma {:induction false} RatesWithKeyNonEmpty<K>(obs: seq<Obs>, key: Obs -> K, k: K)
    ensures |RatesWithKey(obs, key, k)| > 0 <==> k in KeysOf(obs, key)
  {
    if |obs| > 0 {
      var front := obs[..|obs| - 1];
      var last := obs[|obs| - 1];
      RatesWithKeyNonEmpty(front, key, k);
      assert obs == front + [last];
      assert KeysOf(obs, key) == KeysOf(front, key) + {key(last)};
    }
  }

  /** `groupingBy(key, averagingDouble(rate))`, stated directly: one entry per key, the mean of its group. */
  function GroupMeans<K(==)>(obs: seq<Obs>, key: Obs -> K): (m: map<K, real>)
    ensures m.Keys == KeysOf(obs, key)
  {
    map k | k in KeysOf(obs, key) :: Mean(RatesWithKey(obs, key, k))
  }

  /** Appending an observation adds its key and extends exactly its own group. */
  lemma GroupAppend<K>(obs: seq<Obs>, x: Obs, key: Obs -> K, k: K)
    ensures KeysOf(obs + [x], key) == KeysOf(obs, key) + {key(x)}
    ensures RatesWithKey(obs + [x], key, k) == RatesWithKey(obs, key, k) + (if key(x) == k then [x.rate] else [])
    ensures Sum(RatesWithKey(obs + [x], key, k)) == Sum(RatesWithKey(obs, key, k)) + (if key(x) == k then x.rate else 0.0)
  {
    assert (obs + [x])[..|obs|] == obs;
    assert forall o :: o in obs + [x] <==> o in obs || o == x;
    var xs := RatesWithKey(obs, key, k);
    if key(x) == k {
      assert (xs + [x.rate])[..|xs|] == xs;
    } else {
      assert xs + [] == xs;
    }
  }

  /** `sums` and `counts` hold, per key, the total and the number of the rates seen so far. */
  ghost predicate Accumulated<K>(seen: seq<Obs>, key: Obs -> K, sums: map<K, real>, counts: map<K, nat>)
  {
    && sums.Keys == KeysOf(seen, key)
    && counts.Keys == sums.Keys
    && forall k :: k in sums ==>
      sums[k] == Sum(RatesWithKey(seen, key, k)) && counts[k] == |RatesWithKey(seen, key, k)| > 0
  }

  /** The running totals and counts after `x`: its key's entries grow by its rate and by one. */
  ghost predicate Added<K>(x: Obs, key: Obs -> K, sums: map<K, real>, counts: map<K, nat>,
                           sums': map<K, real>, counts': map<K, nat>)
  {
    var k := key(x);
    && sums' == sums[k := (if k in sums then sums[k] else 0.0) + x.rate]
    && counts' == counts[k := (if k in counts then counts[k] else 0) + 1]
  }

  /** The running total and count of `k` after `x`: those of its group in `seen + [x]`. */
  lemma AccumulateKey<K>(seen: seq<Obs>, x: Obs, key: Obs -> K, sums: map<K, real>, counts: map<K, nat>,
                         sums': map<K, real>, counts': map<K, nat>, k: K)
    requires Accumulated(seen, key, sums, counts)
    requires Added(x, key, sums, counts, sums', counts') && k in sums'
    ensures k in counts'
    ensures sums'[k] == Sum(RatesWithKey(seen + [x], key, k)) && counts'[k] == |RatesWithKey(seen + [x], key, k)| > 0
  {
    GroupAppend(seen, x, key, k);
    if k !in sums {
      RatesWithKeyNonEmpty(seen, key, k);
    }
  }

  /** After `x` the keys of the running totals are the keys seen, and the counts keep the same keys. */
  lemma AccumulateKeys<K>(seen: seq<Obs>, x: Obs, key: Obs -> K, sums: map<K, real>, counts: map<K, nat>,
                          sums': map<K, real>, counts': map<K, nat>)
    requires Accumulated(seen, key, sums, counts)
    requires Added(x, key, sums, counts, sums', counts')
    ensures sums'.Keys == KeysOf(seen + [x], key) && counts'.Keys == sums'.Keys
  {
    GroupAppend(seen, x, key, key(x));
  }

  /** Adding `x` to its key's running total and count keeps them accumulated. */
  lemma AccumulateStep<K>(seen: seq<Obs>, x: Obs, key: Obs -> K, sums: map<K, real>, counts: map<K, nat>,
                          sums': map<K, real>, counts': map<K, nat>)
    requires Accumulated(seen, key, sums, counts)
    requires Added(x, key, sums, counts, sums', counts')
    ensures Accumulated(seen + [x], key, sums', counts')
  {
    AccumulateKeys(seen, x, key, sums, counts, sums', counts');
    forall k | k in sums'
      ensures k in counts'
      ensures sums'[k] == Sum(RatesWithKey(seen + [x], key, k))
      ensures counts'[k] == |RatesWithKey(seen + [x], key, k)| > 0
    {
      AccumulateKey(seen, x, key, sums, counts, sums', counts', k);
    }
  }

  /** Each total divided by its count. */
  function Divide<K>(sums: map<K, real>, counts: map<K, nat>): map<K, real>
    requires forall k :: k in sums ==> k in counts && counts[k] > 0
  {
    map k | k in sums :: sums[k] / counts[k] as real
  }

  /** Dividing each accumulated total by its count gives the group means. */
  lemma AccumulatedMeans<K>(obs: seq<Obs>, key: Obs -> K, sums: map<K, real>, counts: map<K, nat>)
    requires Accumulated(obs, key, sums, counts)
    ensures forall k :: k in sums ==> k in counts && counts[k] > 0
    ensures Divide(sums, counts) == GroupMeans(obs, key)
  {
  }

  /**
   * The collector as it runs: one pass over the observations keeping a
   * running sum and count per key, then each sum divided by its count.
   */
  method GroupAverages<K(==)>(obs: seq<Obs>, key: Obs -> K) returns (m: map<K, real>)
    ensures m == GroupMeans(obs, key)
  {
    var sums: map<K, real> := map[];
    var counts: map<K, nat> := map[];
    ghost var seen: seq<Obs> := [];
    var i := 0;
    while i < |obs|
      invariant 0 <= i <= |obs|
      invariant seen == obs[..i]
      invariant Accumulated(seen, key, sums, counts)
    {
      var k := key(obs[i]);
      var sums' := sums[k := (if k in sums then sums[k] else 0.0) + obs[i].rate];
      var counts' := counts[k := (if k in counts then counts[k] else 0) + 1];
      AccumulateStep(seen, obs[i], key, sums, counts, sums', counts');
      sums, counts := sums', counts';
      assert obs[..i + 1] == obs[..i] + [obs[i]];
      seen := seen + [obs[i]];
      i := i + 1;
    }
    assert seen == obs;
    AccumulatedMeans(seen, key, sums, counts);
    m := Divide(sums, counts);
  }

  /** Every rate between `lo` and `hi` keeps the sum between the matching multiples. */
  lemma {:induction false} SumBounds(xs: seq<real>, lo: real, hi: real)
    requires forall i :: 0 <= i < |xs| ==> lo <= xs[i] <= hi
    ensures |xs| as real * lo <= Sum(xs) <= |xs| as real * hi
  {
    if |xs| > 0 {
      SumBounds(xs[..|xs| - 1], lo, hi);
    }
  }

  /** A mean lies between any lower and upper bound of the values averaged. */
  lemma MeanBounds(xs: seq<real>, lo: real, hi: real)
    requires |xs| > 0
    requires forall i :: 0 <= i < |xs| ==> lo <= xs[i] <= hi
    ensures lo <= Mean(xs) <= hi
  {
    SumBounds(xs, lo, hi);
    var n := |xs| as real;
    assert Mean(xs) * n == Sum(xs);
  }

  /** The rates in a group all come from observations with that key. */
  lemma {:induction false} RatesWithKeyFrom<K>(obs: seq<Obs>, key: Obs -> K, k: K, j: int)
    requires 0 <= j < |RatesWithKey(obs, key, k)|
    ensures exists i :: 0 <= i < |obs| && key(obs[i]) == k && obs[i].rate == RatesWithKey(obs, key, k)[j]
  {
    var front := obs[..|obs| - 1];
    var last := obs[|obs| - 1];
    if j < |RatesWithKey(front, key, k)| {
      RatesWithKeyFrom(front, key, k, j);
      var i :| 0 <= i < |front| && key(front[i]) == k && front[i].rate == RatesWithKey(front, key, k)[j];
      assert obs[i] == front[i];
    } else {
      assert key(last) == k && RatesWithKey(obs, key, k)[j] == last.rate;
    }
  }

  /** If all rates of a group lie between `lo` and `hi`, so does the group's average. */
  lemma GroupMeanBounded<K>(obs: seq<Obs>, key: Obs -> K, k: K, lo: real, hi: real)
    requires k in GroupMeans(obs, key)
    requires forall i :: 0 <= i < |obs| && key(obs[i]) == k ==> lo <= obs[i].rate <= hi
    ensures lo <= GroupMeans(obs, key)[k] <= hi
  {
    var xs := RatesWithKey(obs, key, k);
    RatesWithKeyNonEmpty(obs, key, k);
    forall j | 0 <= j < |xs|
      ensures lo <= xs[j] <= hi
    {
      RatesWithKeyFrom(obs, key, k, j);
    }
    MeanBounds(xs, lo, hi);
  }

  /** The key of getAveragesByYear: the observation's year. */
  function YearKey(o: Obs): int
  {
    o.time.year
  }

  /** `Month.toString()`: the constant's name. */
  function MonthName(m: Month): (s: string)
    ensures |s| > 0 && '_' !in s
  {
    match m
    case 1 => "JANUARY"
    case 2 => "FEBRUARY"
    case 3 => "MARCH"
    case 4 => "APRIL"
    case 5 => "MAY"
    case 6 => "JUNE"
    case 7 => "JULY"
    case 8 => "AUGUST"
    case 9 => "SEPTEMBER"
    case 10 => "OCTOBER"
    case 11 => "NOVEMBER"
    case 12 => "DECEMBER"
  }

  /** The key of getAveragesByMonth: the year, an underscore and the month's name, as in "2018_JANUARY". */
  function MonthKey(o: Obs): string
  {
    IntToString(o.time.year) + "_" + MonthName(o.time.month)
  }

  /** No two months share a name. */
  lemma MonthNameInjective(a: Month, b: Month)
    ensures MonthName(a) == MonthName(b) <==> a == b
  {
  }

  /** A string of the form `a + "_" + b` with no underscore in `a` splits back into `a` and `b`. */
  lemma SplitAtUnderscore(a1: string, b1: string, a2: string, b2: string)
    requires '_' !in a1 && '_' !in a2
    requires a1 + "_" + b1 == a2 + "_" + b2
    ensures a1 == a2 && b1 == b2
  {
    var s := a1 + "_" + b1;
    IndexOfAfterPrefix(a1, b1, '_');
    IndexOfAfterPrefix(a2, b2, '_');
    assert a1 == s[..|a1|] == a2;
    assert b1 == s[|a1| + 1..] == b2;
  }

  /**
   * Two observations share a month key exactly when they fall in the same
   * month of the same year, so the groups are calendar months.
   */
  lemma MonthKeyIdentifiesMonth(o1: Obs, o2: Obs)
    ensures MonthKey(o1) == MonthKey(o2) <==> o1.time.year == o2.time.year && o1.time.month == o2.time.month
  {
    if MonthKey(o1) == MonthKey(o2) {
      var y1 := IntToString(o1.time.year);
      var y2 := IntToString(o2.time.year);
      assert '_' !in y1;
      assert '_' !in y2;
      SplitAtUnderscore(y1, MonthName(o1.time.month), y2, MonthName(o2.time.month));
      IntToStringInjective(o1.time.year, o2.time.year);
      MonthNameInjective(o1.time.month, o2.time.month);
    }
  }

  /**
   * getAveragesByYear: the mean rate per year of one currency's stored
   * observations; a currency never recorded has no list and the lookup fails.
   */
  method AveragesByYear(s: Store, c: Code) returns (r: Option<map<int, real>>)
    ensures r.None? <==> c !in s.histories
    ensures r.Some? ==> r.value == GroupMeans(History(s, c), YearKey)
  {
    if c !in s.histories {
      return None;
    }
    var m := GroupAverages(s.histories[c], YearKey);
    return Some(m);
  }

  /** getAveragesByMonth: likewise, per calendar month, keyed as "2018_JANUARY". */
  method AveragesByMonth(s: Store, c: Code) returns (r: Option<map<string, real>>)
    ensures r.None? <==> c !in s.histories
    ensures r.Some? ==> r.value == GroupMeans(History(s, c), MonthKey)
  {
    if c !in s.histories {
      return None;
    }
    var m := GroupAverages(s.histories[c], MonthKey);
    return Some(m);
  }

  /** The month key of an observation in January 2018 is "2018_JANUARY", of one in February "2018_FEBRUARY". */
  lemma MonthKeyExample(o: Obs)
    requires o.time.year == 2018
    ensures o.time.month == 1 ==> MonthKey(o) == "2018_JANUARY"
    ensures o.time.month == 2 ==> MonthKey(o) == "2018_FEBRUARY"
  {
    assert NatToString(2) == "2";
    assert NatToString(20) == "20";
    assert NatToString(201) == "201";
    assert NatToString(2018) == "2018";
  }

  /** The rate of `o` as a group of its own, when its key is `k`. */
  function RateIfKey<K(==)>(o: Obs, key: Obs -> K, k: K): seq<real>
  {
    if key(o) == k then [o.rate] else []
  }

  lemma RatesOfFour<K>(o1: Obs, o2: Obs, o3: Obs, o4: Obs, key: Obs -> K, k: K)
    ensures RatesWithKey([o1, o2, o3, o4], key, k)
      == RateIfKey(o1, key, k) + RateIfKey(o2, key, k) + RateIfKey(o3, key, k) + RateIfKey(o4, key, k)
    ensures KeysOf([o1, o2, o3, o4], key) == {key(o1), key(o2), key(o3), key(o4)}
  {
    assert [o1, o2, o3, o4][..3] == [o1, o2, o3];
    assert [o1, o2, o3][..2] == [o1, o2];
    assert [o1, o2][..1] == [o1];
    assert [o1][..0] == [];
    assert RatesWithKey([o1], key, k) == RateIfKey(o1, key, k);
    assert RatesWithKey([o1, o2], key, k) == RateIfKey(o1, key, k) + RateIfKey(o2, key, k);
    assert RatesWithKey([o1, o2, o3], key, k)
      == RateIfKey(o1, key, k) + RateIfKey(o2, key, k) + RateIfKey(o3, key, k);
    assert forall o :: o in [o1, o2, o3, o4] <==> o == o1 || o == o2 || o == o3 || o == o4;
  }

  lemma SumThree(a: real, b: real, c: real)
    ensures Sum([a, b, c]) == a + b + c
  {
    assert [a, b, c][..2] == [a, b];
    assert [a, b][..1] == [a];
    assert [a][..0] == [];
    assert Sum([a]) == a;
    assert Sum([a, b]) == a + b;
  }

  /** A map with exactly the keys `a` and `b` is given by its two values. */
  lemma MapOfTwo<K>(m: map<K, real>, a: K, b: K, x: real, y: real)
    requires m.Keys == {a, b} && a in m && b in m && m[a] == x && m[b] == y
    ensures m == map[a := x, b := y]
  {
  }

  /** The mean of the group with key `k`, given the group's rates. */
  lemma MeanOfGroup<K>(obs: seq<Obs>, key: Obs -> K, k: K, xs: seq<real>, mean: real)
    requires k in KeysOf(obs, key) && RatesWithKey(obs, key, k) == xs && Mean(xs) == mean
    ensures k in GroupMeans(obs, key) && GroupMeans(obs, key)[k] == mean
  {
  }

  /** The group of `a` in the two-group example: the first three rates. */
  lemma FirstGroupRates<K>(o1: Obs, o2: Obs, o3: Obs, o4: Obs, key: Obs -> K, a: K, b: K)
    requires key(o1) == key(o2) == key(o3) == a && key(o4) == b && a != b
    requires o1.rate == 0.5 && o2.rate == 1.0 && o3.rate == 1.5
    ensures RatesWithKey([o1, o2, o3, o4], key, a) == [0.5, 1.0, 1.5]
  {
    RatesOfFour(o1, o2, o3, o4, key, a);
  }

  /** The group of `b` in the two-group example: the last rate alone. */
  lemma SecondGroupRates<K>(o1: Obs, o2: Obs, o3: Obs, o4: Obs, key: Obs -> K, a: K, b: K)
    requires key(o1) == key(o2) == key(o3) == a && key(o4) == b && a != b
    requires o4.rate == 2.0
    ensures RatesWithKey([o1, o2, o3, o4], key, b) == [2.0]
  {
    RatesOfFour(o1, o2, o3, o4, key, b);
  }

  /**
   * Three observations with rates 0.5, 1.0 and 1.5 sharing one key and a
   * fourth with rate 2.0 under another key average to 1.0 and 2.0.
   */
  lemma TwoGroupsExample<K>(o1: Obs, o2: Obs, o3: Obs, o4: Obs, key: Obs -> K, a: K, b: K)
    requires key(o1) == key(o2) == key(o3) == a && key(o4) == b && a != b
    requires o1.rate == 0.5 && o2.rate == 1.0 && o3.rate == 1.5 && o4.rate == 2.0
    ensures GroupMeans([o1, o2, o3, o4], key) == map[a := 1.0, b := 2.0]
  {
    var obs := [o1, o2, o3, o4];
    RatesOfFour(o1, o2, o3, o4, key, a);
    assert KeysOf(obs, key) == {a, b};
    FirstGroupRates(o1, o2, o3, o4, key, a, b);
    SecondGroupRates(o1, o2, o3, o4, key, a, b);
    SumThree(0.5, 1.0, 1.5);
    MeanOfGroup(obs, key, a, [0.5, 1.0, 1.5], 1.0);
    assert Sum([2.0]) == 2.0 by {
      assert [2.0][..0] == [];
    }
    MeanOfGroup(obs, key, b, [2.0], 2.0);
    MapOfTwo(GroupMeans(obs, key), a, b, 1.0, 2.0);
  }

  /** Four observations sharing one key, rates 0.5, 1.0, 1.5 and 2.0, average to 1.25. */
  lemma OneGroupExample<K>(o1: Obs, o2: Obs, o3: Obs, o4: Obs, key: Obs -> K, a: K)
    requires key(o1) == key(o2) == key(o3) == key(o4) == a
    requires o1.rate == 0.5 && o2.rate == 1.0 && o3.rate == 1.5 && o4.rate == 2.0
    ensures GroupMeans([o1, o2, o3, o4], key) == map[a := 1.25]
  {
    RatesOfFour(o1, o2, o3, o4, key, a);
    var xs := RatesWithKey([o1, o2, o3, o4], key, a);
    assert xs == [0.5, 1.0, 1.5, 2.0];
    assert xs[..3] == [0.5, 1.0, 1.5];
    SumThree(0.5, 1.0, 1.5);
  }

  /**
   * Three January 2018 rates, 0.5, 1.0 and 1.5, and one February rate, 2.0,
   * average to 1.0 for January and 2.0 for February, and to 1.25 for the year.
   */
  lemma AveragesExample(jan1: Obs, jan2: Obs, jan3: Obs, feb: Obs)
    requires jan1.time.year == jan2.time.year == jan3.time.year == feb.time.year == 2018
    requires jan1.time.month == jan2.time.month == jan3.time.month == 1 && feb.time.month == 2
    requires jan1.rate == 0.5 && jan2.rate == 1.0 && jan3.rate == 1.5 && feb.rate == 2.0
    ensures GroupMeans([jan1, jan2, jan3, feb], MonthKey) == map["2018_JANUARY" := 1.0, "2018_FEBRUARY" := 2.0]
    ensures GroupMeans([jan1, jan2, jan3, feb], YearKey) == map[2018 := 1.25]
  {
    MonthKeyExample(jan1);
    MonthKeyExample(jan2);
    MonthKeyExample(jan3);
    MonthKeyExample(feb);
    assert "2018_JANUARY"[5] != "2018_FEBRUARY"[5];
    TwoGroupsExample(jan1, jan2, jan3, feb, MonthKey, "2018_JANUARY", "2018_FEBRUARY");
    OneGroupExample(jan1, jan2, jan3, feb, YearKey, 2018);
  }
}
