/**
 * Counting how often each value occurs in a sequence and picking the values
 * that occur most often: the reference definitions against which the program's
 * dictionary-based loop is checked.
 */
module Frequency {
  import opened Seqs

  function Count<T(==)>(s: seq<T>, x: T): nat {
    multiset(s)[x]
  }

  /** The distinct values of `s`, each where it first occurs: the key order of a
      dict filled by one pass over `s`. */
  function Distinct<T(==,!new)>(s: seq<T>): (r: seq<T>)
    ensures NoDuplicates(r)
  {
    if |s| == 0 then []
    else
      var d := Distinct(s[..|s| - 1]);
      var x := s[|s| - 1];
      if x in d then d else d + [x]
  }

  /** `Distinct` keeps every value of `s` and adds none. */
  lemma {:induction false} DistinctHasSameElements<T(!new)>(s: seq<T>)
    ensures forall x :: x in Distinct(s) <==> x in s
  {
    if |s| > 0 {
      var p := s[..|s| - 1];
      DistinctHasSameElements(p);
      assert s == p + [s[|s| - 1]];
    }
  }

  /** Every element of `r` occurs in `s`, and `r` lists them in the order of their
      first occurrences in `s`. */
  predicate FirstOccurrenceOrder<T(==,!new)>(r: seq<T>, s: seq<T>) {
    && (forall k :: 0 <= k < |r| ==> r[k] in s)
    && (forall i, j :: 0 <= i < j < |r| ==> IndexOf(s, r[i]) < IndexOf(s, r[j]))
  }

  lemma OrderedHasNoDuplicates<T(!new)>(r: seq<T>, s: seq<T>)
    requires FirstOccurrenceOrder(r, s)
    ensures NoDuplicates(r)
  {
  }

  lemma {:induction false} DistinctInFirstOccurrenceOrder<T(!new)>(s: seq<T>)
    ensures FirstOccurrenceOrder(Distinct(s), s)
  {
    if |s| > 0 {
      var p, x := s[..|s| - 1], s[|s| - 1];
      assert s == p + [x];
      var d := Distinct(p);
      DistinctInFirstOccurrenceOrder(p);
      DistinctHasSameElements(p);
      forall y | y in p ensures IndexOf(s, y) == IndexOf(p, y) && IndexOf(p, y) < |p| {
        IndexOfSnoc(p, x, y);
      }
      if x !in d {
        IndexOfUnique(s, x, |p|);
        assert forall k :: 0 <= k < |d| ==> d[k] in p;
      }
    }
  }

  /** The frequency table `freq` of the program, filled one value of `s` at a
      time: a new key gets count 1, a known key has its count raised by one. */
  function Tally<T(==,!new)>(s: seq<T>): (m: map<T, nat>)
  {
    if |s| == 0 then map[]
    else
      var m := Tally(s[..|s| - 1]);
      var x := s[|s| - 1];
      if x in m then m[x := m[x] + 1] else m[x := 1]
  }

  /** The keys of the table are exactly the values of `s`. */
  lemma {:induction false} TallyKeys<T(!new)>(s: seq<T>)
    ensures forall x :: x in Tally(s) <==> x in s
  {
    if |s| > 0 {
      var p, y := s[..|s| - 1], s[|s| - 1];
      TallyKeys(p);
      assert s == p + [y];
    }
  }

  /** The table maps exactly the values of `s`, each to its number of occurrences. */
  lemma {:induction false} TallyCounts<T(!new)>(s: seq<T>)
    ensures forall x :: x in Tally(s) <==> x in s
    ensures forall x :: x in Tally(s) ==> Tally(s)[x] == Count(s, x) && Tally(s)[x] >= 1
  {
    TallyKeys(s);
    if |s| > 0 {
      var p, y := s[..|s| - 1], s[|s| - 1];
      TallyCounts(p);
      assert s == p + [y];
      assert multiset(s) == multiset(p) + multiset{y};
    }
  }

  /** Every key in the key order has its number of occurrences in the table. */
  lemma KeyOrderInTally<T(!new)>(s: seq<T>, k: nat)
    requires k < |Distinct(s)|
    ensures Distinct(s)[k] in Tally(s) && Tally(s)[Distinct(s)[k]] == Count(s, Distinct(s)[k])
  {
    DistinctHasSameElements(s);
    TallyCounts(s);
    assert Distinct(s)[k] in Distinct(s);
  }

  /** One more occurrence of `x`: a new key with count 1, or its count raised by one. */
  lemma TallySnoc<T(!new)>(p: seq<T>, x: T)
    ensures var m := Tally(p); Tally(p + [x]) == if x in m then m[x := m[x] + 1] else m[x := 1]
    ensures x in Tally(p) <==> x in p
  {
    var s := p + [x];
    assert s[..|s| - 1] == p && s[|s| - 1] == x;
    TallyKeys(p);
  }

  /** One more occurrence of `x` adds it at the end of the key order when it is new. */
  lemma DistinctSnoc<T(!new)>(p: seq<T>, x: T)
    ensures Distinct(p + [x]) == if x in p then Distinct(p) else Distinct(p) + [x]
  {
    assert (p + [x])[..|p|] == p;
    DistinctHasSameElements(p);
  }

  /** One step of filling a dict from `p` with `x`: a known key has its count
      raised by one, a new key is added at the end with count 1. */
  lemma TallyStep<T(!new)>(p: seq<T>, x: T, m: map<T, nat>, keys: seq<T>)
    requires m == Tally(p) && keys == Distinct(p)
    ensures x in m ==> Tally(p + [x]) == m[x := m[x] + 1] && Distinct(p + [x]) == keys
    ensures x !in m ==> Tally(p + [x]) == m[x := 1] && Distinct(p + [x]) == keys + [x]
  {
    TallySnoc(p, x);
    DistinctSnoc(p, x);
  }

  /** The sum of `m` over `keys`, a key outside `m` counting 0. */
  function SumOver<T(==,!new)>(keys: seq<T>, m: map<T, nat>): nat
  {
    if |keys| == 0 then 0
    else
      var last := keys[|keys| - 1];
      SumOver(keys[..|keys| - 1], m) + if last in m then m[last] else 0
  }

  lemma {:induction false} SumOverBump<T(!new)>(keys: seq<T>, m: map<T, nat>, x: T)
    requires NoDuplicates(keys) && x in m
    ensures SumOver(keys, m[x := m[x] + 1]) == SumOver(keys, m) + (if x in keys then 1 else 0)
  {
    if |keys| > 0 {
      var init := keys[..|keys| - 1];
      assert x in keys <==> x in init || x == keys[|keys| - 1];
      assert keys[|keys| - 1] !in init;
      SumOverBump(init, m, x);
    }
  }

  lemma {:induction false} SumOverUntouched<T(!new)>(keys: seq<T>, m: map<T, nat>, x: T, v: nat)
    requires x !in keys
    ensures SumOver(keys, m[x := v]) == SumOver(keys, m)
  {
    if |keys| > 0 {
      SumOverUntouched(keys[..|keys| - 1], m, x, v);
    }
  }

  /** The counts of the frequency table add up to the length of the input. */
  lemma {:induction false} TallySum<T(!new)>(s: seq<T>)
    ensures SumOver(Distinct(s), Tally(s)) == |s|
  {
    DistinctHasSameElements(s);
    if |s| > 0 {
      var p, x := s[..|s| - 1], s[|s| - 1];
      assert s == p + [x];
      TallySum(p);
      TallySumSnoc(p, x);
    }
  }

  /** One more occurrence adds one to the sum of the table. */
  lemma TallySumSnoc<T(!new)>(p: seq<T>, x: T)
    ensures SumOver(Distinct(p + [x]), Tally(p + [x])) == SumOver(Distinct(p), Tally(p)) + 1
  {
    if x in p {
      TallySumKnownKey(p, x);
    } else {
      TallySumNewKey(p, x);
    }
  }

  lemma TallySumKnownKey<T(!new)>(p: seq<T>, x: T)
    requires x in p
    ensures SumOver(Distinct(p + [x]), Tally(p + [x])) == SumOver(Distinct(p), Tally(p)) + 1
  {
    var d, m := Distinct(p), Tally(p);
    DistinctHasSameElements(p);
    assert x in d;
    TallySnoc(p, x);
    assert Tally(p + [x]) == m[x := m[x] + 1];
    DistinctSnoc(p, x);
    assert Distinct(p + [x]) == d;
    SumOverBump(d, m, x);
  }

  lemma TallySumNewKey<T(!new)>(p: seq<T>, x: T)
    requires x !in p
    ensures SumOver(Distinct(p + [x]), Tally(p + [x])) == SumOver(Distinct(p), Tally(p)) + 1
  {
    TallySnoc(p, x);
    DistinctSnoc(p, x);
    DistinctHasSameElements(p);
    var d, m := Distinct(p), Tally(p);
    var d', m' := d + [x], m[x := 1];
    assert d'[..|d|] == d && d'[|d|] == x;
    assert SumOver(d', m') == SumOver(d, m') + 1;
    SumOverUntouched(d, m, x, 1);
  }

  /** `max` of the counts of `keys`; 0 when there are none. */
  function MaxCount<T(==,!new)>(keys: seq<T>, s: seq<T>): nat
  {
    if |keys| == 0 then 0
    else
      var rest := MaxCount(keys[..|keys| - 1], s);
      var c := Count(s, keys[|keys| - 1]);
      if c > rest then c else rest
  }

  /** `MaxCount` bounds every key's count and is attained by one of them. */
  lemma {:induction false} MaxCountIsMaximum<T(!new)>(keys: seq<T>, s: seq<T>)
    ensures forall k :: k in keys ==> Count(s, k) <= MaxCount(keys, s)
    ensures |keys| > 0 ==> exists k :: k in keys && Count(s, k) == MaxCount(keys, s)
    ensures |keys| == 0 ==> MaxCount(keys, s) == 0
  {
    if |keys| > 0 {
      var init := keys[..|keys| - 1];
      var last := keys[|keys| - 1];
      MaxCountIsMaximum(init, s);
      assert keys == init + [last];
      assert forall k :: k in keys ==> k in init || k == last;
      if |init| > 0 {
        var w :| w in init && Count(s, w) == MaxCount(init, s);
        assert w in keys;
      }
      assert last in keys;
    }
  }

  /** The highest number of occurrences of any value of `s`. */
  function Highest<T(==,!new)>(s: seq<T>): nat
  {
    MaxCount(Distinct(s), s)
  }

  /** `Highest` bounds the count of every value of `s` and is the count of one. */
  lemma HighestIsMaximum<T(!new)>(s: seq<T>)
    ensures forall x :: x in s ==> Count(s, x) <= Highest(s)
    ensures |s| > 0 ==> exists x :: x in s && Count(s, x) == Highest(s)
  {
    DistinctHasSameElements(s);
    MaxCountIsMaximum(Distinct(s), s);
  }

  /** The `keys` that occur exactly `n` times in `s`, in their order in `keys`. */
  function WithCount<T(==,!new)>(keys: seq<T>, s: seq<T>, n: nat): seq<T>
  {
    if |keys| == 0 then []
    else
      var init, last := keys[..|keys| - 1], keys[|keys| - 1];
      WithCount(init, s, n) + (if Count(s, last) == n then [last] else [])
  }

  /** The selection holds exactly the keys that occur `n` times. */
  lemma {:induction false} WithCountSelects<T(!new)>(keys: seq<T>, s: seq<T>, n: nat)
    ensures forall x :: x in WithCount(keys, s, n) <==> x in keys && Count(s, x) == n
  {
    if |keys| > 0 {
      var init, last := keys[..|keys| - 1], keys[|keys| - 1];
      assert forall k :: k in keys <==> k in init || k == last;
      WithCountSelects(init, s, n);
    }
  }

  lemma {:induction false} WithCountKeepsOrder<T(!new)>(keys: seq<T>, s: seq<T>, n: nat)
    requires FirstOccurrenceOrder(keys, s)
    ensures FirstOccurrenceOrder(WithCount(keys, s, n), s)
  {
    if |keys| > 0 {
      var init, last := keys[..|keys| - 1], keys[|keys| - 1];
      assert FirstOccurrenceOrder(init, s);
      WithCountKeepsOrder(init, s, n);
      WithCountSelects(init, s, n);
      var w := WithCount(init, s, n);
      forall k | 0 <= k < |w| ensures IndexOf(s, w[k]) < IndexOf(s, last) {
        assert w[k] in init;
        var a :| 0 <= a < |init| && init[a] == w[k];
        assert keys[a] == w[k];
      }
    }
  }

  /** `x` occurs in `s` at least as often as any other value. */
  predicate IsMostFrequent<T(==,!new)>(s: seq<T>, x: T) {
    x in s && forall y :: y in s ==> Count(s, y) <= Count(s, x)
  }

  /** The values of `s` that occur as often as any other, each once, in the order
      of their first occurrences; nothing for an empty `s`. */
  function MostActive<T(==,!new)>(s: seq<T>): seq<T>
  {
    if |s| == 0 then [] else WithCount(Distinct(s), s, Highest(s))
  }

  /** What the reduction promises: output exactly when there is input, and
      every value with the highest count, and only those. */
  lemma MostActiveIsArgmax<T(!new)>(s: seq<T>)
    ensures MostActive(s) == [] <==> |s| == 0
    ensures forall x :: x in MostActive(s) <==> IsMostFrequent(s, x)
  {
    DistinctHasSameElements(s);
    HighestIsMaximum(s);
    WithCountSelects(Distinct(s), s, Highest(s));
    if |s| > 0 {
      var x :| x in s && Count(s, x) == Highest(s);
      assert x in MostActive(s);
    }
  }

  /** The values are reported once each, in the order of their first occurrences. */
  lemma MostActiveInFirstOccurrenceOrder<T(!new)>(s: seq<T>)
    ensures NoDuplicates(MostActive(s))
    ensures FirstOccurrenceOrder(MostActive(s), s)
  {
    DistinctInFirstOccurrenceOrder(s);
    WithCountKeepsOrder(Distinct(s), s, Highest(s));
    OrderedHasNoDuplicates(MostActive(s), s);
  }

  /** Two different values together occur at most `|s|` times. */
  lemma {:induction false} TwoCountsFit<T>(s: seq<T>, a: T, b: T)
    requires a != b
    ensures Count(s, a) + Count(s, b) <= |s|
  {
    if |s| > 0 {
      var p, x := s[..|s| - 1], s[|s| - 1];
      TwoCountsFit(p, a, b);
      assert s == p + [x];
      assert multiset(s) == multiset(p) + multiset{x};
    }
  }

  /** A value that fills more than half of `s` is the only one reported. */
  lemma StrictMajorityIsTheAnswer<T(!new)>(s: seq<T>, c: T)
    requires 2 * Count(s, c) > |s|
    ensures MostActive(s) == [c]
  {
    MostActiveIsArgmax(s);
    MostActiveInFirstOccurrenceOrder(s);
    var r := MostActive(s);
    assert c in multiset(s);
    forall y | y in s
      ensures Count(s, y) <= Count(s, c)
    {
      if y != c {
        TwoCountsFit(s, c, y);
      }
    }
    assert IsMostFrequent(s, c);
    forall x | x in r
      ensures x == c
    {
      assert IsMostFrequent(s, x);
      if x != c {
        TwoCountsFit(s, c, x);
      }
    }
    assert c in r;
    OnlyValue(r, c);
  }

  /** A sequence without duplicates whose only value is `c` is `[c]`. */
  lemma OnlyValue<T>(r: seq<T>, c: T)
    requires NoDuplicates(r) && c in r
    requires forall x :: x in r ==> x == c
    ensures r == [c]
  {
    assert r[0] in r && r[|r| - 1] in r;
    assert |r| == 1;
  }
}
