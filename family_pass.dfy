/** The main pass of the repeat finder. The k-mers are visited by
    non-increasing count; a k-mer already attributed to a family is skipped;
    any other k-mer whose minimal period is shorter than 19 seeds the family
    of its canonical repeat unit: every expected k-mer of that family is
    looked up (0 when absent), every expected k-mer that is a key has its
    tracker raised once per occurrence, and the family is kept and reported
    when fewer than `maxzeroes` of its expected k-mers have count 0. */
module FamilyPass {
  import opened Dna
  import opened RepeatUnits
  import opened ExpectedKmers

  /** The k-mer length of the pass, fixed in the source. */
  const K: nat := 19

  /** `cnts[kk]`, or 0 where the lookup raises KeyError. */
  function Lookup(cnts: map<string, int>, kk: string): int
  {
    if kk in cnts then cnts[kk] else 0
  }

  /** A row of the report table: repeat unit, total count and number of
      zero-count expected k-mers (the coefficient of variation is not
      modelled). */
  datatype Row = Row(rep: string, total: int, zeroes: nat)

  /** The pass's mutable state: the tracker, the kept families (`out`) and
      the rows written to the report. */
  datatype PassState = PassState(
    tracker: map<string, nat>,
    out: map<string, map<string, int>>,
    rows: seq<Row>)

  /** The k-mer counts: every key a non-empty DNA string. */
  predicate ValidCounts(cnts: map<string, int>)
  {
    forall x :: x in cnts ==> |x| > 0 && IsDna(x)
  }

  /** `order` is `sorted(cnts, key=cnts.get, reverse=True)` up to the order
      of equal counts: the keys, each listed (as many entries as keys, so
      none twice), counts non-increasing from each entry to the next. */
  predicate SortedByCount(cnts: map<string, int>, order: seq<string>)
  {
    && |order| == |cnts|
    && (forall i :: 0 <= i < |order| ==> order[i] in cnts)
    && (forall x :: x in cnts ==> x in order)
    && (forall i :: 0 < i < |order| ==> CountDropsAt(cnts, order, i))
  }

  /** The count of entry i is at most the count of entry i - 1. */
  predicate CountDropsAt(cnts: map<string, int>, order: seq<string>, i: nat)
    requires 0 < i < |order| && order[i - 1] in cnts && order[i] in cnts
  {
    cnts[order[i - 1]] >= cnts[order[i]]
  }

  // ---------------------------------------------------------------------
  // One family

  /** The keys of a dict filled from `xs` in order: each string at its
      first occurrence. */
  function Distinct(xs: seq<string>): (d: seq<string>)
    ensures forall x :: x in d <==> x in xs
    ensures forall i, j :: 0 <= i < j < |d| ==> d[i] != d[j]
    ensures |d| <= |xs|
  {
    if |xs| == 0 then []
    else
      var d := Distinct(xs[..|xs| - 1]);
      assert xs == xs[..|xs| - 1] + [xs[|xs| - 1]];
      if xs[|xs| - 1] in d then d else d + [xs[|xs| - 1]]
  }

  /** `outrec` once every expected k-mer has been looked up. */
  function Observed(cnts: map<string, int>, expected: seq<string>): map<string, int>
  {
    map x | x in expected :: Lookup(cnts, x)
  }

  /** The tracker once `tracker[kk] += 1` has run for every expected k-mer
      kk that is a key. */
  function Bumped(tracker: map<string, nat>, expected: seq<string>): map<string, nat>
  {
    map x | x in tracker :: tracker[x] + multiset(expected)[x]
  }

  /** `list(outrec.values()).count(0)`, the values taken in key order. */
  function ZeroCount(m: map<string, int>, keys: seq<string>): (z: nat)
    requires forall x :: x in keys ==> x in m
    ensures z <= |keys|
  {
    if |keys| == 0 then 0
    else ZeroCount(m, keys[..|keys| - 1]) + (if m[keys[|keys| - 1]] == 0 then 1 else 0)
  }

  /** `sum(outrec.values())`, the values taken in key order. */
  function Total(m: map<string, int>, keys: seq<string>): int
    requires forall x :: x in keys ==> x in m
  {
    if |keys| == 0 then 0
    else Total(m, keys[..|keys| - 1]) + m[keys[|keys| - 1]]
  }

  /** Over a list of distinct keys, ZeroCount is the number of keys whose
      value is 0. */
  lemma {:induction false} ZeroCountIsZeroKeys(m: map<string, int>, keys: seq<string>)
    requires forall x :: x in keys ==> x in m
    requires forall i, j :: 0 <= i < j < |keys| ==> keys[i] != keys[j]
    ensures ZeroCount(m, keys) == |set x | x in keys && m[x] == 0|
  {
    if |keys| > 0 {
      var ks, y := keys[..|keys| - 1], keys[|keys| - 1];
      ZeroCountIsZeroKeys(m, ks);
      assert keys == ks + [y];
      assert y !in ks by {
        assert forall i :: 0 <= i < |ks| ==> ks[i] == keys[i];
      }
      ZeroSetSnoc(m, ks, y);
    }
  }

  lemma ZeroSetSnoc(m: map<string, int>, ks: seq<string>, y: string)
    requires forall x :: x in ks + [y] ==> x in m
    requires y !in ks
    ensures |set x | x in ks + [y] && m[x] == 0|
         == |set x | x in ks && m[x] == 0| + (if m[y] == 0 then 1 else 0)
  {
    var before := set x | x in ks && m[x] == 0;
    var after := set x | x in ks + [y] && m[x] == 0;
    if m[y] == 0 {
      assert after == before + {y};
    } else {
      assert after == before;
    }
  }

  /** The sum of the counts (0 when absent) of a set of k-mers, in no
      particular order. */
  ghost function LookupSum(cnts: map<string, int>, s: set<string>): int
    decreases s
  {
    if s == {} then 0
    else
      var x :| x in s;
      Lookup(cnts, x) + LookupSum(cnts, s - {x})
  }

  /** The sum does not depend on which k-mer is taken out first. */
  lemma {:induction false} LookupSumRemove(cnts: map<string, int>, s: set<string>, y: string)
    requires y in s
    ensures LookupSum(cnts, s) == Lookup(cnts, y) + LookupSum(cnts, s - {y})
    decreases s
  {
    var x :| x in s && LookupSum(cnts, s) == Lookup(cnts, x) + LookupSum(cnts, s - {x});
    if x != y {
      var sx, sy := s - {x}, s - {y};
      LookupSumRemove(cnts, sx, y);
      LookupSumRemove(cnts, sy, x);
      assert sx - {y} == sy - {x};
    }
  }

  /** Over distinct keys that hold their lookups, the in-order sum is the
      sum of the counts of the key set. */
  lemma {:induction false} TotalIsLookupSum(cnts: map<string, int>, m: map<string, int>, keys: seq<string>)
    requires forall x :: x in keys ==> x in m && m[x] == Lookup(cnts, x)
    requires forall i, j :: 0 <= i < j < |keys| ==> keys[i] != keys[j]
    ensures Total(m, keys) == LookupSum(cnts, set x | x in keys)
  {
    if |keys| > 0 {
      var ks, y := keys[..|keys| - 1], keys[|keys| - 1];
      TotalIsLookupSum(cnts, m, ks);
      assert keys == ks + [y];
      assert y !in ks by {
        assert forall i :: 0 <= i < |ks| ==> ks[i] == keys[i];
      }
      var all := set x | x in keys;
      LookupSumRemove(cnts, all, y);
      assert all - {y} == set x | x in ks;
    }
  }

  /** The family of a canonical repeat unit: its expected canonical k-mers. */
  function Family(rep: string): (e: seq<string>)
    requires 0 < |rep| && IsDna(rep)
    ensures |e| == |rep|
    ensures forall i :: 0 <= i < |e| ==> |e[i]| == K && IsDna(e[i]) && CanonicalKmer(e[i]) == e[i]
  {
    ExpectedWindows(rep, K, true)
  }

  /** The number of distinct expected k-mers of the family that have count
      0 (absent, or present with count 0). */
  function FamilyZeroes(cnts: map<string, int>, rep: string): nat
    requires 0 < |rep| && IsDna(rep)
  {
    ZeroCount(Observed(cnts, Family(rep)), Distinct(Family(rep)))
  }

  lemma FamilyZeroesCountsZeroKmers(cnts: map<string, int>, rep: string)
    requires 0 < |rep| && IsDna(rep)
    ensures FamilyZeroes(cnts, rep) == |set x | x in Family(rep) && Lookup(cnts, x) == 0|
  {
    ObservedZeroes(cnts, Family(rep));
  }

  lemma ObservedZeroes(cnts: map<string, int>, e: seq<string>)
    ensures ZeroCount(Observed(cnts, e), Distinct(e)) == |set x | x in e && Lookup(cnts, x) == 0|
  {
    var m, d := Observed(cnts, e), Distinct(e);
    ZeroCountIsZeroKeys(m, d);
    assert (set x | x in d && m[x] == 0) == (set x | x in e && Lookup(cnts, x) == 0);
  }

  lemma BumpedSnoc(tracker: map<string, nat>, xs: seq<string>, kk: string)
    ensures kk in tracker ==>
      Bumped(tracker, xs + [kk]) == Bumped(tracker, xs)[kk := Bumped(tracker, xs)[kk] + 1]
    ensures kk !in tracker ==> Bumped(tracker, xs + [kk]) == Bumped(tracker, xs)
  {
    assert multiset(xs + [kk]) == multiset(xs) + multiset{kk};
  }

  lemma ObservedSnoc(cnts: map<string, int>, xs: seq<string>, kk: string)
    ensures Observed(cnts, xs + [kk]) == Observed(cnts, xs)[kk := Lookup(cnts, kk)]
  {
    assert forall x :: x in xs + [kk] <==> x in xs || x == kk;
  }

  lemma DistinctSnoc(xs: seq<string>, kk: string)
    ensures Distinct(xs + [kk]) == if kk in xs then Distinct(xs) else Distinct(xs) + [kk]
  {
    assert (xs + [kk])[..|xs|] == xs;
  }

  /** The `for kk in expected_kmers` loop for one family: look every
      expected k-mer up and raise the tracker of those that are keys. */
  method TallyFamily(cnts: map<string, int>, tracker0: map<string, nat>, expected: seq<string>)
    returns (tracker: map<string, nat>, outrec: map<string, int>, keys: seq<string>)
    requires tracker0.Keys == cnts.Keys
    ensures tracker == Bumped(tracker0, expected)
    ensures outrec == Observed(cnts, expected)
    ensures keys == Distinct(expected)
  {
    tracker, outrec, keys := tracker0, map[], [];
    for j := 0 to |expected|
      invariant tracker == Bumped(tracker0, expected[..j])
      invariant outrec == Observed(cnts, expected[..j])
      invariant keys == Distinct(expected[..j])
    {
      var kk := expected[j];
      assert expected[..j + 1] == expected[..j] + [kk];
      BumpedSnoc(tracker0, expected[..j], kk);
      ObservedSnoc(cnts, expected[..j], kk);
      DistinctSnoc(expected[..j], kk);
      if kk !in outrec {
        keys := keys + [kk];
      }
      if kk in cnts {
        outrec := outrec[kk := cnts[kk]];
        tracker := tracker[kk := tracker[kk] + 1];
      } else {
        outrec := outrec[kk := 0];
      }
    }
    assert expected[..|expected|] == expected;
  }

  // ---------------------------------------------------------------------
  // The pass

  /** The tracker starts at 0 for every key; nothing is kept or written. */
  function Init(cnts: map<string, int>): PassState
  {
    PassState(map x | x in cnts :: 0, map[], [])
  }

  /** The canonical unit of a seed k-mer whose period is shorter than K. */
  function SeedRep(kmer: string): (rep: string)
    requires |kmer| > 0 && IsDna(kmer) && RepeatFrame(kmer).0 < K
    ensures 0 < |rep| < K && IsDna(rep)
  {
    CanonicalRepeat(RepeatFrame(kmer).1)
  }

  /** Whether the family of `rep` is kept: fewer than `maxzeroes` of its
      expected k-mers have count 0. */
  function Keeps(cnts: map<string, int>, maxzeroes: int, rep: string): bool
    requires 0 < |rep| && IsDna(rep)
  {
    FamilyZeroes(cnts, rep) < maxzeroes
  }

  /** The report row of the family of `rep`. */
  function FamilyRow(cnts: map<string, int>, rep: string): (row: Row)
    requires 0 < |rep| && IsDna(rep)
    ensures row.rep == rep && row.zeroes == FamilyZeroes(cnts, rep)
  {
    var outrec := Observed(cnts, Family(rep));
    Row(rep, Total(outrec, Distinct(Family(rep))), FamilyZeroes(cnts, rep))
  }

  /** The report row of a family: its unit, the sum of the counts of its
      distinct members and the number of them with count 0, whatever the
      order of the members. */
  lemma FamilyRowCounts(cnts: map<string, int>, rep: string)
    requires 0 < |rep| && IsDna(rep)
    ensures FamilyRow(cnts, rep) == Row(rep,
      LookupSum(cnts, set x | x in Family(rep)),
      |set x | x in Family(rep) && Lookup(cnts, x) == 0|)
  {
    var e := Family(rep);
    FamilyZeroesCountsZeroKmers(cnts, rep);
    TotalIsLookupSum(cnts, Observed(cnts, e), Distinct(e));
    assert (set x | x in Distinct(e)) == (set x | x in e);
  }

  /** The main loop's handling of the family of `rep`: tally it, then keep
      and report it when fewer than `maxzeroes` of its expected k-mers have
      count 0. */
  function Absorb(cnts: map<string, int>, maxzeroes: int, st: PassState, rep: string): (r: PassState)
    requires 0 < |rep| && IsDna(rep) && st.tracker.Keys == cnts.Keys
    ensures r.tracker.Keys == cnts.Keys
  {
    var keep := Keeps(cnts, maxzeroes, rep);
    PassState(
      Bumped(st.tracker, Family(rep)),
      if keep then st.out[rep := Observed(cnts, Family(rep))] else st.out,
      if keep then st.rows + [FamilyRow(cnts, rep)] else st.rows)
  }

  /** Whether k-mer `kmer` seeds a family: it is unmarked and its period is
      shorter than K. */
  function Seeds(st: PassState, kmer: string): bool
    requires kmer in st.tracker
  {
    st.tracker[kmer] == 0 && RepeatFrame(kmer).0 < K
  }

  /** One iteration of the `for kmer in cnts_sort` loop, for k-mer `kmer`: a
      marked k-mer or one without a short period changes nothing. */
  function Step(cnts: map<string, int>, maxzeroes: int, st: PassState, kmer: string): (r: PassState)
    requires ValidCounts(cnts) && kmer in cnts && st.tracker.Keys == cnts.Keys
    ensures r.tracker.Keys == cnts.Keys
  {
    if Seeds(st, kmer) then Absorb(cnts, maxzeroes, st, SeedRep(kmer)) else st
  }

  /** The state reached from `st` by visiting the k-mers of `rest` in order. */
  function PassFrom(cnts: map<string, int>, maxzeroes: int, st: PassState, rest: seq<string>): (r: PassState)
    requires ValidCounts(cnts) && st.tracker.Keys == cnts.Keys
    requires forall i :: 0 <= i < |rest| ==> rest[i] in cnts
    ensures r.tracker.Keys == cnts.Keys
    decreases |rest|
  {
    if |rest| == 0 then st
    else PassFrom(cnts, maxzeroes, Step(cnts, maxzeroes, st, rest[0]), rest[1..])
  }

  /** The seeding branch of the main loop: the family of canonical unit
      `rep` is tallied into the tracker, and kept and reported when it has
      fewer than `maxzeroes` zero-count expected k-mers. */
  method VisitFamily(cnts: map<string, int>, maxzeroes: int, st: PassState, rep: string)
    returns (next: PassState)
    requires 0 < |rep| < K && IsDna(rep) && st.tracker.Keys == cnts.Keys
    ensures next == Absorb(cnts, maxzeroes, st, rep)
  {
    var res := GetExpectedKmers(rep, K, true);
    var expected := res.kmers;
    var tracker, outrec, keys := TallyFamily(cnts, st.tracker, expected);
    var zeroes := ZeroCount(outrec, keys);
    var out, rows := st.out, st.rows;
    if zeroes < maxzeroes {
      out := out[rep := outrec];
      rows := rows + [Row(rep, Total(outrec, keys), zeroes)];
    }
    next := PassState(tracker, out, rows);
  }

  /** The body of the `for kmer in cnts_sort` loop for k-mer `kmer`. */
  method Visit(cnts: map<string, int>, maxzeroes: int, st: PassState, kmer: string)
    returns (next: PassState)
    requires ValidCounts(cnts) && kmer in cnts && st.tracker.Keys == cnts.Keys
    ensures next == Step(cnts, maxzeroes, st, kmer)
  {
    next := st;
    if st.tracker[kmer] == 0 {
      var replen, unit := RepeatFrame(kmer).0, RepeatFrame(kmer).1;
      if replen < K {
        var rep := CanonicalRepeat(unit);
        next := VisitFamily(cnts, maxzeroes, st, rep);
      }
    }
  }

  /** The main pass of the repeat finder, without the file output: returns
      the kept families, the report rows and the final tracker. */
  method FindRepeats(cnts: map<string, int>, order: seq<string>, maxzeroes: int)
    returns (out: map<string, map<string, int>>, rows: seq<Row>, tracker: map<string, nat>)
    requires ValidCounts(cnts) && SortedByCount(cnts, order)
    ensures PassState(tracker, out, rows) == PassFrom(cnts, maxzeroes, Init(cnts), order)
    ensures tracker.Keys == cnts.Keys
  {
    tracker := map x | x in order :: 0;
    SortedTrackerIsInit(cnts, order);
    out := map[];
    rows := [];
    assert order[0..] == order;
    for i := 0 to |order|
      invariant tracker.Keys == cnts.Keys
      invariant PassFrom(cnts, maxzeroes, PassState(tracker, out, rows), order[i..])
             == PassFrom(cnts, maxzeroes, Init(cnts), order)
    {
      var st := PassState(tracker, out, rows);
      var next := Visit(cnts, maxzeroes, st, order[i]);
      PassFromSuffix(cnts, maxzeroes, st, order, i);
      tracker, out, rows := next.tracker, next.out, next.rows;
    }
    assert order[|order|..] == [];
  }

  /** `dict(zip(cnts_sort, [0] * len(cnts_sort)))` is the initial tracker. */
  lemma SortedTrackerIsInit(cnts: map<string, int>, order: seq<string>)
    requires SortedByCount(cnts, order)
    ensures (map x | x in order :: 0) == Init(cnts).tracker
  {
  }

  /** Visiting `order[i..]` is visiting `order[i]` and then `order[i + 1..]`. */
  lemma PassFromSuffix(cnts: map<string, int>, maxzeroes: int, st: PassState, order: seq<string>, i: nat)
    requires ValidCounts(cnts) && st.tracker.Keys == cnts.Keys && i < |order|
    requires forall k :: 0 <= k < |order| ==> order[k] in cnts
    ensures PassFrom(cnts, maxzeroes, st, order[i..])
         == PassFrom(cnts, maxzeroes, Step(cnts, maxzeroes, st, order[i]), order[i + 1..])
  {
    assert order[i..][0] == order[i] && order[i..][1..] == order[i + 1..];
  }

  // ---------------------------------------------------------------------
  // Properties of the pass

  /** A seed with a period shorter than K has a canonical unit shorter than
      K, so the generator's error branch (k <= len(seq)) is never taken. */
  lemma SeedUnitFits(kmer: string)
    requires |kmer| > 0 && IsDna(kmer) && RepeatFrame(kmer).0 < K
    ensures 0 < |CanonicalRepeat(RepeatFrame(kmer).1)| == RepeatFrame(kmer).0 < K
  {
  }

  /** One visit never lowers a tracker value. */
  lemma StepTrackerGrows(cnts: map<string, int>, maxzeroes: int, st: PassState, kmer: string, x: string)
    requires ValidCounts(cnts) && kmer in cnts && st.tracker.Keys == cnts.Keys && x in cnts
    ensures st.tracker[x] <= Step(cnts, maxzeroes, st, kmer).tracker[x]
  {
  }

  /** A visit to a marked k-mer changes nothing. */
  lemma StepSkipsMarked(cnts: map<string, int>, maxzeroes: int, st: PassState, kmer: string)
    requires ValidCounts(cnts) && kmer in cnts && st.tracker.Keys == cnts.Keys
    requires st.tracker[kmer] != 0
    ensures Step(cnts, maxzeroes, st, kmer) == st
  {
  }

  /** Visiting `a` and then `b` is visiting `a + b`. */
  lemma {:induction false} PassFromAppend(cnts: map<string, int>, maxzeroes: int, st: PassState, a: seq<string>, b: seq<string>)
    requires ValidCounts(cnts) && st.tracker.Keys == cnts.Keys
    requires forall i :: 0 <= i < |a| ==> a[i] in cnts
    requires forall i :: 0 <= i < |b| ==> b[i] in cnts
    ensures PassFrom(cnts, maxzeroes, st, a + b)
         == PassFrom(cnts, maxzeroes, PassFrom(cnts, maxzeroes, st, a), b)
    decreases |a|
  {
    if |a| > 0 {
      var next := Step(cnts, maxzeroes, st, a[0]);
      assert (a + b)[0] == a[0] && (a + b)[1..] == a[1..] + b;
      PassFromAppend(cnts, maxzeroes, next, a[1..], b);
    } else {
      assert a + b == b;
    }
  }

  lemma ConsAround<T>(a: seq<T>, y: T, b: seq<T>)
    ensures |a| == 0 ==> a + [y] + b == [y] + b && ([y] + b)[0] == y && ([y] + b)[1..] == b && a + b == b
    ensures |a| > 0 ==> (a + [y] + b)[0] == a[0] && (a + [y] + b)[1..] == a[1..] + [y] + b
    ensures |a| > 0 ==> (a + b)[0] == a[0] && (a + b)[1..] == a[1..] + b
  {
    if |a| == 0 {
      assert a + [y] + b == [y] + b;
    } else {
      assert (a + [y] + b)[1..] == a[1..] + [y] + b;
    }
  }

  /** Tracker values never decrease along the pass. */
  lemma {:induction false} TrackerMonotone(cnts: map<string, int>, maxzeroes: int, st: PassState, rest: seq<string>, x: string)
    requires ValidCounts(cnts) && st.tracker.Keys == cnts.Keys && x in cnts
    requires forall i :: 0 <= i < |rest| ==> rest[i] in cnts
    ensures st.tracker[x] <= PassFrom(cnts, maxzeroes, st, rest).tracker[x]
    decreases |rest|
  {
    if |rest| > 0 {
      var next := Step(cnts, maxzeroes, st, rest[0]);
      StepTrackerGrows(cnts, maxzeroes, st, rest[0], x);
      TrackerMonotone(cnts, maxzeroes, next, rest[1..], x);
    }
  }

  /** Once a k-mer is marked, every later visit to it is void: dropping it
      from the remaining order does not change the outcome. */
  lemma {:induction false} MarkedVisitIsVoid(cnts: map<string, int>, maxzeroes: int, st: PassState, a: seq<string>, y: string, b: seq<string>)
    requires ValidCounts(cnts) && st.tracker.Keys == cnts.Keys && y in cnts
    requires forall i :: 0 <= i < |a| ==> a[i] in cnts
    requires forall i :: 0 <= i < |b| ==> b[i] in cnts
    requires st.tracker[y] != 0
    ensures PassFrom(cnts, maxzeroes, st, a + [y] + b) == PassFrom(cnts, maxzeroes, st, a + b)
    decreases |a|
  {
    ConsAround(a, y, b);
    if |a| == 0 {
      StepSkipsMarked(cnts, maxzeroes, st, y);
    } else {
      var next := Step(cnts, maxzeroes, st, a[0]);
      StepTrackerGrows(cnts, maxzeroes, st, a[0], y);
      MarkedVisitIsVoid(cnts, maxzeroes, next, a[1..], y, b);
    }
  }

  /** The expected k-mer lists of the families examined while visiting
      `rest` from `st`, kept or not, in visiting order. */
  ghost function Examined(cnts: map<string, int>, maxzeroes: int, st: PassState, rest: seq<string>): seq<seq<string>>
    requires ValidCounts(cnts) && st.tracker.Keys == cnts.Keys
    requires forall i :: 0 <= i < |rest| ==> rest[i] in cnts
    decreases |rest|
  {
    if |rest| == 0 then []
    else
      var seed := if Seeds(st, rest[0]) then [Family(SeedRep(rest[0]))] else [];
      seed + Examined(cnts, maxzeroes, Step(cnts, maxzeroes, st, rest[0]), rest[1..])
  }

  /** All k-mers of the given lists, with multiplicity. */
  function Consumed(fams: seq<seq<string>>): multiset<string>
  {
    if |fams| == 0 then multiset{}
    else multiset(fams[0]) + Consumed(fams[1..])
  }

  lemma {:induction false} ConsumedAppend(xs: seq<seq<string>>, ys: seq<seq<string>>)
    ensures Consumed(xs + ys) == Consumed(xs) + Consumed(ys)
    decreases |xs|
  {
    if |xs| > 0 {
      assert (xs + ys)[0] == xs[0] && (xs + ys)[1..] == xs[1..] + ys;
      ConsumedAppend(xs[1..], ys);
    } else {
      assert xs + ys == ys;
    }
  }

  /** The tracker of a key grows by its number of occurrences in the
      expected lists of every family examined, whether the family was kept
      or not. */
  lemma {:induction false} TrackerCountsOccurrences(cnts: map<string, int>, maxzeroes: int, st: PassState, rest: seq<string>, x: string)
    requires ValidCounts(cnts) && st.tracker.Keys == cnts.Keys && x in cnts
    requires forall i :: 0 <= i < |rest| ==> rest[i] in cnts
    ensures PassFrom(cnts, maxzeroes, st, rest).tracker[x]
         == st.tracker[x] + Consumed(Examined(cnts, maxzeroes, st, rest))[x]
    decreases |rest|
  {
    if |rest| > 0 {
      var next := Step(cnts, maxzeroes, st, rest[0]);
      TrackerCountsOccurrences(cnts, maxzeroes, next, rest[1..], x);
      var seed := if Seeds(st, rest[0]) then [Family(SeedRep(rest[0]))] else [];
      ConsumedAppend(seed, Examined(cnts, maxzeroes, next, rest[1..]));
      if Seeds(st, rest[0]) {
        assert seed[1..] == [];
      }
    }
  }

  /** A family the pass keeps: a canonical unit shorter than K with fewer
      than `maxzeroes` zero-count expected k-mers. */
  ghost predicate Accepted(cnts: map<string, int>, maxzeroes: int, rep: string)
  {
    && 0 < |rep| < K && IsDna(rep)
    && CanonicalRepeat(rep) == rep
    && FamilyZeroes(cnts, rep) < maxzeroes
  }

  /** The invariant of the pass: every kept family is accepted and maps its
      expected k-mers to their counts (0 when absent); every row is the row
      of a kept family; every kept family has a row. */
  ghost predicate Sound(cnts: map<string, int>, maxzeroes: int, st: PassState)
  {
    OutSound(cnts, maxzeroes, st.out) && RowsSound(cnts, maxzeroes, st.out, st.rows) && RowsCover(st.out, st.rows)
  }

  ghost predicate OutSound(cnts: map<string, int>, maxzeroes: int, out: map<string, map<string, int>>)
  {
    forall rep :: rep in out ==> Accepted(cnts, maxzeroes, rep) && out[rep] == Observed(cnts, Family(rep))
  }

  ghost predicate RowsSound(cnts: map<string, int>, maxzeroes: int, out: map<string, map<string, int>>, rows: seq<Row>)
  {
    forall r :: r in rows ==> r.rep in out && Accepted(cnts, maxzeroes, r.rep) && r == FamilyRow(cnts, r.rep)
  }

  ghost predicate RowsCover(out: map<string, map<string, int>>, rows: seq<Row>)
  {
    forall rep :: rep in out ==> exists r :: r in rows && r.rep == rep
  }

  /** Sound holds of every state the pass reaches from a sound state. */
  lemma {:induction false} PassSound(cnts: map<string, int>, maxzeroes: int, st: PassState, rest: seq<string>)
    requires ValidCounts(cnts) && st.tracker.Keys == cnts.Keys
    requires forall i :: 0 <= i < |rest| ==> rest[i] in cnts
    requires Sound(cnts, maxzeroes, st)
    ensures Sound(cnts, maxzeroes, PassFrom(cnts, maxzeroes, st, rest))
    decreases |rest|
  {
    if |rest| > 0 {
      StepPreservesSound(cnts, maxzeroes, st, rest[0]);
      PassSound(cnts, maxzeroes, Step(cnts, maxzeroes, st, rest[0]), rest[1..]);
    }
  }

  /** What the whole pass delivers: every kept family is accepted and
      recorded with its lookups, each with its row, and every tracker value
      is the number of times the key was expected by an examined family. */
  lemma PassResult(cnts: map<string, int>, maxzeroes: int, order: seq<string>)
    requires ValidCounts(cnts) && SortedByCount(cnts, order)
    ensures var r := PassFrom(cnts, maxzeroes, Init(cnts), order);
      && Sound(cnts, maxzeroes, r)
      && forall x :: x in cnts ==> r.tracker[x] == Consumed(Examined(cnts, maxzeroes, Init(cnts), order))[x]
  {
    PassSound(cnts, maxzeroes, Init(cnts), order);
    forall x | x in cnts
      ensures PassFrom(cnts, maxzeroes, Init(cnts), order).tracker[x]
           == Consumed(Examined(cnts, maxzeroes, Init(cnts), order))[x]
    {
      TrackerCountsOccurrences(cnts, maxzeroes, Init(cnts), order, x);
    }
  }

  lemma KeepOutSound(cnts: map<string, int>, maxzeroes: int, out: map<string, map<string, int>>, rep: string)
    requires OutSound(cnts, maxzeroes, out) && Accepted(cnts, maxzeroes, rep)
    ensures OutSound(cnts, maxzeroes, out[rep := Observed(cnts, Family(rep))])
  {
    var out' := out[rep := Observed(cnts, Family(rep))];
    forall x | x in out'
      ensures Accepted(cnts, maxzeroes, x) && out'[x] == Observed(cnts, Family(x))
    {
      if x != rep {
        assert x in out && out'[x] == out[x];
      }
    }
  }

  lemma KeepRowsSound(cnts: map<string, int>, maxzeroes: int, out: map<string, map<string, int>>, rows: seq<Row>, rep: string)
    requires RowsSound(cnts, maxzeroes, out, rows) && Accepted(cnts, maxzeroes, rep)
    ensures RowsSound(cnts, maxzeroes, out[rep := Observed(cnts, Family(rep))], rows + [FamilyRow(cnts, rep)])
  {
    var rows' := rows + [FamilyRow(cnts, rep)];
    forall r | r in rows'
      ensures r in rows || r == FamilyRow(cnts, rep)
    {
    }
  }

  lemma KeepRowsCover(out: map<string, map<string, int>>, rows: seq<Row>, rep: string, v: map<string, int>, row: Row)
    requires RowsCover(out, rows) && row.rep == rep
    ensures RowsCover(out[rep := v], rows + [row])
  {
    var out', rows' := out[rep := v], rows + [row];
    forall x | x in out'
      ensures exists w :: w in rows' && w.rep == x
    {
      if x == rep {
        assert rows'[|rows|] in rows';
      } else {
        var w :| w in rows && w.rep == x;
        assert w in rows';
      }
    }
  }

  /** Keeping an accepted family preserves Sound, whatever the tracker. */
  lemma KeepPreservesSound(cnts: map<string, int>, maxzeroes: int, st: PassState, rep: string, tracker: map<string, nat>)
    requires Sound(cnts, maxzeroes, st) && Accepted(cnts, maxzeroes, rep)
    ensures Sound(cnts, maxzeroes,
      PassState(tracker, st.out[rep := Observed(cnts, Family(rep))], st.rows + [FamilyRow(cnts, rep)]))
  {
    KeepOutSound(cnts, maxzeroes, st.out, rep);
    KeepRowsSound(cnts, maxzeroes, st.out, st.rows, rep);
    KeepRowsCover(st.out, st.rows, rep, Observed(cnts, Family(rep)), FamilyRow(cnts, rep));
  }

  /** Every visit preserves Sound. */
  lemma StepPreservesSound(cnts: map<string, int>, maxzeroes: int, st: PassState, kmer: string)
    requires ValidCounts(cnts) && kmer in cnts && st.tracker.Keys == cnts.Keys
    requires Sound(cnts, maxzeroes, st)
    ensures Sound(cnts, maxzeroes, Step(cnts, maxzeroes, st, kmer))
  {
    if Seeds(st, kmer) {
      var rep := SeedRep(kmer);
      CanonicalRepeatIdempotent(RepeatFrame(kmer).1);
      var tracker := Bumped(st.tracker, Family(rep));
      if Keeps(cnts, maxzeroes, rep) {
        KeepPreservesSound(cnts, maxzeroes, st, rep, tracker);
      } else {
        assert Step(cnts, maxzeroes, st, kmer) == st.(tracker := tracker);
      }
    }
  }

  /** A visit by a seed: its family's expected k-mers are counted into the
      tracker whether or not the family is kept, and the family is kept (one
      row added) exactly when fewer than `maxzeroes` of its distinct
      expected k-mers have count 0. */
  lemma SeedVisit(cnts: map<string, int>, maxzeroes: int, st: PassState, kmer: string)
    requires ValidCounts(cnts) && kmer in cnts && st.tracker.Keys == cnts.Keys
    requires Seeds(st, kmer)
    ensures var r, rep := Step(cnts, maxzeroes, st, kmer), SeedRep(kmer);
      var zeroes := |set x | x in Family(rep) && Lookup(cnts, x) == 0|;
      && r.tracker == Bumped(st.tracker, Family(rep))
      && (zeroes < maxzeroes ==>
            r.rows == st.rows + [FamilyRow(cnts, rep)] && r.out == st.out[rep := Observed(cnts, Family(rep))])
      && (zeroes >= maxzeroes ==> r.rows == st.rows && r.out == st.out)
  {
    FamilyZeroesCountsZeroKmers(cnts, SeedRep(kmer));
  }

  /** A kept family maps each of its distinct expected k-mers, a canonical
      K-mer, to its count or 0. */
  lemma KeptKmersCanonical(cnts: map<string, int>, maxzeroes: int, st: PassState, rep: string, kk: string)
    requires Sound(cnts, maxzeroes, st) && rep in st.out && kk in st.out[rep]
    ensures |kk| == K && CanonicalKmer(kk) == kk && st.out[rep][kk] == Lookup(cnts, kk)
  {
    var e := Family(rep);
    var i :| 0 <= i < |e| && e[i] == kk;
  }
}
