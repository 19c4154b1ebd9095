/** Values aggregated group by group, in whatever order the groups come. */
module GroupFolds {
  type Group = nat

  /** One update: a value of one group. */
  datatype Entry = Entry(group: Group, value: real)

  /** The values of one group, in order. */
  function Of(history: seq<Entry>, g: Group): seq<real> {
    if history == [] then []
    else
      var last := history[|history| - 1];
      Of(history[..|history| - 1], g) + if last.group == g then [last.value] else []
  }

  /** The table holds f of the values of every group that has one, and no other group. */
  ghost predicate Holds<T(!new)>(values: map<Group, T>, history: seq<Entry>, f: seq<real> -> T) {
    && (forall g :: g in values <==> Of(history, g) != [])
    && (forall g :: g in values ==> values[g] == f(Of(history, g)))
  }

  /** `step` computes f value by value, starting from `zero`. */
  ghost predicate Computes<T(!new)>(zero: T, step: (T, real) -> T, f: seq<real> -> T) {
    f([]) == zero && forall xs: seq<real>, x: real :: step(f(xs), x) == f(xs + [x])
  }

  function Update<T>(values: map<Group, T>, e: Entry, zero: T, step: (T, real) -> T): map<Group, T> {
    values[e.group := step(if e.group in values then values[e.group] else zero, e.value)]
  }

  lemma OfOneMore(history: seq<Entry>, e: Entry, g: Group)
    ensures Of(history + [e], g) == Of(history, g) + if e.group == g then [e.value] else []
  {
    assert (history + [e])[..|history|] == history;
  }

  lemma UpdateHolds<T(!new)>(values: map<Group, T>, history: seq<Entry>, e: Entry, zero: T, step: (T, real) -> T, f: seq<real> -> T)
    requires Computes(zero, step, f) && Holds(values, history, f)
    ensures Holds(Update(values, e, zero, step), history + [e], f)
  {
    var after, g := Update(values, e, zero, step), e.group;
    assert step(f(Of(history, g)), e.value) == f(Of(history, g) + [e.value]);
    OfOneMore(history, e, g);
    forall h | h != g ensures Of(history + [e], h) == Of(history, h) { OfOneMore(history, e, h); }
    assert after[g] == f(Of(history + [e], g));
  }

  function Run<T>(history: seq<Entry>, zero: T, step: (T, real) -> T): map<Group, T> {
    if history == [] then map[]
    else Update(Run(history[..|history| - 1], zero, step), history[|history| - 1], zero, step)
  }

  /** Any interleaving of any number of groups. */
  lemma {:induction false} RunHolds<T(!new)>(history: seq<Entry>, zero: T, step: (T, real) -> T, f: seq<real> -> T)
    requires Computes(zero, step, f)
    ensures Holds(Run(history, zero, step), history, f)
  {
    if history != [] {
      var n := |history| - 1;
      RunHolds(history[..n], zero, step, f);
      UpdateHolds(Run(history[..n], zero, step), history[..n], history[n], zero, step, f);
      assert history[..n] + [history[n]] == history;
    }
  }

  ghost predicate SameValues(a: seq<Entry>, b: seq<Entry>) {
    forall g :: multiset(Of(a, g)) == multiset(Of(b, g))
  }

  ghost predicate IgnoresOrder<T(!new)>(f: seq<real> -> T) {
    forall xs: seq<real>, ys: seq<real> :: multiset(xs) == multiset(ys) ==> f(xs) == f(ys)
  }

  /** Histories that give each group the same values, in whatever order, end alike. */
  lemma InterleavingPlaysNoPart<T(!new)>(a: seq<Entry>, b: seq<Entry>, zero: T, step: (T, real) -> T, f: seq<real> -> T)
    requires Computes(zero, step, f) && IgnoresOrder(f) && SameValues(a, b)
    ensures Run(a, zero, step) == Run(b, zero, step)
  {
    RunHolds(a, zero, step, f);
    RunHolds(b, zero, step, f);
    forall g ensures f(Of(a, g)) == f(Of(b, g)) && (Of(a, g) == [] <==> Of(b, g) == []) {
      assert multiset(Of(a, g)) == multiset(Of(b, g));
      assert |multiset(Of(a, g))| == |multiset(Of(b, g))|;
    }
    assert Run(a, zero, step).Keys == Run(b, zero, step).Keys;
  }

  /** One result for every group. */
  method ForEachGroup<T, U>(values: map<Group, T>, f: T -> U) returns (column: map<Group, U>)
    ensures column.Keys == values.Keys && forall g :: g in column ==> column[g] == f(values[g])
  {
    column := map[];
    var todo := values.Keys;
    while todo != {}
      invariant todo <= values.Keys && column.Keys == values.Keys - todo
      invariant forall g :: g in column ==> column[g] == f(values[g])
    {
      var g :| g in todo;
      column := column[g := f(values[g])];
      todo := todo - {g};
    }
  }
}

/** Mean and standard deviation per group, kept up to date value by value (lib/aggregators.c),
    over exact reals. */
module Aggregators {
  import opened Wrappers
  import opened GroupFolds

  // ----- batch statistics -----

  function Total(xs: seq<real>, f: real -> real): real {
    if xs == [] then 0.0 else Total(xs[..|xs| - 1], f) + f(xs[|xs| - 1])
  }

  function Itself(): real -> real { x => x }

  function Square(x: real): real { x * x }

  function Distance(c: real): real -> real { x => Square(x - c) }

  function Sum(xs: seq<real>): real { Total(xs, Itself()) }

  /** Sum of the squared distances from c. */
  function Deviation(xs: seq<real>, c: real): real { Total(xs, Distance(c)) }

  function Mean(xs: seq<real>): real { if xs == [] then 0.0 else Sum(xs) / |xs| as real }

  /** Value by value: the sum, and the squared distances from c. */
  lemma BatchExactly(xs: seq<real>, x: real, c: real)
    ensures Sum([]) == 0.0 && Sum(xs + [x]) == Sum(xs) + x
    ensures Deviation([], c) == 0.0 && Deviation(xs + [x], c) == Deviation(xs, c) + (x - c) * (x - c)
    ensures Mean(xs) * |xs| as real == Sum(xs)
  {
    TotalOneMore(xs, x, Itself());
    TotalOneMore(xs, x, Distance(c));
    MeanIsInTheMiddle(xs);
  }

  // ----- facts of the batch statistics -----

  lemma SquareIsNotNegative(x: real)
    ensures Square(x) >= 0.0
  {
    if x >= 0.0 { assert x * x >= 0.0; } else { assert (-x) * (-x) >= 0.0; }
  }

  lemma {:induction false} DeviationIsNotNegative(xs: seq<real>, c: real)
    ensures Deviation(xs, c) >= 0.0
  {
    if xs != [] {
      DeviationIsNotNegative(xs[..|xs| - 1], c);
      SquareIsNotNegative(xs[|xs| - 1] - c);
    }
  }

  lemma SquareMoves(x: real, c: real, d: real)
    ensures Square(x - d) == Square(x - c) - 2.0 * ((d - c) * (x - c)) + Square(d - c)
  {
    var a, b := x - c, d - c;
    assert x - d == a - b;
    assert (a - b) * (a - b) == a * a - 2.0 * (b * a) + b * b;
  }

  lemma MovesOneMore(b: real, s: real, x: real, n: real, c: real, q: real)
    ensures b * (s - n * c) + b * (x - c) == b * (s + x - (n + 1.0) * c)
    ensures n * q + q == (n + 1.0) * q
  {
    var u, v := s - n * c, x - c;
    assert s + x - (n + 1.0) * c == u + v;
    assert b * (u + v) == b * u + b * v;
  }

  /** Moving the point the distances are taken from. */
  lemma {:induction false} DeviationMoves(xs: seq<real>, c: real, d: real)
    ensures Deviation(xs, d) ==
      Deviation(xs, c) - 2.0 * ((d - c) * (Sum(xs) - |xs| as real * c)) + |xs| as real * Square(d - c)
  {
    if xs != [] {
      var n := |xs| - 1;
      DeviationMoves(xs[..n], c, d);
      SquareMoves(xs[n], c, d);
      MovesOneMore(d - c, Sum(xs[..n]), xs[n], n as real, c, Square(d - c));
    }
  }

  /** For a point m in the middle of the values. */
  lemma AroundTheMiddle(xs: seq<real>, m: real, c: real)
    requires |xs| as real * m == Sum(xs)
    ensures Deviation(xs, c) == Deviation(xs, m) + |xs| as real * Square(c - m)
  {
    DeviationMoves(xs, m, c);
    var gap := Sum(xs) - |xs| as real * m;
    assert (c - m) * gap == 0.0;
  }

  lemma MeanIsInTheMiddle(xs: seq<real>)
    ensures |xs| as real * Mean(xs) == Sum(xs)
  {
    if xs != [] { DivideBack(Sum(xs), |xs| as real); }
  }

  lemma DivideBack(s: real, n: real)
    requires n > 0.0
    ensures n * (s / n) == s
  {
  }

  /** No other point is closer to the values than their mean. */
  lemma MeanIsClosest(xs: seq<real>, c: real)
    ensures Deviation(xs, Mean(xs)) <= Deviation(xs, c)
  {
    var m := Mean(xs);
    MeanIsInTheMiddle(xs);
    AroundTheMiddle(xs, m, c);
    SquareIsNotNegative(c - m);
    NotNegative(|xs| as real, Square(c - m));
  }

  lemma NotNegative(a: real, b: real)
    requires a >= 0.0 && b >= 0.0
    ensures a * b >= 0.0
  {
  }

  // ----- the order of the values plays no part -----

  lemma {:induction false} TotalTakesOut(xs: seq<real>, i: nat, f: real -> real)
    requires i < |xs|
    ensures Total(xs, f) == Total(xs[..i] + xs[i + 1..], f) + f(xs[i])
  {
    var n, ys := |xs| - 1, xs[..i] + xs[i + 1..];
    if i < n {
      TotalTakesOut(xs[..n], i, f);
      assert ys[..n - 1] == xs[..n][..i] + xs[..n][i + 1..] && ys[n - 1] == xs[n];
    } else {
      assert ys == xs[..n];
    }
  }

  lemma {:induction false} TotalIgnoresOrder(xs: seq<real>, ys: seq<real>, f: real -> real)
    requires multiset(xs) == multiset(ys)
    ensures |xs| == |ys| && Total(xs, f) == Total(ys, f)
    decreases |xs|
  {
    assert |multiset(xs)| == |multiset(ys)|;
    if xs != [] {
      var n := |xs| - 1;
      assert xs[n] in multiset(xs);
      assert xs[n] in ys;
      var i :| 0 <= i < |ys| && ys[i] == xs[n];
      TakesOut(xs, n);
      TakesOut(ys, i);
      assert xs[..n] + xs[n + 1..] == xs[..n];
      TotalIgnoresOrder(xs[..n], ys[..i] + ys[i + 1..], f);
      TotalTakesOut(ys, i, f);
    }
  }

  lemma TakesOut(xs: seq<real>, i: nat)
    requires i < |xs|
    ensures multiset(xs[..i] + xs[i + 1..]) == multiset(xs) - multiset{xs[i]}
  {
    assert xs == xs[..i] + [xs[i]] + xs[i + 1..];
  }

  // ----- the running statistics -----

  datatype Stat = Stat(n: nat, mean: real, m2: real)

  const ZERO := Stat(0, 0.0, 0.0)

  /** Welford's step. */
  function Next(s: Stat, x: real): Stat {
    var mean := s.mean + (x - s.mean) / (s.n + 1) as real;
    Stat(s.n + 1, mean, s.m2 + (x - s.mean) * (x - mean))
  }

  function Batch(xs: seq<real>): Stat { Stat(|xs|, Mean(xs), Deviation(xs, Mean(xs))) }

  lemma WelfordArithmetic(n: real, m: real, x: real, e: real)
    requires (n + 1.0) * e == x - m
    ensures n * Square(e) + Square(x - (m + e)) == (x - m) * (x - (m + e))
  {
    var k := n * e;
    assert x - m == k + e && x - (m + e) == k;
    assert (k + e) * k == k * k + e * k;
    assert e * k == n * (e * e);
  }

  lemma MeanMoves(n: real, m: real, x: real, s: real)
    requires n >= 0.0 && n * m == s
    ensures (n + 1.0) * ((x - m) / (n + 1.0)) == x - m
    ensures m + (x - m) / (n + 1.0) == (s + x) / (n + 1.0)
  {
    var e := (x - m) / (n + 1.0);
    DivideBack(x - m, n + 1.0);
    assert (n + 1.0) * (m + e) == s + x;
    DivideBack(s + x, n + 1.0);
    Cancel(n + 1.0, m + e, (s + x) / (n + 1.0));
  }

  lemma Cancel(n: real, a: real, b: real)
    requires n > 0.0 && n * a == n * b
    ensures a == b
  {
    assert n * (a - b) == 0.0;
  }

  lemma TotalOneMore(xs: seq<real>, x: real, f: real -> real)
    ensures Total(xs + [x], f) == Total(xs, f) + f(x)
  {
    assert (xs + [x])[..|xs|] == xs;
  }

  /** One step keeps the mean of the values so far. */
  lemma MeanOneMore(xs: seq<real>, x: real)
    ensures Mean(xs + [x]) == Mean(xs) + (x - Mean(xs)) / (|xs| + 1) as real
  {
    MeanIsInTheMiddle(xs);
    TotalOneMore(xs, x, Itself());
    MeanMoves(|xs| as real, Mean(xs), x, Sum(xs));
  }

  /** One step keeps the deviation of the values so far; m is the old mean and m + e the new. */
  lemma DeviationOneMore(xs: seq<real>, x: real, m: real, e: real)
    requires |xs| as real * m == Sum(xs) && (|xs| as real + 1.0) * e == x - m
    ensures Deviation(xs + [x], m + e) == Deviation(xs, m) + (x - m) * (x - (m + e))
  {
    TotalOneMore(xs, x, Distance(m + e));
    AroundTheMiddle(xs, m, m + e);
    WelfordArithmetic(|xs| as real, m, x, e);
  }

  lemma NextIsBatch(xs: seq<real>, x: real)
    ensures Next(Batch(xs), x) == Batch(xs + [x])
  {
    var m := Mean(xs);
    var e := (x - m) / (|xs| as real + 1.0);
    MeanOneMore(xs, x);
    assert Mean(xs + [x]) == m + e by { assert (|xs| + 1) as real == |xs| as real + 1.0; }
    MeanIsInTheMiddle(xs);
    DivideBack(x - m, |xs| as real + 1.0);
    DeviationOneMore(xs, x, m, e);
    assert Next(Batch(xs), x).m2 == Deviation(xs, m) + (x - m) * (x - (m + e));
  }

  lemma NextComputes()
    ensures Computes(ZERO, Next, Batch)
  {
    forall xs: seq<real>, x: real ensures Next(Batch(xs), x) == Batch(xs + [x]) { NextIsBatch(xs, x); }
  }

  /** Over any history of any groups, every group's count, running mean and m2 are those of all
      its values taken together. */
  lemma RunIsBatch(history: seq<Entry>)
    ensures Computes(ZERO, Next, Batch)
    ensures Holds(Run(history, ZERO, Next), history, Batch)
  {
    NextComputes();
    RunHolds(history, ZERO, Next, Batch);
  }

  lemma BatchIgnoresOrder()
    ensures IgnoresOrder(Batch)
  {
    forall xs: seq<real>, ys: seq<real> | multiset(xs) == multiset(ys) ensures Batch(xs) == Batch(ys) {
      TotalIgnoresOrder(xs, ys, Itself());
      TotalIgnoresOrder(xs, ys, Distance(Mean(xs)));
    }
  }

  lemma HistoriesEndAlike(a: seq<Entry>, b: seq<Entry>)
    requires SameValues(a, b)
    ensures Run(a, ZERO, Next) == Run(b, ZERO, Next)
  {
    RunIsBatch(a);
    BatchIgnoresOrder();
    InterleavingPlaysNoPart(a, b, ZERO, Next, Batch);
  }

  lemma NeverNegative(history: seq<Entry>, g: Group)
    requires g in Run(history, ZERO, Next)
    ensures Run(history, ZERO, Next)[g].n > 0 && Run(history, ZERO, Next)[g].m2 >= 0.0
  {
    RunIsBatch(history);
    DeviationIsNotNegative(Of(history, g), Mean(Of(history, g)));
  }

  // ----- the aggregators -----

  /** The square of the reported deviation; None is NaN. */
  function Variance(xs: seq<real>, unbiased: bool): Option<real>
    requires xs != []
  {
    if unbiased && |xs| == 1 then None
    else Some(Deviation(xs, Mean(xs)) / (|xs| - if unbiased then 1 else 0) as real)
  }

  /** What is reported for a group with these statistics. */
  function Reported(s: Stat, unbiased: bool): Option<real> {
    if unbiased then if s.n > 1 then Some(s.m2 / (s.n - 1) as real) else None
    else if s.n > 0 then Some(s.m2 / s.n as real) else None
  }

  method SdStep(stat: Stat, x: real) returns (r: Stat)
    ensures r == Next(stat, x)
  {
    var mean := stat.mean + (x - stat.mean) / (stat.n + 1) as real;
    var m2 := stat.m2 + (x - stat.mean) * (x - mean);
    r := Stat(stat.n + 1, mean, m2);
  }

  lemma ReportedIsVariance(xs: seq<real>, unbiased: bool)
    requires xs != []
    ensures Reported(Batch(xs), unbiased) == Variance(xs, unbiased)
  {
  }

  /** What is reported, without the quotient: the squared deviation divided by the number of
      values, or by one less for the unbiased variance, which a single value does not have. */
  lemma VarianceExactly(xs: seq<real>)
    requires xs != []
    ensures var v := Variance(xs, false); v.Some? && v.value * |xs| as real == Deviation(xs, Mean(xs))
    ensures var v := Variance(xs, true);
      (v.None? <==> |xs| == 1) && (v.Some? ==> v.value * (|xs| - 1) as real == Deviation(xs, Mean(xs)))
  {
    var d := Deviation(xs, Mean(xs));
    DivideBack(d, |xs| as real);
    if |xs| > 1 { DivideBack(d, (|xs| - 1) as real); }
  }

  class SdAggregator {
    var values: map<Group, Stat>
    const unbiased: bool
    ghost var history: seq<Entry>

    ghost predicate Valid() reads this { Holds(values, history, Batch) }

    constructor (unbiased: bool)
      ensures Valid() && history == [] && this.unbiased == unbiased
    {
      values, history, this.unbiased := map[], [], unbiased;
    }

    method Add(group: Group, x: real)
      requires Valid()
      modifies this
      ensures Valid() && history == old(history) + [Entry(group, x)]
    {
      NextComputes();
      UpdateHolds(values, history, Entry(group, x), ZERO, Next, Batch);
      var stat := SdStep(if group in values then values[group] else ZERO, x);
      values := values[group := stat];
      history := history + [Entry(group, x)];
    }

    /** One result for every group that was given a value. */
    method Finish() returns (column: map<Group, Option<real>>)
      requires Valid()
      ensures forall g :: g in column <==> Of(history, g) != []
      ensures forall g :: g in column ==> column[g] == Variance(Of(history, g), unbiased)
    {
      column := ForEachGroup(values, s => Reported(s, unbiased));
      forall g | g in column ensures column[g] == Variance(Of(history, g), unbiased) {
        ReportedIsVariance(Of(history, g), unbiased);
      }
    }
  }

  // ----- the mean alone -----

  datatype MeanStat = MeanStat(n: nat, mean: real)

  const NO_MEAN := MeanStat(0, 0.0)

  function NextMean(s: MeanStat, x: real): MeanStat {
    MeanStat(s.n + 1, s.mean + (x - s.mean) / (s.n + 1) as real)
  }

  function BatchMean(xs: seq<real>): MeanStat { MeanStat(|xs|, Mean(xs)) }

  lemma MeanComputes()
    ensures Computes(NO_MEAN, NextMean, BatchMean)
  {
    forall xs: seq<real>, x: real ensures NextMean(BatchMean(xs), x) == BatchMean(xs + [x]) { MeanOneMore(xs, x); }
  }

  class MeanAggregator {
    var values: map<Group, MeanStat>
    ghost var history: seq<Entry>

    ghost predicate Valid() reads this { Holds(values, history, BatchMean) }

    constructor ()
      ensures Valid() && history == []
    {
      values, history := map[], [];
    }

    method Add(group: Group, x: real)
      requires Valid()
      modifies this
      ensures Valid() && history == old(history) + [Entry(group, x)]
    {
      MeanComputes();
      UpdateHolds(values, history, Entry(group, x), NO_MEAN, NextMean, BatchMean);
      var stat := if group in values then values[group] else NO_MEAN;
      values := values[group := NextMean(stat, x)];
      history := history + [Entry(group, x)];
    }

    method Finish() returns (column: map<Group, real>)
      requires Valid()
      ensures forall g :: g in column <==> Of(history, g) != []
      ensures forall g :: g in column ==> column[g] == Sum(Of(history, g)) / |Of(history, g)| as real
    {
      column := ForEachGroup(values, (s: MeanStat) => s.mean);
    }
  }
}
