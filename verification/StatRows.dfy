/**
 ANALYZE over the rows of an index in order: each row is pushed with the left-most column in which it differs
 from the one before it, and the samples kept at the end carry the true counts of the index.
 */
module StatRows {
  import opened RunCounts
  import opened Stat4

  /** The order of index keys of one length. */
  ghost predicate Less(a: seq<int>, b: seq<int>)
    requires |a| == |b|
  {
    a != [] && (a[0] < b[0] || (a[0] == b[0] && Less(a[1..], b[1..])))
  }

  ghost predicate IsIndex(rows: seq<seq<int>>, nCol: nat) {
    && nCol > 0 && (forall t :: 0 <= t < |rows| ==> |rows[t]| == nCol)
    && forall t, u | 0 <= t < u < |rows| :: Less(rows[t], rows[u])
  }

  /** The first place from i on where two keys differ; their length when there is none. */
  function FirstDiff(p: seq<int>, r: seq<int>, i: nat): (k: nat)
    requires i <= |p| == |r|
    ensures i <= k <= |p| && (k < |p| ==> p[k] != r[k])
    ensures forall m :: i <= m < k ==> p[m] == r[m]
    decreases |p| - i
  {
    if i == |p| || p[i] != r[i] then i else FirstDiff(p, r, i + 1)
  }

  /** The change column of row t. The last column is not compared: it always differs. */
  function ChangeColumn(rows: seq<seq<int>>, nCol: nat, t: nat): nat
    requires t < |rows| && nCol > 0 && forall u :: 0 <= u < |rows| ==> |rows[u]| == nCol
  {
    if t == 0 then 0 else FirstDiff(rows[t - 1][..nCol - 1], rows[t][..nCol - 1], 0)
  }

  /** What is pushed for the rows. */
  ghost predicate ArePushes(c: seq<Pushed>, rows: seq<seq<int>>, ids: seq<int>, nCol: nat)
    requires |ids| == |rows| && nCol > 0 && forall u :: 0 <= u < |rows| ==> |rows[u]| == nCol
  {
    |c| == |rows| && forall t :: 0 <= t < |c| ==> c[t] == Pushed(ChangeColumn(rows, nCol, t), ids[t])
  }

  lemma {:induction false} LessIrreflexive(a: seq<int>)
    ensures !Less(a, a)
  {
    if a != [] {
      LessIrreflexive(a[1..]);
    }
  }

  lemma {:induction false} LessTransitive(a: seq<int>, b: seq<int>, d: seq<int>)
    requires |a| == |b| == |d| && Less(a, b) && Less(b, d)
    ensures Less(a, d)
  {
    if a[0] == b[0] == d[0] {
      LessTransitive(a[1..], b[1..], d[1..]);
    }
  }

  /** The prefixes of ordered keys are equal or ordered. */
  lemma {:induction false} LessPrefix(a: seq<int>, b: seq<int>, k: nat)
    requires |a| == |b| && Less(a, b) && k <= |a|
    ensures a[..k] == b[..k] || Less(a[..k], b[..k])
  {
    if k > 0 && a[0] == b[0] {
      LessPrefix(a[1..], b[1..], k - 1);
      assert a[..k] == [a[0]] + a[1..][..k - 1] && b[..k] == [b[0]] + b[1..][..k - 1];
      assert a[..k][1..] == a[1..][..k - 1] && b[..k][1..] == b[1..][..k - 1];
    }
  }

  /** An index, what is pushed for it, and a column. */
  ghost predicate Setting(c: seq<Pushed>, rows: seq<seq<int>>, ids: seq<int>, nCol: nat, j: nat) {
    IsIndex(rows, nCol) && |ids| == |rows| && ArePushes(c, rows, ids, nCol) && j < nCol
  }

  ghost function Prefix(row: seq<int>, j: nat): seq<int>
    requires j < |row|
  {
    row[..j + 1]
  }

  lemma PrefixesOrdered(rows: seq<seq<int>>, nCol: nat, j: nat, t: nat, u: nat)
    requires IsIndex(rows, nCol) && j < nCol && t <= u < |rows|
    ensures Prefix(rows[t], j) == Prefix(rows[u], j) || Less(Prefix(rows[t], j), Prefix(rows[u], j))
  {
    if t < u {
      LessPrefix(rows[t], rows[u], j + 1);
    }
  }

  /** A row keeps the prefix of the one before it just when its change column is later. */
  lemma PrefixKept(c: seq<Pushed>, rows: seq<seq<int>>, ids: seq<int>, nCol: nat, j: nat, t: nat)
    requires Setting(c, rows, ids, nCol, j) && 0 < t < |rows|
    ensures Prefix(rows[t - 1], j) == Prefix(rows[t], j) <==> c[t].chng > j
  {
    var p, r := rows[t - 1], rows[t];
    var k := FirstDiff(p[..nCol - 1], r[..nCol - 1], 0);
    if k <= j && k < nCol - 1 {
      assert p[..nCol - 1][k] == p[k] == Prefix(p, j)[k] && r[..nCol - 1][k] == r[k] == Prefix(r, j)[k];
    } else if k <= j {
      assert Prefix(p, j) == p && Prefix(r, j) == r;
      LessIrreflexive(p);
    } else {
      assert forall m :: 0 <= m < k ==> p[m] == p[..nCol - 1][m] == r[..nCol - 1][m] == r[m];
    }
  }

  lemma {:induction false} PrefixOfRun(c: seq<Pushed>, rows: seq<seq<int>>, ids: seq<int>, nCol: nat, j: nat, t: nat,
                                       s: nat)
    requires Setting(c, rows, ids, nCol, j) && t <= s < |rows| && StartOf(c, j, s) <= t
    ensures Prefix(rows[t], j) == Prefix(rows[s], j)
    decreases s - t
  {
    if t < s {
      PrefixOfRun(c, rows, ids, nCol, j, t + 1, s);
      PrefixKept(c, rows, ids, nCol, j, t + 1);
    }
  }

  lemma LessOrEqualThenLess(a: seq<int>, b: seq<int>, d: seq<int>)
    requires |a| == |b| == |d| && (a == b || Less(a, b)) && Less(b, d)
    ensures Less(a, d)
  {
  }

  lemma LessThenLessOrEqual(a: seq<int>, b: seq<int>, d: seq<int>)
    requires |a| == |b| == |d| && Less(a, b) && (b == d || Less(b, d))
    ensures Less(a, d)
  {
  }

  /** At a change of the prefix, everything before is less than everything after. */
  lemma ChangeSeparates(c: seq<Pushed>, rows: seq<seq<int>>, ids: seq<int>, nCol: nat, j: nat, t: nat, b: nat, u: nat)
    requires Setting(c, rows, ids, nCol, j) && t < b <= u < |rows| && c[b].chng <= j
    ensures Less(Prefix(rows[t], j), Prefix(rows[u], j))
  {
    PrefixKept(c, rows, ids, nCol, j, b);
    PrefixesOrdered(rows, nCol, j, t, b - 1);
    PrefixesOrdered(rows, nCol, j, b - 1, b);
    PrefixesOrdered(rows, nCol, j, b, u);
    LessOrEqualThenLess(Prefix(rows[t], j), Prefix(rows[b - 1], j), Prefix(rows[b], j));
    LessThenLessOrEqual(Prefix(rows[t], j), Prefix(rows[b], j), Prefix(rows[u], j));
  }

  /** The run of a row is made of the rows with its prefix; the rows before it have a smaller one. */
  lemma RunIsPrefix(c: seq<Pushed>, rows: seq<seq<int>>, ids: seq<int>, nCol: nat, j: nat, s: nat, t: nat)
    requires Setting(c, rows, ids, nCol, j) && s < |rows| && t < |rows|
    ensures Prefix(rows[t], j) == Prefix(rows[s], j) <==> StartOf(c, j, s) <= t < EndOf(c, j, s)
    ensures Less(Prefix(rows[t], j), Prefix(rows[s], j)) <==> t < StartOf(c, j, s)
  {
    LessIrreflexive(Prefix(rows[s], j));
    if t < StartOf(c, j, s) {
      ChangeSeparates(c, rows, ids, nCol, j, t, StartOf(c, j, s), s);
    } else if t <= s {
      PrefixOfRun(c, rows, ids, nCol, j, t, s);
    } else if t < EndOf(c, j, s) {
      SameRun(c, j, t, s);
      PrefixOfRun(c, rows, ids, nCol, j, s, t);
    } else {
      ChangeSeparates(c, rows, ids, nCol, j, s, EndOf(c, j, s), t);
      if Less(Prefix(rows[t], j), Prefix(rows[s], j)) {
        LessTransitive(Prefix(rows[t], j), Prefix(rows[s], j), Prefix(rows[t], j));
        LessIrreflexive(Prefix(rows[t], j));
      }
    }
  }

  ghost function Interval(lo: nat, hi: nat): (r: set<nat>)
    ensures |r| == if lo <= hi then hi - lo else 0
    ensures forall t :: t in r <==> lo <= t < hi
  {
    if lo >= hi then {} else Interval(lo, hi - 1) + {hi - 1}
  }

  /** The rows that agree with row s in the first j + 1 columns. */
  ghost function EqualRows(rows: seq<seq<int>>, nCol: nat, j: nat, s: nat): set<nat>
    requires IsIndex(rows, nCol) && j < nCol && s < |rows|
  {
    set t | 0 <= t < |rows| && Prefix(rows[t], j) == Prefix(rows[s], j)
  }

  /** The rows that come before row s by their first j + 1 columns. */
  ghost function LesserRows(rows: seq<seq<int>>, nCol: nat, j: nat, s: nat): set<nat>
    requires IsIndex(rows, nCol) && j < nCol && s < |rows|
  {
    set t | 0 <= t < |rows| && Less(Prefix(rows[t], j), Prefix(rows[s], j))
  }

  ghost function PrefixesOf(rows: seq<seq<int>>, nCol: nat, j: nat, n: nat): set<seq<int>>
    requires IsIndex(rows, nCol) && j < nCol && n <= |rows|
  {
    set t | 0 <= t < n :: Prefix(rows[t], j)
  }

  /** The different values of the first j + 1 columns that come before those of row s. */
  ghost function LesserPrefixes(rows: seq<seq<int>>, nCol: nat, j: nat, s: nat): set<seq<int>>
    requires IsIndex(rows, nCol) && j < nCol && s < |rows|
  {
    set t | t in LesserRows(rows, nCol, j, s) :: Prefix(rows[t], j)
  }

  lemma RowCounts(c: seq<Pushed>, rows: seq<seq<int>>, ids: seq<int>, nCol: nat, j: nat, s: nat)
    requires Setting(c, rows, ids, nCol, j) && s < |rows|
    ensures |EqualRows(rows, nCol, j, s)| == RunSize(c, j, s)
    ensures LesserRows(rows, nCol, j, s) == Interval(0, StartOf(c, j, s))
    ensures |LesserRows(rows, nCol, j, s)| == StartOf(c, j, s)
  {
    assert |c| == |rows|;
    hide Less, StartOf, EndOf, ArePushes, Prefix, IsIndex;
    var lo, hi := StartOf(c, j, s), EndOf(c, j, s);
    RunBounds(c, j, s);
    forall t: nat ensures t in EqualRows(rows, nCol, j, s) <==> t in Interval(lo, hi)
                  ensures t in LesserRows(rows, nCol, j, s) <==> t in Interval(0, lo)
    {
      if t < |rows| {
        RunIsPrefix(c, rows, ids, nCol, j, s, t);
      }
    }
    assert EqualRows(rows, nCol, j, s) == Interval(lo, hi);
    assert LesserRows(rows, nCol, j, s) == Interval(0, lo);
  }

  lemma RunBounds(c: seq<Pushed>, j: nat, s: nat)
    requires s < |c|
    ensures StartOf(c, j, s) <= s < EndOf(c, j, s) <= |c|
  {
  }

  /** A run adds one prefix to those before it. */
  lemma RunAddsPrefix(c: seq<Pushed>, rows: seq<seq<int>>, ids: seq<int>, nCol: nat, j: nat, s: nat)
    requires Setting(c, rows, ids, nCol, j) && s < |rows|
    ensures |PrefixesOf(rows, nCol, j, s + 1)| == |PrefixesOf(rows, nCol, j, StartOf(c, j, s))| + 1
  {
    var b := StartOf(c, j, s);
    forall t | 0 <= t <= s
      ensures Prefix(rows[t], j) == Prefix(rows[s], j) <==> b <= t
    {
      RunIsPrefix(c, rows, ids, nCol, j, s, t);
    }
    RunBounds(c, j, s);
    hide StartOf, EndOf, Less, ArePushes, Prefix;
    var x := PrefixesOf(rows, nCol, j, b) + {Prefix(rows[s], j)};
    forall p | p in PrefixesOf(rows, nCol, j, s + 1) ensures p in x {
      var t :| 0 <= t < s + 1 && p == Prefix(rows[t], j);
    }
    forall p | p in x ensures p in PrefixesOf(rows, nCol, j, s + 1) {
      if p == Prefix(rows[s], j) {
        assert 0 <= s < s + 1;
      } else {
        var t :| 0 <= t < b && p == Prefix(rows[t], j);
        assert 0 <= t < s + 1;
      }
    }
    assert PrefixesOf(rows, nCol, j, s + 1) == x;
  }

  lemma StartStep(c: seq<Pushed>, j: nat, s: nat)
    requires 0 < s < |c|
    ensures StartOf(c, j, s) == if c[s].chng <= j then s else StartOf(c, j, s - 1)
  {
  }

  lemma {:induction false} PrefixCounts(c: seq<Pushed>, rows: seq<seq<int>>, ids: seq<int>, nCol: nat, j: nat, s: nat)
    requires Setting(c, rows, ids, nCol, j) && s < |rows|
    ensures |PrefixesOf(rows, nCol, j, StartOf(c, j, s))| == RunsBefore(c, j, s)
  {
    assert |c| == |rows|;
    assert PrefixesOf(rows, nCol, j, 0) == {};
    hide ArePushes, IsIndex, PrefixesOf;
    if s == 0 {
    } else {
      hide StartOf;
      StartStep(c, j, s);
      PrefixCounts(c, rows, ids, nCol, j, s - 1);
      if c[s].chng <= j {
        RunAddsPrefix(c, rows, ids, nCol, j, s - 1);
      }
    }
  }

  /** A sample tells, for each number of columns, how many rows share its key, come before it, and how many keys do. */
  ghost predicate Truthful(rows: seq<seq<int>>, ids: seq<int>, nCol: nat, x: Sample)
    requires IsIndex(rows, nCol) && |ids| == |rows|
  {
    && Shaped(x, nCol) && RowOf(x) < |rows| && x.rowid == ids[RowOf(x)]
    && forall j | 0 <= j < nCol ::
      && x.anEq[j] == |EqualRows(rows, nCol, j, RowOf(x))|
      && x.anLt[j] == |LesserRows(rows, nCol, j, RowOf(x))|
      && x.anDLt[j] == |LesserPrefixes(rows, nCol, j, RowOf(x))|
  }

  lemma ExactIsTruthful(c: seq<Pushed>, rows: seq<seq<int>>, ids: seq<int>, nCol: nat, x: Sample)
    requires IsIndex(rows, nCol) && |ids| == |rows| && ArePushes(c, rows, ids, nCol) && Exact(c, nCol, x)
    ensures Truthful(rows, ids, nCol, x)
  {
    var s := RowOf(x);
    forall j | 0 <= j < nCol
      ensures x.anEq[j] == |EqualRows(rows, nCol, j, s)| && x.anLt[j] == |LesserRows(rows, nCol, j, s)|
      ensures x.anDLt[j] == |LesserPrefixes(rows, nCol, j, s)|
    {
      RowCounts(c, rows, ids, nCol, j, s);
      PrefixCounts(c, rows, ids, nCol, j, s);
      assert LesserPrefixes(rows, nCol, j, s) == PrefixesOf(rows, nCol, j, StartOf(c, j, s));
    }
  }

  /** Compares a row with the previous one, column by column, and remembers it from the changed column on. */
  method Compare(prev: seq<int>, row: seq<int>) returns (chng: nat, prev': seq<int>)
    requires |prev| + 1 == |row|
    ensures chng == FirstDiff(prev, row[..|prev|], 0) && prev' == row[..|prev|]
  {
    chng := 0;
    while chng < |prev| && prev[chng] == row[chng]
      invariant chng <= |prev| && forall m :: 0 <= m < chng ==> prev[m] == row[m]
    {
      chng := chng + 1;
    }
    prev' := prev;
    for i := chng to |prev|
      invariant |prev'| == |prev| && forall m :: 0 <= m < i ==> prev'[m] == row[m]
    {
      prev' := prev'[i := row[i]];
    }
  }

  lemma PushesAppended(c: seq<Pushed>, rows: seq<seq<int>>, ids: seq<int>, nCol: nat, n: nat, w: Pushed)
    requires IsIndex(rows, nCol) && |ids| == |rows| && n < |rows| && ArePushes(c, rows[..n], ids[..n], nCol)
    requires w == Pushed(ChangeColumn(rows, nCol, n), ids[n])
    ensures ArePushes(c + [w], rows[..n + 1], ids[..n + 1], nCol)
  {
  }

  /** Pushes the rows of an index. */
  method PushAll(acc: StatAccum, rows: seq<seq<int>>, ids: seq<int>)
    requires IsIndex(rows, acc.nCol) && |ids| == |rows| > 0 && acc.Valid() && acc.nEst == |rows| && acc.c == []
    modifies acc
    ensures acc.Valid() && ArePushes(acc.c, rows, ids, acc.nCol)
  {
    hide StatAccum.Valid, Less, FirstDiff, LeavesRoom, PeriodLength, Shaped, IsCurrent, Bests, Store, Each;
    acc.Facts();
    FewPeriods(1, |rows|, acc.mxSample);
    acc.Push(0, ids[0]);
    var nCol := acc.nCol;
    var prev := rows[0][..nCol - 1];
    for n := 1 to |rows|
      invariant acc.Valid() && ArePushes(acc.c, rows[..n], ids[..n], nCol) && prev == rows[n - 1][..nCol - 1]
    {
      var chng;
      chng, prev := Compare(prev, rows[n]);
      PushesAppended(acc.c, rows, ids, nCol, n, Pushed(chng, ids[n]));
      acc.Facts();
      FewPeriods(n + 1, |rows|, acc.mxSample);
      acc.Push(chng, ids[n]);
    }
    assert rows[..|rows|] == rows && ids[..|ids|] == ids;
  }

  /**
   The rows that agree with row s in the first j + 1 columns have a sample among them; or there are as many samples
   as there may be, and each that is not periodic is kept for a prefix that as many rows share.
   */
  ghost predicate Represented(rows: seq<seq<int>>, nCol: nat, j: nat, s: nat, samples: seq<Sample>, mxSample: nat)
    requires IsIndex(rows, nCol) && j < nCol && s < |rows|
  {
    || (exists m :: 0 <= m < |samples| && RowOf(samples[m]) in EqualRows(rows, nCol, j, s))
    || (&& |samples| == mxSample
        && forall m :: 0 <= m < |samples| && !samples[m].isPSample ==>
                         && samples[m].iCol < |samples[m].anEq|
                         && samples[m].anEq[samples[m].iCol] >= |EqualRows(rows, nCol, j, s)|)
  }

  lemma ServedIsRepresented(c: seq<Pushed>, rows: seq<seq<int>>, ids: seq<int>, nCol: nat, j: nat, s: nat,
                            samples: seq<Sample>, mxSample: nat)
    requires Setting(c, rows, ids, nCol, j) && s < |rows| && |c| == |rows| && Served(c, j, s, samples, mxSample)
    requires forall m :: 0 <= m < |samples| ==> Exact(c, nCol, samples[m])
    ensures Represented(rows, nCol, j, s, samples, mxSample)
  {
    RowCounts(c, rows, ids, nCol, j, s);
    RunBounds(c, j, s);
    if m :| 0 <= m < |samples| && Serves(c, j, s, samples[m]) {
      RunIsPrefix(c, rows, ids, nCol, j, s, RowOf(samples[m]));
      assert RowOf(samples[m]) in EqualRows(rows, nCol, j, s);
    } else {
      assert Floor(samples, RunSize(c, j, s));
      forall m | 0 <= m < |samples| && !samples[m].isPSample
        ensures samples[m].iCol < |samples[m].anEq|
        ensures samples[m].anEq[samples[m].iCol] >= |EqualRows(rows, nCol, j, s)|
      {
        assert Exact(c, nCol, samples[m]);
      }
    }
  }

  /**
   The scan of an index: the samples it keeps are truthful, in order, hold every periodic one, and represent every
   prefix or more frequent ones.
   */
  method Analyze(rows: seq<seq<int>>, ids: seq<int>, nCol: nat, mxSample: nat, seed: nat) returns (samples: seq<Sample>)
    requires IsIndex(rows, nCol) && |ids| == |rows| > 0 && mxSample > 0
    ensures |samples| <= mxSample && Ascending(samples)
    ensures forall m :: 0 <= m < |samples| ==> Truthful(rows, ids, nCol, samples[m])
    ensures forall r: nat :: r < |rows| ==>
                               (HasPeriodic(samples, r) <==> (r + 1) % (|rows| / (mxSample / 3 + 1) + 1) == 0)
    ensures forall j, s :: 0 <= j < nCol - 1 && 0 <= s < |rows| ==> Represented(rows, nCol, j, s, samples, mxSample)
  {
    hide StatAccum.Valid, Less, Exact, Ascending, PeriodsKept, Truthful, HasPeriodic, Served, Represented;
    var acc := new StatAccum(nCol, mxSample, |rows|, seed);
    PushAll(acc, rows, ids);
    acc.Facts();
    acc.Flush();
    samples := acc.a;
    forall m | 0 <= m < |samples| ensures Truthful(rows, ids, nCol, samples[m]) {
      ExactIsTruthful(acc.c, rows, ids, nCol, samples[m]);
    }
    forall r: nat | r < |rows|
      ensures HasPeriodic(samples, r) <==> (r + 1) % (|rows| / (mxSample / 3 + 1) + 1) == 0
    {
      KeptIsPeriodEnd(samples, |rows|, PeriodLength(|rows|, mxSample), r);
      assert PeriodLength(|rows|, mxSample) == |rows| / (mxSample / 3 + 1) + 1;
    }
    forall j, s | 0 <= j < nCol - 1 && 0 <= s < |rows| ensures Represented(rows, nCol, j, s, samples, mxSample) {
      ServedIsRepresented(acc.c, rows, ids, nCol, j, s, samples, mxSample);
    }
  }
}
