/**
 The STAT4 sampler: samples of an index collected while its rows are pushed in order. The counts of equal
 rows of a sample are filled in late, when the run of its prefix ends; until then they are 0.
 */
module Stat4 {
  import opened Arith
  import opened RunCounts

  datatype Sample = Sample(
    anEq: seq<nat>, anLt: seq<nat>, anDLt: seq<nat>, rowid: int, isPSample: bool, iCol: nat, iHash: nat)

  ghost predicate Shaped(x: Sample, nCol: nat) {
    nCol > 0 && |x.anEq| == nCol && |x.anLt| == nCol && |x.anDLt| == nCol && x.iCol < nCol
  }

  /** The place of a sample's row among the rows pushed. */
  ghost function RowOf(x: Sample): nat {
    if |x.anLt| > 0 then x.anLt[|x.anLt| - 1] else 0
  }

  /** The change columns of the rows pushed: all columns of the last one, the row identifier, differ. */
  ghost predicate Changes(c: seq<Pushed>, nCol: nat) {
    forall t :: 0 <= t < |c| ==> c[t].chng < nCol
  }

  /** The less-than counts belong to the sample's row. */
  ghost predicate Placed(c: seq<Pushed>, nCol: nat, x: Sample) {
    && Shaped(x, nCol) && RowOf(x) < |c| && x.rowid == c[RowOf(x)].rowid
    && (forall j :: 0 <= j < nCol ==> x.anLt[j] == StartOf(c, j, RowOf(x)) && x.anDLt[j] == RunsBefore(c, j, RowOf(x)))
  }

  /** The run of column j is over, or about to be closed by a change in column k. */
  ghost predicate Closed(c: seq<Pushed>, k: nat, j: nat, s: nat)
    requires s < |c|
  {
    EndOf(c, j, s) < |c| || j >= k
  }

  /** The equal counts are the sizes of the runs that are over, and 0 for the others. */
  ghost predicate Counted(c: seq<Pushed>, nCol: nat, k: nat, x: Sample)
    requires Placed(c, nCol, x)
  {
    forall j :: 0 <= j < nCol ==> x.anEq[j] == if Closed(c, k, j, RowOf(x)) then RunSize(c, j, RowOf(x)) else 0
  }

  /** The equal counts while the samples of the runs closing at columns i + 1 and up have been added. */
  ghost predicate PartCounted(c: seq<Pushed>, nCol: nat, k: nat, i: int, x: Sample)
    requires Placed(c, nCol, x)
  {
    forall j :: 0 <= j < nCol ==>
                  && (x.anEq[j] == 0 || x.anEq[j] == RunSize(c, j, RowOf(x)))
                  && (Closed(c, nCol - 1, j, RowOf(x)) ==> x.anEq[j] != 0)
                  && (!Closed(c, nCol - 1, j, RowOf(x)) && (j < k || j <= i) ==> x.anEq[j] == 0)
  }

  /** A sample kept for a column has its count for that column. */
  ghost predicate Justified(x: Sample)
    requires x.iCol < |x.anEq|
  {
    !x.isPSample ==> x.anEq[x.iCol] > 0
  }

  /** What is asked of every sample, as functions so that the array lemmas need not look inside. */
  ghost function FitP(c: seq<Pushed>, nCol: nat): Sample -> bool {
    x => Placed(c, nCol, x) && Justified(x)
  }

  ghost function CountedP(c: seq<Pushed>, nCol: nat, k: nat): Sample -> bool {
    x => Placed(c, nCol, x) && Counted(c, nCol, k, x)
  }

  ghost function PartP(c: seq<Pushed>, nCol: nat, k: nat, i: int): Sample -> bool {
    x => Placed(c, nCol, x) && PartCounted(c, nCol, k, i, x)
  }

  /** No equal count from column z on is still 0. */
  ghost function FullP(z: nat): Sample -> bool {
    (x: Sample) => forall j :: z <= j < |x.anEq| ==> x.anEq[j] > 0
  }

  ghost predicate Each(a: seq<Sample>, p: Sample -> bool) {
    forall m :: 0 <= m < |a| ==> p(a[m])
  }

  /** The samples belong to different rows, in the order of the rows. */
  ghost predicate Ascending(a: seq<Sample>) {
    forall m, n :: 0 <= m < n < |a| ==> RowOf(a[m]) < RowOf(a[n])
  }

  /** What a sample is kept for: the number of rows that share its first iCol + 1 columns. */
  ghost function Weight(x: Sample): nat {
    if x.iCol < |x.anEq| then x.anEq[x.iCol] else 0
  }

  /** No sample that may be given up weighs less. */
  ghost predicate Floor(a: seq<Sample>, w: nat) {
    forall m :: 0 <= m < |a| && !a[m].isPSample ==> Weight(a[m]) >= w
  }

  /** A full array knows a sample it can give up, one that weighs least. */
  ghost predicate Evictable(a: seq<Sample>, mxSample: nat, iMin: nat) {
    |a| <= mxSample && (|a| == mxSample ==> iMin < |a| && !a[iMin].isPSample && Floor(a, Weight(a[iMin])))
  }

  ghost predicate AtLeast(y: Sample, x: Sample) {
    RowOf(y) == RowOf(x) && y.isPSample == x.isPSample && Weight(y) >= Weight(x)
  }

  /** A sample is still there, weighing no less, or a full array has only samples that weigh no less. */
  ghost predicate StillThere(x: Sample, b: seq<Sample>, mxSample: nat) {
    || (exists n :: 0 <= n < |b| && AtLeast(b[n], x))
    || (!x.isPSample && |b| == mxSample && Floor(b, Weight(x)))
  }

  /** From a to b nothing is lost but for samples that weigh more. */
  ghost predicate Improves(a: seq<Sample>, b: seq<Sample>, mxSample: nat) {
    && (forall m :: 0 <= m < |a| ==> StillThere(a[m], b, mxSample))
    && (|a| == mxSample ==> |b| == mxSample && forall w: nat :: Floor(a, w) ==> Floor(b, w))
  }

  lemma FloorLower(a: seq<Sample>, v: nat, w: nat)
    requires Floor(a, w) && v <= w
    ensures Floor(a, v)
  {
  }

  lemma ImprovesItself(a: seq<Sample>, mxSample: nat)
    ensures Improves(a, a, mxSample)
  {
    forall m | 0 <= m < |a| ensures StillThere(a[m], a, mxSample) {
      assert AtLeast(a[m], a[m]);
    }
  }

  lemma ImprovesTwice(a: seq<Sample>, b: seq<Sample>, d: seq<Sample>, mxSample: nat)
    requires Improves(a, b, mxSample) && Improves(b, d, mxSample)
    ensures Improves(a, d, mxSample)
  {
    forall m | 0 <= m < |a| ensures StillThere(a[m], d, mxSample) {
      assert StillThere(a[m], b, mxSample);
      if n :| 0 <= n < |b| && AtLeast(b[n], a[m]) {
        assert StillThere(b[n], d, mxSample);
        if l :| 0 <= l < |d| && AtLeast(d[l], b[n]) {
          assert AtLeast(d[l], a[m]);
        } else {
          FloorLower(d, Weight(a[m]), Weight(b[n]));
        }
      }
    }
  }

  /** Samples of the same rows that weigh no less. */
  lemma ImprovesInPlace(a: seq<Sample>, b: seq<Sample>, mxSample: nat)
    requires |a| == |b| && forall m :: 0 <= m < |a| ==> AtLeast(b[m], a[m])
    ensures Improves(a, b, mxSample)
  {
  }

  /** A new sample goes last, a full array giving up one that weighs least and no more than the new one. */
  lemma ImprovesByPlacing(a: seq<Sample>, iMin: nat, mxSample: nat, x: Sample)
    requires mxSample > 0 && Evictable(a, mxSample, iMin)
    requires |a| == mxSample && !x.isPSample ==> Weight(x) >= Weight(a[iMin])
    ensures Improves(a, (if |a| < mxSample then a else Without(a, iMin)) + [x], mxSample)
  {
    var b := (if |a| < mxSample then a else Without(a, iMin)) + [x];
    if |a| == mxSample {
      forall w: nat | Floor(a, w) ensures Floor(b, w) {
        forall n | 0 <= n < |b| && !b[n].isPSample ensures Weight(b[n]) >= w {
          if n < |b| - 1 {
            assert b[n] == a[if n < iMin then n else n + 1];
          }
        }
      }
    }
    forall m | 0 <= m < |a| ensures StillThere(a[m], b, mxSample) {
      if |a| == mxSample && m == iMin {
        assert Floor(b, Weight(a[m]));
      } else {
        var n := if |a| == mxSample && m > iMin then m - 1 else m;
        assert b[n] == a[m] && AtLeast(b[n], a[m]);
      }
    }
  }

  /** A sample of the run of row s in column j, periodic or weighing as much as the run. */
  ghost predicate Serves(c: seq<Pushed>, j: nat, s: nat, x: Sample)
    requires s < |c|
  {
    StartOf(c, j, s) <= RowOf(x) < EndOf(c, j, s) && (x.isPSample || Weight(x) >= RunSize(c, j, s))
  }

  /** The run of row s in column j has a sample, or the array is full of samples that weigh as much as the run. */
  ghost predicate Served(c: seq<Pushed>, j: nat, s: nat, a: seq<Sample>, mxSample: nat)
    requires s < |c|
  {
    || (exists m :: 0 <= m < |a| && Serves(c, j, s, a[m]))
    || (|a| == mxSample && Floor(a, RunSize(c, j, s)))
  }

  lemma ServedStays(c: seq<Pushed>, j: nat, s: nat, a: seq<Sample>, b: seq<Sample>, mxSample: nat)
    requires s < |c| && Served(c, j, s, a, mxSample) && Improves(a, b, mxSample)
    ensures Served(c, j, s, b, mxSample)
  {
    if m :| 0 <= m < |a| && Serves(c, j, s, a[m]) {
      assert StillThere(a[m], b, mxSample);
      if n :| 0 <= n < |b| && AtLeast(b[n], a[m]) {
        assert Serves(c, j, s, b[n]);
      } else {
        FloorLower(b, RunSize(c, j, s), Weight(a[m]));
      }
    }
  }

  /** All runs that are over, or about to be closed by a change in column k, are served. */
  ghost predicate AllServed(c: seq<Pushed>, nCol: nat, a: seq<Sample>, mxSample: nat, k: nat) {
    forall j, s :: 0 <= j < nCol - 1 && 0 <= s < |c| && Closed(c, k, j, s) ==> Served(c, j, s, a, mxSample)
  }

  lemma AllServedStays(c: seq<Pushed>, nCol: nat, a: seq<Sample>, b: seq<Sample>, mxSample: nat, k: nat)
    requires AllServed(c, nCol, a, mxSample, k) && Improves(a, b, mxSample)
    ensures AllServed(c, nCol, b, mxSample, k)
  {
    hide Served, Improves;
    forall j, s | 0 <= j < nCol - 1 && 0 <= s < |c| && Closed(c, k, j, s) ensures Served(c, j, s, b, mxSample) {
      ServedStays(c, j, s, a, b, mxSample);
    }
  }

  /** One more closing column: its present run is that of its last row. */
  lemma ServedOneMore(c: seq<Pushed>, nCol: nat, a: seq<Sample>, mxSample: nat, i: nat)
    requires AllServed(c, nCol, a, mxSample, i + 1) && |c| > 0 && Served(c, i, |c| - 1, a, mxSample)
    ensures AllServed(c, nCol, a, mxSample, i)
  {
    forall j, s | 0 <= j < nCol - 1 && 0 <= s < |c| && Closed(c, i, j, s) ensures Served(c, j, s, a, mxSample) {
      hide Served;
      if j == i && EndOf(c, j, s) == |c| {
        LastServed(c, i, s, a, mxSample);
      } else {
        assert Closed(c, i + 1, j, s);
      }
    }
  }

  /** The last run is served when its last row is. */
  lemma LastServed(c: seq<Pushed>, i: nat, s: nat, a: seq<Sample>, mxSample: nat)
    requires s < |c| && EndOf(c, i, s) == |c| && Served(c, i, |c| - 1, a, mxSample)
    ensures Served(c, i, s, a, mxSample)
  {
    hide Served;
    LastRun(c, i, s);
    LastRun(c, i, |c| - 1);
    SameRun(c, i, s, |c| - 1);
    SameServed(c, i, s, |c| - 1, a, mxSample);
  }

  lemma SameServed(c: seq<Pushed>, j: nat, s: nat, t: nat, a: seq<Sample>, mxSample: nat)
    requires s < |c| && t < |c| && Served(c, j, t, a, mxSample)
    requires StartOf(c, j, s) == StartOf(c, j, t) && EndOf(c, j, s) == EndOf(c, j, t)
    ensures Served(c, j, s, a, mxSample)
  {
    if m :| 0 <= m < |a| && Serves(c, j, t, a[m]) {
      assert Serves(c, j, s, a[m]);
    }
  }

  /** Pushing a row leaves the runs that are over. */
  lemma ServedAppended(c: seq<Pushed>, nCol: nat, a: seq<Sample>, mxSample: nat, w: Pushed)
    requires nCol > 0 && AllServed(c, nCol, a, mxSample, w.chng)
    ensures AllServed(c + [w], nCol, a, mxSample, nCol - 1)
  {
    var d := c + [w];
    forall j, s | 0 <= j < nCol - 1 && 0 <= s < |d| && Closed(d, nCol - 1, j, s) ensures Served(d, j, s, a, mxSample) {
      if s < |c| {
        Appended(c, w, j, s);
        assert Served(c, j, s, a, mxSample);
        if m :| 0 <= m < |a| && Serves(c, j, s, a[m]) {
          assert Serves(d, j, s, a[m]);
        }
      } else {
        LastRun(d, j, s);
      }
    }
  }

  /** The rows of the periodic samples. */
  ghost function Periodic(a: seq<Sample>): seq<nat> {
    if a == [] then [] else Periodic(a[..|a| - 1]) + PeriodicRow(a[|a| - 1])
  }

  ghost function PeriodicRow(x: Sample): seq<nat> {
    if x.isPSample then [RowOf(x)] else []
  }

  /** The first n counts set to 0. */
  function ZeroFirst(s: seq<nat>, n: nat): (r: seq<nat>)
    requires n <= |s|
    ensures |r| == |s| && forall j :: 0 <= j < |s| ==> r[j] == if j < n then 0 else s[j]
  {
    seq(n, _ => 0) + s[n..]
  }

  /** The row being looked at. */
  ghost predicate IsCurrent(c: seq<Pushed>, nCol: nat, x: Sample) {
    && |c| > 0 && Placed(c, nCol, x) && RowOf(x) == |c| - 1
    && (forall j :: 0 <= j < nCol ==> x.anEq[j] == |c| - x.anLt[j])
  }

  /** The best row of the present run of the first i + 1 columns, with its counts as it was pushed. */
  ghost predicate IsBest(c: seq<Pushed>, nCol: nat, i: nat, x: Sample) {
    && |c| > 0 && i < nCol - 1 && Placed(c, nCol, x) && !x.isPSample && x.iCol == i
    && StartOf(c, i, |c| - 1) <= RowOf(x)
    && (forall j :: 0 <= j < nCol ==> x.anEq[j] == RowOf(x) + 1 - x.anLt[j])
    && (RowOf(x) == |c| - 1 || EndOf(c, i + 1, RowOf(x)) == RowOf(x) + 1)
  }

  /** Whether a new sample is preferred over an old one of the same column, by the later columns and the hash. */
  function IsBetterPost(nCol: nat, a: Sample, b: Sample, i: nat): bool
    requires Shaped(a, nCol) && Shaped(b, nCol) && i <= nCol
    decreases nCol - i
  {
    if i == nCol then a.iHash > b.iHash
    else if a.anEq[i] > b.anEq[i] then true
    else if a.anEq[i] < b.anEq[i] then false
    else IsBetterPost(nCol, a, b, i + 1)
  }

  function IsBetter(nCol: nat, a: Sample, b: Sample): bool
    requires Shaped(a, nCol) && Shaped(b, nCol)
  {
    if a.anEq[a.iCol] > b.anEq[b.iCol] then true
    else if a.anEq[a.iCol] == b.anEq[b.iCol] then
      a.iCol < b.iCol || (a.iCol == b.iCol && IsBetterPost(nCol, a, b, a.iCol + 1))
    else false
  }

  lemma {:induction false} PostTransitive(nCol: nat, a: Sample, b: Sample, d: Sample, i: nat)
    requires Shaped(a, nCol) && Shaped(b, nCol) && Shaped(d, nCol) && i <= nCol
    requires IsBetterPost(nCol, a, b, i) && IsBetterPost(nCol, b, d, i)
    ensures IsBetterPost(nCol, a, d, i)
    decreases nCol - i
  {
    if i < nCol && a.anEq[i] == b.anEq[i] == d.anEq[i] {
      PostTransitive(nCol, a, b, d, i + 1);
    }
  }

  lemma {:induction false} PostIrreflexive(nCol: nat, a: Sample, i: nat)
    requires Shaped(a, nCol) && i <= nCol
    ensures !IsBetterPost(nCol, a, a, i)
    decreases nCol - i
  {
    if i < nCol {
      PostIrreflexive(nCol, a, i + 1);
    }
  }

  /** The first count in which two samples differ decides, and the hash when there is none. */
  lemma {:induction false} PostIff(nCol: nat, a: Sample, b: Sample, i: nat)
    requires Shaped(a, nCol) && Shaped(b, nCol) && i <= nCol
    ensures IsBetterPost(nCol, a, b, i) <==>
            || (exists j :: i <= j < nCol && a.anEq[j] > b.anEq[j] && forall m :: i <= m < j ==> a.anEq[m] == b.anEq[m])
            || ((forall m :: i <= m < nCol ==> a.anEq[m] == b.anEq[m]) && a.iHash > b.iHash)
    decreases nCol - i
  {
    if i < nCol {
      PostIff(nCol, a, b, i + 1);
    }
  }

  /** A sample is preferred that is kept for more rows, then for fewer columns, then by the counts behind them. */
  lemma BetterIff(nCol: nat, a: Sample, b: Sample)
    requires Shaped(a, nCol) && Shaped(b, nCol)
    ensures IsBetter(nCol, a, b) <==>
            || Weight(a) > Weight(b)
            || (Weight(a) == Weight(b) && a.iCol < b.iCol)
            || (Weight(a) == Weight(b) && a.iCol == b.iCol && IsBetterPost(nCol, a, b, a.iCol + 1))
  {
  }

  /** The hash given to the n-th row pushed. */
  ghost function Prn(seed: nat, n: nat): nat {
    if n == 0 then seed else NextPrn(Prn(seed, n - 1))
  }

  /** The hash of each row. */
  ghost function HashOf(seed: nat): nat -> nat {
    r => Prn(seed, r + 1)
  }

  /** Row r with its counts and its hash as it was pushed. */
  ghost function AsPushed(c: seq<Pushed>, nCol: nat, hash: nat -> nat, r: nat): Sample
    requires r < |c| && nCol > 0
  {
    var eq := seq(nCol, j requires 0 <= j < nCol => r + 1 - StartOf(c, j, r));
    Sample(eq, eq, eq, 0, false, 0, hash(r))
  }

  /** Of the present run of the first i + 1 columns no row is preferred over x, by the later columns and the hash. */
  ghost predicate Leads(c: seq<Pushed>, nCol: nat, hash: nat -> nat, i: nat, x: Sample) {
    && |c| > 0 && i < nCol && Shaped(x, nCol) && RowOf(x) < |c| && x.iHash == hash(RowOf(x))
    && (forall r: nat :: StartOf(c, i, |c| - 1) <= r < |c| ==>
                           !IsBetterPost(nCol, AsPushed(c, nCol, hash, r), x, i + 1))
  }

  ghost predicate AllLead(c: seq<Pushed>, nCol: nat, hash: nat -> nat, aBest: seq<Sample>) {
    |aBest| == nCol - 1 && forall i :: 0 <= i < nCol - 1 ==> Leads(c, nCol, hash, i, aBest[i])
  }

  /** Only the counts and the hash matter. */
  lemma {:induction false} PostSame(nCol: nat, a: Sample, a': Sample, b: Sample, i: nat)
    requires Shaped(a, nCol) && Shaped(a', nCol) && Shaped(b, nCol) && i <= nCol
    requires a.anEq == a'.anEq && a.iHash == a'.iHash
    ensures IsBetterPost(nCol, a, b, i) == IsBetterPost(nCol, a', b, i)
    ensures IsBetterPost(nCol, b, a, i) == IsBetterPost(nCol, b, a', i)
    decreases nCol - i
  {
    if i < nCol {
      PostSame(nCol, a, a', b, i + 1);
    }
  }

  lemma AsPushedAppended(c: seq<Pushed>, nCol: nat, hash: nat -> nat, r: nat, w: Pushed)
    requires r < |c| && nCol > 0
    ensures AsPushed(c + [w], nCol, hash, r) == AsPushed(c, nCol, hash, r)
  {
    forall j | 0 <= j < nCol ensures StartOf(c + [w], j, r) == StartOf(c, j, r) {
      Appended(c, w, j, r);
    }
  }

  /** The current row is as pushed. */
  lemma CurrentAsPushed(c: seq<Pushed>, nCol: nat, hash: nat -> nat, cur: Sample, b: Sample, i: nat)
    requires IsCurrent(c, nCol, cur) && |c| > 0 && cur.iHash == hash(|c| - 1) && Shaped(b, nCol) && i <= nCol
    ensures IsBetterPost(nCol, AsPushed(c, nCol, hash, |c| - 1), b, i) == IsBetterPost(nCol, cur, b, i)
    ensures IsBetterPost(nCol, b, AsPushed(c, nCol, hash, |c| - 1), i) == IsBetterPost(nCol, b, cur, i)
  {
    assert AsPushed(c, nCol, hash, |c| - 1).anEq == cur.anEq;
    PostSame(nCol, AsPushed(c, nCol, hash, |c| - 1), cur, b, i);
  }

  /** The current row leads a run that it begins. */
  lemma BeginnerLeads(c: seq<Pushed>, nCol: nat, hash: nat -> nat, i: nat, cur: Sample)
    requires IsCurrent(c, nCol, cur) && |c| > 0 && cur.iHash == hash(|c| - 1) && i < nCol
    requires StartOf(c, i, |c| - 1) == |c| - 1
    ensures Leads(c, nCol, hash, i, cur)
  {
    CurrentNotPreferred(c, nCol, hash, i, cur, cur);
    hide StartOf, IsBetterPost, AsPushed;
  }

  /** The current row extends a run: it leads it if it is preferred over the row that led it, which leads it else. */
  lemma ExtendedLeads(c: seq<Pushed>, nCol: nat, hash: nat -> nat, i: nat, best: Sample, w: Pushed, cur: Sample)
    requires Leads(c, nCol, hash, i, best) && i < w.chng && i < nCol && IsCurrent(c + [w], nCol, cur)
    requires cur.iHash == hash(|c|)
    ensures Leads(c + [w], nCol, hash, i, if IsBetterPost(nCol, cur, best, i + 1) then cur else best)
  {
    hide *;
    var d := c + [w];
    CurrentShaped(d, nCol, cur);
    LeadsParts(c, nCol, hash, i, best);
    var x := if IsBetterPost(nCol, cur, best, i + 1) then cur else best;
    AppendedLast(c, w, i);
    forall r: nat | StartOf(d, i, |d| - 1) <= r < |d|
      ensures Shaped(AsPushed(d, nCol, hash, r), nCol) && !IsBetterPost(nCol, AsPushed(d, nCol, hash, r), x, i + 1)
    {
      PushedShaped(d, nCol, hash, r);
      if r == |c| {
        CurrentNotPreferred(d, nCol, hash, i, best, cur);
      } else {
        AsPushedAppended(c, nCol, hash, r, w);
        PushedShaped(c, nCol, hash, r);
        NotPreferred(nCol, AsPushed(c, nCol, hash, r), best, cur, i + 1);
      }
    }
    LeadsParts(d, nCol, hash, i, x);
  }

  lemma LeadsParts(c: seq<Pushed>, nCol: nat, hash: nat -> nat, i: nat, x: Sample)
    ensures Leads(c, nCol, hash, i, x) <==>
            && |c| > 0 && i < nCol && Shaped(x, nCol) && RowOf(x) < |c| && x.iHash == hash(RowOf(x))
            && (forall r: nat :: StartOf(c, i, |c| - 1) <= r < |c| ==>
                                   && Shaped(AsPushed(c, nCol, hash, r), nCol)
                                   && !IsBetterPost(nCol, AsPushed(c, nCol, hash, r), x, i + 1))
  {
  }

  lemma CurrentShaped(c: seq<Pushed>, nCol: nat, cur: Sample)
    requires IsCurrent(c, nCol, cur)
    ensures Shaped(cur, nCol) && nCol > 0 && |c| > 0 && RowOf(cur) == |c| - 1
  {
  }

  lemma NotPreferred(nCol: nat, p: Sample, best: Sample, cur: Sample, i: nat)
    requires Shaped(p, nCol) && Shaped(best, nCol) && Shaped(cur, nCol) && i <= nCol && !IsBetterPost(nCol, p, best, i)
    ensures !IsBetterPost(nCol, p, if IsBetterPost(nCol, cur, best, i) then cur else best, i)
  {
    if IsBetterPost(nCol, cur, best, i) && IsBetterPost(nCol, p, cur, i) {
      PostTransitive(nCol, p, cur, best, i);
    }
  }

  lemma CurrentNotPreferred(d: seq<Pushed>, nCol: nat, hash: nat -> nat, i: nat, best: Sample, cur: Sample)
    requires IsCurrent(d, nCol, cur) && |d| > 0 && cur.iHash == hash(|d| - 1) && Shaped(best, nCol) && i < nCol
    ensures Shaped(AsPushed(d, nCol, hash, |d| - 1), nCol)
    ensures !IsBetterPost(nCol, AsPushed(d, nCol, hash, |d| - 1),
                          if IsBetterPost(nCol, cur, best, i + 1) then cur else best, i + 1)
  {
    hide *;
    CurrentShaped(d, nCol, cur);
    PushedShaped(d, nCol, hash, |d| - 1);
    CurrentAsPushed(d, nCol, hash, cur, cur, i + 1);
    CurrentAsPushed(d, nCol, hash, cur, best, i + 1);
    PostIrreflexive(nCol, cur, i + 1);
  }

  lemma PushedShaped(c: seq<Pushed>, nCol: nat, hash: nat -> nat, r: nat)
    requires r < |c| && nCol > 0
    ensures Shaped(AsPushed(c, nCol, hash, r), nCol)
  {
  }

  /** Preference is an order. */
  lemma BetterTransitive(nCol: nat, a: Sample, b: Sample, d: Sample)
    requires Shaped(a, nCol) && Shaped(b, nCol) && Shaped(d, nCol) && IsBetter(nCol, a, b) && IsBetter(nCol, b, d)
    ensures IsBetter(nCol, a, d)
  {
    if a.iCol == b.iCol == d.iCol && a.anEq[a.iCol] == b.anEq[b.iCol] == d.anEq[d.iCol] {
      PostTransitive(nCol, a, b, d, a.iCol + 1);
    }
  }

  /** Pushing the next row makes it the current one. */
  lemma NextCurrent(c: seq<Pushed>, nCol: nat, x: Sample, w: Pushed, y: Sample)
    requires IsCurrent(c, nCol, x) && Changes(c, nCol) && w.chng < nCol && Shaped(y, nCol) && y.rowid == w.rowid
    requires forall i :: 0 <= i < w.chng ==>
              y.anEq[i] == x.anEq[i] + 1 && y.anLt[i] == x.anLt[i] && y.anDLt[i] == x.anDLt[i]
    requires forall i :: w.chng <= i < nCol ==>
              y.anEq[i] == 1 && y.anLt[i] == x.anLt[i] + x.anEq[i] && y.anDLt[i] == x.anDLt[i] + 1
    ensures IsCurrent(c + [w], nCol, y)
  {
    var d := c + [w];
    assert RowOf(y) == |c|;
    forall j | 0 <= j < nCol
      ensures y.anLt[j] == StartOf(d, j, |c|) && y.anDLt[j] == RunsBefore(d, j, |c|) && y.anEq[j] == |d| - y.anLt[j]
    {
      AppendedLast(c, w, j);
    }
  }

  /** After a push the counted samples are counted for the longer list of rows. */
  lemma CountedAppended(c: seq<Pushed>, nCol: nat, w: Pushed, x: Sample)
    requires Placed(c, nCol, x) && Counted(c, nCol, w.chng, x) && Changes(c, nCol) && w.chng < nCol
    ensures Placed(c + [w], nCol, x) && Counted(c + [w], nCol, nCol - 1, x)
  {
    var d := c + [w];
    forall j | 0 <= j < nCol
      ensures x.anLt[j] == StartOf(d, j, RowOf(x)) && x.anDLt[j] == RunsBefore(d, j, RowOf(x))
      ensures x.anEq[j] == if Closed(d, nCol - 1, j, RowOf(x)) then RunSize(d, j, RowOf(x)) else 0
    {
      Appended(c, w, j, RowOf(x));
    }
  }

  lemma PeriodicAppend(a: seq<Sample>, x: Sample)
    ensures Periodic(a + [x]) == Periodic(a) + PeriodicRow(x)
  {
    assert (a + [x])[..|a|] == a;
  }

  lemma Assoc<T>(a: seq<T>, b: seq<T>, c: seq<T>)
    ensures (a + b) + c == a + (b + c)
  {
  }

  lemma {:induction false} PeriodicSplit(a: seq<Sample>, b: seq<Sample>)
    ensures Periodic(a + b) == Periodic(a) + Periodic(b)
  {
    if b == [] {
      assert a + b == a;
    } else {
      hide *;
      var rest, x := b[..|b| - 1], b[|b| - 1];
      assert b == rest + [x];
      PeriodicSplit(a, rest);
      PeriodicAppend(rest, x);
      PeriodicAppend(a + rest, x);
      Assoc(a, rest, [x]);
      Assoc(Periodic(a), Periodic(rest), PeriodicRow(x));
    }
  }

  lemma {:induction false} PeriodicBound(a: seq<Sample>)
    ensures |Periodic(a)| <= |a|
    ensures |Periodic(a)| < |a| ==> exists m :: 0 <= m < |a| && !a[m].isPSample
  {
    if a != [] {
      PeriodicBound(a[..|a| - 1]);
      if |Periodic(a)| < |a| && a[|a| - 1].isPSample {
        var m :| 0 <= m < |a[..|a| - 1]| && !a[..|a| - 1][m].isPSample;
        assert !a[m].isPSample;
      } else if |Periodic(a)| < |a| {
        assert !a[|a| - 1].isPSample;
      }
    }
  }

  function Without(a: seq<Sample>, m: nat): seq<Sample>
    requires m < |a|
  {
    a[..m] + a[m + 1..]
  }

  lemma EvictPeriodic(a: seq<Sample>, m: nat)
    requires m < |a| && !a[m].isPSample
    ensures Periodic(Without(a, m)) == Periodic(a)
  {
    hide Periodic;
    var before, after := a[..m], a[m + 1..];
    PeriodicOne(a[m]);
    PeriodicSplit(before, [a[m]]);
    assert Periodic(before + [a[m]]) == Periodic(before);
    PeriodicSplit(before + [a[m]], after);
    assert a == (before + [a[m]]) + after;
    PeriodicSplit(before, after);
  }

  lemma PeriodicOne(x: Sample)
    requires !x.isPSample
    ensures Periodic([x]) == []
  {
  }

  /** All samples come before row r. */
  ghost predicate Before(a: seq<Sample>, r: nat) {
    forall n :: 0 <= n < |a| ==> RowOf(a[n]) < r
  }

  lemma EvictEach(a: seq<Sample>, m: nat, p: Sample -> bool)
    requires m < |a| && Each(a, p)
    ensures Each(Without(a, m), p)
  {
  }

  lemma EvictAscending(a: seq<Sample>, m: nat)
    requires m < |a| && Ascending(a)
    ensures Ascending(Without(a, m))
    ensures forall r: nat :: Before(a, r) ==> Before(Without(a, m), r)
  {
  }

  lemma AppendEach(a: seq<Sample>, x: Sample, p: Sample -> bool)
    requires Each(a, p) && p(x)
    ensures Each(a + [x], p)
  {
  }

  /** A sample goes at the end of the array when its row is the latest. */
  lemma AppendAscending(a: seq<Sample>, x: Sample)
    requires Ascending(a) && Before(a, RowOf(x))
    ensures Ascending(a + [x])
    ensures Periodic(a + [x]) == Periodic(a) + PeriodicRow(x)
  {
    PeriodicAppend(a, x);
  }

  lemma ReplaceEach(a: seq<Sample>, u: nat, y: Sample, p: Sample -> bool)
    requires Each(a, p) && u < |a| && p(y)
    ensures Each(a[u := y], p)
  {
  }

  lemma ReplaceAscending(a: seq<Sample>, u: nat, y: Sample)
    requires Ascending(a) && u < |a| && RowOf(y) == RowOf(a[u])
    ensures Ascending(a[u := y])
  {
  }

  /** The best row of a closing run has final counts from its own column on, and open runs before it. */
  lemma BestColumn(c: seq<Pushed>, nCol: nat, i: nat, best: Sample, cur: Sample, j: nat)
    requires IsBest(c, nCol, i, best) && IsCurrent(c, nCol, cur) && Changes(c, nCol) && j < nCol
    ensures j < i ==> !Closed(c, nCol - 1, j, RowOf(best))
    ensures j == i ==> cur.anEq[i] == RunSize(c, i, RowOf(best))
    ensures j > i ==> best.anEq[j] == RunSize(c, j, RowOf(best))
  {
    hide StartOf, EndOf, NextChange, RunsBefore;
    var b := RowOf(best);
    LastRun(c, i, b);
    SameRun(c, i, b, |c| - 1);
    if j < i {
      Finer(c, j, i, b);
    } else if j > i {
      Finer(c, i + 1, j, b);
    }
  }

  /** The sample of a closing run: its later counts are final, its own is made so, the earlier ones are cleared. */
  lemma BestIsPart(c: seq<Pushed>, nCol: nat, k: nat, i: nat, best: Sample, cur: Sample)
    requires IsBest(c, nCol, i, best) && IsCurrent(c, nCol, cur) && Changes(c, nCol) && k <= i
    ensures var x := best.(anEq := ZeroFirst(best.anEq[i := cur.anEq[i]], i));
            && Placed(c, nCol, x) && Justified(x)
            && PartCounted(c, nCol, k, i - 1, x)
            && (forall j :: i <= j < nCol ==> x.anEq[j] > 0)
            && StartOf(c, i, |c| - 1) <= RowOf(x)
  {
    var x := best.(anEq := ZeroFirst(best.anEq[i := cur.anEq[i]], i));
    assert RowOf(x) == RowOf(best) && Placed(c, nCol, x);
    forall j | 0 <= j < nCol
      ensures x.anEq[j] == 0 || x.anEq[j] == RunSize(c, j, RowOf(x))
      ensures Closed(c, nCol - 1, j, RowOf(x)) ==> x.anEq[j] != 0
      ensures !Closed(c, nCol - 1, j, RowOf(x)) && (j < k || j <= i - 1) ==> x.anEq[j] == 0
      ensures i <= j ==> x.anEq[j] > 0
    {
      BestColumn(c, nCol, i, best, cur, j);
    }
  }

  /** A sample whose count for column i is missing stands in the present run of that column. */
  lemma MissingIsOpen(c: seq<Pushed>, nCol: nat, k: nat, i: nat, x: Sample, cur: Sample)
    requires Placed(c, nCol, x) && PartCounted(c, nCol, k, i, x) && i < nCol - 1 && IsCurrent(c, nCol, cur)
    requires x.anEq[i] == 0
    ensures !Closed(c, nCol - 1, i, RowOf(x)) && cur.anEq[i] == RunSize(c, i, RowOf(x))
    ensures !x.isPSample && Justified(x) ==> x.iCol > i && x.anEq[x.iCol] <= cur.anEq[i]
  {
  }

  /** When no sample misses its count for a closing column, all samples come before that column's present run. */
  lemma NoneMissing(c: seq<Pushed>, nCol: nat, k: nat, i: nat, a: seq<Sample>)
    requires |c| > 0 && Each(a, PartP(c, nCol, k, i)) && i < nCol - 1
    requires forall m :: 0 <= m < |a| ==> |a[m].anEq| == nCol && a[m].anEq[i] != 0
    ensures Before(a, StartOf(c, i, |c| - 1))
  {
  }

  lemma {:induction false} PeriodicUpdate(a: seq<Sample>, m: nat, x: Sample)
    requires m < |a| && x.isPSample == a[m].isPSample && RowOf(x) == RowOf(a[m])
    ensures Periodic(a[m := x]) == Periodic(a)
  {
    if m < |a| - 1 {
      PeriodicUpdate(a[..|a| - 1], m, x);
      assert a[m := x][..|a| - 1] == a[..|a| - 1][m := x];
    } else {
      assert a[m := x][..|a| - 1] == a[..|a| - 1];
    }
  }

  function Upgraded(x: Sample, i: nat, n: nat): Sample
    requires i < |x.anEq|
  {
    x.(iCol := i, anEq := x.anEq[i := n])
  }

  /** Giving a sample of the present run the count of a closing column. */
  lemma UpgradePart(c: seq<Pushed>, nCol: nat, k: nat, i: nat, x: Sample, cur: Sample)
    requires Placed(c, nCol, x) && PartCounted(c, nCol, k, i, x) && k <= i < nCol - 1 && IsCurrent(c, nCol, cur)
    requires x.anEq[i] == 0
    ensures var y := Upgraded(x, i, cur.anEq[i]);
            Placed(c, nCol, y) && RowOf(y) == RowOf(x) && Justified(y) && PartCounted(c, nCol, k, i - 1, y)
  {
    MissingIsOpen(c, nCol, k, i, x, cur);
    var y := Upgraded(x, i, cur.anEq[i]);
    assert RowOf(y) == RowOf(x);
    forall j | 0 <= j < nCol
      ensures y.anEq[j] == 0 || y.anEq[j] == RunSize(c, j, RowOf(y))
      ensures Closed(c, nCol - 1, j, RowOf(y)) ==> y.anEq[j] != 0
      ensures !Closed(c, nCol - 1, j, RowOf(y)) && (j < k || j <= i - 1) ==> y.anEq[j] == 0
    {
    }
  }

  lemma UpgradeKeeps(c: seq<Pushed>, nCol: nat, k: nat, i: nat, a: seq<Sample>, u: nat, cur: Sample, z: nat)
    requires Each(a, FitP(c, nCol)) && Ascending(a) && Each(a, PartP(c, nCol, k, i)) && Each(a, FullP(z))
    requires k <= i < nCol - 1 && IsCurrent(c, nCol, cur) && u < |a| && |a[u].anEq| == nCol && a[u].anEq[i] == 0
    ensures var b := a[u := Upgraded(a[u], i, cur.anEq[i])];
            && Each(b, FitP(c, nCol)) && Ascending(b) && Each(b, PartP(c, nCol, k, i - 1)) && Each(b, FullP(z))
            && Periodic(b) == Periodic(a)
  {
    assert PartP(c, nCol, k, i)(a[u]) && FullP(z)(a[u]);
    UpgradePart(c, nCol, k, i, a[u], cur);
    var y := Upgraded(a[u], i, cur.anEq[i]);
    PeriodicUpdate(a, u, y);
    PartWeakens(c, nCol, k, i, a);
    ReplaceEach(a, u, y, FitP(c, nCol));
    ReplaceEach(a, u, y, PartP(c, nCol, k, i - 1));
    ReplaceEach(a, u, y, FullP(z));
    ReplaceAscending(a, u, y);
  }

  lemma PartWeakens(c: seq<Pushed>, nCol: nat, k: nat, i: nat, a: seq<Sample>)
    requires Each(a, PartP(c, nCol, k, i))
    ensures Each(a, PartP(c, nCol, k, i - 1))
  {
  }

  /** Filling the missing counts from the closing column on with the present ones makes them final. */
  function Filled(x: Sample, k: nat, cur: Sample): (y: Sample)
    requires |cur.anEq| == |x.anEq|
    ensures y == x.(anEq := y.anEq) && |y.anEq| == |x.anEq|
    ensures forall j :: 0 <= j < |x.anEq| ==> y.anEq[j] == if j >= k && x.anEq[j] == 0 then cur.anEq[j] else x.anEq[j]
  {
    x.(anEq := seq(|x.anEq|, j requires 0 <= j < |x.anEq| =>
      if j >= k && x.anEq[j] == 0 then cur.anEq[j] else x.anEq[j]))
  }

  lemma FilledIsCounted(c: seq<Pushed>, nCol: nat, k: nat, x: Sample, cur: Sample)
    requires Placed(c, nCol, x) && PartCounted(c, nCol, k, k as int - 1, x) && IsCurrent(c, nCol, cur) && k < nCol
    ensures var y := Filled(x, k, cur);
            && Placed(c, nCol, y) && RowOf(y) == RowOf(x) && Counted(c, nCol, k, y)
            && (forall j :: k <= j < nCol ==> y.anEq[j] > 0)
  {
    hide StartOf, EndOf, NextChange, RunsBefore;
    var y := Filled(x, k, cur);
    assert RowOf(y) == RowOf(x);
    forall j | 0 <= j < nCol
      ensures y.anEq[j] == if Closed(c, k, j, RowOf(y)) then RunSize(c, j, RowOf(y)) else 0
    {
      LastRun(c, j, RowOf(x));
      if EndOf(c, j, RowOf(x)) == |c| {
        SameRun(c, j, RowOf(x), |c| - 1);
      }
    }
  }

  datatype Shared = Nobody | Covered | UpgradeAt(u: nat)

  /** Of the samples from m on that miss their count for column i, none is preferred over x. */
  ghost predicate BestMissing(a: seq<Sample>, nCol: nat, i: nat, m: nat, x: Sample)
    requires i < nCol && Shaped(x, nCol) && forall n :: 0 <= n < |a| ==> Shaped(a[n], nCol)
  {
    forall n :: m <= n < |a| && Shaped(a[n], nCol) && a[n].anEq[i] == 0 ==> !IsBetter(nCol, a[n], x)
  }

  lemma BetterMissing(a: seq<Sample>, nCol: nat, i: nat, m: nat, x: Sample)
    requires i < nCol && Shaped(x, nCol) && m < |a| && forall n :: 0 <= n < |a| ==> Shaped(a[n], nCol)
    requires BestMissing(a, nCol, i, m + 1, x)
    ensures IsBetter(nCol, a[m], x) ==> BestMissing(a, nCol, i, m, a[m])
    ensures !IsBetter(nCol, a[m], x) || a[m].anEq[i] != 0 ==> BestMissing(a, nCol, i, m, x)
  {
    PostIrreflexive(nCol, a[m], a[m].iCol + 1);
    if IsBetter(nCol, a[m], x) {
      forall n | m <= n < |a| && a[n].anEq[i] == 0 ensures !IsBetter(nCol, a[n], a[m]) {
        if n > m && IsBetter(nCol, a[n], a[m]) {
          BetterTransitive(nCol, a[n], a[m], x);
        }
      }
    }
  }

  lemma FirstMissing(a: seq<Sample>, nCol: nat, i: nat, m: nat)
    requires i < nCol && m < |a| && forall n :: 0 <= n < |a| ==> Shaped(a[n], nCol)
    requires forall n :: m < n < |a| && Shaped(a[n], nCol) ==> a[n].anEq[i] != 0
    ensures BestMissing(a, nCol, i, m, a[m])
  {
    PostIrreflexive(nCol, a[m], a[m].iCol + 1);
  }

  /**
   Looks, newest first, for samples of the present run of column i: a periodic one makes the new sample
   superfluous, otherwise the best of them is to be upgraded.
   */
  method FindShared(a: seq<Sample>, i: nat, best: Sample, nCol: nat, ghost c: seq<Pushed>, ghost k: nat,
                    ghost cur: Sample)
    returns (r: Shared)
    requires Each(a, FitP(c, nCol)) && Each(a, PartP(c, nCol, k, i)) && k <= i < nCol - 1 && IsCurrent(c, nCol, cur)
    requires Shaped(best, nCol) && best.iCol == i && best.anEq[i] == cur.anEq[i]
    requires forall m :: 0 <= m < |a| ==> Shaped(a[m], nCol)
    ensures r.Covered? <==> exists m :: 0 <= m < |a| && a[m].anEq[i] == 0 && a[m].isPSample
    ensures r.UpgradeAt? ==> r.u < |a| && a[r.u].anEq[i] == 0 && !a[r.u].isPSample && BestMissing(a, nCol, i, 0, a[r.u])
    ensures r.Nobody? <==> forall m :: 0 <= m < |a| ==> a[m].anEq[i] != 0
  {
    hide IsBetter, FitP, PartP, IsCurrent;
    r := Nobody;
    var m := |a|;
    while m > 0
      invariant 0 <= m <= |a| && !r.Covered?
      invariant r.UpgradeAt? ==>
                m <= r.u < |a| && a[r.u].anEq[i] == 0 && !a[r.u].isPSample && BestMissing(a, nCol, i, m, a[r.u])
      invariant r.Nobody? ==> forall n :: m <= n < |a| ==> a[n].anEq[i] != 0
      invariant forall n :: m <= n < |a| && a[n].anEq[i] == 0 ==> !a[n].isPSample
    {
      m := m - 1;
      if r.UpgradeAt? {
        BetterMissing(a, nCol, i, m, a[r.u]);
      }
      if a[m].anEq[i] == 0 {
        if a[m].isPSample {
          return Covered;
        }
        NewIsBetter(a, m, i, best, nCol, c, k, cur);
        assert IsBetter(nCol, best, a[m]);
        if r.Nobody? {
          FirstMissing(a, nCol, i, m);
          r := UpgradeAt(m);
        } else if IsBetter(nCol, a[m], a[r.u]) {
          r := UpgradeAt(m);
        }
      }
    }
  }

  /** The row offered for a closing run is preferred over the samples of the run that lack its count. */
  lemma NewIsBetter(a: seq<Sample>, m: nat, i: nat, best: Sample, nCol: nat, c: seq<Pushed>, k: nat, cur: Sample)
    requires Each(a, FitP(c, nCol)) && Each(a, PartP(c, nCol, k, i)) && k <= i < nCol - 1 && IsCurrent(c, nCol, cur)
    requires Shaped(best, nCol) && best.iCol == i && best.anEq[i] == cur.anEq[i]
    requires m < |a| && Shaped(a[m], nCol) && a[m].anEq[i] == 0 && !a[m].isPSample
    ensures IsBetter(nCol, best, a[m])
  {
    assert FitP(c, nCol)(a[m]) && PartP(c, nCol, k, i)(a[m]);
    MissingIsOpen(c, nCol, k, i, a[m], cur);
  }

  /** No sample that may be given up is less preferred than x. */
  ghost predicate LeastPreferred(a: seq<Sample>, nCol: nat, x: Sample)
    requires Shaped(x, nCol) && forall m :: 0 <= m < |a| ==> Shaped(a[m], nCol)
  {
    forall m :: 0 <= m < |a| && !a[m].isPSample ==> !IsBetter(nCol, x, a[m])
  }

  lemma LessPreferred(a: seq<Sample>, nCol: nat, x: Sample, y: Sample)
    requires Shaped(x, nCol) && Shaped(y, nCol) && forall m :: 0 <= m < |a| ==> Shaped(a[m], nCol)
    requires LeastPreferred(a, nCol, x) && IsBetter(nCol, x, y)
    ensures LeastPreferred(a + [y], nCol, y)
  {
    var b := a + [y];
    PostIrreflexive(nCol, y, y.iCol + 1);
    forall m | 0 <= m < |b| && !b[m].isPSample ensures !IsBetter(nCol, y, b[m]) {
      if m < |a| && IsBetter(nCol, y, b[m]) {
        BetterTransitive(nCol, x, y, a[m]);
      }
    }
  }

  lemma StillLeast(a: seq<Sample>, nCol: nat, x: Sample, y: Sample)
    requires Shaped(x, nCol) && Shaped(y, nCol) && forall m :: 0 <= m < |a| ==> Shaped(a[m], nCol)
    requires LeastPreferred(a, nCol, x) && (y.isPSample || !IsBetter(nCol, x, y))
    ensures LeastPreferred(a + [y], nCol, x)
  {
    hide IsBetter, Shaped;
  }

  /** The sample to give up next: the least preferred one that is not periodic. */
  method FindMin(a: seq<Sample>, nCol: nat) returns (iMin: nat)
    requires |Periodic(a)| < |a| && forall m :: 0 <= m < |a| ==> Shaped(a[m], nCol)
    ensures iMin < |a| && !a[iMin].isPSample && LeastPreferred(a, nCol, a[iMin]) && Floor(a, Weight(a[iMin]))
  {
    PeriodicBound(a);
    ghost var w :| 0 <= w < |a| && !a[w].isPSample;
    hide IsBetter, Shaped, Periodic, Floor, Weight, LeastPreferred;
    var found := false;
    iMin := 0;
    for i := 0 to |a|
      invariant found ==> iMin < i && !a[iMin].isPSample && LeastPreferred(a[..i], nCol, a[iMin])
      invariant !found ==> i <= w && iMin == 0 && forall m :: 0 <= m < i ==> a[m].isPSample
    {
      assert a[..i + 1] == a[..i] + [a[i]];
      if found && (a[i].isPSample || !IsBetter(nCol, a[iMin], a[i])) {
        StillLeast(a[..i], nCol, a[iMin], a[i]);
      }
      if a[i].isPSample {
        continue;
      }
      if !found {
        OnlyOne(a, nCol, i);
        found, iMin := true, i;
      } else if IsBetter(nCol, a[iMin], a[i]) {
        LessPreferred(a[..i], nCol, a[iMin], a[i]);
        iMin := i;
      }
    }
    assert a[..|a|] == a;
    LeastIsFloor(a, nCol, a[iMin]);
  }

  /** The least preferred sample weighs least. */
  lemma LeastIsFloor(a: seq<Sample>, nCol: nat, x: Sample)
    requires Shaped(x, nCol) && (forall m :: 0 <= m < |a| ==> Shaped(a[m], nCol)) && LeastPreferred(a, nCol, x)
    ensures Floor(a, Weight(x))
  {
  }

  lemma OnlyOne(a: seq<Sample>, nCol: nat, i: nat)
    requires i < |a| && (forall m :: 0 <= m < |a| ==> Shaped(a[m], nCol)) && forall m :: 0 <= m < i ==> a[m].isPSample
    ensures LeastPreferred(a[..i + 1], nCol, a[i])
  {
    PostIrreflexive(nCol, a[i], a[i].iCol + 1);
  }

  /** The sample array between insertions. */
  ghost predicate Store(c: seq<Pushed>, nCol: nat, mxSample: nat, a: seq<Sample>, iMin: nat, z: nat) {
    Each(a, FitP(c, nCol)) && Ascending(a) && Each(a, FullP(z)) && Evictable(a, mxSample, iMin)
  }

  lemma FullWeakens(a: seq<Sample>, z: nat, y: nat)
    requires Each(a, FullP(z)) && z <= y
    ensures Each(a, FullP(y))
  {
  }

  lemma AllShaped(c: seq<Pushed>, nCol: nat, a: seq<Sample>)
    requires Each(a, FitP(c, nCol))
    ensures forall m :: 0 <= m < |a| ==> Shaped(a[m], nCol)
  {
  }

  /** Puts a sample of the latest row at the end, giving up the least preferred one when the array is full. */
  method Place(a: seq<Sample>, iMin: nat, mxSample: nat, nCol: nat, x: Sample, ghost c: seq<Pushed>, ghost z: nat,
               ghost p: Sample -> bool)
    returns (b: seq<Sample>, iMin': nat)
    requires mxSample > 0 && Store(c, nCol, mxSample, a, iMin, z) && Each(a, p)
    requires FitP(c, nCol)(x) && FullP(z)(x) && p(x) && Before(a, RowOf(x))
    requires |Periodic(a) + PeriodicRow(x)| < mxSample
    ensures Store(c, nCol, mxSample, b, iMin', z) && Each(b, p)
    ensures b == (if |a| < mxSample || iMin >= |a| then a else Without(a, iMin)) + [x]
    ensures Periodic(b) == Periodic(a) + PeriodicRow(x)
    ensures (|a| == mxSample && !x.isPSample ==> iMin < |a| && Weight(x) >= Weight(a[iMin])) ==>
              Improves(a, b, mxSample)
  {
    hide IsBetter, Shaped, FitP, FullP, Periodic, Before, Ascending, LeastPreferred, Floor, Weight, Improves;
    if |a| == mxSample && !x.isPSample ==> iMin < |a| && Weight(x) >= Weight(a[iMin]) {
      ImprovesByPlacing(a, iMin, mxSample, x);
    }
    b, iMin' := a, iMin;
    if |a| >= mxSample {
      EvictEach(a, iMin, FitP(c, nCol));
      EvictEach(a, iMin, FullP(z));
      EvictEach(a, iMin, p);
      EvictAscending(a, iMin);
      EvictPeriodic(a, iMin);
      b := Without(a, iMin);
    }
    AppendEach(b, x, FitP(c, nCol));
    AppendEach(b, x, FullP(z));
    AppendEach(b, x, p);
    AppendAscending(b, x);
    b := b + [x];
    if |b| >= mxSample {
      AllShaped(c, nCol, b);
      iMin' := FindMin(b, nCol);
    }
  }

  /** The present run of column i has a sample. */
  ghost predicate Sampled(c: seq<Pushed>, i: nat, a: seq<Sample>) {
    |c| > 0 && exists m :: 0 <= m < |a| && StartOf(c, i, |c| - 1) <= RowOf(a[m])
  }

  /** A sample that misses its count for column i is one of the present run. */
  lemma MissingIsSample(c: seq<Pushed>, nCol: nat, k: nat, i: nat, a: seq<Sample>, m: nat, cur: Sample)
    requires Each(a, PartP(c, nCol, k, i)) && i < nCol - 1 && IsCurrent(c, nCol, cur) && m < |a| && |a[m].anEq| == nCol
    requires a[m].anEq[i] == 0
    ensures |c| > 0 && StartOf(c, i, |c| - 1) <= RowOf(a[m]) < |c| && Sampled(c, i, a)
  {
  }

  /** The present run of a column has as many rows as the current row counts, and ends with it. */
  lemma PresentRun(c: seq<Pushed>, nCol: nat, cur: Sample, i: nat)
    requires IsCurrent(c, nCol, cur) && i < nCol
    ensures |c| > 0 && |cur.anEq| == nCol && RunSize(c, i, |c| - 1) == cur.anEq[i] && EndOf(c, i, |c| - 1) == |c|
  {
    LastRun(c, i, |c| - 1);
  }

  lemma ServedBy(c: seq<Pushed>, nCol: nat, i: nat, b: seq<Sample>, m: nat, mxSample: nat, cur: Sample)
    requires IsCurrent(c, nCol, cur) && i < nCol && m < |b|
    requires StartOf(c, i, |c| - 1) <= RowOf(b[m]) < |c| && (b[m].isPSample || Weight(b[m]) >= cur.anEq[i])
    ensures Served(c, i, |c| - 1, b, mxSample)
  {
    PresentRun(c, nCol, cur, i);
    assert Serves(c, i, |c| - 1, b[m]);
  }

  lemma FullServes(c: seq<Pushed>, i: nat, a: seq<Sample>, mxSample: nat, w: nat)
    requires |c| > 0 && |a| == mxSample && Floor(a, w) && RunSize(c, i, |c| - 1) <= w
    ensures Served(c, i, |c| - 1, a, mxSample)
  {
  }

  /** The sample lacks its count for column i. */
  predicate Lacks(x: Sample, i: nat) {
    i < |x.anEq| && x.anEq[i] == 0
  }

  ghost predicate Outranks(nCol: nat, x: Sample, y: Sample) {
    Shaped(x, nCol) && Shaped(y, nCol) && IsBetter(nCol, x, y)
  }

  /**
   What offering x for column i makes of the array: nothing when a periodic sample of the run lacks its count; the
   most preferred sample of the run that lacks it is kept for the run, if there is one; otherwise x goes last,
   without the counts of the runs that go on, and a full array gives up the sample at iMin.
   */
  ghost predicate AsOffered(a: seq<Sample>, b: seq<Sample>, iMin: nat, mxSample: nat, nCol: nat, i: nat, x: Sample)
    requires i < |x.anEq|
  {
    if exists m :: 0 <= m < |a| && Lacks(a[m], i) && a[m].isPSample then b == a
    else if exists m :: 0 <= m < |a| && Lacks(a[m], i) then
      exists u: nat ::
        && u < |a| && Lacks(a[u], i) && (forall m :: 0 <= m < |a| && Lacks(a[m], i) ==> !Outranks(nCol, a[m], a[u]))
        && b == a[u := Upgraded(a[u], i, x.anEq[i])]
    else b == (if |a| < mxSample || iMin >= |a| then a else Without(a, iMin)) + [x.(anEq := ZeroFirst(x.anEq, i))]
  }

  /** Offers the best row of a closing run of column i to the sample array. */
  method InsertBest(a: seq<Sample>, iMin: nat, z: nat, mxSample: nat, nCol: nat, i: nat, best: Sample,
                    ghost c: seq<Pushed>, ghost k: nat, cur: Sample)
    returns (b: seq<Sample>, iMin': nat, z': nat)
    requires mxSample > 0 && Store(c, nCol, mxSample, a, iMin, z) && Each(a, PartP(c, nCol, k, i))
    requires k <= i < nCol - 1 && Changes(c, nCol) && IsCurrent(c, nCol, cur) && IsBest(c, nCol, i, best)
    requires |Periodic(a)| < mxSample
    ensures Store(c, nCol, mxSample, b, iMin', z') && Each(b, PartP(c, nCol, k, i - 1)) && Periodic(b) == Periodic(a)
    ensures Sampled(c, i, b)
    ensures i < |best.anEq| && i < |cur.anEq| && |c| > 0 && Served(c, i, |c| - 1, b, mxSample)
    ensures AsOffered(a, b, iMin, mxSample, nCol, i, best.(anEq := best.anEq[i := cur.anEq[i]]))
    ensures (|a| == mxSample ==> iMin < |a| && cur.anEq[i] >= Weight(a[iMin])) ==> Improves(a, b, mxSample)
  {
    hide *;
    z' := if i > z then i else z;
    StoreParts(c, nCol, mxSample, a, iMin, z);
    StoreFits(c, nCol, mxSample, a, iMin, z);
    AllShaped(c, nCol, a);
    AllLong(a, nCol);
    FullWeakens(a, z, z');
    OfferShaped(c, nCol, i, best, cur);
    var x := best.(anEq := best.anEq[i := cur.anEq[i]]);
    var r := FindShared(a, i, x, nCol, c, k, cur);
    b, iMin' := a, iMin;
    match r
    case Covered =>
      ghost var m :| 0 <= m < |a| && a[m].anEq[i] == 0 && a[m].isPSample;
      MissingIsSample(c, nCol, k, i, a, m, cur);
      PartWeakens(c, nCol, k, i, a);
      StoreWhole(c, nCol, mxSample, a, iMin, z');
      ServedBy(c, nCol, i, b, m, mxSample, cur);
      ImprovesItself(a, mxSample);
      OfferCovered(a, iMin, mxSample, nCol, i, x, m);
    case UpgradeAt(u) =>
      MissingIsSample(c, nCol, k, i, a, u, cur);
      UpgradeKeeps(c, nCol, k, i, a, u, cur, z');
      NewIsBetter(a, u, i, x, nCol, c, k, cur);
      b := a[u := Upgraded(a[u], i, x.anEq[i])];
      SameRow(a[u], i, x.anEq[i]);
      iMin' := Resettle(b, iMin, mxSample, nCol, c);
      StoreWhole(c, nCol, mxSample, b, iMin', z');
      UpgradeImproves(a, u, i, x, nCol, mxSample);
      ServedBy(c, nCol, i, b, u, mxSample, cur);
      SampledBy(c, i, b, u);
      OfferUpgrades(a, iMin, mxSample, nCol, i, x, u);
    case Nobody =>
      NoneMissing(c, nCol, k, i, a);
      PartWeakens(c, nCol, k, i, a);
      StoreWhole(c, nCol, mxSample, a, iMin, z');
      BestFits(c, nCol, k, i, best, cur, z');
      var y := x.(anEq := ZeroFirst(x.anEq, i));
      BeforeWeakens(a, StartOf(c, i, |c| - 1), RowOf(y));
      NoPeriodicRow(a, y);
      b, iMin' := Place(a, iMin, mxSample, nCol, y, c, z', PartP(c, nCol, k, i - 1));
      PlacedFits(c, nCol, y);
      ZeroedWeight(x, i);
      ServedBy(c, nCol, i, b, |b| - 1, mxSample, cur);
      SampledBy(c, i, b, |b| - 1);
      OfferPlaces(a, b, iMin, mxSample, nCol, i, x);
  }

  lemma AllLong(a: seq<Sample>, nCol: nat)
    requires forall m :: 0 <= m < |a| ==> Shaped(a[m], nCol)
    ensures forall m :: 0 <= m < |a| ==> |a[m].anEq| == nCol
  {
  }

  lemma SampledBy(c: seq<Pushed>, i: nat, a: seq<Sample>, m: nat)
    requires |c| > 0 && m < |a| && StartOf(c, i, |c| - 1) <= RowOf(a[m])
    ensures Sampled(c, i, a)
  {
  }

  lemma NoPeriodicRow(a: seq<Sample>, y: Sample)
    requires !y.isPSample
    ensures Periodic(a) + PeriodicRow(y) == Periodic(a)
  {
  }

  lemma PlacedFits(c: seq<Pushed>, nCol: nat, x: Sample)
    requires FitP(c, nCol)(x)
    ensures RowOf(x) < |c|
  {
  }

  lemma ZeroedWeight(x: Sample, i: nat)
    requires i < |x.anEq| && x.iCol == i
    ensures Weight(x.(anEq := ZeroFirst(x.anEq, i))) == x.anEq[i]
  {
  }

  lemma OfferCovered(a: seq<Sample>, iMin: nat, mxSample: nat, nCol: nat, i: nat, x: Sample, m: nat)
    requires i < |x.anEq| && m < |a| && i < |a[m].anEq| && a[m].anEq[i] == 0 && a[m].isPSample
    ensures AsOffered(a, a, iMin, mxSample, nCol, i, x)
  {
    assert Lacks(a[m], i);
  }

  lemma OfferUpgrades(a: seq<Sample>, iMin: nat, mxSample: nat, nCol: nat, i: nat, x: Sample, u: nat)
    requires i < nCol && i < |x.anEq| && u < |a| && i < |a[u].anEq| && a[u].anEq[i] == 0
    requires forall m :: 0 <= m < |a| ==> Shaped(a[m], nCol)
    requires forall m :: 0 <= m < |a| && i < |a[m].anEq| && a[m].anEq[i] == 0 ==> !a[m].isPSample
    requires BestMissing(a, nCol, i, 0, a[u])
    ensures AsOffered(a, a[u := Upgraded(a[u], i, x.anEq[i])], iMin, mxSample, nCol, i, x)
  {
    assert Lacks(a[u], i);
  }

  lemma OfferPlaces(a: seq<Sample>, b: seq<Sample>, iMin: nat, mxSample: nat, nCol: nat, i: nat, x: Sample)
    requires i < |x.anEq| && forall m :: 0 <= m < |a| ==> i < |a[m].anEq| && a[m].anEq[i] != 0
    requires b == (if |a| < mxSample || iMin >= |a| then a else Without(a, iMin)) + [x.(anEq := ZeroFirst(x.anEq, i))]
    ensures AsOffered(a, b, iMin, mxSample, nCol, i, x)
  {
  }

  /** A sample that is kept for a coarser run weighs no less. */
  lemma UpgradeImproves(a: seq<Sample>, u: nat, i: nat, x: Sample, nCol: nat, mxSample: nat)
    requires u < |a| && Shaped(x, nCol) && Shaped(a[u], nCol) && x.iCol == i < nCol && IsBetter(nCol, x, a[u])
    ensures Improves(a, a[u := Upgraded(a[u], i, x.anEq[i])], mxSample)
    ensures Weight(Upgraded(a[u], i, x.anEq[i])) == x.anEq[i]
  {
    ImprovesInPlace(a, a[u := Upgraded(a[u], i, x.anEq[i])], mxSample);
  }

  lemma StoreFits(c: seq<Pushed>, nCol: nat, mxSample: nat, a: seq<Sample>, iMin: nat, z: nat)
    requires Store(c, nCol, mxSample, a, iMin, z)
    ensures |a| <= mxSample
  {
  }

  lemma StoreWhole(c: seq<Pushed>, nCol: nat, mxSample: nat, a: seq<Sample>, iMin: nat, z: nat)
    requires Each(a, FitP(c, nCol)) && Ascending(a) && Each(a, FullP(z)) && Evictable(a, mxSample, iMin)
    ensures Store(c, nCol, mxSample, a, iMin, z)
  {
  }

  lemma OfferShaped(c: seq<Pushed>, nCol: nat, i: nat, best: Sample, cur: Sample)
    requires IsBest(c, nCol, i, best) && IsCurrent(c, nCol, cur)
    ensures |c| > 0 && i < nCol - 1 && best.iCol == i && |best.anEq| == |cur.anEq| == nCol
    ensures Shaped(best.(anEq := best.anEq[i := cur.anEq[i]]), nCol)
  {
  }

  lemma SameRow(x: Sample, i: nat, n: nat)
    requires i < |x.anEq|
    ensures RowOf(Upgraded(x, i, n)) == RowOf(x)
  {
  }

  lemma BeforeWeakens(a: seq<Sample>, r: nat, s: nat)
    requires Before(a, r) && r <= s
    ensures Before(a, s)
  {
  }

  /** The sample of a closing run is fit for the array. */
  lemma BestFits(c: seq<Pushed>, nCol: nat, k: nat, i: nat, best: Sample, cur: Sample, z: nat)
    requires IsBest(c, nCol, i, best) && IsCurrent(c, nCol, cur) && Changes(c, nCol) && k <= i <= z
    ensures |c| > 0 && i < |best.anEq| && i < |cur.anEq|
    ensures var x := best.(anEq := ZeroFirst(best.anEq[i := cur.anEq[i]], i));
            && FitP(c, nCol)(x) && PartP(c, nCol, k, i - 1)(x) && FullP(z)(x) && !x.isPSample
            && StartOf(c, i, |c| - 1) <= RowOf(x)
  {
    BestIsPart(c, nCol, k, i, best, cur);
  }

  /** A full array looks for the next sample to give up. */
  method Resettle(a: seq<Sample>, iMin: nat, mxSample: nat, nCol: nat, ghost c: seq<Pushed>) returns (iMin': nat)
    requires Each(a, FitP(c, nCol)) && |a| <= mxSample && |Periodic(a)| < mxSample
    ensures Evictable(a, mxSample, iMin')
  {
    AllShaped(c, nCol, a);
    iMin' := iMin;
    if |a| >= mxSample {
      iMin' := FindMin(a, nCol);
    }
  }

  lemma CountedIsPart(c: seq<Pushed>, nCol: nat, k: nat, a: seq<Sample>)
    requires nCol > 0 && Each(a, CountedP(c, nCol, nCol - 1))
    ensures Each(a, PartP(c, nCol, k, nCol - 2))
  {
  }

  lemma FilledFits(c: seq<Pushed>, nCol: nat, k: nat, x: Sample, cur: Sample)
    requires FitP(c, nCol)(x) && PartP(c, nCol, k, k as int - 1)(x) && IsCurrent(c, nCol, cur) && k < nCol
    ensures |cur.anEq| == |x.anEq|
    ensures var y := Filled(x, k, cur);
            && FitP(c, nCol)(y) && CountedP(c, nCol, k)(y) && FullP(k)(y)
            && RowOf(y) == RowOf(x) && y.isPSample == x.isPSample
            && Weight(y) >= Weight(x) && (!x.isPSample ==> Weight(y) == Weight(x))
  {
    FilledIsCounted(c, nCol, k, x, cur);
  }

  /** Fills the counts of the runs that a change in column k closes. */
  method FillAll(a: seq<Sample>, k: nat, cur: Sample, mxSample: nat, iMin: nat, ghost z: nat, ghost c: seq<Pushed>,
                 nCol: nat)
    returns (b: seq<Sample>)
    requires Store(c, nCol, mxSample, a, iMin, z) && Each(a, PartP(c, nCol, k, k as int - 1)) && IsCurrent(c, nCol, cur)
    requires k < nCol
    ensures Store(c, nCol, mxSample, b, iMin, k) && Each(b, CountedP(c, nCol, k)) && Periodic(b) == Periodic(a)
    ensures Improves(a, b, mxSample)
  {
    hide FitP, PartP, CountedP, FullP, IsCurrent, Weight, Improves, Periodic;
    b := [];
    for m := 0 to |a|
      invariant |b| == m && Each(b, FitP(c, nCol)) && Each(b, CountedP(c, nCol, k)) && Each(b, FullP(k))
      invariant forall n :: 0 <= n < m ==> AtLeast(b[n], a[n]) && (!a[n].isPSample ==> Weight(b[n]) == Weight(a[n]))
    {
      assert FitP(c, nCol)(a[m]) && PartP(c, nCol, k, k as int - 1)(a[m]);
      FilledFits(c, nCol, k, a[m], cur);
      b := b + [Filled(a[m], k, cur)];
    }
    SamePeriodic(a, b);
    ImprovesInPlace(a, b, mxSample);
  }

  lemma {:induction false} SamePeriodic(a: seq<Sample>, b: seq<Sample>)
    requires |a| == |b| && forall n :: 0 <= n < |a| ==> PeriodicRow(a[n]) == PeriodicRow(b[n])
    ensures Periodic(a) == Periodic(b)
  {
    if a != [] {
      SamePeriodic(a[..|a| - 1], b[..|b| - 1]);
    }
  }

  /** With nothing missing from the closing column on, the samples are already counted. */
  lemma NothingToFill(c: seq<Pushed>, nCol: nat, k: nat, a: seq<Sample>, z: nat, cur: Sample)
    requires Each(a, PartP(c, nCol, k, k as int - 1)) && Each(a, FullP(z)) && z <= k < nCol && IsCurrent(c, nCol, cur)
    ensures Each(a, CountedP(c, nCol, k))
  {
  }

  ghost predicate Bests(c: seq<Pushed>, nCol: nat, aBest: seq<Sample>) {
    |aBest| == nCol - 1 && forall i :: 0 <= i < nCol - 1 ==> IsBest(c, nCol, i, aBest[i])
  }

  /** The same best rows below column k; above it only their form is kept. */
  ghost predicate BestsBelow(old_: seq<Sample>, aBest: seq<Sample>, nCol: nat, k: int) {
    && |aBest| == |old_| == nCol - 1
    && forall i :: 0 <= i < nCol - 1 ==> Shaped(aBest[i], nCol) && (i < k ==> aBest[i] == old_[i])
  }

  /** Offers the best row of one closing run, unless it is worse than all there is. */
  method OfferOne(a: seq<Sample>, iMin: nat, z: nat, mxSample: nat, nCol: nat, i: nat, best: Sample, cur: Sample,
                  ghost k: nat, ghost c: seq<Pushed>)
    returns (a': seq<Sample>, iMin': nat, z': nat)
    requires mxSample > 0 && k <= i < nCol - 1 && Store(c, nCol, mxSample, a, iMin, z) && Each(a, PartP(c, nCol, k, i))
    requires Changes(c, nCol) && IsCurrent(c, nCol, cur) && IsBest(c, nCol, i, best) && |Periodic(a)| < mxSample
    ensures Store(c, nCol, mxSample, a', iMin', z') && Each(a', PartP(c, nCol, k, i - 1)) && Periodic(a') == Periodic(a)
    ensures Sampled(c, i, a') || (a' == a && |a| == mxSample)
    ensures |c| > 0 && Served(c, i, |c| - 1, a', mxSample) && Improves(a, a', mxSample)
    ensures i < |best.anEq| && i < |cur.anEq|
    ensures var x := best.(anEq := best.anEq[i := cur.anEq[i]]);
            if |a| < mxSample || (iMin < |a| && Outranks(nCol, x, a[iMin])) then
              AsOffered(a, a', iMin, mxSample, nCol, i, x)
            else a' == a
  {
    hide *;
    StoreParts(c, nCol, mxSample, a, iMin, z);
    StoreFits(c, nCol, mxSample, a, iMin, z);
    AllShaped(c, nCol, a);
    OfferShaped(c, nCol, i, best, cur);
    PresentRun(c, nCol, cur, i);
    MinFacts(a, mxSample, iMin);
    var x := best.(anEq := best.anEq[i := cur.anEq[i]]);
    if |a| == mxSample {
      OfferDecides(nCol, x, a[iMin], i);
    }
    if |a| < mxSample || IsBetter(nCol, x, a[iMin]) {
      a', iMin', z' := InsertBest(a, iMin, z, mxSample, nCol, i, best, c, k, cur);
    } else {
      PartWeakens(c, nCol, k, i, a);
      FullServes(c, i, a, mxSample, Weight(a[iMin]));
      ImprovesItself(a, mxSample);
      a', iMin', z' := a, iMin, z;
    }
  }

  lemma MinFacts(a: seq<Sample>, mxSample: nat, iMin: nat)
    requires Evictable(a, mxSample, iMin)
    ensures |a| <= mxSample && (|a| == mxSample ==> iMin < |a| && Floor(a, Weight(a[iMin])))
  {
  }

  /** An offer that is preferred weighs no less, one that is not no more. */
  lemma OfferDecides(nCol: nat, x: Sample, y: Sample, i: nat)
    requires Shaped(x, nCol) && Shaped(y, nCol) && x.iCol == i
    ensures i < |x.anEq| && (if IsBetter(nCol, x, y) then x.anEq[i] >= Weight(y) else x.anEq[i] <= Weight(y))
    ensures Outranks(nCol, x, y) == IsBetter(nCol, x, y)
  {
  }

  lemma BestsShaped(c: seq<Pushed>, nCol: nat, aBest: seq<Sample>, aBest': seq<Sample>, cur: Sample, i: nat)
    requires Bests(c, nCol, aBest) && IsCurrent(c, nCol, cur) && BestsBelow(aBest, aBest', nCol, i + 1) && i < nCol - 1
    ensures |aBest| == |aBest'| == nCol - 1 && IsBest(c, nCol, i, aBest[i]) && Shaped(aBest[i], nCol)
    ensures Shaped(cur, nCol)
  {
  }

  lemma BestsBelowStep(aBest: seq<Sample>, aBest': seq<Sample>, nCol: nat, i: nat, x: Sample)
    requires BestsBelow(aBest, aBest', nCol, i + 1) && i < nCol - 1 && Shaped(x, nCol)
    ensures BestsBelow(aBest, aBest'[i := x], nCol, i)
  {
  }

  lemma BestsBelowStart(c: seq<Pushed>, nCol: nat, aBest: seq<Sample>)
    requires Bests(c, nCol, aBest)
    ensures BestsBelow(aBest, aBest, nCol, nCol - 1)
  {
  }

  /** Offers the best row of every run that a change in column iChng closes, the finest runs first. */
  method OfferAll(a0: seq<Sample>, iMin0: nat, z0: nat, mxSample: nat, nCol: nat, aBest: seq<Sample>, cur: Sample,
                  iChng: nat, ghost c: seq<Pushed>)
    returns (a: seq<Sample>, iMin: nat, z: nat, aBest': seq<Sample>)
    requires mxSample > 0 && iChng < nCol && Store(c, nCol, mxSample, a0, iMin0, z0)
    requires Each(a0, PartP(c, nCol, iChng, nCol - 2))
    requires Changes(c, nCol) && IsCurrent(c, nCol, cur) && Bests(c, nCol, aBest) && |Periodic(a0)| < mxSample
    ensures Store(c, nCol, mxSample, a, iMin, z) && Each(a, PartP(c, nCol, iChng, iChng as int - 1))
    ensures Periodic(a) == Periodic(a0)
    ensures BestsBelow(aBest, aBest', nCol, iChng)
    ensures Improves(a0, a, mxSample)
    ensures AllServed(c, nCol, a0, mxSample, nCol - 1) ==> AllServed(c, nCol, a, mxSample, iChng)
  {
    hide Store, Each, PartP, IsCurrent, IsBest, Bests, Periodic, Changes, BestsBelow;
    hide Improves, Served, AllServed, RowOf;
    ImprovesItself(a0, mxSample);
    a, iMin, z, aBest' := a0, iMin0, z0, aBest;
    BestsBelowStart(c, nCol, aBest);
    var i: int := nCol - 1;
    while i > iChng
      invariant iChng <= i <= nCol - 1
      invariant Store(c, nCol, mxSample, a, iMin, z) && Each(a, PartP(c, nCol, iChng, i - 1))
      invariant Periodic(a) == Periodic(a0)
      invariant BestsBelow(aBest, aBest', nCol, i)
      invariant Improves(a0, a, mxSample)
      invariant AllServed(c, nCol, a0, mxSample, nCol - 1) ==> AllServed(c, nCol, a, mxSample, i)
    {
      ghost var was := a;
      i := i - 1;
      BestsShaped(c, nCol, aBest, aBest', cur, i);
      var x := aBest[i].(anEq := aBest[i].anEq[i := cur.anEq[i]]);
      BestsBelowStep(aBest, aBest', nCol, i, x);
      aBest' := aBest'[i := x];
      a, iMin, z := OfferOne(a, iMin, z, mxSample, nCol, i, aBest[i], cur, iChng, c);
      ImprovesTwice(a0, was, a, mxSample);
      if AllServed(c, nCol, a0, mxSample, nCol - 1) {
        AllServedStays(c, nCol, was, a, mxSample, i + 1);
        ServedOneMore(c, nCol, a, mxSample, i);
      }
    }
  }

  /**
   Column iChng is about to change: offers the best row of each closing run, then fills in the
   counts of the closing runs.
   */
  method CloseRuns(a0: seq<Sample>, iMin0: nat, z0: nat, mxSample: nat, nCol: nat, aBest: seq<Sample>, cur: Sample,
                   iChng: nat, ghost c: seq<Pushed>)
    returns (a: seq<Sample>, iMin: nat, z: nat, aBest': seq<Sample>)
    requires mxSample > 0 && iChng < nCol && Store(c, nCol, mxSample, a0, iMin0, z0)
    requires Each(a0, CountedP(c, nCol, nCol - 1))
    requires Changes(c, nCol) && IsCurrent(c, nCol, cur) && Bests(c, nCol, aBest) && |Periodic(a0)| < mxSample
    ensures Store(c, nCol, mxSample, a, iMin, z) && Each(a, CountedP(c, nCol, iChng)) && Periodic(a) == Periodic(a0)
    ensures BestsBelow(aBest, aBest', nCol, iChng)
    ensures AllServed(c, nCol, a0, mxSample, nCol - 1) ==> AllServed(c, nCol, a, mxSample, iChng)
  {
    hide *;
    CountedIsPart(c, nCol, iChng, a0);
    a, iMin, z, aBest' := OfferAll(a0, iMin0, z0, mxSample, nCol, aBest, cur, iChng, c);
    if iChng < z {
      ghost var was := a;
      a := FillAll(a, iChng, cur, mxSample, iMin, z, c, nCol);
      z := iChng;
      if AllServed(c, nCol, was, mxSample, iChng) {
        AllServedStays(c, nCol, was, a, mxSample, iChng);
      }
    } else {
      StoreParts(c, nCol, mxSample, a, iMin, z);
      NothingToFill(c, nCol, iChng, a, z, cur);
    }
  }

  lemma StoreParts(c: seq<Pushed>, nCol: nat, mxSample: nat, a: seq<Sample>, iMin: nat, z: nat)
    requires Store(c, nCol, mxSample, a, iMin, z)
    ensures Each(a, FitP(c, nCol)) && Ascending(a) && Each(a, FullP(z)) && Evictable(a, mxSample, iMin)
  {
  }

  /** The row after the current one, which differs from it in column iChng and, maybe, in later ones. */
  method NextRow(cur: Sample, iChng: nat, nCol: nat) returns (y: Sample)
    requires Shaped(cur, nCol) && iChng < nCol
    ensures Shaped(y, nCol) && y.isPSample == cur.isPSample
    ensures forall i :: 0 <= i < iChng ==>
              y.anEq[i] == cur.anEq[i] + 1 && y.anLt[i] == cur.anLt[i] && y.anDLt[i] == cur.anDLt[i]
    ensures forall i :: iChng <= i < nCol ==>
              y.anEq[i] == 1 && y.anLt[i] == cur.anLt[i] + cur.anEq[i] && y.anDLt[i] == cur.anDLt[i] + 1
  {
    var eq, lt, dlt := cur.anEq, cur.anLt, cur.anDLt;
    for i := 0 to iChng
      invariant |eq| == nCol
      invariant forall j :: 0 <= j < nCol ==> eq[j] == if j < i then cur.anEq[j] + 1 else cur.anEq[j]
    {
      eq := eq[i := eq[i] + 1];
    }
    for i := iChng to nCol
      invariant |eq| == |lt| == |dlt| == nCol
      invariant forall j :: 0 <= j < iChng ==>
                eq[j] == cur.anEq[j] + 1 && lt[j] == cur.anLt[j] && dlt[j] == cur.anDLt[j]
      invariant forall j :: iChng <= j < i ==>
                eq[j] == 1 && lt[j] == cur.anLt[j] + cur.anEq[j] && dlt[j] == cur.anDLt[j] + 1
      invariant forall j :: i <= j < nCol ==> eq[j] == cur.anEq[j] && lt[j] == cur.anLt[j] && dlt[j] == cur.anDLt[j]
    {
      dlt := dlt[i := dlt[i] + 1];
      lt := lt[i := lt[i] + eq[i]];
      eq := eq[i := 1];
    }
    y := cur.(anEq := eq, anLt := lt, anDLt := dlt);
  }

  /** The pseudo-random hash that decides between samples of equal counts. */
  function NextPrn(x: nat): nat { (x * 1103515245 + 12345) % 0x1_0000_0000 }

  /** The first row. */
  lemma FirstCurrent(nCol: nat, w: Pushed, y: Sample)
    requires Shaped(y, nCol) && y.rowid == w.rowid
    requires forall j :: 0 <= j < nCol ==> y.anEq[j] == 1 && y.anLt[j] == 0 && y.anDLt[j] == 0
    ensures IsCurrent([w], nCol, y)
  {
  }

  /** The samples after a push, when the counts of the closing runs have been filled in. */
  lemma StoreAppended(c: seq<Pushed>, nCol: nat, mxSample: nat, a: seq<Sample>, iMin: nat, z: nat, w: Pushed)
    requires Store(c, nCol, mxSample, a, iMin, z) && Each(a, CountedP(c, nCol, w.chng)) && Changes(c, nCol)
    requires w.chng < nCol
    ensures Store(c + [w], nCol, mxSample, a, iMin, z) && Each(a, CountedP(c + [w], nCol, nCol - 1)) && Before(a, |c|)
  {
    forall m | 0 <= m < |a|
      ensures FitP(c + [w], nCol)(a[m]) && CountedP(c + [w], nCol, nCol - 1)(a[m]) && RowOf(a[m]) < |c|
    {
      assert FitP(c, nCol)(a[m]) && CountedP(c, nCol, w.chng)(a[m]);
      CountedAppended(c, nCol, w, a[m]);
    }
  }

  /** The current row as a periodic sample: only its last count is known. */
  lemma CurrentFits(c: seq<Pushed>, nCol: nat, cur: Sample)
    requires IsCurrent(c, nCol, cur) && Changes(c, nCol)
    ensures var x := cur.(isPSample := true, iCol := 0, anEq := ZeroFirst(cur.anEq, nCol - 1));
            FitP(c, nCol)(x) && CountedP(c, nCol, nCol - 1)(x) && FullP(nCol - 1)(x) && RowOf(x) == |c| - 1
  {
  }

  function Max(x: nat, y: nat): nat { if x < y then y else x }

  /** Takes the current row as a sample when it is the last one of a period. */
  method PushPeriodic(a: seq<Sample>, iMin: nat, z: nat, mxSample: nat, nCol: nat, cur: Sample, nPSample: nat,
                      ghost c: seq<Pushed>)
    returns (b: seq<Sample>, iMin': nat, z': nat)
    requires mxSample > 0 && nPSample > 0 && Changes(c, nCol) && IsCurrent(c, nCol, cur)
    requires Store(c, nCol, mxSample, a, iMin, z) && Each(a, CountedP(c, nCol, nCol - 1)) && Before(a, |c| - 1)
    requires PeriodsKept(a, |c| - 1, nPSample) && LeavesRoom(|c|, nPSample, mxSample)
    ensures Store(c, nCol, mxSample, b, iMin', z') && Each(b, CountedP(c, nCol, nCol - 1))
    ensures PeriodsKept(b, |c|, nPSample)
    ensures Improves(a, b, mxSample)
  {
    ImprovesItself(a, mxSample);
    var nLt := cur.anLt[nCol - 1];
    assert nLt == |c| - 1;
    NextPeriod(nLt, nPSample);
    CurrentFits(c, nCol, cur);
    NextEnd((nLt + 1) / nPSample, nPSample);
    hide Improves, Store, Each, FitP, CountedP, FullP, IsCurrent, Periodic, Before, Changes, PeriodEnds, PeriodEnd;
    b, iMin', z' := a, iMin, z;
    if nLt / nPSample != (nLt + 1) / nPSample {
      z' := Max(z, nCol - 1);
      StoreWeakens(c, nCol, mxSample, a, iMin, z, z');
      var x := cur.(isPSample := true, iCol := 0, anEq := ZeroFirst(cur.anEq, nCol - 1));
      StillFull(x, nCol - 1, z');
      b, iMin' := Place(a, iMin, mxSample, nCol, x, c, z', CountedP(c, nCol, nCol - 1));
    }
  }

  lemma NextEnd(k: nat, q: nat)
    ensures k > 0 ==> PeriodEnds(k, q) == PeriodEnds(k - 1, q) + [PeriodEnd(k, q)]
    ensures |PeriodEnds(k, q)| == k
  {
  }

  lemma NextPeriod(n: nat, q: nat)
    requires q > 0
    ensures (n + 1) / q == n / q || ((n + 1) / q == n / q + 1 && n == PeriodEnd((n + 1) / q, q))
  {
    var k := n / q;
    assert k * q <= n < k * q + q;
    if n + 1 < k * q + q {
      DivIs(n + 1, q, k);
    } else {
      assert (k + 1) * q == k * q + q;
      DivIs(n + 1, q, k + 1);
    }
  }

  /** The number of rows in a period. */
  function PeriodLength(nEst: nat, mxSample: nat): (q: nat)
    ensures q > 0
  {
    nEst / (mxSample / 3 + 1) + 1
  }

  /** So few periods are complete after n rows that their samples leave room in the array. */
  ghost predicate LeavesRoom(n: nat, q: nat, mxSample: nat) {
    q > 0 && n / q < mxSample
  }

  /** With no more rows than were counted at most a third of the samples are periodic. */
  lemma FewPeriods(n: nat, nEst: nat, mxSample: nat)
    requires n <= nEst && mxSample > 0
    ensures n / PeriodLength(nEst, mxSample) <= mxSample / 3
    ensures LeavesRoom(n, PeriodLength(nEst, mxSample), mxSample)
  {
    var d := mxSample / 3 + 1;
    var q := nEst / d + 1;
    assert nEst < d * q;
    if n / q >= d {
      assert n / q * q <= n;
      if n / q > d {
        Multiple(d, n / q, q);
      }
    }
  }

  /** The last row of the k-th period. */
  ghost function PeriodEnd(k: nat, q: nat): int {
    k * q - 1
  }

  /** The last rows of the first k periods. */
  ghost function PeriodEnds(k: nat, q: nat): (r: seq<int>)
    ensures |r| == k
    ensures forall i :: 0 <= i < k ==> r[i] == PeriodEnd(i + 1, q)
  {
    if k == 0 then [] else PeriodEnds(k - 1, q) + [PeriodEnd(k, q)]
  }

  /** The periodic samples are those of the last rows of the complete periods of the first n rows. */
  ghost predicate PeriodsKept(a: seq<Sample>, n: nat, q: nat) {
    q > 0 && Periodic(a) == PeriodEnds(n / q, q)
  }

  ghost predicate HasPeriodic(a: seq<Sample>, r: nat) {
    exists m :: 0 <= m < |a| && a[m].isPSample && RowOf(a[m]) == r
  }

  lemma {:induction false} PeriodicRows(a: seq<Sample>, r: nat)
    ensures HasPeriodic(a, r) <==> r in Periodic(a)
  {
    if a != [] {
      var b := a[..|a| - 1];
      PeriodicRows(b, r);
      if HasPeriodic(b, r) {
        var m :| 0 <= m < |b| && b[m].isPSample && RowOf(b[m]) == r;
        assert a[m] == b[m];
      }
      if HasPeriodic(a, r) {
        var m :| 0 <= m < |a| && a[m].isPSample && RowOf(a[m]) == r;
        assert m < |a| - 1 ==> b[m] == a[m];
      }
    }
  }

  /** A row has a periodic sample exactly when it is the last one of a period. */
  lemma KeptIsPeriodEnd(a: seq<Sample>, n: nat, q: nat, r: nat)
    requires PeriodsKept(a, n, q) && r < n
    ensures HasPeriodic(a, r) <==> (r + 1) % q == 0
  {
    PeriodicRows(a, r);
    var k := (r + 1) / q;
    assert r + 1 == k * q + (r + 1) % q;
    if r in Periodic(a) {
      var i :| 0 <= i < n / q && PeriodEnds(n / q, q)[i] == r;
      assert r + 1 == (i + 1) * q;
      DivModIs(r + 1, q, i + 1, 0);
    }
    if (r + 1) % q == 0 {
      KthPeriod(r + 1, n, q);
      assert PeriodEnds(n / q, q)[k - 1] == PeriodEnd(k, q) == r;
    }
  }

  lemma KthPeriod(m: nat, n: nat, q: nat)
    requires q > 0 && 0 < m <= n && m % q == 0
    ensures 0 < m / q <= n / q
  {
    var k, l := m / q, n / q;
    assert m == k * q && n < l * q + q;
    if l < k {
      Multiple(l, k, q);
    }
  }

  lemma StillFull(x: Sample, z: nat, y: nat)
    requires FullP(z)(x) && y == Max(y, z)
    ensures FullP(y)(x)
  {
  }

  lemma StoreWeakens(c: seq<Pushed>, nCol: nat, mxSample: nat, a: seq<Sample>, iMin: nat, z: nat, y: nat)
    requires Store(c, nCol, mxSample, a, iMin, z) && y == Max(z, y)
    ensures Store(c, nCol, mxSample, a, iMin, y)
  {
  }

  lemma PlacedAppended(c: seq<Pushed>, nCol: nat, x: Sample, w: Pushed)
    requires Placed(c, nCol, x)
    ensures Placed(c + [w], nCol, x)
  {
    forall j | 0 <= j < nCol
      ensures x.anLt[j] == StartOf(c + [w], j, RowOf(x)) && x.anDLt[j] == RunsBefore(c + [w], j, RowOf(x))
    {
      Appended(c, w, j, RowOf(x));
    }
  }

  /** A row that shares the columns up to i + 1 with its successor is replaced by it. */
  lemma SuccessorIsBetter(c: seq<Pushed>, nCol: nat, i: nat, best: Sample, w: Pushed, cur: Sample)
    requires IsBest(c, nCol, i, best) && i + 1 < w.chng < nCol && IsCurrent(c + [w], nCol, cur)
    requires RowOf(best) == |c| - 1
    ensures IsBetterPost(nCol, cur, best, i + 1)
  {
  }

  /** A best row that is not replaced is one whose own run of one column more has ended with it. */
  lemma BestStays(c: seq<Pushed>, nCol: nat, i: nat, best: Sample, w: Pushed, cur: Sample)
    requires IsBest(c, nCol, i, best) && i < w.chng < nCol && IsCurrent(c + [w], nCol, cur)
    requires !IsBetterPost(nCol, cur, best, i + 1)
    ensures IsBest(c + [w], nCol, i, best)
  {
    hide StartOf, EndOf, NextChange, RunsBefore, IsBetterPost;
    PlacedAppended(c, nCol, best, w);
    AppendedLast(c, w, i);
    Appended(c, w, i + 1, RowOf(best));
    if RowOf(best) == |c| - 1 && i + 1 < w.chng {
      SuccessorIsBetter(c, nCol, i, best, w, cur);
    }
  }

  /** The current row as the best of a run. */
  lemma BestIsCurrent(c: seq<Pushed>, nCol: nat, i: nat, cur: Sample)
    requires IsCurrent(c, nCol, cur) && i < nCol - 1 && !cur.isPSample
    ensures IsBest(c, nCol, i, cur.(iCol := i))
  {
  }

  /** Takes the current row for the best of its runs where it begins a run or is better. */
  method UpdateBests(aBest: seq<Sample>, cur: Sample, iChng: nat, nCol: nat, ghost c: seq<Pushed>, ghost w: Pushed,
                     ghost was: seq<Sample>, ghost hash: nat -> nat)
    returns (r: seq<Sample>)
    requires w.chng == iChng < nCol && Changes(c, nCol) && IsCurrent(c + [w], nCol, cur) && !cur.isPSample
    requires |aBest| == nCol - 1 && forall i :: 0 <= i < nCol - 1 ==> Shaped(aBest[i], nCol)
    requires iChng > 0 ==> Bests(c, nCol, was) && BestsBelow(was, aBest, nCol, iChng) && AllLead(c, nCol, hash, was)
    requires cur.iHash == hash(|c|)
    ensures Bests(c + [w], nCol, r) && AllLead(c + [w], nCol, hash, r)
  {
    hide IsBest, IsBetterPost, Changes, Leads;
    assert Shaped(cur, nCol);
    hide IsCurrent;
    r := aBest;
    for i := 0 to nCol - 1
      invariant |r| == nCol - 1
      invariant forall j :: 0 <= j < i ==> IsBest(c + [w], nCol, j, r[j]) && Leads(c + [w], nCol, hash, j, r[j])
      invariant forall j :: i <= j < nCol - 1 ==> r[j] == aBest[j]
    {
      CurrentNamed(c + [w], nCol, cur, cur.iHash, i);
      if i >= iChng {
        NewRun(c, w, i);
        BeginnerLeads(c + [w], nCol, hash, i, cur.(iCol := i));
      } else {
        ExtendedLeads(c, nCol, hash, i, was[i], w, cur.(iCol := i));
      }
      if i >= iChng || IsBetterPost(nCol, cur.(iCol := i), aBest[i], i + 1) {
        BestIsCurrent(c + [w], nCol, i, cur);
        r := r[i := cur.(iCol := i)];
      } else {
        assert IsBest(c, nCol, i, was[i]);
        BestStays(c, nCol, i, aBest[i], w, cur.(iCol := i));
      }
    }
  }

  lemma NewRun(c: seq<Pushed>, w: Pushed, i: nat)
    requires w.chng <= i
    ensures StartOf(c + [w], i, |c|) == |c|
  {
  }

  lemma CurrentNamed(c: seq<Pushed>, nCol: nat, cur: Sample, iHash: nat, i: nat)
    requires IsCurrent(c, nCol, cur) && i < nCol
    ensures IsCurrent(c, nCol, cur.(iHash := iHash, iCol := i))
  {
  }

  class StatAccum {
    const nCol: nat
    const mxSample: nat
    const nEst: nat
    const nPSample: nat
    var nRow: nat
    var current: Sample
    var aBest: seq<Sample>
    var a: seq<Sample>
    var iMin: nat
    var nMaxEqZero: nat
    var iPrn: nat
    /** The change columns of the rows pushed so far. */
    ghost var c: seq<Pushed>
    ghost const seed: nat

    ghost predicate Steady()
      reads this
    {
      && nCol > 0 && mxSample > 0 && nPSample == PeriodLength(nEst, mxSample)
      && |c| == nRow && LeavesRoom(nRow, nPSample, mxSample) && Changes(c, nCol)
      && Shaped(current, nCol) && !current.isPSample && |aBest| == nCol - 1
      && (nRow > 0 ==> IsCurrent(c, nCol, current))
      && iPrn == Prn(seed, nRow)
      && (nRow == 0 ==> a == [] && forall j :: 0 <= j < nCol ==> current.anLt[j] == 0 && current.anDLt[j] == 0)
      && Store(c, nCol, mxSample, a, iMin, nMaxEqZero)
      && PeriodsKept(a, nRow, nPSample)
      && AllServed(c, nCol, a, mxSample, nCol - 1)
    }

    ghost predicate Valid()
      reads this
    {
      && Steady()
      && Each(a, CountedP(c, nCol, nCol - 1))
      && (forall i :: 0 <= i < nCol - 1 ==> Shaped(aBest[i], nCol))
      && (nRow > 0 ==> Bests(c, nCol, aBest) && AllLead(c, nCol, HashOf(seed), aBest))
    }

    constructor (nCol: nat, mxSample: nat, nEst: nat, seed: nat)
      requires nCol > 0 && mxSample > 0
      ensures Valid() && c == [] && this.nCol == nCol && this.mxSample == mxSample && this.nEst == nEst
    {
      this.nCol, this.mxSample, this.nEst, this.seed := nCol, mxSample, nEst, seed;
      nPSample := PeriodLength(nEst, mxSample);
      nRow, a, iMin, nMaxEqZero, iPrn, c := 0, [], 0, 0, seed, [];
      var zeros := seq(nCol, _ => 0);
      current := Sample(zeros, zeros, zeros, 0, false, 0, 0);
      aBest := seq(nCol - 1, i requires 0 <= i < nCol - 1 => Sample(zeros, zeros, zeros, 0, false, i, 0));
    }

    /** The periodic samples never fill the array. */
    lemma PeriodicIsFew()
      requires Valid()
      ensures |Periodic(a)| < mxSample
    {
    }

    lemma Facts()
      requires Valid()
      ensures nCol > 0 && mxSample > 0 && nPSample == PeriodLength(nEst, mxSample) && |c| == nRow && Changes(c, nCol)
      ensures nRow > 0 ==> Bests(c, nCol, aBest) && AllLead(c, nCol, HashOf(seed), aBest) && IsCurrent(c, nCol, current)
      ensures iPrn == Prn(seed, nRow)
      ensures Store(c, nCol, mxSample, a, iMin, nMaxEqZero) && Each(a, CountedP(c, nCol, nCol - 1))
      ensures Shaped(current, nCol) && !current.isPSample && |aBest| == nCol - 1 && PeriodsKept(a, nRow, nPSample)
      ensures AllServed(c, nCol, a, mxSample, nCol - 1)
    {
    }

    method PushPrevious(iChng: nat)
      requires Valid() && nRow > 0 && iChng < nCol
      modifies this`a, this`iMin, this`nMaxEqZero, this`aBest
      ensures Store(c, nCol, mxSample, a, iMin, nMaxEqZero) && Each(a, CountedP(c, nCol, iChng))
      ensures Periodic(a) == old(Periodic(a))
      ensures BestsBelow(old(aBest), aBest, nCol, iChng)
      ensures AllServed(c, nCol, a, mxSample, iChng)
    {
      hide *;
      PeriodicIsFew();
      Facts();
      a, iMin, nMaxEqZero, aBest := CloseRuns(a, iMin, nMaxEqZero, mxSample, nCol, aBest, current, iChng, c);
    }

    /** The first row: nothing is sampled yet. */
    method EnterFirst(ghost w: Pushed)
      requires Valid() && nRow == 0
      modifies this`current
      ensures Store([w], nCol, mxSample, a, iMin, nMaxEqZero) && Each(a, CountedP([w], nCol, nCol - 1))
      ensures Before(a, 0) && IsCurrent([w], nCol, current.(rowid := w.rowid)) && !current.isPSample
      ensures current.iCol < nCol
      ensures AllServed([w], nCol, a, mxSample, nCol - 1)
    {
      NoneOver(w, nCol, a, mxSample);
      current := current.(anEq := seq(nCol, _ => 1));
      FirstCurrent(nCol, w, current.(rowid := w.rowid));
      hide CountedP, FitP, FullP;
    }

    /** A later row: closes the runs it ends and makes it the current row. */
    method EnterNext(iChng: nat, ghost w: Pushed)
      requires Valid() && w.chng == iChng < nCol && nRow > 0
      modifies this`a, this`iMin, this`nMaxEqZero, this`aBest, this`current
      ensures Store(c + [w], nCol, mxSample, a, iMin, nMaxEqZero) && Each(a, CountedP(c + [w], nCol, nCol - 1))
      ensures Before(a, |c|) && Periodic(a) == old(Periodic(a))
      ensures IsCurrent(c + [w], nCol, current.(rowid := w.rowid)) && !current.isPSample && current.iCol < nCol
      ensures BestsBelow(old(aBest), aBest, nCol, iChng)
      ensures AllServed(c + [w], nCol, a, mxSample, nCol - 1)
    {
      hide *;
      Facts();
      PushPrevious(iChng);
      ServedAppended(c, nCol, a, mxSample, w);
      StoreAppended(c, nCol, mxSample, a, iMin, nMaxEqZero, w);
      var y := NextRow(current, iChng, nCol);
      ShapedNamed(y, nCol, w.rowid);
      NextCurrent(c, nCol, current, w, y.(rowid := w.rowid));
      current := y;
    }

    /** Takes a row in. */
    method Enter(iChng: nat, ghost w: Pushed)
      requires Valid() && w.chng == iChng < nCol && (nRow == 0 ==> iChng == 0)
      modifies this`a, this`iMin, this`nMaxEqZero, this`aBest, this`current
      ensures Store(c + [w], nCol, mxSample, a, iMin, nMaxEqZero) && Each(a, CountedP(c + [w], nCol, nCol - 1))
      ensures Before(a, nRow) && PeriodsKept(a, nRow, nPSample)
      ensures IsCurrent(c + [w], nCol, current.(rowid := w.rowid)) && !current.isPSample && current.iCol < nCol
      ensures |aBest| == nCol - 1 && forall i :: 0 <= i < nCol - 1 ==> Shaped(aBest[i], nCol)
      ensures AllServed(c + [w], nCol, a, mxSample, nCol - 1)
      ensures iChng > 0 ==> BestsBelow(old(aBest), aBest, nCol, iChng)
    {
      Facts();
      hide Store, Each, CountedP, Before, Periodic, IsCurrent, Shaped, Bests, Changes, AllServed;
      if nRow == 0 {
        EnterFirst(w);
        assert c + [w] == [w];
      } else {
        EnterNext(iChng, w);
      }
    }

    /** The samples the current row gives: a periodic one, and the best rows of its runs. */
    method TakeSamples(iChng: nat, ghost before: seq<Pushed>, ghost w: Pushed, ghost was: seq<Sample>)
      requires nCol > 0 && mxSample > 0 && nPSample == PeriodLength(nEst, mxSample) && w.chng == iChng < nCol
      requires c == before + [w] && |c| == nRow && LeavesRoom(nRow, nPSample, mxSample)
      requires Changes(before, nCol) && Changes(c, nCol)
      requires Store(c, nCol, mxSample, a, iMin, nMaxEqZero) && Each(a, CountedP(c, nCol, nCol - 1))
      requires Before(a, nRow - 1) && PeriodsKept(a, nRow - 1, nPSample) && IsCurrent(c, nCol, current)
      requires !current.isPSample && current.iCol < nCol && |aBest| == nCol - 1
      requires forall i :: 0 <= i < nCol - 1 ==> Shaped(aBest[i], nCol)
      requires iChng > 0 ==> Bests(before, nCol, was) && BestsBelow(was, aBest, nCol, iChng)
      requires iChng > 0 ==> AllLead(before, nCol, HashOf(seed), was)
      requires current.iHash == iPrn == Prn(seed, nRow) == HashOf(seed)(|before|)
      requires AllServed(c, nCol, a, mxSample, nCol - 1)
      modifies this`a, this`iMin, this`nMaxEqZero, this`aBest, this`current
      ensures Valid()
    {
      hide *;
      ghost var a0 := a;
      a, iMin, nMaxEqZero := PushPeriodic(a, iMin, nMaxEqZero, mxSample, nCol, current, nPSample, c);
      AllServedStays(c, nCol, a0, a, mxSample, nCol - 1);
      aBest := UpdateBests(aBest, current, iChng, nCol, before, w, was, HashOf(seed));
      var i := if nCol > 1 then nCol - 2 else current.iCol;
      CurrentNamed(c, nCol, current, current.iHash, i);
      current := current.(iCol := i);
      Assemble();
    }

    /** What makes up a valid state after the first row. */
    lemma Assemble()
      requires nCol > 0 && mxSample > 0 && nPSample == PeriodLength(nEst, mxSample)
      requires 0 < |c| == nRow && LeavesRoom(nRow, nPSample, mxSample)
      requires Changes(c, nCol) && IsCurrent(c, nCol, current) && !current.isPSample
      requires Store(c, nCol, mxSample, a, iMin, nMaxEqZero) && Each(a, CountedP(c, nCol, nCol - 1))
      requires PeriodsKept(a, nRow, nPSample) && Bests(c, nCol, aBest) && AllLead(c, nCol, HashOf(seed), aBest)
      requires iPrn == Prn(seed, nRow)
      requires AllServed(c, nCol, a, mxSample, nCol - 1)
      ensures Valid()
    {
    }

    /** The next row of the index, which differs from the previous one in column iChng first. */
    method Push(iChng: nat, rowid: int)
      requires Valid() && iChng < nCol && (nRow == 0 ==> iChng == 0) && LeavesRoom(nRow + 1, nPSample, mxSample)
      modifies this
      ensures Valid() && c == old(c) + [Pushed(iChng, rowid)]
    {
      hide *;
      ghost var was, before, w := aBest, c, Pushed(iChng, rowid);
      Facts();
      ChangesAppended(c, nCol, w);
      Enter(iChng, w);
      c := c + [w];
      nRow := nRow + 1;
      iPrn := NextPrn(iPrn);
      NextHash(seed, nRow);
      CurrentNamed(c, nCol, current.(rowid := rowid), iPrn, current.iCol);
      current := current.(rowid := rowid, iHash := iPrn);
      TakeSamples(iChng, before, w, was);
    }

    /** The end of the index: closes all runs. */
    method Flush()
      requires Valid() && nRow > 0
      modifies this`a, this`iMin, this`nMaxEqZero, this`aBest
      ensures |a| <= mxSample && Ascending(a) && PeriodsKept(a, nRow, nPSample)
      ensures forall m :: 0 <= m < |a| ==> Exact(c, nCol, a[m])
      ensures forall j, s :: 0 <= j < nCol - 1 && 0 <= s < |c| ==> Served(c, j, s, a, mxSample)
    {
      hide Served;
      PushPrevious(0);
      StoreParts(c, nCol, mxSample, a, iMin, nMaxEqZero);
      AllExact(c, nCol, a);
    }
  }

  lemma NoneOver(w: Pushed, nCol: nat, a: seq<Sample>, mxSample: nat)
    requires nCol > 0
    ensures AllServed([w], nCol, a, mxSample, nCol - 1)
  {
    var c := [w];
    forall j: nat | j < nCol - 1 ensures EndOf(c, j, 0) == |c| {
      LastRun(c, j, 0);
    }
  }

  lemma NextHash(seed: nat, n: nat)
    requires n > 0
    ensures Prn(seed, n) == NextPrn(Prn(seed, n - 1)) && HashOf(seed)(n - 1) == Prn(seed, n)
  {
  }

  /** A sample tells the runs of its row in all columns. */
  ghost predicate Exact(c: seq<Pushed>, nCol: nat, x: Sample) {
    && Placed(c, nCol, x)
    && forall j :: 0 <= j < nCol ==> x.anEq[j] == RunSize(c, j, RowOf(x))
  }

  lemma AllExact(c: seq<Pushed>, nCol: nat, a: seq<Sample>)
    requires Each(a, CountedP(c, nCol, 0))
    ensures forall m :: 0 <= m < |a| ==> Exact(c, nCol, a[m])
  {
  }

  lemma ChangesAppended(c: seq<Pushed>, nCol: nat, w: Pushed)
    requires Changes(c, nCol) && w.chng < nCol
    ensures Changes(c + [w], nCol)
  {
  }

  lemma ShapedNamed(x: Sample, nCol: nat, rowid: int)
    requires Shaped(x, nCol)
    ensures x.iCol < nCol && Shaped(x.(rowid := rowid), nCol)
  {
  }
}
