/**
 Runs of equal prefixes in a sorted list of rows, told by the change column of each row: the left-most
 column in which a row differs from the one before it.
 */
module RunCounts {

  /** A row of the list: its change column, and what identifies it. */
  datatype Pushed = Pushed(chng: nat, rowid: int)

  /** The first row of the run of rows that share the first j + 1 columns with row s. */
  function StartOf(c: seq<Pushed>, j: nat, s: nat): (r: nat)
    requires s < |c|
    ensures r <= s
    ensures r == 0 || c[r].chng <= j
    ensures forall u :: r < u <= s ==> c[u].chng > j
  {
    if s == 0 || c[s].chng <= j then s else StartOf(c, j, s - 1)
  }

  /** The first change of the first j + 1 columns at or after row e; the number of rows when there is none. */
  function NextChange(c: seq<Pushed>, j: nat, e: nat): (r: nat)
    requires e <= |c|
    ensures e <= r <= |c|
    ensures r < |c| ==> c[r].chng <= j
    ensures forall u :: e <= u < r ==> c[u].chng > j
    decreases |c| - e
  {
    if e == |c| || c[e].chng <= j then e else NextChange(c, j, e + 1)
  }

  /** The row after the run of row s. */
  function EndOf(c: seq<Pushed>, j: nat, s: nat): (r: nat)
    requires s < |c|
    ensures s < r <= |c|
    ensures r < |c| ==> c[r].chng <= j
    ensures forall u :: s < u < r ==> c[u].chng > j
  {
    NextChange(c, j, s + 1)
  }

  /** How many runs of the first j + 1 columns end before the run of row s. */
  function RunsBefore(c: seq<Pushed>, j: nat, s: nat): nat
    requires s < |c|
  {
    if s == 0 then 0 else RunsBefore(c, j, s - 1) + if c[s].chng <= j then 1 else 0
  }

  /** The size of the run of row s, as far as the rows go. */
  function RunSize(c: seq<Pushed>, j: nat, s: nat): (r: nat)
    requires s < |c|
    ensures r > 0
  {
    EndOf(c, j, s) - StartOf(c, j, s)
  }

  lemma EndUnique(c: seq<Pushed>, j: nat, s: nat, e: nat)
    requires s < e <= |c| && (e < |c| ==> c[e].chng <= j) && forall u :: s < u < e ==> c[u].chng > j
    ensures EndOf(c, j, s) == e
  {
  }

  lemma StartUnique(c: seq<Pushed>, j: nat, s: nat, b: nat)
    requires b <= s < |c| && (b == 0 || c[b].chng <= j) && forall u :: b < u <= s ==> c[u].chng > j
    ensures StartOf(c, j, s) == b
  {
  }

  /** More columns make finer runs. */
  lemma Finer(c: seq<Pushed>, i: nat, j: nat, s: nat)
    requires i <= j && s < |c|
    ensures StartOf(c, i, s) <= StartOf(c, j, s) && EndOf(c, j, s) <= EndOf(c, i, s)
    ensures RunSize(c, j, s) <= RunSize(c, i, s)
  {
  }

  /** Rows of one run have the same run. */
  lemma SameRun(c: seq<Pushed>, j: nat, s: nat, t: nat)
    requires s < |c| && t < |c| && StartOf(c, j, t) <= s < EndOf(c, j, t)
    ensures StartOf(c, j, s) == StartOf(c, j, t) && EndOf(c, j, s) == EndOf(c, j, t)
  {
  }

  /** The rows of the last run are those whose run reaches the end of the rows. */
  lemma LastRun(c: seq<Pushed>, j: nat, s: nat)
    requires s < |c|
    ensures EndOf(c, j, s) == |c| <==> StartOf(c, j, |c| - 1) <= s
  {
  }

  /** Appending a row leaves the starts and closes the last run or extends it. */
  lemma Appended(c: seq<Pushed>, x: Pushed, j: nat, s: nat)
    requires s < |c|
    ensures StartOf(c + [x], j, s) == StartOf(c, j, s)
    ensures RunsBefore(c + [x], j, s) == RunsBefore(c, j, s)
    ensures EndOf(c + [x], j, s) == if EndOf(c, j, s) < |c| || x.chng <= j then EndOf(c, j, s) else |c| + 1
  {
    var d := c + [x];
    StartUnique(d, j, s, StartOf(c, j, s));
    EndUnique(d, j, s, if EndOf(c, j, s) < |c| || x.chng <= j then EndOf(c, j, s) else |c| + 1);
    SameRunsBefore(c, x, j, s);
  }

  lemma {:induction false} SameRunsBefore(c: seq<Pushed>, x: Pushed, j: nat, s: nat)
    requires s < |c|
    ensures RunsBefore(c + [x], j, s) == RunsBefore(c, j, s)
  {
    if s > 0 {
      SameRunsBefore(c, x, j, s - 1);
    }
  }

  /** The run of an appended row: a new one, or the last one extended. */
  lemma AppendedLast(c: seq<Pushed>, x: Pushed, j: nat)
    requires |c| > 0
    ensures StartOf(c + [x], j, |c|) == if x.chng <= j then |c| else StartOf(c, j, |c| - 1)
    ensures RunsBefore(c + [x], j, |c|) == RunsBefore(c, j, |c| - 1) + if x.chng <= j then 1 else 0
  {
    Appended(c, x, j, |c| - 1);
  }
}
