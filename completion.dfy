/**
 * The completion percentage shown in each project header (app.py lines 62-63
 * and 201): the mean of the task scores Not started = 0, In progress = 0.5,
 * Completed = 1, times 100, truncated. Scores are kept in half points so that
 * the arithmetic is exact.
 */
module Completion {
  import opened Rows
  import opened Seqs

  /** The score of a status in half points. */
  function HalfScore(p: Progress): (h: nat)
    ensures h <= 2
    ensures h == 2 <==> p == Completed
    ensures h == 0 <==> p == NotStarted
  {
    match p
    case NotStarted => 0
    case InProgress => 1
    case Completed => 2
  }

  /** The summed score of a group of tasks, in half points. */
  function HalfPoints(ps: seq<Progress>): (t: nat)
    ensures t <= 2 * |ps|
    ensures t == 2 * |ps| <==> forall i :: 0 <= i < |ps| ==> ps[i] == Completed
    ensures t == 0 <==> forall i :: 0 <= i < |ps| ==> ps[i] == NotStarted
  {
    if ps == [] then 0
    else
      assert forall i :: 1 <= i < |ps| ==> ps[i] == ps[1..][i - 1];
      HalfScore(ps[0]) + HalfPoints(ps[1..])
  }

  lemma DivBounds(x: nat, n: nat)
    requires n > 0
    ensures n * (x / n) <= x < n * (x / n) + n
  {
  }

  lemma {:induction false} MulMonotone(n: nat, a: nat, b: nat)
    requires a <= b
    ensures n * a <= n * b
    decreases n
  {
    if n > 0 {
      MulMonotone(n - 1, a, b);
      assert n * a == (n - 1) * a + a;
      assert n * b == (n - 1) * b + b;
    }
  }

  /** x / n is the largest q with n · q <= x. */
  lemma DivLargest(x: nat, n: nat, q: nat)
    requires n > 0 && n * q <= x
    ensures q <= x / n
  {
    DivBounds(x, n);
    if q > x / n {
      MulMonotone(n, x / n + 1, q);
    }
  }

  /** (n · 100) / n is 100. */
  lemma HundredTimes(n: nat)
    requires n > 0
    ensures 100 * n / n == 100
  {
    DivBounds(100 * n, n);
    DivLargest(100 * n, n, 100);
    if 100 * n / n > 100 {
      MulMonotone(n, 101, 100 * n / n);
    }
  }

  /** Below the maximum of 2n half points, the percentage stays below 100. */
  lemma BelowHundred(h: nat, n: nat)
    requires n > 0 && h < 2 * n
    ensures 50 * h / n < 100
  {
    MulMonotone(50, h, 2 * n - 1);
    DivBounds(50 * h, n);
    if 50 * h / n >= 100 {
      MulMonotone(n, 100, 50 * h / n);
    }
  }

  /** The arithmetic of the percentage of h half points over n tasks. */
  lemma PercentArith(h: nat, n: nat)
    requires n > 0 && h <= 2 * n
    ensures n * (50 * h / n) <= 50 * h < n * (50 * h / n + 1)
    ensures 50 * h / n <= 100
    ensures 50 * h / n == 100 <==> h == 2 * n
  {
    DivBounds(50 * h, n);
    assert n * (50 * h / n + 1) == n * (50 * h / n) + n;
    MulMonotone(50, h, 2 * n);
    DivMonotone(50 * h, 100 * n, n);
    HundredTimes(n);
    if h < 2 * n {
      BelowHundred(h, n);
    }
  }

  /**
   * floor(100 × mean score) of a non-empty group: the integer c with
   * n · c <= 50 · points < n · (c + 1), points counted in half points. It lies
   * in [0, 100], is 100 exactly when every task is Completed, and is 0 when
   * every task is Not started.
   */
  function Percent(ps: seq<Progress>): (c: nat)
    requires ps != []
    ensures |ps| * c <= 50 * HalfPoints(ps) < |ps| * (c + 1)
    ensures c <= 100
    ensures c == 100 <==> forall i :: 0 <= i < |ps| ==> ps[i] == Completed
    ensures (forall i :: 0 <= i < |ps| ==> ps[i] == NotStarted) ==> c == 0
  {
    PercentArith(HalfPoints(ps), |ps|);
    50 * HalfPoints(ps) / |ps|
  }

  /** The statuses of a sequence of rows, in order. */
  function Statuses(rows: seq<Row>): (ps: seq<Progress>)
    ensures |ps| == |rows|
    ensures forall i :: 0 <= i < |rows| ==> ps[i] == rows[i].progress
  {
    seq(|rows|, i requires 0 <= i < |rows| => rows[i].progress)
  }

  /**
   * The completion of project `p`, over the rows of that project (the
   * per-project group of the table). It is 100 exactly when every task of
   * the project is Completed.
   */
  function ProjectPercent(rows: seq<Row>, p: string): (c: nat)
    requires HasProject(rows, p)
    ensures c <= 100
    ensures c == 100 <==> forall r :: r in rows && r.project == p ==> r.progress == Completed
  {
    var group := Filter(rows, InProject(p));
    var i :| 0 <= i < |rows| && rows[i].project == p;
    assert rows[i] in group;
    var ps := Statuses(group);
    assert (forall k :: 0 <= k < |ps| ==> ps[k] == Completed) <==>
           (forall r :: r in group ==> r.progress == Completed) by {
      forall r | r in group ensures (forall k :: 0 <= k < |ps| ==> ps[k] == Completed) ==> r.progress == Completed {
        var k :| 0 <= k < |group| && group[k] == r;
      }
    }
    Percent(ps)
  }

  /** Changing one task's status changes the summed score by the difference of the two scores. */
  lemma {:induction false} HalfPointsUpdate(ps: seq<Progress>, i: nat, p: Progress)
    requires i < |ps|
    ensures HalfPoints(ps[i := p]) == HalfPoints(ps) - HalfScore(ps[i]) + HalfScore(p)
  {
    if i == 0 {
      assert ps[i := p][1..] == ps[1..];
    } else {
      assert ps[i := p][1..] == ps[1..][i - 1 := p];
      HalfPointsUpdate(ps[1..], i - 1, p);
    }
  }

  lemma DivMonotone(x: nat, y: nat, n: nat)
    requires n > 0 && x <= y
    ensures x / n <= y / n
  {
    DivBounds(x, n);
    DivLargest(y, n, x / n);
  }

  /** Changing one task to a status with at least its score never lowers the percentage. */
  lemma PercentMonotone(ps: seq<Progress>, i: nat, p: Progress)
    requires i < |ps| && HalfScore(ps[i]) <= HalfScore(p)
    ensures Percent(ps) <= Percent(ps[i := p])
  {
    HalfPointsUpdate(ps, i, p);
    DivMonotone(50 * HalfPoints(ps), 50 * HalfPoints(ps[i := p]), |ps|);
  }

  /** A status change in another project leaves the completion of project `q` unchanged. */
  lemma OtherProjectPercent(rows: seq<Row>, idx: nat, status: Progress, q: string)
    requires idx < |rows| && rows[idx].project != q
    requires HasProject(rows, q)
    ensures HasProject(rows[idx := rows[idx].(progress := status)], q)
    ensures ProjectPercent(rows[idx := rows[idx].(progress := status)], q) == ProjectPercent(rows, q)
  {
    var updated := rows[idx := rows[idx].(progress := status)];
    var i :| 0 <= i < |rows| && rows[i].project == q;
    assert updated[i].project == q;
    FilterUpdateDropped(rows, idx, rows[idx].(progress := status), InProject(q));
  }

  /** The worked example: Not started, In progress, Completed, Completed give 62. */
  lemma PercentExample()
    ensures Percent([NotStarted, InProgress, Completed, Completed]) == 62
  {
  }
}
