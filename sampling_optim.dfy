/** Greedy choice of sampling points for a tabulated dispersion
    (fox-gui/dispers_sampling_optim.cpp), on indices into a source table.

    The source table `ms` is read-only: row i is (wavelength, n, k).  The
    cubic spline built over a table of sampling points is a parameter
    `spline(xs, ys, w)`: the value at w of the interpolant through the points
    (xs[i], ys[i]).  The square root is a parameter as well. */
module SamplingOptim {
  import opened Common
  import opened DataTables
  import opened TabArrays
  import opened DispSampleTable

  /** An interpolant through (xs[i], ys[i]), evaluated at a wavelength. */
  type Spline = (seq<real>, seq<real>, real) -> real

  /** Every sampling index names a row of the source table. */
  predicate InRange(ip: seq<int>, n: int)
  {
    forall i :: 0 <= i < |ip| ==> 0 <= ip[i] < n
  }

  /** Sampling indices never go down. */
  predicate NonDecreasing(ip: seq<int>)
  {
    forall a, b :: 0 <= a < b < |ip| ==> ip[a] <= ip[b]
  }

  /** Column c of the sampled table: row ip[i] of the source, column c. */
  function Column(ms: seq<seq<real>>, ip: seq<int>, c: int): (col: seq<real>)
    requires WellFormed(ms, |ms|, 3) && InRange(ip, |ms|) && 0 <= c < 3
    ensures |col| == |ip|
    ensures forall i :: 0 <= i < |ip| ==> col[i] == ms[ip[i]][c]
  {
    seq(|ip|, i requires 0 <= i < |ip| => ms[ip[i]][c])
  }

  /** The table holds column c of the sampled rows in its row c, except
      possibly at entry `skip`. */
  ghost predicate HoldsExcept(t: TabArray, ms: seq<seq<real>>, ip: seq<int>, skip: int)
    reads t, t.cells
    requires WellFormed(ms, |ms|, 3) && InRange(ip, |ms|)
  {
    t.Valid() && t.size == |ip| &&
    forall i, c :: 0 <= i < |ip| && i != skip && 0 <= c < 3 ==> t.At(i, c) == ms[ip[i]][c]
  }

  /** A table that holds the sampled rows everywhere has those columns as
      its rows. */
  lemma RowsAreColumns(t: TabArray, ms: seq<seq<real>>, ip: seq<int>)
    requires WellFormed(ms, |ms|, 3) && InRange(ip, |ms|)
    requires HoldsExcept(t, ms, ip, -1)
    ensures forall c :: 0 <= c < 3 ==> t.Row(c) == Column(ms, ip, c)
  {
    forall c | 0 <= c < 3
      ensures t.Row(c) == Column(ms, ip, c)
    {
      assert forall i :: 0 <= i < |ip| ==> t.Row(c)[i] == Column(ms, ip, c)[i];
    }
  }

  /** get_array: entry i of row c is column c of source row ipoints[i]. */
  method GetArray(ms: seq<seq<real>>, ip: seq<int>) returns (t: TabArray)
    requires WellFormed(ms, |ms|, 3) && InRange(ip, |ms|)
    ensures fresh(t) && fresh(t.cells) && HoldsExcept(t, ms, ip, -1)
  {
    t := new TabArray(|ip|);
    var i := 0;
    while i < |ip|
      invariant 0 <= i <= |ip|
      invariant t.Valid() && t.size == |ip|
      invariant forall i', c :: 0 <= i' < i && 0 <= c < 3 ==> t.At(i', c) == ms[ip[i']][c]
    {
      var k := ip[i];
      t.Set(i, 0, ms[k][0]);
      t.Set(i, 1, ms[k][1]);
      t.Set(i, 2, ms[k][2]);
      i := i + 1;
    }
  }

  /** The interpolant through the sampled rows misses source row i by more
      than tol in n or in k. */
  ghost predicate PointFails(spline: Spline, ms: seq<seq<real>>, ip: seq<int>, tol: real, i: int)
    requires WellFormed(ms, |ms|, 3) && InRange(ip, |ms|) && 0 <= i < |ms|
  {
    var xs := Column(ms, ip, 0);
    Abs(spline(xs, Column(ms, ip, 1), ms[i][0]) - ms[i][1]) > tol ||
    Abs(spline(xs, Column(ms, ip, 2), ms[i][0]) - ms[i][2]) > tol
  }

  /** subsampling_eval: the first source row the interpolant misses, or -1
      when it is within tol everywhere. */
  method SubsamplingEval(spline: Spline, ms: seq<seq<real>>, ip: seq<int>, tol: real) returns (r: int)
    requires WellFormed(ms, |ms|, 3) && InRange(ip, |ms|)
    ensures -1 <= r < |ms|
    ensures r >= 0 ==> PointFails(spline, ms, ip, tol, r)
    ensures forall i :: 0 <= i < |ms| && (r == -1 || i < r) ==> !PointFails(spline, ms, ip, tol, i)
  {
    var t := GetArray(ms, ip);
    RowsAreColumns(t, ms, ip);
    var xs, ns, ks := t.Row(0), t.Row(1), t.Row(2);
    var i := 0;
    while i < |ms|
      invariant 0 <= i <= |ms|
      invariant forall i' :: 0 <= i' < i ==> !PointFails(spline, ms, ip, tol, i')
    {
      var w := ms[i][0];
      var ni, ki := spline(xs, ns, w), spline(xs, ks, w);
      if Abs(ni - ms[i][1]) > tol || Abs(ki - ms[i][2]) > tol {
        return i;
      }
      i := i + 1;
    }
    return -1;
  }

  function Product(a: real, b: real): real { a * b }

  /** square(a) = a * a. */
  function Square(x: real): real { Product(x, x) }

  lemma ProductPositive(a: real, b: real)
    requires (a > 0.0 && b > 0.0) || (a < 0.0 && b < 0.0)
    ensures Product(a, b) > 0.0
  {
    if a < 0.0 {
      assert Product(a, b) == Product(-a, -b);
    }
  }

  /** A square is never negative, and is zero only at zero. */
  lemma SquareSign(x: real)
    ensures Square(x) >= 0.0
    ensures Square(x) == 0.0 <==> x == 0.0
  {
    if x != 0.0 {
      ProductPositive(x, x);
    }
  }

  /** The sum of squared deviations of the interpolant through (xs, ys) from
      column `col` of source rows lo .. hi-1. */
  function SqDev(spline: Spline, xs: seq<real>, ys: seq<real>, ms: seq<seq<real>>, col: int, lo: int, hi: int): real
    requires WellFormed(ms, |ms|, 3) && 0 <= col < 3 && 0 <= lo <= hi <= |ms|
    decreases hi - lo
  {
    if hi == lo then 0.0
    else SqDev(spline, xs, ys, ms, col, lo, hi - 1) + Square(spline(xs, ys, ms[hi - 1][0]) - ms[hi - 1][col])
  }

  /** The deviation sum is never negative, and vanishes exactly when the
      interpolant reproduces every source row of the range. */
  lemma {:induction false} SqDevZero(spline: Spline, xs: seq<real>, ys: seq<real>, ms: seq<seq<real>>, col: int, lo: int, hi: int)
    requires WellFormed(ms, |ms|, 3) && 0 <= col < 3 && 0 <= lo <= hi <= |ms|
    ensures SqDev(spline, xs, ys, ms, col, lo, hi) >= 0.0
    ensures SqDev(spline, xs, ys, ms, col, lo, hi) == 0.0 <==>
      forall i :: lo <= i < hi ==> spline(xs, ys, ms[i][0]) == ms[i][col]
    decreases hi - lo
  {
    if hi > lo {
      SqDevZero(spline, xs, ys, ms, col, lo, hi - 1);
      SquareSign(spline(xs, ys, ms[hi - 1][0]) - ms[hi - 1][col]);
    }
  }

  /** The score interp_delta_score computes for the rows lo .. hi-1: the RMS
      deviation in n plus the RMS deviation in k. */
  function DeltaScore(spline: Spline, sqrt: real -> real, xs: seq<real>, ns: seq<real>, ks: seq<real>,
                      ms: seq<seq<real>>, lo: int, hi: int): real
    requires WellFormed(ms, |ms|, 3) && 0 <= lo < hi <= |ms|
  {
    var pn := (hi - lo) as real;
    sqrt(SqDev(spline, xs, ns, ms, 1, lo, hi) / pn) + sqrt(SqDev(spline, xs, ks, ms, 2, lo, hi) / pn)
  }

  /** interp_delta_score over source rows ipoints[i_min] .. ipoints[i_max]-1,
      for the interpolant through (xs, ns) and (xs, ks). */
  method InterpDeltaScore(spline: Spline, sqrt: real -> real, xs: seq<real>, ns: seq<real>, ks: seq<real>,
                          ms: seq<seq<real>>, lo: int, hi: int) returns (r: real)
    requires WellFormed(ms, |ms|, 3) && 0 <= lo < hi <= |ms|
    ensures r == DeltaScore(spline, sqrt, xs, ns, ks, ms, lo, hi)
  {
    var deln, delk := 0.0, 0.0;
    var i := lo;
    while i < hi
      invariant lo <= i <= hi
      invariant deln == SqDev(spline, xs, ns, ms, 1, lo, i)
      invariant delk == SqDev(spline, xs, ks, ms, 2, lo, i)
    {
      var w := ms[i][0];
      deln := deln + Square(spline(xs, ns, w) - ms[i][1]);
      delk := delk + Square(spline(xs, ks, w) - ms[i][2]);
      i := i + 1;
    }
    var pn := hi - lo;
    r := sqrt(deln / pn as real) + sqrt(delk / pn as real);
  }

  /** The score of candidate source row k placed at position pos: the
      interpolant through the sampled rows with row k at pos, measured over
      the rows between the two neighbouring sampling points. */
  function CandScore(spline: Spline, sqrt: real -> real, ms: seq<seq<real>>, ip: seq<int>, pos: int, k: int): real
    requires WellFormed(ms, |ms|, 3) && InRange(ip, |ms|) && 1 <= pos < |ip| - 1
    requires 0 <= k < |ms| && ip[pos - 1] < ip[pos + 1]
  {
    var cand := ip[pos := k];
    DeltaScore(spline, sqrt, Column(ms, cand, 0), Column(ms, cand, 1), Column(ms, cand, 2), ms, ip[pos - 1], ip[pos + 1])
  }

  /** Placing k at pos does not depend on what pos held before. */
  lemma CandScoreSlot(spline: Spline, sqrt: real -> real, ms: seq<seq<real>>, ip: seq<int>, pos: int, v: int, k: int)
    requires WellFormed(ms, |ms|, 3) && InRange(ip, |ms|) && 1 <= pos < |ip| - 1
    requires 0 <= v < |ms| && 0 <= k < |ms| && ip[pos - 1] < ip[pos + 1]
    ensures InRange(ip[pos := v], |ms|)
    ensures CandScore(spline, sqrt, ms, ip[pos := v], pos, k) == CandScore(spline, sqrt, ms, ip, pos, k)
  {
    assert ip[pos := v][pos := k] == ip[pos := k];
  }

  /** What find_delta_optimal keeps after scanning the candidates ka+1 .. hi-1:
      ka while no score has gone below 1000; otherwise the first candidate
      with the smallest score. */
  ghost predicate FirstBest(spline: Spline, sqrt: real -> real, ms: seq<seq<real>>, ip: seq<int>, pos: int,
                            ka: int, hi: int, kbest: int)
    requires WellFormed(ms, |ms|, 3) && InRange(ip, |ms|) && 1 <= pos < |ip| - 1
    requires 0 <= ka && (ka + 1 < hi ==> hi <= |ms| && ip[pos - 1] < ip[pos + 1])
  {
    if kbest == ka then
      forall k :: ka < k < hi ==> CandScore(spline, sqrt, ms, ip, pos, k) >= 1000.0
    else
      ka < kbest < hi &&
      var best := CandScore(spline, sqrt, ms, ip, pos, kbest);
      best < 1000.0 &&
      (forall k :: ka < k < hi ==> CandScore(spline, sqrt, ms, ip, pos, k) >= best) &&
      (forall k :: ka < k < kbest ==> CandScore(spline, sqrt, ms, ip, pos, k) > best)
  }

  /** The score find_delta_optimal returns beside the kept index. */
  function BestScore(spline: Spline, sqrt: real -> real, ms: seq<seq<real>>, ip: seq<int>, pos: int,
                     ka: int, kbest: int): real
    requires WellFormed(ms, |ms|, 3) && InRange(ip, |ms|) && 1 <= pos < |ip| - 1
    requires kbest == ka || (0 <= kbest < |ms| && ip[pos - 1] < ip[pos + 1])
  {
    if kbest == ka then 1000.0 else CandScore(spline, sqrt, ms, ip, pos, kbest)
  }

  /** FirstBest does not depend on what pos held before. */
  lemma FirstBestSlot(spline: Spline, sqrt: real -> real, ms: seq<seq<real>>, ip: seq<int>, pos: int,
                      v: int, ka: int, hi: int, kbest: int)
    requires WellFormed(ms, |ms|, 3) && InRange(ip, |ms|) && 1 <= pos < |ip| - 1 && 0 <= v < |ms|
    requires 0 <= ka && (ka + 1 < hi ==> hi <= |ms| && ip[pos - 1] < ip[pos + 1])
    requires FirstBest(spline, sqrt, ms, ip, pos, ka, hi, kbest)
    ensures InRange(ip[pos := v], |ms|)
    ensures FirstBest(spline, sqrt, ms, ip[pos := v], pos, ka, hi, kbest)
  {
    var ip' := ip[pos := v];
    assert InRange(ip', |ms|);
    assert ip'[pos - 1] == ip[pos - 1] && ip'[pos + 1] == ip[pos + 1];
    forall k | ka < k < hi
      ensures CandScore(spline, sqrt, ms, ip', pos, k) == CandScore(spline, sqrt, ms, ip, pos, k)
    {
      CandScoreSlot(spline, sqrt, ms, ip, pos, v, k);
    }
    if kbest != ka {
      CandScoreSlot(spline, sqrt, ms, ip, pos, v, kbest);
    }
  }

  /** A table holding the sampled rows with candidate k at pos scores as
      CandScore says. */
  lemma TableScore(spline: Spline, sqrt: real -> real, t: TabArray, ms: seq<seq<real>>, ip: seq<int>, pos: int, k: int)
    requires WellFormed(ms, |ms|, 3) && InRange(ip, |ms|) && 1 <= pos < |ip| - 1
    requires 0 <= k < |ms| && ip[pos - 1] < ip[pos + 1]
    requires HoldsExcept(t, ms, ip[pos := k], -1)
    ensures DeltaScore(spline, sqrt, t.Row(0), t.Row(1), t.Row(2), ms, ip[pos - 1], ip[pos + 1])
         == CandScore(spline, sqrt, ms, ip, pos, k)
  {
    RowsAreColumns(t, ms, ip[pos := k]);
  }

  /** One more candidate scanned: the kept index and score follow the
      strict comparison of find_delta_optimal. */
  lemma FirstBestStep(spline: Spline, sqrt: real -> real, ms: seq<seq<real>>, ip: seq<int>, pos: int,
                      ka: int, k: int, kbest: int, kdel: real)
    requires WellFormed(ms, |ms|, 3) && InRange(ip, |ms|) && 1 <= pos < |ip| - 1
    requires 0 <= ka < k < |ms| && ip[pos - 1] < ip[pos + 1]
    requires FirstBest(spline, sqrt, ms, ip, pos, ka, k, kbest)
    requires kdel == CandScore(spline, sqrt, ms, ip, pos, k)
    ensures kdel < BestScore(spline, sqrt, ms, ip, pos, ka, kbest) ==> FirstBest(spline, sqrt, ms, ip, pos, ka, k + 1, k)
    ensures !(kdel < BestScore(spline, sqrt, ms, ip, pos, ka, kbest)) ==> FirstBest(spline, sqrt, ms, ip, pos, ka, k + 1, kbest)
  {
  }

  /** One trial of find_delta_optimal: source row k is written into
      column pos of the table, and the segment around it scored. */
  method TryCandidate(spline: Spline, sqrt: real -> real, t: TabArray, ms: seq<seq<real>>, ip: seq<int>,
                      pos: int, k: int) returns (kdel: real)
    requires WellFormed(ms, |ms|, 3) && InRange(ip, |ms|) && 1 <= pos < |ip| - 1
    requires 0 <= k < |ms| && ip[pos - 1] < ip[pos + 1]
    requires HoldsExcept(t, ms, ip, pos)
    modifies t.cells
    ensures HoldsExcept(t, ms, ip, pos)
    ensures HoldsExcept(t, ms, ip[pos := k], -1)
    ensures kdel == CandScore(spline, sqrt, ms, ip, pos, k)
  {
    t.Set(pos, 0, ms[k][0]);
    t.Set(pos, 1, ms[k][1]);
    t.Set(pos, 2, ms[k][2]);
    assert HoldsExcept(t, ms, ip[pos := k], -1);
    kdel := InterpDeltaScore(spline, sqrt, t.Row(0), t.Row(1), t.Row(2), ms, ip[pos - 1], ip[pos + 1]);
    TableScore(spline, sqrt, t, ms, ip, pos, k);
  }

  /** find_delta_optimal: tries each source row strictly between ka and kb at
      position pos and keeps the first with the smallest score below 1000;
      ka (a repeated index) with 1000 when none scores below 1000. */
  method FindDeltaOptimal(spline: Spline, sqrt: real -> real, ms: seq<seq<real>>, ip: seq<int>,
                          pos: int, ka: int, kb: int) returns (kbest: int, del: real)
    requires WellFormed(ms, |ms|, 3) && InRange(ip, |ms|) && 1 <= pos < |ip| - 1
    requires 0 <= ka && kb <= |ms| && (ka + 1 < kb ==> ip[pos - 1] < ip[pos + 1])
    ensures FirstBest(spline, sqrt, ms, ip, pos, ka, kb, kbest)
    ensures kbest == ka || (ka < kbest < kb && ip[pos - 1] < ip[pos + 1])
    ensures del == BestScore(spline, sqrt, ms, ip, pos, ka, kbest)
  {
    kbest, del := ka, 1000.0;
    var t := GetArray(ms, ip);
    var k := ka + 1;
    while k <= kb - 1
      invariant ka + 1 <= k && (k <= kb || k == ka + 1)
      invariant HoldsExcept(t, ms, ip, pos)
      invariant FirstBest(spline, sqrt, ms, ip, pos, ka, k, kbest)
      invariant kbest == ka || (ka < kbest < k && ip[pos - 1] < ip[pos + 1])
      invariant del == BestScore(spline, sqrt, ms, ip, pos, ka, kbest)
    {
      var kdel := TryCandidate(spline, sqrt, t, ms, ip, pos, k);
      FirstBestStep(spline, sqrt, ms, ip, pos, ka, k, kbest, kdel);
      if kdel < del {
        kbest, del := k, kdel;
      }
      k := k + 1;
    }
  }

  /** Splicing a row index in after position i: the neighbours of the new
      slot are the old ipoints[i] and ipoints[i+1], and overwriting the slot
      is the same as splicing the new value in directly. */
  lemma Splice(ms: seq<seq<real>>, ip: seq<int>, i: int, v: int, w: int)
    requires InRange(ip, |ms|) && 0 <= i < |ip| - 1 && 0 <= v < |ms| && 0 <= w < |ms|
    ensures var mid := ip[..i + 1] + [v] + ip[i + 1..];
      |mid| == |ip| + 1 && InRange(mid, |ms|) && mid[i] == ip[i] && mid[i + 2] == ip[i + 1] &&
      mid[i + 1 := w] == ip[..i + 1] + [w] + ip[i + 1..]
  {
    var mid := ip[..i + 1] + [v] + ip[i + 1..];
    assert forall j :: 0 <= j < |mid| ==> mid[j] == (if j <= i then ip[j] else if j == i + 1 then v else ip[j - 1]);
    assert mid[i + 1 := w] == ip[..i + 1] + [w] + ip[i + 1..];
  }

  /** insert_opt_point: a new sampling point goes right after position i, at
      the source row find_delta_optimal picks between ipoints[i] and
      ipoints[i+1]; nothing else moves. */
  method InsertOptPoint(spline: Spline, sqrt: real -> real, ms: seq<seq<real>>, ipoints: PodVector<int>, i: int)
    requires ipoints.Valid() && WellFormed(ms, |ms|, 3) && InRange(ipoints.elems, |ms|)
    requires 0 <= i < |ipoints.elems| - 1 && ipoints.elems[i] + 1 < |ms|
    modifies ipoints
    ensures ipoints.Valid() && InRange(ipoints.elems, |ms|) && |ipoints.elems| == |old(ipoints.elems)| + 1
    ensures ipoints.elems == old(ipoints.elems)[..i + 1] + [ipoints.elems[i + 1]] + old(ipoints.elems)[i + 1..]
    ensures var ka, kb := old(ipoints.elems)[i], old(ipoints.elems)[i + 1];
      (ipoints.elems[i + 1] == ka || ka < ipoints.elems[i + 1] < kb) &&
      FirstBest(spline, sqrt, ms, ipoints.elems, i + 1, ka, kb, ipoints.elems[i + 1])
  {
    ghost var before := ipoints.elems;
    var ka, kb := ipoints.elems[i], ipoints.elems[i + 1];
    ipoints.InsertAt(i + 1, ka + 1);
    ghost var mid := ipoints.elems;
    Splice(ms, before, i, ka + 1, ka);
    var kbest, del := FindDeltaOptimal(spline, sqrt, ms, ipoints.elems, i + 1, ka, kb);
    ipoints.Set(i + 1, kbest);
    NewOptPoint(spline, sqrt, ms, before, mid, ipoints.elems, i, kbest);
  }

  /** What placing the chosen row leaves: the placeholder ka + 1 put right
      after i is overwritten by the first best row, which stays the first
      best there and lies inside the segment unless it is ka itself. */
  lemma NewOptPoint(spline: Spline, sqrt: real -> real, ms: seq<seq<real>>, before: seq<int>, mid: seq<int>,
                    after: seq<int>, i: int, kbest: int)
    requires WellFormed(ms, |ms|, 3) && InRange(before, |ms|) && 0 <= i < |before| - 1
    requires before[i] + 1 < |ms| && mid == before[..i + 1] + [before[i] + 1] + before[i + 1..]
    requires InRange(mid, |ms|) && mid[i] == before[i] && mid[i + 2] == before[i + 1]
    requires FirstBest(spline, sqrt, ms, mid, i + 1, before[i], before[i + 1], kbest)
    requires kbest == before[i] || before[i] < kbest < before[i + 1]
    requires after == mid[i + 1 := kbest]
    ensures InRange(after, |ms|) && |after| == |before| + 1
    ensures after == before[..i + 1] + [after[i + 1]] + before[i + 1..]
    ensures var ka, kb := before[i], before[i + 1];
      (after[i + 1] == ka || ka < after[i + 1] < kb) &&
      FirstBest(spline, sqrt, ms, after, i + 1, ka, kb, after[i + 1])
  {
    Splice(ms, before, i, before[i] + 1, kbest);
    FirstBestSlot(spline, sqrt, ms, mid, i + 1, kbest, before[i], before[i + 1], kbest);
  }

  /** Sampling points i and i+1 have wavelengths strictly on either side
      of wi. */
  predicate Straddles(ms: seq<seq<real>>, ip: seq<int>, wi: real, i: int)
    requires WellFormed(ms, |ms|, 3) && InRange(ip, |ms|) && 0 <= i < |ip| - 1
  {
    ms[ip[i]][0] < wi && ms[ip[i + 1]][0] > wi
  }

  /** The first segment from `from` on whose end wavelengths straddle wi, or
      -1 when there is none. */
  function FirstStraddle(ms: seq<seq<real>>, ip: seq<int>, wi: real, from: nat): (r: int)
    requires WellFormed(ms, |ms|, 3) && InRange(ip, |ms|)
    ensures r == -1 || from <= r < |ip| - 1
    ensures r >= 0 ==> Straddles(ms, ip, wi, r)
    ensures forall i :: from <= i < |ip| - 1 && (r == -1 || i < r) ==> !Straddles(ms, ip, wi, i)
    decreases |ip| - from
  {
    if from + 1 >= |ip| then -1
    else if Straddles(ms, ip, wi, from) then from
    else FirstStraddle(ms, ip, wi, from + 1)
  }

  /** A point whose index lies between its neighbours' keeps the sampling
      indices in range and in order, and leaves the first and last points
      where they were. */
  lemma InsertKeepsOrder(ms: seq<seq<real>>, ip: seq<int>, s: int, v: int)
    requires InRange(ip, |ms|) && NonDecreasing(ip) && 0 <= s < |ip| - 1 && ip[s] <= v <= ip[s + 1]
    ensures var ip' := ip[..s + 1] + [v] + ip[s + 1..];
      InRange(ip', |ms|) && NonDecreasing(ip') &&
      ip'[0] == ip[0] && ip'[|ip'| - 1] == ip[|ip| - 1]
  {
    var ip' := ip[..s + 1] + [v] + ip[s + 1..];
    assert forall j :: 0 <= j < |ip'| ==> ip'[j] == (if j <= s then ip[j] else if j == s + 1 then v else ip[j - 1]);
    forall a, b | 0 <= a < b < |ip'|
      ensures ip'[a] <= ip'[b]
    {
      if a <= s && b == s + 1 {
        assert ip[a] <= ip[s];
      } else if a == s + 1 && b > s + 1 {
        assert ip[s + 1] <= ip[b - 1];
      }
    }
  }

  /** add_new_point, with the scan stopping at the last segment: the new
      point goes into the first segment whose end wavelengths straddle the
      wavelength of source row i_nok; when no segment does, nothing
      changes. */
  method AddNewPoint(spline: Spline, sqrt: real -> real, ms: seq<seq<real>>, ipoints: PodVector<int>, inok: int)
    requires ipoints.Valid() && WellFormed(ms, |ms|, 3) && InRange(ipoints.elems, |ms|) && NonDecreasing(ipoints.elems)
    requires 0 <= inok < |ms|
    modifies ipoints
    ensures ipoints.Valid() && InRange(ipoints.elems, |ms|) && NonDecreasing(ipoints.elems)
    ensures |ipoints.elems| >= |old(ipoints.elems)|
    ensures |old(ipoints.elems)| >= 1 ==>
      ipoints.elems[0] == old(ipoints.elems)[0] &&
      ipoints.elems[|ipoints.elems| - 1] == old(ipoints.elems)[|old(ipoints.elems)| - 1]
    ensures var s := FirstStraddle(ms, old(ipoints.elems), ms[inok][0], 0);
      if s < 0 then ipoints.elems == old(ipoints.elems)
      else
        |ipoints.elems| == |old(ipoints.elems)| + 1 &&
        ipoints.elems == old(ipoints.elems)[..s + 1] + [ipoints.elems[s + 1]] + old(ipoints.elems)[s + 1..] &&
        var ka, kb := old(ipoints.elems)[s], old(ipoints.elems)[s + 1];
        (ipoints.elems[s + 1] == ka || ka < ipoints.elems[s + 1] < kb) &&
        FirstBest(spline, sqrt, ms, ipoints.elems, s + 1, ka, kb, ipoints.elems[s + 1])
  {
    ghost var before := ipoints.elems;
    var wi := ms[inok][0];
    var i := 0;
    while i + 1 < |ipoints.elems|
      invariant ipoints.elems == before
      invariant FirstStraddle(ms, before, wi, i) == FirstStraddle(ms, before, wi, 0)
    {
      var wa := ms[ipoints.elems[i]][0];
      var wb := ms[ipoints.elems[i + 1]][0];
      if wa < wi && wb > wi {
        assert before[i] <= before[i + 1] && before[i] != before[i + 1];
        InsertOptPoint(spline, sqrt, ms, ipoints, i);
        InsertKeepsOrder(ms, before, i, ipoints.elems[i + 1]);
        return;
      }
      i := i + 1;
    }
  }

  /** What the scan of add_new_point meets as written. */
  datatype Scan = Insert(segment: int) | ReadsPastEnd(index: int) | NoSegment

  /** The scan of add_new_point as written: i runs up to size-1 and every
      step reads ipoints[i+1], so the last step reads one element past the
      end. */
  function ScanAsWritten(ms: seq<seq<real>>, ip: seq<int>, wi: real, i: nat): Scan
    requires WellFormed(ms, |ms|, 3) && InRange(ip, |ms|)
    decreases |ip| - i
  {
    if i >= |ip| then NoSegment
    else if i + 1 == |ip| then ReadsPastEnd(i + 1)
    else if Straddles(ms, ip, wi, i) then Insert(i)
    else ScanAsWritten(ms, ip, wi, i + 1)
  }

  /** The scan as written agrees with the corrected one whenever a segment
      straddles wi, and reads ipoints[size] exactly when none does. */
  lemma {:induction false} ScanAsWrittenAgrees(ms: seq<seq<real>>, ip: seq<int>, wi: real, i: nat)
    requires WellFormed(ms, |ms|, 3) && InRange(ip, |ms|) && i < |ip|
    ensures FirstStraddle(ms, ip, wi, i) >= 0 ==> ScanAsWritten(ms, ip, wi, i) == Insert(FirstStraddle(ms, ip, wi, i))
    ensures FirstStraddle(ms, ip, wi, i) == -1 <==> ScanAsWritten(ms, ip, wi, i) == ReadsPastEnd(|ip|)
    decreases |ip| - i
  {
    if i + 1 < |ip| && !Straddles(ms, ip, wi, i) {
      ScanAsWrittenAgrees(ms, ip, wi, i + 1);
    }
  }

  /** The first call optimize_sampling_points makes on a two-row table,
      add_new_point(ms, [0, 1], 1), finds no straddling segment: as written
      it reads ipoints[2], past the end. */
  lemma TwoRowsReadPastEnd(ms: seq<seq<real>>)
    requires |ms| == 2 && WellFormed(ms, 2, 3)
    ensures FirstStraddle(ms, [0, 1], ms[|ms| / 2][0], 0) == -1
    ensures ScanAsWritten(ms, [0, 1], ms[|ms| / 2][0], 0) == ReadsPastEnd(2)
  {
    var ip := [0, 1];
    assert !Straddles(ms, ip, ms[1][0], 0);
  }

  /** optimize_sampling_points: starting from the first and the last source
      rows, points are added where the interpolant misses a source row by
      more than tol.  `fuel` bounds the number of rounds; None when it runs
      out.  A result starts at row 0, ends at the last row, stays in order,
      and the interpolant through it is within tol at every source row. */
  method OptimizeSamplingPoints(spline: Spline, sqrt: real -> real, ms: seq<seq<real>>, tol: real, fuel: nat)
    returns (r: Option<seq<int>>)
    requires WellFormed(ms, |ms|, 3) && |ms| >= 1
    ensures r.Some? ==>
      var ip := r.value;
      |ip| >= 2 && ip[0] == 0 && ip[|ip| - 1] == |ms| - 1 && InRange(ip, |ms|) && NonDecreasing(ip) &&
      forall i :: 0 <= i < |ms| ==> !PointFails(spline, ms, ip, tol, i)
  {
    var ipoints := new PodVector<int>(16);
    ipoints.PushBack(0);
    ipoints.PushBack(|ms| - 1);
    AddNewPoint(spline, sqrt, ms, ipoints, |ms| / 2);
    var f := fuel;
    while f > 0
      invariant ipoints.Valid() && InRange(ipoints.elems, |ms|) && NonDecreasing(ipoints.elems)
      invariant |ipoints.elems| >= 2 && ipoints.elems[0] == 0 && ipoints.elems[|ipoints.elems| - 1] == |ms| - 1
    {
      var inok := SubsamplingEval(spline, ms, ipoints.elems, tol);
      if inok < 0 {
        return Some(ipoints.elems);
      }
      AddNewPoint(spline, sqrt, ms, ipoints, inok);
      f := f - 1;
    }
    return None;
  }

  /** The rows of the dispersion built from sampling indices: row i is
      columns 0-2 of source row ip[i]. */
  function IndexRows(ms: seq<seq<real>>, ip: seq<int>): (rows: seq<seq<real>>)
    requires WellFormed(ms, |ms|, 3) && InRange(ip, |ms|)
    ensures |rows| == |ip| && WellFormed(rows, |rows|, 3)
    ensures forall i :: 0 <= i < |ip| ==> |rows[i]| == 3 && rows[i][0] == ms[ip[i]][0]
    ensures forall i :: 0 <= i < |ip| ==> rows[i][1] == ms[ip[i]][1] && rows[i][2] == ms[ip[i]][2]
  {
    seq(|ip|, i requires 0 <= i < |ip| => [ms[ip[i]][0], ms[ip[i]][1], ms[ip[i]][2]])
  }

  /** dispersion_from_sampling_points on indices: a new sample-table
      dispersion of |ip| rows, row i copied from source row ip[i]. */
  method DispersionFromIndexPoints(ms: seq<seq<real>>, ip: seq<int>) returns (d: SampleTableDisp)
    requires WellFormed(ms, |ms|, 3) && InRange(ip, |ms|)
    ensures fresh(d) && fresh(d.tableRef) && d.Valid()
    ensures d.nb == |ip| && d.tableRef.cells == IndexRows(ms, ip)
  {
    d := new SampleTableDisp.Init(|ip|);
    var t := d.tableRef;
    var i := 0;
    while i < |ip|
      invariant 0 <= i <= |ip|
      invariant d.tableRef == t && d.nb == |ip| && t.Valid() && t.cols == 3 && |t.cells| == |ip|
      invariant forall j :: 0 <= j < i ==> t.cells[j] == IndexRows(ms, ip)[j]
    {
      var k := ip[i];
      t.Set(i, 0, ms[k][0]);
      t.Set(i, 1, ms[k][1]);
      t.Set(i, 2, ms[k][2]);
      assert t.cells[i] == IndexRows(ms, ip)[i];
      i := i + 1;
    }
    assert t.cells == IndexRows(ms, ip);
  }

  /** When the sampled wavelengths strictly increase, the new dispersion
      returns the source value n - i*k at every sampled wavelength. */
  lemma {:induction false} IndexPointsReproduceNodes(ms: seq<seq<real>>, ip: seq<int>, i: int)
    requires WellFormed(ms, |ms|, 3) && InRange(ip, |ms|) && |ip| >= 2 && 0 <= i < |ip|
    requires forall a, b :: 0 <= a < b < |ip| ==> ms[ip[a]][0] < ms[ip[b]][0]
    ensures DefinedAt(IndexRows(ms, ip), |ip|, ms[ip[i]][0])
    ensures SampleNValue(IndexRows(ms, ip), |ip|, ms[ip[i]][0]) == Complex(ms[ip[i]][1], -ms[ip[i]][2])
  {
    var rows := IndexRows(ms, ip);
    assert Increasing(rows, |ip|);
    SampleNodeExact(rows, |ip|, i);
  }
}
