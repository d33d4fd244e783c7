/** Greedy choice of sampling wavelengths for a dispersion given by a
    function (fox-gui/dispers_sampling_optim.cpp, the `_c` variants).

    The reference dispersion is a parameter `nval(w)`, its complex index at
    wavelength w; a sampling wavelength w becomes the table row
    (w, Re n(w), -Im n(w)).  The interpolant is the `spline` parameter of the
    index variant. */
module SamplingOptimC {
  import opened Common
  import opened DataTables
  import opened TabArrays
  import opened DispSampleTable
  import SamplingOptim

  /** The number of probes per segment when scoring and when evaluating. */
  const TestPoints := 32
  /** The number of candidate positions tried inside a segment. */
  const SearchPoints := 16

  /** The wavelength k/m of the way from inf to sup. */
  function Probe(inf: real, sup: real, k: int, m: int): real
    requires m > 0
  {
    inf + (sup - inf) * (k as real) / (m as real)
  }

  /** Probe 0 is inf itself, and every probe 0 < k < m lies strictly inside
      a non-empty segment. */
  lemma ProbeInside(inf: real, sup: real, k: int, m: int)
    requires m > 0
    ensures k == 0 ==> Probe(inf, sup, k, m) == inf
    ensures inf < sup && 0 < k < m ==> inf < Probe(inf, sup, k, m) < sup
  {
    if inf < sup && 0 < k < m {
      var d := sup - inf;
      var x := d * (k as real);
      SamplingOptim.ProductPositive(d, k as real);
      assert x > 0.0;
      assert d * (m as real) - x == d * ((m - k) as real);
      SamplingOptim.ProductPositive(d, (m - k) as real);
      assert x < d * (m as real);
      assert x / (m as real) < d;
    }
  }

  /** Column c of the table row for sampling wavelength w:
      (w, Re n(w), -Im n(w)). */
  function RowEntry(nval: real -> Complex, w: real, c: int): real
  {
    if c == 0 then w else if c == 1 then nval(w).re else -nval(w).im
  }

  /** The table row for sampling wavelength w. */
  function NvalRow(nval: real -> Complex, w: real): (row: seq<real>)
    ensures |row| == 3 && forall c :: 0 <= c < 3 ==> row[c] == RowEntry(nval, w, c)
  {
    [w, nval(w).re, -nval(w).im]
  }

  /** Column c of the rows for the sampling wavelengths sp. */
  function ColumnC(nval: real -> Complex, sp: seq<real>, c: int): (col: seq<real>)
    requires 0 <= c < 3
    ensures |col| == |sp|
    ensures forall i :: 0 <= i < |sp| ==> col[i] == RowEntry(nval, sp[i], c)
  {
    seq(|sp|, i requires 0 <= i < |sp| => RowEntry(nval, sp[i], c))
  }

  /** The table holds row i of the sampled wavelengths in its entry i,
      except possibly at entry `skip`. */
  ghost predicate HoldsC(t: TabArray, nval: real -> Complex, sp: seq<real>, skip: int)
    reads t, t.cells
  {
    t.Valid() && t.size == |sp| &&
    forall i, c :: 0 <= i < |sp| && i != skip && 0 <= c < 3 ==> t.At(i, c) == RowEntry(nval, sp[i], c)
  }

  /** A table that holds every sampled row has the columns as its rows. */
  lemma RowsAreColumnsC(t: TabArray, nval: real -> Complex, sp: seq<real>)
    requires HoldsC(t, nval, sp, -1)
    ensures forall c :: 0 <= c < 3 ==> t.Row(c) == ColumnC(nval, sp, c)
  {
    forall c | 0 <= c < 3
      ensures t.Row(c) == ColumnC(nval, sp, c)
    {
      assert forall i :: 0 <= i < |sp| ==> t.Row(c)[i] == ColumnC(nval, sp, c)[i];
    }
  }

  /** get_array_c: entry i holds (w, Re n(w), -Im n(w)) for w = sp[i]. */
  method GetArrayC(nval: real -> Complex, sp: seq<real>) returns (t: TabArray)
    ensures fresh(t) && fresh(t.cells) && HoldsC(t, nval, sp, -1)
  {
    t := new TabArray(|sp|);
    var i := 0;
    while i < |sp|
      invariant 0 <= i <= |sp|
      invariant t.Valid() && t.size == |sp|
      invariant forall i', c :: 0 <= i' < i && 0 <= c < 3 ==> t.At(i', c) == RowEntry(nval, sp[i'], c)
    {
      var w := sp[i];
      var n := nval(w);
      t.Set(i, 0, w);
      t.Set(i, 1, n.re);
      t.Set(i, 2, -n.im);
      i := i + 1;
    }
  }

  /** How far the interpolant through the sampled rows is from the reference
      at w: in n when c is 1, in k when c is 2. */
  function Dev(spline: SamplingOptim.Spline, nval: real -> Complex, xs: seq<real>, ns: seq<real>, ks: seq<real>,
               c: int, w: real): real
  {
    if c == 1 then Abs(spline(xs, ns, w) - nval(w).re) else Abs(spline(xs, ks, w) + nval(w).im)
  }

  /** The interpolant through the sampled rows misses the reference at w by
      more than tol in n or in k. */
  predicate PointFailsC(spline: SamplingOptim.Spline, nval: real -> Complex, sp: seq<real>, tol: real, w: real)
  {
    var xs, ns, ks := ColumnC(nval, sp, 0), ColumnC(nval, sp, 1), ColumnC(nval, sp, 2);
    Dev(spline, nval, xs, ns, ks, 1, w) > tol || Dev(spline, nval, xs, ns, ks, 2, w) > tol
  }

  /** Probe k of segment i fails. */
  predicate ProbeFails(spline: SamplingOptim.Spline, nval: real -> Complex, sp: seq<real>, tol: real, i: int, k: int)
    requires 0 <= i < |sp| - 1
  {
    PointFailsC(spline, nval, sp, tol, Probe(sp[i], sp[i + 1], k, TestPoints))
  }

  /** Some probe k = 0 .. 31 of segment i fails. */
  predicate SegmentFails(spline: SamplingOptim.Spline, nval: real -> Complex, sp: seq<real>, tol: real, i: int)
    requires 0 <= i < |sp| - 1
  {
    exists k :: 0 <= k < TestPoints && ProbeFails(spline, nval, sp, tol, i, k)
  }

  /** What the loop of subsampling_eval_c tests at probe k of segment i,
      with the table columns in hand, is ProbeFails. */
  lemma ProbeCheck(spline: SamplingOptim.Spline, nval: real -> Complex, sp: seq<real>, tol: real, i: int, k: int,
                   xs: seq<real>, ns: seq<real>, ks: seq<real>)
    requires 0 <= i < |sp| - 1
    requires xs == ColumnC(nval, sp, 0) && ns == ColumnC(nval, sp, 1) && ks == ColumnC(nval, sp, 2)
    ensures var w := Probe(sp[i], sp[i + 1], k, TestPoints);
      ProbeFails(spline, nval, sp, tol, i, k) <==>
      Abs(spline(xs, ns, w) - nval(w).re) > tol || Abs(spline(xs, ks, w) + nval(w).im) > tol
  {
  }

  /** The three rows of the table get_array_c fills, which the interpolant
      is built over. */
  method InterpColumnsC(nval: real -> Complex, sp: seq<real>) returns (xs: seq<real>, ns: seq<real>, ks: seq<real>)
    ensures xs == ColumnC(nval, sp, 0) && ns == ColumnC(nval, sp, 1) && ks == ColumnC(nval, sp, 2)
  {
    var t := GetArrayC(nval, sp);
    RowsAreColumnsC(t, nval, sp);
    xs, ns, ks := t.Row(0), t.Row(1), t.Row(2);
  }

  /** The inner loop of subsampling_eval_c over segment i: whether one of
      its 32 probes fails. */
  method SegmentCheck(spline: SamplingOptim.Spline, nval: real -> Complex, sp: seq<real>, tol: real, i: int,
                      xs: seq<real>, ns: seq<real>, ks: seq<real>) returns (fails: bool)
    requires 0 <= i < |sp| - 1
    requires xs == ColumnC(nval, sp, 0) && ns == ColumnC(nval, sp, 1) && ks == ColumnC(nval, sp, 2)
    ensures fails <==> SegmentFails(spline, nval, sp, tol, i)
  {
    var inf, sup := sp[i], sp[i + 1];
    var k := 0;
    while k < TestPoints
      invariant 0 <= k <= TestPoints
      invariant forall k' :: 0 <= k' < k ==> !ProbeFails(spline, nval, sp, tol, i, k')
    {
      var w := Probe(inf, sup, k, TestPoints);
      var n := nval(w);
      var ni, ki := spline(xs, ns, w), spline(xs, ks, w);
      ProbeCheck(spline, nval, sp, tol, i, k, xs, ns, ks);
      if Abs(ni - n.re) > tol || Abs(ki + n.im) > tol {
        return true;
      }
      k := k + 1;
    }
    return false;
  }

  /** subsampling_eval_c: the first segment one of whose 32 probes fails,
      or -1 when none does. */
  method SubsamplingEvalC(spline: SamplingOptim.Spline, nval: real -> Complex, sp: seq<real>, tol: real)
    returns (r: int)
    ensures r == -1 || 0 <= r < |sp| - 1
    ensures r >= 0 ==> SegmentFails(spline, nval, sp, tol, r)
    ensures forall i :: 0 <= i < |sp| - 1 && (r == -1 || i < r) ==> !SegmentFails(spline, nval, sp, tol, i)
  {
    var xs, ns, ks := InterpColumnsC(nval, sp);
    var i := 0;
    while i < |sp| - 1
      invariant 0 <= i
      invariant forall i' :: 0 <= i' < i && i' < |sp| - 1 ==> !SegmentFails(spline, nval, sp, tol, i')
    {
      var fails := SegmentCheck(spline, nval, sp, tol, i, xs, ns, ks);
      if fails {
        return i;
      }
      i := i + 1;
    }
    return -1;
  }

  /** The interior probes 1 .. n-1 of [inf, sup], in order. */
  function Probes(inf: real, sup: real, n: int): (ws: seq<real>)
    requires n >= 1
    ensures |ws| == n - 1
    ensures forall j :: 0 <= j < n - 1 ==> ws[j] == Probe(inf, sup, j + 1, TestPoints)
  {
    seq(n - 1, j requires 0 <= j < n - 1 => Probe(inf, sup, j + 1, TestPoints))
  }

  /** The running maximum interp_delta_score_c keeps in deviation c over
      the wavelengths ws, starting from 0. */
  function MaxDev(spline: SamplingOptim.Spline, nval: real -> Complex, xs: seq<real>, ns: seq<real>, ks: seq<real>,
                  c: int, ws: seq<real>): real
    decreases |ws|
  {
    if ws == [] then 0.0
    else Max(MaxDev(spline, nval, xs, ns, ks, c, ws[..|ws| - 1]), Dev(spline, nval, xs, ns, ks, c, ws[|ws| - 1]))
  }

  /** The running maximum bounds the deviation at every wavelength it has
      seen, is never negative, and is either 0 or one of those deviations;
      so it is at most tol exactly when every deviation is. */
  lemma {:induction false} MaxDevIsMax(spline: SamplingOptim.Spline, nval: real -> Complex, xs: seq<real>, ns: seq<real>,
                                       ks: seq<real>, c: int, ws: seq<real>, tol: real)
    ensures var m := MaxDev(spline, nval, xs, ns, ks, c, ws);
      m >= 0.0 &&
      (forall j :: 0 <= j < |ws| ==> Dev(spline, nval, xs, ns, ks, c, ws[j]) <= m) &&
      (m == 0.0 || exists j :: 0 <= j < |ws| && m == Dev(spline, nval, xs, ns, ks, c, ws[j])) &&
      (tol >= 0.0 ==> (m <= tol <==> forall j :: 0 <= j < |ws| ==> Dev(spline, nval, xs, ns, ks, c, ws[j]) <= tol))
    decreases |ws|
  {
    if ws != [] {
      var init := ws[..|ws| - 1];
      MaxDevIsMax(spline, nval, xs, ns, ks, c, init, tol);
      assert forall j :: 0 <= j < |init| ==> init[j] == ws[j];
    }
  }

  /** The score interp_delta_score_c computes: the larger of the two running
      maxima over the 31 interior probes. */
  function DeltaScoreC(spline: SamplingOptim.Spline, nval: real -> Complex, xs: seq<real>, ns: seq<real>, ks: seq<real>,
                       inf: real, sup: real): real
  {
    var ws := Probes(inf, sup, TestPoints);
    Max(MaxDev(spline, nval, xs, ns, ks, 1, ws), MaxDev(spline, nval, xs, ns, ks, 2, ws))
  }

  /** A segment scores at most tol >= 0 exactly when the interpolant is
      within tol of the reference, in n and in k, at each of its interior
      probes; the score is never negative. */
  lemma ScoreWithinTolerance(spline: SamplingOptim.Spline, nval: real -> Complex, xs: seq<real>, ns: seq<real>,
                             ks: seq<real>, inf: real, sup: real, tol: real)
    requires tol >= 0.0
    ensures DeltaScoreC(spline, nval, xs, ns, ks, inf, sup) >= 0.0
    ensures DeltaScoreC(spline, nval, xs, ns, ks, inf, sup) <= tol <==>
      forall k :: 1 <= k < TestPoints ==>
        Dev(spline, nval, xs, ns, ks, 1, Probe(inf, sup, k, TestPoints)) <= tol &&
        Dev(spline, nval, xs, ns, ks, 2, Probe(inf, sup, k, TestPoints)) <= tol
  {
    var ws := Probes(inf, sup, TestPoints);
    MaxDevIsMax(spline, nval, xs, ns, ks, 1, ws, tol);
    MaxDevIsMax(spline, nval, xs, ns, ks, 2, ws, tol);
    assert forall k :: 1 <= k < TestPoints ==> ws[k - 1] == Probe(inf, sup, k, TestPoints);
  }

  /** interp_delta_score_c: the loop over probes 1 .. 31 keeping both
      running maxima. */
  method InterpDeltaScoreC(spline: SamplingOptim.Spline, nval: real -> Complex, xs: seq<real>, ns: seq<real>, ks: seq<real>,
                           inf: real, sup: real) returns (r: real)
    ensures r == DeltaScoreC(spline, nval, xs, ns, ks, inf, sup)
  {
    var deln, delk := 0.0, 0.0;
    var k := 1;
    while k < TestPoints
      invariant 1 <= k <= TestPoints
      invariant deln == MaxDev(spline, nval, xs, ns, ks, 1, Probes(inf, sup, k))
      invariant delk == MaxDev(spline, nval, xs, ns, ks, 2, Probes(inf, sup, k))
    {
      var w := Probe(inf, sup, k, TestPoints);
      var nki, nkk := spline(xs, ns, w), spline(xs, ks, w);
      var nkr := nval(w);
      deln := Max(deln, Abs(nki - nkr.re));
      delk := Max(delk, Abs(nkk + nkr.im));
      assert Probes(inf, sup, k + 1)[..k - 1] == Probes(inf, sup, k);
      k := k + 1;
    }
    r := Max(deln, delk);
  }

  /** The score of candidate k placed at position pos: the new point at
      probe k/16 of [sp[pos-1], sp[pos+1]], scored over that segment. */
  function ScoreC(spline: SamplingOptim.Spline, nval: real -> Complex, sp: seq<real>, pos: int, k: int): real
    requires 1 <= pos < |sp| - 1
  {
    var inf, sup := sp[pos - 1], sp[pos + 1];
    var cand := sp[pos := Probe(inf, sup, k, SearchPoints)];
    DeltaScoreC(spline, nval, ColumnC(nval, cand, 0), ColumnC(nval, cand, 1), ColumnC(nval, cand, 2), inf, sup)
  }

  /** What add_new_point_c keeps after trying candidates 1 .. hi-1: the
      first one with the smallest score. */
  ghost predicate FirstMinC(spline: SamplingOptim.Spline, nval: real -> Complex, sp: seq<real>, pos: int, hi: int, kbest: int)
    requires 1 <= pos < |sp| - 1
  {
    1 <= kbest < hi &&
    (forall k :: 1 <= k < hi ==> ScoreC(spline, nval, sp, pos, k) >= ScoreC(spline, nval, sp, pos, kbest)) &&
    (forall k :: 1 <= k < kbest ==> ScoreC(spline, nval, sp, pos, k) > ScoreC(spline, nval, sp, pos, kbest))
  }

  /** One more candidate tried: the first candidate is always kept, a later
      one only when it scores strictly lower. */
  lemma FirstMinCStep(spline: SamplingOptim.Spline, nval: real -> Complex, sp: seq<real>, pos: int, k: int, kbest: int)
    requires 1 <= pos < |sp| - 1 && k >= 1
    requires k == 1 || FirstMinC(spline, nval, sp, pos, k, kbest)
    ensures k == 1 || ScoreC(spline, nval, sp, pos, k) < ScoreC(spline, nval, sp, pos, kbest) ==>
      FirstMinC(spline, nval, sp, pos, k + 1, k)
    ensures k > 1 && !(ScoreC(spline, nval, sp, pos, k) < ScoreC(spline, nval, sp, pos, kbest)) ==>
      FirstMinC(spline, nval, sp, pos, k + 1, kbest)
  {
  }

  /** The score of a candidate does not depend on what pos held before. */
  lemma ScoreCSlot(spline: SamplingOptim.Spline, nval: real -> Complex, sp: seq<real>, pos: int, v: real, k: int)
    requires 1 <= pos < |sp| - 1
    ensures ScoreC(spline, nval, sp[pos := v], pos, k) == ScoreC(spline, nval, sp, pos, k)
  {
    var w := Probe(sp[pos - 1], sp[pos + 1], k, SearchPoints);
    assert sp[pos := v][pos := w] == sp[pos := w];
  }

  /** Nor does the first minimiser. */
  lemma FirstMinCSlot(spline: SamplingOptim.Spline, nval: real -> Complex, sp: seq<real>, pos: int, v: real, hi: int, kbest: int)
    requires 1 <= pos < |sp| - 1 && FirstMinC(spline, nval, sp, pos, hi, kbest)
    ensures FirstMinC(spline, nval, sp[pos := v], pos, hi, kbest)
  {
    var sp' := sp[pos := v];
    ScoreCSlot(spline, nval, sp, pos, v, kbest);
    forall k | 1 <= k < hi
      ensures ScoreC(spline, nval, sp', pos, k) >= ScoreC(spline, nval, sp', pos, kbest)
      ensures k < kbest ==> ScoreC(spline, nval, sp', pos, k) > ScoreC(spline, nval, sp', pos, kbest)
    {
      ScoreCSlot(spline, nval, sp, pos, v, k);
    }
  }

  /** A table holding the sampled rows with candidate k at pos scores as
      ScoreC says. */
  lemma TableScoreC(spline: SamplingOptim.Spline, nval: real -> Complex, t: TabArray, sp: seq<real>, pos: int, k: int)
    requires 1 <= pos < |sp| - 1
    requires HoldsC(t, nval, sp[pos := Probe(sp[pos - 1], sp[pos + 1], k, SearchPoints)], -1)
    ensures DeltaScoreC(spline, nval, t.Row(0), t.Row(1), t.Row(2), sp[pos - 1], sp[pos + 1]) == ScoreC(spline, nval, sp, pos, k)
  {
    RowsAreColumnsC(t, nval, sp[pos := Probe(sp[pos - 1], sp[pos + 1], k, SearchPoints)]);
  }

  /** One trial of add_new_point_c: candidate k is written into column pos
      of the table, and the segment around it scored. */
  method TryCandidateC(spline: SamplingOptim.Spline, nval: real -> Complex, t: TabArray, sp: seq<real>, pos: int, k: int)
    returns (w: real, kdel: real)
    requires 1 <= pos < |sp| - 1 && HoldsC(t, nval, sp, pos)
    modifies t.cells
    ensures HoldsC(t, nval, sp, pos)
    ensures w == Probe(sp[pos - 1], sp[pos + 1], k, SearchPoints)
    ensures kdel == ScoreC(spline, nval, sp, pos, k) && kdel >= 0.0
  {
    var inf, sup := sp[pos - 1], sp[pos + 1];
    w := Probe(inf, sup, k, SearchPoints);
    var n := nval(w);
    t.Set(pos, 0, w);
    t.Set(pos, 1, n.re);
    t.Set(pos, 2, -n.im);
    assert HoldsC(t, nval, sp[pos := w], -1);
    kdel := InterpDeltaScoreC(spline, nval, t.Row(0), t.Row(1), t.Row(2), inf, sup);
    TableScoreC(spline, nval, t, sp, pos, k);
    ScoreWithinTolerance(spline, nval, t.Row(0), t.Row(1), t.Row(2), inf, sup, 0.0);
  }

  /** The search loop of add_new_point_c for the point at pos: the first of
      the probes k/16 (k = 1 .. 15) of [sp[pos-1], sp[pos+1]] with the
      smallest score. */
  method SearchBestC(spline: SamplingOptim.Spline, nval: real -> Complex, sp: seq<real>, pos: int)
    returns (best: real, ghost kbest: int)
    requires 1 <= pos < |sp| - 1
    ensures FirstMinC(spline, nval, sp, pos, SearchPoints, kbest)
    ensures best == Probe(sp[pos - 1], sp[pos + 1], kbest, SearchPoints)
  {
    best := sp[pos - 1];
    kbest := 0;
    var del := -1.0;
    var t := GetArrayC(nval, sp);
    var k := 1;
    while k < SearchPoints
      invariant 1 <= k <= SearchPoints
      invariant HoldsC(t, nval, sp, pos)
      invariant k == 1 ==> del == -1.0
      invariant k > 1 ==>
        FirstMinC(spline, nval, sp, pos, k, kbest) && del == ScoreC(spline, nval, sp, pos, kbest) && del >= 0.0 &&
        best == Probe(sp[pos - 1], sp[pos + 1], kbest, SearchPoints)
    {
      var w, kdel := TryCandidateC(spline, nval, t, sp, pos, k);
      FirstMinCStep(spline, nval, sp, pos, k, kbest);
      if del < 0.0 || kdel < del {
        best, del, kbest := w, kdel, k;
      }
      k := k + 1;
    }
  }

  /** Sampling wavelengths strictly increase. */
  predicate StrictlyIncreasing(sp: seq<real>)
  {
    forall a, b :: 0 <= a < b < |sp| ==> sp[a] < sp[b]
  }

  /** A wavelength strictly between its neighbours keeps the sampling
      wavelengths strictly increasing. */
  lemma InsertKeepsIncreasing(sp: seq<real>, s: int, v: real)
    requires StrictlyIncreasing(sp) && 0 <= s < |sp| - 1 && sp[s] < v < sp[s + 1]
    ensures StrictlyIncreasing(sp[..s + 1] + [v] + sp[s + 1..])
  {
    var sp' := sp[..s + 1] + [v] + sp[s + 1..];
    assert forall j :: 0 <= j < |sp'| ==> sp'[j] == (if j <= s then sp[j] else if j == s + 1 then v else sp[j - 1]);
    forall a, b | 0 <= a < b < |sp'|
      ensures sp'[a] < sp'[b]
    {
      if a <= s && b == s + 1 {
        assert sp[a] <= sp[s];
      } else if a == s + 1 && b > s + 1 {
        assert sp[s + 1] <= sp[b - 1];
      }
    }
  }

  /** add_new_point_c: a new sampling wavelength goes right after position
      `index`, at the first of the probes k/16 (k = 1 .. 15) of the segment
      that scores lowest.  It lies strictly inside a non-empty segment, so
      strictly increasing wavelengths stay strictly increasing; the first and
      the last wavelengths do not move. */
  method AddNewPointC(spline: SamplingOptim.Spline, nval: real -> Complex, points: PodVector<real>, index: int)
    requires points.Valid() && 0 <= index < |points.elems| - 1
    modifies points
    ensures points.Valid() && |points.elems| == |old(points.elems)| + 1
    ensures points.elems == old(points.elems)[..index + 1] + [points.elems[index + 1]] + old(points.elems)[index + 1..]
    ensures var inf, sup := old(points.elems)[index], old(points.elems)[index + 1];
      exists kbest :: FirstMinC(spline, nval, points.elems, index + 1, SearchPoints, kbest) &&
        points.elems[index + 1] == Probe(inf, sup, kbest, SearchPoints)
    ensures var inf, sup := old(points.elems)[index], old(points.elems)[index + 1];
      inf < sup ==> inf < points.elems[index + 1] < sup
    ensures points.elems[0] == old(points.elems)[0]
    ensures points.elems[|points.elems| - 1] == old(points.elems)[|old(points.elems)| - 1]
    ensures StrictlyIncreasing(old(points.elems)) ==> StrictlyIncreasing(points.elems)
  {
    ghost var before := points.elems;
    var inf, sup := points.elems[index], points.elems[index + 1];
    points.InsertAt(index + 1, (sup + inf) / 2.0);
    ghost var mid := points.elems;
    var best, kbest := SearchBestC(spline, nval, points.elems, index + 1);
    points.Set(index + 1, best);
    NewPointC(spline, nval, before, mid, points.elems, index, (sup + inf) / 2.0, best, kbest);
  }

  /** What placing the chosen candidate leaves: the placeholder m put right
      after `index` is overwritten by the best candidate, which is still the
      first minimiser there, lies inside the segment, and keeps the ends and
      the strict order. */
  lemma NewPointC(spline: SamplingOptim.Spline, nval: real -> Complex, before: seq<real>, mid: seq<real>,
                  after: seq<real>, index: int, m: real, best: real, kbest: int)
    requires 0 <= index < |before| - 1
    requires mid == before[..index + 1] + [m] + before[index + 1..]
    requires FirstMinC(spline, nval, mid, index + 1, SearchPoints, kbest)
    requires best == Probe(mid[index], mid[index + 2], kbest, SearchPoints)
    requires after == mid[index + 1 := best]
    ensures |after| == |before| + 1
    ensures after == before[..index + 1] + [after[index + 1]] + before[index + 1..]
    ensures var inf, sup := before[index], before[index + 1];
      exists k :: FirstMinC(spline, nval, after, index + 1, SearchPoints, k) &&
        after[index + 1] == Probe(inf, sup, k, SearchPoints)
    ensures var inf, sup := before[index], before[index + 1];
      inf < sup ==> inf < after[index + 1] < sup
    ensures after[0] == before[0] && after[|after| - 1] == before[|before| - 1]
    ensures StrictlyIncreasing(before) ==> StrictlyIncreasing(after)
  {
    assert mid[index] == before[index] && mid[index + 2] == before[index + 1];
    assert after == before[..index + 1] + [best] + before[index + 1..];
    FirstMinCSlot(spline, nval, mid, index + 1, best, SearchPoints, kbest);
    ProbeInside(before[index], before[index + 1], kbest, SearchPoints);
    if StrictlyIncreasing(before) {
      InsertKeepsIncreasing(before, index, best);
    }
  }

  /** optimize_sampling_points_c: starting from the ends of the wavelength
      range [ws, we] (disp_get_wavelength_range, a parameter here) and one
      point in the first segment, points are added in the first failing
      segment until none fails.  `fuel` bounds the number of rounds; None
      when it runs out.  A result starts at ws, ends at we, strictly
      increases when ws < we, and no probe of any of its segments fails. */
  method OptimizeSamplingPointsC(spline: SamplingOptim.Spline, nval: real -> Complex, ws: real, we: real, tol: real, fuel: nat)
    returns (r: Option<seq<real>>)
    ensures r.Some? ==>
      var sp := r.value;
      |sp| >= 3 && sp[0] == ws && sp[|sp| - 1] == we &&
      (ws < we ==> StrictlyIncreasing(sp)) &&
      forall i :: 0 <= i < |sp| - 1 ==> !SegmentFails(spline, nval, sp, tol, i)
  {
    var points := new PodVector<real>(16);
    points.PushBack(ws);
    points.PushBack(we);
    AddNewPointC(spline, nval, points, 0);
    var f := fuel;
    while f > 0
      invariant points.Valid() && |points.elems| >= 3
      invariant points.elems[0] == ws && points.elems[|points.elems| - 1] == we
      invariant ws < we ==> StrictlyIncreasing(points.elems)
    {
      var inok := SubsamplingEvalC(spline, nval, points.elems, tol);
      if inok < 0 {
        return Some(points.elems);
      }
      AddNewPointC(spline, nval, points, inok);
      f := f - 1;
    }
    return None;
  }

  /** dispersion_from_sampling_points on wavelengths: a new sample-table
      dispersion whose row i is (w, Re n(w), -Im n(w)) for w = sp[i]. */
  method DispersionFromSamplingPoints(nval: real -> Complex, sp: seq<real>) returns (d: SampleTableDisp)
    ensures fresh(d) && fresh(d.tableRef) && d.Valid() && d.nb == |sp|
    ensures |d.tableRef.cells| == |sp| && forall i :: 0 <= i < |sp| ==> d.tableRef.cells[i] == NvalRow(nval, sp[i])
  {
    d := new SampleTableDisp.Init(|sp|);
    var t := d.tableRef;
    var i := 0;
    while i < |sp|
      invariant 0 <= i <= |sp|
      invariant d.tableRef == t && d.nb == |sp| && t.Valid() && t.cols == 3 && |t.cells| == |sp|
      invariant forall j :: 0 <= j < i ==> t.cells[j] == NvalRow(nval, sp[j])
    {
      var w := sp[i];
      var n := nval(w);
      t.Set(i, 0, w);
      t.Set(i, 1, n.re);
      t.Set(i, 2, -n.im);
      assert t.cells[i] == NvalRow(nval, w);
      i := i + 1;
    }
  }

  /** With strictly increasing sampling wavelengths, the new dispersion
      returns exactly the reference index at each of them. */
  lemma {:induction false} SamplingPointsReproduceReference(nval: real -> Complex, sp: seq<real>, rows: seq<seq<real>>, i: int)
    requires |sp| >= 2 && StrictlyIncreasing(sp) && 0 <= i < |sp|
    requires |rows| == |sp| && forall j :: 0 <= j < |sp| ==> rows[j] == NvalRow(nval, sp[j])
    ensures WellFormed(rows, |sp|, 3) && DefinedAt(rows, |sp|, sp[i])
    ensures SampleNValue(rows, |sp|, sp[i]) == nval(sp[i])
  {
    assert WellFormed(rows, |sp|, 3);
    assert Increasing(rows, |sp|);
    SampleNodeExact(rows, |sp|, i);
  }
}
