/** Loading reflectometry spectra (refl-utils.c).  A Nova spectrum file is
    a header, one count per line (leading zeros, the data, possibly trailing
    zeros), then a line of five calibration coefficients; line k of the
    counts lies at wavelength w0 + k w1 + k^2 w2.  Lines reach the model
    already classified as scanf sees them. */
module ReflUtils {
  import opened Common
  import opened DataTables
  import opened Acquisition

  /** The five numbers of the calibration line; the wavelength uses the
      first three. */
  datatype Calibration = Calibration(w0: real, w1: real, w2: real, w3: real, w4: real)

  /** A line as read_nova_spectrum's scanf sees it: a lone unsigned count,
      a line of five numbers, or anything else. */
  datatype Line = Count(c: nat) | Calib(w: Calibration) | Other

  /** get_lambda: the wavelength of count line k. */
  function Lambda(w: Calibration, k: int): (lam: real)
    ensures lam == w.w0 + (k as real) * (w.w1 + (k as real) * w.w2)
    ensures k == 0 ==> lam == w.w0
  {
    w.w0 + (k as real) * w.w1 + ((k * k) as real) * w.w2
  }

  /** NORMALIZE: a count as a reflectance. */
  function Normalize(c: nat): (r: real)
    ensures r * 32020.0 == c as real
    ensures r >= 0.0 && (r == 0.0 <==> c == 0)
  {
    (c as real) / 32020.0
  }

  predicate Positive(l: Line)
  {
    l.Count? && l.c > 0
  }

  /** Where the count lines from i on end: the first line at or after i
      that is not a count, or the end of the file. */
  function EndOfCounts(ls: seq<Line>, i: nat): (p: nat)
    requires i <= |ls|
    ensures i <= p <= |ls|
    ensures forall j :: i <= j < p ==> ls[j].Count?
    ensures p < |ls| ==> !ls[p].Count?
    decreases |ls| - i
  {
    if i == |ls| || !ls[i].Count? then i else EndOfCounts(ls, i + 1)
  }

  /** The first positive count among the first n lines, or n when there is
      none. */
  function FirstPos(ls: seq<Line>, n: nat): (f: nat)
    requires n <= |ls|
    ensures f <= n
    ensures forall j :: 0 <= j < f ==> !Positive(ls[j])
    ensures f < n ==> Positive(ls[f])
  {
    if n == 0 then 0
    else
      var f := FirstPos(ls, n - 1);
      if f < n - 1 then f else if Positive(ls[n - 1]) then n - 1 else n
  }

  /** The last positive count among the first n lines, or -1 when there is
      none. */
  function LastPos(ls: seq<Line>, n: nat): (l: int)
    requires n <= |ls|
    ensures -1 <= l < n
    ensures l >= 0 ==> Positive(ls[l])
    ensures forall j :: l < j < n ==> !Positive(ls[j])
  {
    if n == 0 then -1
    else if Positive(ls[n - 1]) then n - 1
    else LastPos(ls, n - 1)
  }

  /** What the counting loop of read_nova_spectrum leaves: lc0 leading zero
      lines, lcount data lines from the first positive count to the last,
      the first positive count and the calibration. */
  datatype NovaScan = NovaScan(lc0: nat, lcount: nat, cSave: nat, w: Calibration)

  /** The outcome the counting loop should have: the count lines must end
      at a calibration line and hold a positive count; the data run from
      the first positive count to the last, trailing zeros excluded. */
  function ScanSpec(lines: seq<Line>): Option<NovaScan>
  {
    var p := EndOfCounts(lines, 0);
    var f := FirstPos(lines, p);
    if p < |lines| && f < p && lines[p].Calib? then
      var l := LastPos(lines, p);
      Some(NovaScan(f, l - f + 1, lines[f].c, lines[p].w))
    else None
  }

  /** The counting loop of read_nova_spectrum, with its five counters.  The
      source leaves lcount unset until the first positive count and reads
      the calibration only from a calibration line; here lcount starts at 0,
      so a calibration line before any data, like the end of the file,
      yields None. */
  method ScanCountLines(lines: seq<Line>) returns (r: Option<NovaScan>)
    ensures r == ScanSpec(lines)
  {
    var startingZeroes := true;
    var lc0, lcount, ezcount, cSave := 0, 0, 0, 0;
    var i := 0;
    while i < |lines|
      invariant 0 <= i <= |lines|
      invariant forall j :: 0 <= j < i ==> lines[j].Count?
      invariant lc0 == FirstPos(lines, i)
      invariant startingZeroes <==> lc0 == i
      invariant startingZeroes ==> lcount == 0 && ezcount == 0
      invariant !startingZeroes ==>
        cSave == lines[lc0].c && lcount == LastPos(lines, i) - lc0 + 1 && ezcount == i - 1 - LastPos(lines, i)
    {
      match lines[i]
      case Count(c) =>
        if c > 0 && startingZeroes {
          cSave := c;
          startingZeroes := false;
          lcount := 1;
        } else {
          if c > 0 && ezcount > 0 {
            lcount := lcount + ezcount;
            ezcount := 0;
          }
          if c == 0 {
            if !startingZeroes {
              ezcount := ezcount + 1;
            } else {
              lc0 := lc0 + 1;
            }
          }
          if !startingZeroes && ezcount == 0 {
            lcount := lcount + 1;
          }
        }
        i := i + 1;
      case Calib(w) =>
        if lcount > 0 {
          return Some(NovaScan(lc0, lcount, cSave, w));
        }
        return None;
      case Other =>
        return None;
    }
    return None;
  }

  /** A successful scan describes the file exactly: lc0 zero lines, then
      lcount count lines that start and end with a positive count, then
      only zeros up to the calibration line. */
  lemma ScanShape(lines: seq<Line>, s: NovaScan)
    requires ScanSpec(lines) == Some(s)
    ensures s.lcount >= 1 && s.lc0 + s.lcount <= EndOfCounts(lines, 0) < |lines|
    ensures lines[EndOfCounts(lines, 0)] == Calib(s.w)
    ensures forall j :: 0 <= j < s.lc0 ==> lines[j] == Count(0)
    ensures Positive(lines[s.lc0]) && s.cSave == lines[s.lc0].c && Positive(lines[s.lc0 + s.lcount - 1])
    ensures forall j :: s.lc0 <= j < s.lc0 + s.lcount ==> lines[j].Count?
    ensures forall j :: s.lc0 + s.lcount <= j < EndOfCounts(lines, 0) ==> lines[j] == Count(0)
  {
    var p := EndOfCounts(lines, 0);
    var f, l := FirstPos(lines, p), LastPos(lines, p);
    assert Positive(lines[f]);
  }

  /** Conversely, a file of that shape scans to exactly that description. */
  lemma ScanComplete(lines: seq<Line>, a: nat, n: nat, p: nat)
    requires 1 <= n && a + n <= p < |lines| && lines[p].Calib?
    requires forall j :: 0 <= j < a ==> lines[j] == Count(0)
    requires Positive(lines[a]) && Positive(lines[a + n - 1])
    requires forall j :: a <= j < a + n ==> lines[j].Count?
    requires forall j :: a + n <= j < p ==> lines[j] == Count(0)
    ensures ScanSpec(lines) == Some(NovaScan(a, n, lines[a].c, lines[p].w))
  {
    assert forall j :: 0 <= j < p ==> lines[j].Count?;
    assert EndOfCounts(lines, 0) == p;
    assert FirstPos(lines, p) == a;
    assert LastPos(lines, p) == a + n - 1;
  }

  /** The table read_nova_spectrum fills: lcount rows, row j holding the
      wavelength of count line lc0 + j + 1 and the normalised count of
      line lc0 + j. */
  function NovaRows(lines: seq<Line>, s: NovaScan): (rows: seq<seq<real>>)
    requires s.lc0 + s.lcount <= |lines| && forall j :: s.lc0 <= j < s.lc0 + s.lcount ==> lines[j].Count?
    ensures |rows| == s.lcount
    ensures forall j :: 0 <= j < s.lcount ==>
      rows[j] == [Lambda(s.w, s.lc0 + j + 1), Normalize(lines[s.lc0 + j].c)]
  {
    seq(s.lcount, j requires 0 <= j < s.lcount => [Lambda(s.w, s.lc0 + j + 1), Normalize(lines[s.lc0 + j].c)])
  }

  /** read_nova_spectrum: scan the counts, then fill a two-column table
      from the first positive count on (the source seeks back to it and
      reads the counts again). */
  method ReadNovaSpectrum(lines: seq<Line>) returns (r: Option<DataTable>)
    ensures r.None? <==> ScanSpec(lines).None?
    ensures r.Some? ==>
      var s := ScanSpec(lines).value;
      fresh(r.value) && r.value.Valid() && r.value.cols == 2 && r.value.refcount == 1 &&
      s.lc0 + s.lcount <= |lines| && (forall j :: s.lc0 <= j < s.lc0 + s.lcount ==> lines[j].Count?) &&
      r.value.cells == NovaRows(lines, s)
  {
    var scan := ScanCountLines(lines);
    if scan.None? {
      return None;
    }
    var s := scan.value;
    ScanShape(lines, s);
    ghost var rows := NovaRows(lines, s);
    var table := new DataTable(s.lcount, 2);
    SetRow(table, 0, Lambda(s.w, s.lc0 + 1), Normalize(s.cSave));
    var j := 1;
    while j < s.lcount
      invariant 1 <= j <= s.lcount
      invariant table.Valid() && |table.cells| == s.lcount && table.cols == 2 && table.refcount == 1
      invariant forall k :: 0 <= k < j ==> table.cells[k] == rows[k]
      modifies table
    {
      var c := lines[s.lc0 + j].c;
      SetRow(table, j, Lambda(s.w, s.lc0 + j + 1), Normalize(c));
      j := j + 1;
    }
    assert table.cells == rows;
    return Some(table);
  }

  /** The two data_table_set calls that fill row j of a two-column table. */
  method SetRow(table: DataTable, j: nat, x: real, y: real)
    requires table.Valid() && table.cols == 2 && j < |table.cells|
    modifies table`cells
    ensures table.Valid() && table.cells == old(table.cells)[j := [x, y]]
  {
    table.Set(j, 0, x);
    table.Set(j, 1, y);
    assert table.cells[j] == [x, y];
  }

  /** pat occurs in s starting at index i. */
  predicate OccursAt(s: seq<char>, pat: seq<char>, i: int)
  {
    0 <= i && i + |pat| <= |s| && s[i..i + |pat|] == pat
  }

  /** Whether pat occurs in s (strstr finds it). */
  function Contains(s: seq<char>, pat: seq<char>): bool
    decreases |s|
  {
    if |s| < |pat| then false
    else if s[..|pat|] == pat then true
    else Contains(s[1..], pat)
  }

  /** An occurrence past the first index is one in the tail. */
  lemma OccursShift(s: seq<char>, pat: seq<char>, i: int)
    requires i >= 1 && OccursAt(s, pat, i)
    ensures OccursAt(s[1..], pat, i - 1)
  {
    assert s[1..][i - 1..i - 1 + |pat|] == s[i..i + |pat|];
  }

  /** The scan finds pat exactly when it occurs somewhere in s. */
  lemma {:induction false} ContainsOccurs(s: seq<char>, pat: seq<char>)
    ensures Contains(s, pat) <==> exists i :: OccursAt(s, pat, i)
    decreases |s|
  {
    if |s| < |pat| {
    } else if s[..|pat|] == pat {
      assert OccursAt(s, pat, 0);
    } else {
      ContainsOccurs(s[1..], pat);
      if Contains(s[1..], pat) {
        var i :| OccursAt(s[1..], pat, i);
        assert s[1..][i..i + |pat|] == s[i + 1..i + 1 + |pat|];
        assert OccursAt(s, pat, i + 1);
      } else {
        forall i | OccursAt(s, pat, i)
          ensures false
        {
          assert i != 0;
          OccursShift(s, pat, i);
        }
      }
    }
  }

  const ExperimentalHeader: seq<char> := ";Experimental Spectrum"
  const TheoreticalHeader: seq<char> := ";Theoretical Spectrum"

  datatype Reader = NovaReader | GenericReader

  /** The header dispatch of load_refl_data: a first line naming an
      experimental or theoretical spectrum selects the Nova reader, any
      other the generic one. */
  function SelectReader(first: seq<char>): (r: Reader)
    ensures r == NovaReader <==>
      (exists i :: OccursAt(first, ExperimentalHeader, i)) || (exists i :: OccursAt(first, TheoreticalHeader, i))
  {
    ContainsOccurs(first, ExperimentalHeader);
    ContainsOccurs(first, TheoreticalHeader);
    if Contains(first, ExperimentalHeader) || Contains(first, TheoreticalHeader) then NovaReader else GenericReader
  }

  /** A loaded spectrum: the kind of system that measured it and its table. */
  datatype Spectrum = Spectrum(system: SystemKind, table: DataTable)

  /** The lines the generic reader is given: the one after the header is
      skipped. */
  function GenericLines(rest: seq<seq<char>>): seq<seq<char>>
  {
    if rest == [] then [] else rest[1..]
  }

  /** load_refl_data once the file is open: the first line picks the
      reader; a reader failure is a format error (None).  Line
      classification and the generic table reader (data_table_read_lines)
      are parameters. */
  method LoadReflData(first: seq<char>, rest: seq<seq<char>>, classify: seq<char> -> Line,
                      readGeneric: seq<seq<char>> -> Option<DataTable>)
    returns (r: Option<Spectrum>)
    ensures r.Some? ==> r.value.system == Reflectometer
    ensures var lines := seq(|rest|, i requires 0 <= i < |rest| => classify(rest[i]));
      SelectReader(first) == NovaReader ==>
        (r.Some? <==> ScanSpec(lines).Some?) &&
        (r.Some? ==>
          var s := ScanSpec(lines).value;
          s.lc0 + s.lcount <= |lines| && (forall j :: s.lc0 <= j < s.lc0 + s.lcount ==> lines[j].Count?) &&
          r.value.table.cells == NovaRows(lines, s))
    ensures SelectReader(first) == GenericReader ==>
      (r.Some? <==> readGeneric(GenericLines(rest)).Some?) &&
      (r.Some? ==> r.value.table == readGeneric(GenericLines(rest)).value)
  {
    var table: Option<DataTable>;
    if SelectReader(first) == NovaReader {
      var lines := seq(|rest|, i requires 0 <= i < |rest| => classify(rest[i]));
      table := ReadNovaSpectrum(lines);
    } else {
      table := readGeneric(GenericLines(rest));
    }
    if table.None? {
      return None;
    }
    return Some(Spectrum(Reflectometer, table.value));
  }
}
