# regress-pro core, modelled in Dafny

regress-pro fits thin-film optical models to spectroscopic ellipsometry and
reflectometry measurements. This project models the parts of it that
manage fit parameters, evaluate tabulated dispersions, choose adaptive
sampling points for a dispersion, manage the growable string buffer, and
recognise Nova reflectometry spectra. It proves properties of that model.
Double-precision numbers are `real`s. The GSL cubic spline, square root and
analytic dispersion evaluators are function parameters.

Modules, one per source file:

- `FitParams` (fit-params.c) covers the following.
  - A fit parameter's identity and comparison.
  - The counted arrays of fit parameters and seeds (class `CountedArray`).
    Append and shift-left removal work in place.
  - Linear lookup.
  - The layer-renumbering fix-ups applied when a layer of the film stack
    is inserted or deleted.
  - The range-seed midpoint.
  - Parameter names ("T<n>", "1stmult", "###", or a dispersion class's
    encoder).
  - The token choice of the parameter writer.
- `DataTables` is the reference-counted numeric table that the
  dispersions share (class `DataTable`). Its C implementation,
  data-table.c, is not part of this model. Only the calls that the other
  files make are modelled.
- `DispTable` (disp-table.c) is a dispersion sampled on a uniform
  wavelength grid (class `TableDisp`). It covers the interpolation with a
  clamped segment index, the row assembly of the NK loader, and shallow
  copy and free.
- `DispSampleTable` (disp-sample-table.c) is a dispersion sampled at
  arbitrary wavelengths (class `SampleTableDisp`). It covers the bracketing
  scan and the interpolation, the value beyond the last node, and the
  reference-count handling that depends on `nb`.
- `TabArrays` covers the `tab_array` and `pod_vector` containers of
  fox-gui/dispers_sampling_optim.cpp.
- `SamplingOptim` is the index-based optimiser of
  fox-gui/dispers_sampling_optim.cpp. It chooses a subset of a sampled
  table's rows whose spline stays within a tolerance of every row.
- `SamplingOptimC` is the wavelength-based optimiser (the `_c` variants).
  It chooses wavelengths in a range whose spline stays within a tolerance
  of the reference dispersion at 32 probes per segment.
- `Str` (str.c) is the string buffer (class `StrBuf`). It covers capacity
  rounding, copy, append with separator, truncation, left padding,
  basename and dirname.
- `ReflUtils` (refl-utils.c) covers the Nova spectrum reader's counting
  state machine, the table it fills, and the header dispatch of the
  reflectometry loader.
- `Acquisition` (src/acquisition.h) covers the kinds of measuring system
  and the channel and parameter counts per kind.
- `Common` holds Option, complex numbers over reals, and C's truncating
  conversion to int.

Where the code and its documented behaviour disagree, the model follows
the code.

- For a uniform table with nodes 300, 550 and 800 nm and values 1.5,
  1.6−0.1i and 1.7−0.2i, the code gives 1.56−0.06i at 450 nm
  (`DispTable.NkExample`).
- Outside the grid the code extends the first or last segment linearly.
  It does not clamp to the edge value (`DispTable.BelowRange`,
  `DispTable.AboveRange`).

## Model

| member | source | states |
|---|---|---|
| FitParams.ModelParam | fit-params.c:9-17 | a PID_LAYER_N parameter storing the layer, the model id and the parameter number |
| FitParams.ThickParam | fit-params.c:19-26 | a PID_THICKNESS parameter storing the layer, with model id and parameter number 0 |
| FitParams.Compare | fit-params.c:257-267 | result is 0 or 1; 0 exactly when id and layer number agree and, for PID_LAYER_N only, model id and parameter number also agree; the layer number is compared even for 1stmult |
| FitParams.CompareIsEquivalence | fit-params.c:257-267 | comparison is reflexive, symmetric and transitive on equality |
| FitParams.ConstructorsIdentity | fit-params.c:9-26 | thickness parameters are equal iff their layers are; dispersion parameters iff layer, model and parameter number are; a thickness parameter never equals a dispersion parameter |
| FitParams.CountedArray.constructor | fit-params.c:111-114 | a new list is empty |
| FitParams.CountedArray.CheckAlloc | fit-params.c:129-139 | after the capacity check there is room for one more entry and the contents are unchanged |
| FitParams.CountedArray.Add | fit-params.c:129-139 | the entry is appended at position `number`; earlier entries are unchanged; no duplicate check |
| FitParams.CountedArray.Remove | fit-params.c:141-149 | entries after the index shift left by one, earlier entries are unchanged, the count drops by one; an index at or past the end drops the last entry |
| FitParams.CountedArray.Clear | fit-params.c:123-127 | the list becomes empty |
| FitParams.Find | fit-params.c:269-280 | the lowest index whose entry compares equal, or -1 when none does |
| FitParams.AreRIFixed | fit-params.c:244-255 | true iff no entry has id PID_LAYER_N |
| FitParams.FixDeleteLayer | fit-params.c:282-296 | every entry is rewritten by the delete fix-up and the count is unchanged |
| FitParams.FixInsertLayer | fit-params.c:298-308 | every entry is rewritten by the insert fix-up and the count is unchanged |
| FitParams.FixLayerShift | fit-params.c:310-318 | dispatches on the event: delete or insert fix-up; any other event changes nothing |
| FitParams.DeleteLayerEffect | fit-params.c:282-296 | a layer-scoped entry on the deleted layer becomes PID_INVALID, one above it moves down a layer; all other entries are unchanged |
| FitParams.InsertLayerEffect | fit-params.c:298-308 | a layer-scoped entry at or above the inserted layer moves up a layer; all other entries are unchanged |
| FitParams.InsertThenDeleteRestores | fit-params.c:282-308 | inserting a layer and deleting it again restores every entry |
| FitParams.InsertKeepsDistinct | fit-params.c:298-308 | the insert fix-up keeps pairwise-distinct entries distinct |
| FitParams.DeleteKeepsValidDistinct | fit-params.c:282-296 | the delete fix-up keeps pairwise-distinct valid entries distinct |
| FitParams.LayerShiftExample | fit-params.c:282-308 | deleting or inserting layer 1 changes a thickness, a dispersion parameter and 1stmult as expected |
| FitParams.SeedListAddSimple | fit-params.c:163-174 | appends one simple seed with the given value; earlier seeds are unchanged |
| FitParams.ParseFitString | fit-params.c:95-109 | returns 0 iff three fields were read, then a range seed whose value is the midpoint of min and max; otherwise returns 1, the fields read are stored, and the seed's type and value are untouched |
| FitParams.RangeSeedInside | fit-params.c:102-105 | the midpoint seed lies between min and max |
| FitParams.FindClass | fit-params.c:70-93 | the first registry class with a matching model id, or none |
| FitParams.DispParamName | fit-params.c:70-93 | "###" unless the id is PID_LAYER_N and a class matches; otherwise the encoder of the first matching class |
| FitParams.NatDigitsRoundTrip | fit-params.c:32-34 | the decimal digits of a layer number read back as that number |
| FitParams.DecimalInjective | fit-params.c:32-34 | distinct layer numbers print differently |
| FitParams.ParamName | fit-params.c:28-44 | "T<layer>" for thickness, "1stmult" for the first multiplier, "###" for an invalid id, the dispersion name for PID_LAYER_N |
| FitParams.ThicknessNamesDistinct | fit-params.c:28-44 | two thickness names are equal iff the parameters compare equal, and never clash with "1stmult" or "###" |
| FitParams.WriteTokens | fit-params.c:320-336 | the keyword for the id comes first; the layer is written iff the parameter is layer-scoped; the model name and the parameter number follow iff the id is PID_LAYER_N |
| FitParams.WriteTokensIdentity | fit-params.c:257-267 | parameters that compare equal are written identically, and for layer-scoped ids the converse also holds |
| FitParams.FirstMulLayerNotWritten | fit-params.c:257-267 | two 1stmult parameters on different layers are written identically but compare unequal |
| DataTables.DataTable.constructor | disp-table.c:47 | a rows×cols table of zeros with reference count 1 |
| DataTables.DataTable.Set | disp-table.c:69-70 | exactly one cell changes |
| DataTables.DataTable.Ref | disp-table.c:61 | the reference count grows by one |
| DataTables.DataTable.Unref | disp-table.c:53 | the reference count drops by one and the table is freed iff it reaches 0 |
| DispTable.ValueAtIndex | disp-table.c:90-99 | the value of row idx is column 0 minus i times column 1 |
| DispTable.Step | disp-table.c:119 | nb−1 steps of dlam lead from lmin to lmax exactly |
| DispTable.SegmentIndex | disp-table.c:120-122 | the segment index is clamped into [0, nb−2] |
| DispTable.InteriorSegment | disp-table.c:120-128 | inside segment i, the index is i and the weight lies in [0, 1) |
| DispTable.UniformNValue | disp-table.c:107-131 | the value lies on the line through the two nodes of a segment in [0, nb−2], at the grid position measured from that segment's first node; lmin gives node 0 and lmax node nb−1 |
| DispTable.RangeEnds | disp-table.c:118-128 | lmin is weight 0 on segment 0 and lmax is weight 1 on segment nb−2 |
| DispTable.NodeExact | disp-table.c:124-128 | at the grid node lmin + i·dlam the value of node i comes back exactly |
| DispTable.NodeAtStride | disp-table.c:101-128 | at lmin + i·stride, with the stride set by set_range, the value of node i comes back exactly |
| DispTable.BelowRange | disp-table.c:120-128 | below lmin the first segment is extended linearly (weight < 0); the value is not clamped |
| DispTable.AboveRange | disp-table.c:120-128 | above lmax the last segment is extended linearly (weight > 1) |
| DispTable.NkExample | disp-table.c:107-131 | a three-node table from 300 to 800 nm has step 250 and gives 1.56−0.06i at 450 nm |
| DispTable.TableDisp.Init | disp-table.c:40-48 | sets the point count, a zero range and a fresh table with reference count 1 |
| DispTable.TableDisp.SetIndexValue | disp-table.c:65-71 | row idx becomes [nr, ni] and no other row changes |
| DispTable.TableDisp.SetRange | disp-table.c:73-79 | stores lmin and lmax; the stride times (points−1) spans the range |
| DispTable.TableDisp.GetRange | disp-table.c:81-88 | returns lmin, lmax and the point count |
| DispTable.TableDisp.GetLambda | disp-table.c:101-105 | the wavelength of index idx is idx strides above lmin |
| DispTable.TableDisp.NValue | disp-table.c:107-131 | the dispersion's value is node 0 at lambda_min and the last node at lambda_max, by the clamped interpolation above |
| DispTable.TableDisp.NodeAtGetLambda | disp-table.c:101-131 | evaluating at get_lambda(i) returns node i's value |
| DispTable.TableDisp.CopyOf | disp-table.c:60 | the shallow copy has the same fields and the same table |
| DispTable.TableDisp.Copy | disp-table.c:57-63 | the copy shares the table and the reference count grows by exactly one |
| DispTable.TableDisp.Free | disp-table.c:50-55 | the reference count drops by exactly one and the table is freed iff it reaches 0 |
| DispTable.NewFromNkRows | disp-table.c:161-177 | a header (wlmin, wlmax, npt) gives npt+1 rows copied from the file and a range from wlmin·1000 to wlmax·1000; a short row list or npt < 1 gives none |
| DispSampleTable.Node | disp-sample-table.c:88-89 | the value of row j is column 1 minus i times column 2 |
| DispSampleTable.Bracket | disp-sample-table.c:74-79 | the smallest j in [0, nb−1) whose next wavelength is at least λ, or nb−1 |
| DispSampleTable.BracketUnique | disp-sample-table.c:74-79 | any index with the bracketing property is the scan's result |
| DispSampleTable.BracketEnds | disp-sample-table.c:74-79 | the scan ends at the last row when every later wavelength is below λ, and at row 0 when the second wavelength reaches λ |
| DispSampleTable.SampleNValue | disp-sample-table.c:66-92 | beyond every later node the last row comes back as n + i·k; up to the second wavelength the first segment is interpolated, or extended below the first node |
| DispSampleTable.InsideInterpolates | disp-sample-table.c:84-91 | inside the table the value is n1 + (n2−n1)·a, with a = (λ−λj)/(λj+1−λj) |
| DispSampleTable.DefinedAtExact | disp-sample-table.c:74-87 | the evaluation is defined (only a zero-width first segment reached with λ at or below its right end divides by zero) exactly when the selected segment has a non-zero width |
| DispSampleTable.SampleFirstNode | disp-sample-table.c:74-91 | when the second wavelength exceeds the first, evaluating at the first returns row 0's value |
| DispSampleTable.SampleLaterNode | disp-sample-table.c:74-91 | evaluating at the wavelength of row i > 0, when the earlier rows lie below it, returns row i's value |
| DispSampleTable.SampleNodeExact | disp-sample-table.c:74-91 | with increasing wavelengths, evaluating at a node is defined and returns that node's value |
| DispSampleTable.BelowFirstNode | disp-sample-table.c:74-91 | below the first node, j = 0 and the first segment is extended linearly (a < 0) |
| DispSampleTable.BeyondLastNode | disp-sample-table.c:81-82 | beyond the last node the last row is returned as n + i·k, the opposite sign to the node value |
| DispSampleTable.SingleRow | disp-sample-table.c:74-82 | a one-row table returns that row, as n + i·k, at every wavelength |
| DispSampleTable.MatExample | disp-sample-table.c:84-91 | nodes 100 and 200 nm with n 1.0 and 1.2 give 1.1 at 150 nm |
| DispSampleTable.SampleTableDisp.Init | disp-sample-table.c:34-39 | sets nb and allocates an nb-row table with reference count 1 |
| DispSampleTable.SampleTableDisp.Clear | disp-sample-table.c:41-45 | nb becomes 0 and the table reference is left alone |
| DispSampleTable.SampleTableDisp.CopyOf | disp-sample-table.c:59 | the shallow copy has the same nb and the same table |
| DispSampleTable.SampleTableDisp.Copy | disp-sample-table.c:56-64 | the copy shares the table; the reference count grows by one only when nb > 0 |
| DispSampleTable.SampleTableDisp.Free | disp-sample-table.c:47-54 | the reference count drops by one only when nb > 0 |
| DispSampleTable.SampleTableDisp.NValue | disp-sample-table.c:66-92 | the scan-and-interpolate loop computes the bracketing specification wherever it does not divide by zero |
| TabArrays.PodVector.constructor | fox-gui/dispers_sampling_optim.cpp:165 | an empty vector with the requested capacity |
| TabArrays.PodVector.PushBack | fox-gui/dispers_sampling_optim.cpp:166-167 | appends one element |
| TabArrays.PodVector.InsertAt | fox-gui/dispers_sampling_optim.cpp:37-44 | the value lands at index, earlier elements are kept, later ones shift right by one; the capacity becomes 3/2 of the new size when it was too small |
| TabArrays.PodVector.Set | fox-gui/dispers_sampling_optim.cpp:147 | overwrites one element |
| TabArrays.CellLayout | fox-gui/dispers_sampling_optim.cpp:14-18 | cell (i, j) sits at i + size·j, inside the array, and distinct cells never share a slot |
| TabArrays.TabArray.At | fox-gui/dispers_sampling_optim.cpp:17-18 | at(i, j) reads slot i + size·j |
| TabArrays.TabArray.Row | fox-gui/dispers_sampling_optim.cpp:14-15 | row(k)[i] is the same cell as at(i, k) |
| TabArrays.TabArray.Set | fox-gui/dispers_sampling_optim.cpp:17-18 | writing at(i, j) changes that cell and no other |
| SamplingOptim.Column | fox-gui/dispers_sampling_optim.cpp:83-92 | column c of the chosen rows |
| SamplingOptim.RowsAreColumns | fox-gui/dispers_sampling_optim.cpp:83-92 | each row of the materialised array is a column of the source rows at the chosen indices |
| SamplingOptim.GetArray | fox-gui/dispers_sampling_optim.cpp:83-92 | row i of the array copies columns 0-2 of source row ipoints[i] |
| SamplingOptim.SubsamplingEval | fox-gui/dispers_sampling_optim.cpp:94-106 | the first source index whose n or k deviation from the spline exceeds tol, or -1 |
| SamplingOptim.SqDevZero | fox-gui/dispers_sampling_optim.cpp:110-120 | a sum of squared deviations is non-negative and is zero iff the spline matches every row |
| SamplingOptim.InterpDeltaScore | fox-gui/dispers_sampling_optim.cpp:110-120 | the loop computes the score of the rows between the two indices |
| SamplingOptim.TableScore | fox-gui/dispers_sampling_optim.cpp:126-134 | the score computed on the materialised array is the candidate's score |
| SamplingOptim.FirstBestStep | fox-gui/dispers_sampling_optim.cpp:129-139 | one step of the search loop keeps the first-best invariant |
| SamplingOptim.TryCandidate | fox-gui/dispers_sampling_optim.cpp:129-134 | placing candidate k at row pos and scoring yields the candidate's score; the array keeps the chosen rows everywhere except row pos, which now holds candidate k |
| SamplingOptim.FindDeltaOptimal | fox-gui/dispers_sampling_optim.cpp:122-141 | the first k in (ka, kb) with the lowest score below 1000; ka when no score is below 1000 |
| SamplingOptim.InsertOptPoint | fox-gui/dispers_sampling_optim.cpp:143-148 | one index is inserted after position i; it is the search's best, strictly between the neighbours, or the left neighbour |
| SamplingOptim.NewOptPoint | fox-gui/dispers_sampling_optim.cpp:143-148 | the insert-then-overwrite sequence yields that vector |
| SamplingOptim.FirstStraddle | fox-gui/dispers_sampling_optim.cpp:152-158 | the first segment whose wavelengths strictly straddle the failing row, or -1 |
| SamplingOptim.InsertKeepsOrder | fox-gui/dispers_sampling_optim.cpp:143-148 | inserting an index between its neighbours keeps the indices non-decreasing |
| SamplingOptim.AddNewPoint | fox-gui/dispers_sampling_optim.cpp:150-160 | inserts into the first straddling segment, keeps the indices ordered and the endpoints, and leaves the vector unchanged when no segment straddles |
| SamplingOptim.ScanAsWrittenAgrees | fox-gui/dispers_sampling_optim.cpp:152-158 | the scan as written agrees with the corrected one whenever a segment straddles; otherwise it reads past the end |
| SamplingOptim.TwoRowsReadPastEnd | fox-gui/dispers_sampling_optim.cpp:150-170 | the first call on a two-row table reads ipoints[2] |
| SamplingOptim.OptimizeSamplingPoints | fox-gui/dispers_sampling_optim.cpp:162-178 | on return the first index is 0 and the last is size−1, the indices are in range and non-decreasing, and no row fails the tolerance |
| SamplingOptim.IndexRows | fox-gui/dispers_sampling_optim.cpp:275-290 | row i of the new table is source row ipoints[i] |
| SamplingOptim.DispersionFromIndexPoints | fox-gui/dispers_sampling_optim.cpp:275-290 | builds a sample table with one row per chosen index, copied from the source (row layout of disp-sample-table.c) |
| SamplingOptim.IndexPointsReproduceNodes | fox-gui/dispers_sampling_optim.cpp:275-290 | with strictly increasing wavelengths, the new table, evaluated by disp-sample-table.c's linear n_value, reproduces each chosen source row exactly |
| SamplingOptimC.ProbeInside | fox-gui/dispers_sampling_optim.cpp:192-196 | probe 0 is inf and interior probes lie strictly inside (inf, sup) |
| SamplingOptimC.NvalRow | fox-gui/dispers_sampling_optim.cpp:183-188 | a row is (w, Re n(w), −Im n(w)) |
| SamplingOptimC.ColumnC | fox-gui/dispers_sampling_optim.cpp:180-190 | column c of the rows at the sampling points |
| SamplingOptimC.RowsAreColumnsC | fox-gui/dispers_sampling_optim.cpp:180-190 | each row of the materialised array is a column of reference values |
| SamplingOptimC.GetArrayC | fox-gui/dispers_sampling_optim.cpp:180-190 | row i holds the wavelength and the reference n and −k at sampling point i |
| SamplingOptimC.ProbeCheck | fox-gui/dispers_sampling_optim.cpp:243-248 | one probe's check is the tolerance test at that probe |
| SamplingOptimC.SegmentCheck | fox-gui/dispers_sampling_optim.cpp:239-249 | the inner loop reports failure iff one of the 32 probes of the segment fails |
| SamplingOptimC.SubsamplingEvalC | fox-gui/dispers_sampling_optim.cpp:235-253 | the first failing segment in [0, size−2], or -1 |
| SamplingOptimC.Probes | fox-gui/dispers_sampling_optim.cpp:196 | the probes k = 1..n−1 of a segment |
| SamplingOptimC.MaxDevIsMax | fox-gui/dispers_sampling_optim.cpp:192-203 | the score bounds every probe's deviation and is attained at a probe |
| SamplingOptimC.ScoreWithinTolerance | fox-gui/dispers_sampling_optim.cpp:192-203 | the score is non-negative and at most tol iff every probe deviates by at most tol |
| SamplingOptimC.InterpDeltaScoreC | fox-gui/dispers_sampling_optim.cpp:192-203 | the loop computes the maximum deviation over k = 1..31 |
| SamplingOptimC.FirstMinCStep | fox-gui/dispers_sampling_optim.cpp:219-231 | one step of the search keeps the first-minimiser invariant |
| SamplingOptimC.TableScoreC | fox-gui/dispers_sampling_optim.cpp:216-226 | the score computed on the materialised array is the candidate's score |
| SamplingOptimC.TryCandidateC | fox-gui/dispers_sampling_optim.cpp:219-226 | placing probe k and scoring it yields the candidate's score |
| SamplingOptimC.SearchBestC | fox-gui/dispers_sampling_optim.cpp:213-232 | the first minimising k in 1..15 and its wavelength inf + (sup−inf)·k/16 |
| SamplingOptimC.InsertKeepsIncreasing | fox-gui/dispers_sampling_optim.cpp:205-233 | a point strictly inside a segment keeps the points strictly increasing |
| SamplingOptimC.AddNewPointC | fox-gui/dispers_sampling_optim.cpp:205-233 | one point is inserted after index, at the first minimiser, strictly inside (inf, sup) when inf < sup; the endpoints and strict increase are kept |
| SamplingOptimC.NewPointC | fox-gui/dispers_sampling_optim.cpp:205-233 | the insert-then-overwrite sequence yields that vector |
| SamplingOptimC.OptimizeSamplingPointsC | fox-gui/dispers_sampling_optim.cpp:255-273 | on return the points start at the range start and end at the range end, are strictly increasing, and no segment fails the tolerance |
| SamplingOptimC.DispersionFromSamplingPoints | fox-gui/dispers_sampling_optim.cpp:292-308 | builds a sample table whose row i is (w, Re n(w), −Im n(w)) at sampling point i |
| SamplingOptimC.SamplingPointsReproduceReference | fox-gui/dispers_sampling_optim.cpp:292-308 | at each sampling point the new table, evaluated by disp-sample-table.c's linear n_value, gives the reference dispersion's value |
| Str.RoundSizeLeast | str.c:14-28 | the rounded size is the least 16·2^k that is at least sz |
| Str.SzRound | str.c:14-28 | the doubling loop computes that size |
| Str.SizeAfterCheck | str.c:87-103 | after a size check the capacity exceeds the requested length |
| Str.LastIndex | str.c:166-184 | the last occurrence of the separator, or -1 |
| Str.DirnameBasename | str.c:165-185 | dirname, the separator and basename rebuild the path, and basename holds no separator; without a separator both are the whole string |
| Str.StrBuf.Contents | str.c:37-46 | the contents have the buffer's length and hold no NUL |
| Str.StrBuf.Init | str.c:37-46 | a negative length counts as 0; the string is empty with capacity the rounded len+1 |
| Str.StrBuf.SizeCheck | str.c:87-103 | the capacity exceeds the requested length and the contents are unchanged |
| Str.StrBuf.CopyC | str.c:114-121 | the buffer holds exactly the C string |
| Str.StrBuf.Copy | str.c:105-112 | the buffer holds exactly the other buffer's contents |
| Str.StrBuf.CopyCSubstr | str.c:123-131 | the buffer holds exactly the first max(len, 0) characters |
| Str.StrBuf.AppendC | str.c:133-147 | the buffer holds the old contents, the separator when it is not NUL, and the appended string |
| Str.StrBuf.Trunc | str.c:155-163 | no change when len < 0 or len ≥ length, otherwise the prefix of length len |
| Str.StrBuf.GetBasename | str.c:165-174 | the buffer holds the part of the path after the last separator |
| Str.StrBuf.Dirname | str.c:176-185 | the buffer holds the part of the path before the last separator |
| Str.StrBuf.Pad | str.c:293-307 | left-filled with the separator to exactly len characters when len > length, unchanged otherwise |
| Str.PadAsWrittenOverruns | str.c:301-304 | with the capacity request as written, the buffer is one byte short exactly when len is 16·2^k |
| Str.PadAsWrittenExample | str.c:301-304 | padding a 16-byte buffer to 16 characters gets 16 bytes, not 17 |
| ReflUtils.Lambda | refl-utils.c:10-14 | the wavelength of count line k is w0 + k·(w1 + k·w2), so w0 at k = 0 |
| ReflUtils.Normalize | refl-utils.c:8 | a count c becomes c/32020: non-negative, and zero only for a zero count |
| ReflUtils.EndOfCounts | refl-utils.c:26-65 | where the run of count lines ends |
| ReflUtils.FirstPos | refl-utils.c:33-50 | the first positive count line, so lc0 is the number of leading zero lines |
| ReflUtils.LastPos | refl-utils.c:40-55 | the last positive count line |
| ReflUtils.ScanCountLines | refl-utils.c:26-65 | the counting loop yields the first positive count, the leading-zero count and the span from the first positive count to the last |
| ReflUtils.ScanShape | refl-utils.c:26-65 | a successful scan means leading zeros, a data run that starts and ends positive, trailing zeros, then a calibration line |
| ReflUtils.ScanComplete | refl-utils.c:26-65 | every file of that shape scans successfully, with exactly that description |
| ReflUtils.NovaRows | refl-utils.c:71-80 | lcount rows; row j holds get_lambda(w, lc0+j+1) and the normalised count of line lc0+j |
| ReflUtils.ReadNovaSpectrum | refl-utils.c:16-83 | fails exactly when the scan fails; otherwise a fresh two-column table holding those rows |
| ReflUtils.ContainsOccurs | refl-utils.c:106-107 | the substring search finds the pattern iff it occurs somewhere |
| ReflUtils.SelectReader | refl-utils.c:106-112 | the Nova reader iff the first line contains ";Experimental Spectrum" or ";Theoretical Spectrum" |
| ReflUtils.LoadReflData | refl-utils.c:85-130 | a reflectometer spectrum from the selected reader; a reader failure is a format error |
| Acquisition.Ordinal | src/acquisition.h:10-16 | each kind's integer value |
| Acquisition.OrdinalBijective | src/acquisition.h:10-16 | the values 0..4 name the five kinds one to one, from SYSTEM_UNDEFINED = 0 |
| Acquisition.ChannelsNumber | src/acquisition.h:18 | at most 2 channels; 0 exactly for SYSTEM_UNDEFINED and 1 exactly for SYSTEM_REFLECTOMETER |
| Acquisition.AcquisitionParamsNumber | src/acquisition.h:19 | 0 for SYSTEM_UNDEFINED, SR_ACQ_PARAMETERS_NB for SYSTEM_REFLECTOMETER, otherwise 2 or 3, with 3 exactly for SYSTEM_ELLISS_AB |
| Acquisition.KindCounts | src/acquisition.h:18-19 | undefined: 0 channels and 0 parameters; reflectometer: 1 channel and SR_ACQ_PARAMETERS_NB; others 2 channels, with 3 parameters for SYSTEM_ELLISS_AB and 2 for the rest |
| Acquisition.OutOfRangeCounts | src/acquisition.h:18-19 | an integer outside the enumeration counts as 2 channels and 2 parameters |
| Common.Trunc | disp-table.c:120 | C's conversion to int truncates toward zero |

## Left out

- Floating point: doubles are reals. The single-precision `float`
  conversions (the wavelength and weight in disp-sample-table.c:71-89, the
  header in disp-table.c:140, the `nr`, `ni` parameters of
  disp_table_set_index_value in disp-table.c:67 and the row values in
  disp-table.c:165-167, NORMALIZE in refl-utils.c:8) are not rounded.
- The GSL cubic spline (`cspline_array_interp`), `sqrt`, the reference
  dispersion's `n_value` and `disp_get_wavelength_range` are function
  parameters. Their numerics are not modelled.
- The spline parameter always returns a value. GSL's error exits are not
  modelled: fewer than three points, or abscissae that do not strictly
  increase (possible when find_delta_optimal falls back to ka and a
  sampling index repeats).
- File I/O is not modelled: `fopen`, `fgets`/`str_getline`, `sscanf`,
  `fscanf`, `ftell`/`fseek`.
  - The Nova reader receives the lines already classified as a count, a
    calibration line or anything else.
  - `load_refl_data` receives the first line, the remaining lines, the
    classifier and the generic table reader (`data_table_read_lines`) as
    parameters.
  - The NK loader receives its header and rows already parsed.
  - Error messages and `fclose` are not modelled.
- data-table.c is not part of this model. `DataTable` is an abstract
  table with a reference count and a freed flag.
- The `while (true)` loops of both optimisers run on a `fuel` count.
  They return None when it runs out, so termination is not modelled.
- `disp_table_new_from_nk_file` returns an int from a pointer function
  and leaks the dispersion. The model returns the new dispersion, or null
  when the rows are fewer than the header announces or the header's point
  count is below 1.
- DispTable.NewFromNkRows: rejects (null) headers with npt < 1, which the
  source loads. With npt = 0 the source builds a one-row table and
  set_range divides by zero, so the stride is an infinity or NaN; with
  npt < 0 it asks for a table of npt + 1 ≤ 0 rows. Neither has a value
  over the reals.
- ReflUtils.ReadNovaSpectrum: the source can read `lcount`, `dpos` and
  `w` uninitialised. This happens at the end of the file before a
  calibration line, and at a calibration line before any positive count.
  The model fails (None) in both cases.
- Sizes are unbounded integers, so size_t overflow is not modelled.
- SR_ACQ_PARAMETERS_NB is defined outside src/acquisition.h and is a
  parameter.
- fit-params.h is not part of this model. The PID codes (THICKNESS 1,
  LAYER_N 2, FIRSTMUL 3 = PID_LAYER_INDIPENDENT, INVALID 4) follow the
  keyword table of fit_param_write.
- FitParams.CountedArray.CheckAlloc: the ARRAY growth macros are not
  shown. The model doubles the storage; its contract states only that
  room for one entry results.
- FitParams.CountedArray.Remove: requires a non-empty list and a
  non-negative index. The source reads out of bounds otherwise.
- DispSampleTable.SampleNValue and DispSampleTable.SampleTableDisp.NValue:
  require nb ≥ 1, and that λ
  does not select a zero-width first segment (`DefinedAt`, exact by
  `DefinedAtExact`). The source reads row 0 of an empty table or divides
  by zero otherwise.
- DispTable.TableDisp.SetRange: requires a point count other than 1. The
  source divides by zero otherwise.
- DispTable.UniformNValue and DispTable.TableDisp.NValue: require at
  least two points and lmin ≠ lmax. Otherwise disp-table.c:119-120
  converts an infinity or NaN to int, which C leaves undefined.
- DispTable.TableDisp.NodeAtGetLambda: requires lmin ≠ lmax and at least
  two points, for the same reason.
- Str.StrBuf.CopyCSubstr: requires len ≤ the source length. The source
  copies len bytes regardless.
- Str.StrBuf.GetBasename: requires a non-NUL separator. strrchr with NUL
  finds the terminator.
- Str.StrBuf.Dirname: requires a non-NUL separator, for the same reason.
- Str.StrBuf.Pad: requires a non-NUL fill character, so that the contents
  stay a C string.
- SamplingOptim.OptimizeSamplingPoints: requires a table of at least one
  row. The source starts from rows 0 and size−1.
- SamplingOptim.InsertOptPoint and SamplingOptimC.AddNewPointC: the
  internal search loops are separate helper methods (TryCandidate,
  SearchBestC, SegmentCheck). The source's buffers are updated through
  `PodVector` and `TabArray` exactly as written.
- SamplingOptim.DispersionFromIndexPoints: the source fills the new
  table column by column through its GSL matrix view and then calls
  disp_sample_table_prepare_interp, which belongs to a GSL-interpolated
  sample table that is not part of this model. The model stores the same
  values as the rows of disp-sample-table.c's table.
- SamplingOptimC.DispersionFromSamplingPoints: the same column fill and
  prepare_interp call are modelled the same way.
- IndexPointsReproduceNodes (SamplingOptim.IndexPointsReproduceNodes): is
  proved for the linear n_value of disp-sample-table.c, not for the
  GSL interpolation that prepare_interp sets up.
- SamplingPointsReproduceReference
  (SamplingOptimC.SamplingPointsReproduceReference): is proved for the same
  linear n_value, for the same reason.
- TabArrays.PodVector.PushBack: the pod_vector header is not part of this
  model. Its growth is taken to be insert_at's (3/2 of the size needed),
  and the contract says nothing about the capacity.
- TabArrays.PodVector.InsertAt: the pod_vector header is not part of this
  model, so its `resize` is read as a change of capacity that keeps the
  elements (fox-gui/dispers_sampling_optim.cpp:40); the capacity clause
  rests on that reading.
- FitParams.DispParamName and FitParams.ParamName: require that the
  matching dispersion class has an encoder. A class without one (the
  sample-table class registers `.encode_param = NULL`) is excluded,
  because the source calls the encoder without checking it there.
- Not modelled, because they are output formatting, allocation or I/O:
  `str_new`, `str_free`, `str_init_from_c`, `str_init_from_str`,
  `str_append`, `str_getline`, `str_vprintf`/`str_printf`,
  `get_full_param_name`, `seed_write`, `seed_list_write`,
  `fit_parameters_write`, `strategy_new`/`strategy_free`,
  `fit_parameters_new`/`free`, `seed_list_new`/`free`, and the MAT loader
  `disp_sample_table_new_from_mat_file`.

## Findings

| source | as written | input that shows it | evidently intended | confidence | as-written member | corrected member |
|---|---|---|---|---|---|---|
| fox-gui/dispers_sampling_optim.cpp:152-154 | the segment scan runs i up to size−1 and reads ipoints[i+1] | the first call of optimize_sampling_points on a two-row table: ipoints = [0, 1], and row 1's wavelength does not lie strictly inside the segment, so i reaches 1 and ipoints[2] is read | scan only the segments i + 1 < size | not executed | SamplingOptim.TwoRowsReadPastEnd | SamplingOptim.AddNewPoint |
| str.c:301-304 | str_pad calls str_size_check(s, len-1), which guarantees len bytes, then writes len characters plus the terminator | a 15-character string in a 16-byte buffer padded to len = 16: the buffer stays 16 bytes and byte 16 is written | call str_size_check(s, len), which guarantees len + 1 bytes | not executed | Str.PadAsWrittenOverruns | Str.StrBuf.Pad |
