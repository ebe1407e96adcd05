# WFC3 IR simulator core, modelled in Dafny

This project models three small pieces of logic from the `wayne` simulator for the Hubble Space Telescope's WFC3 infrared camera.

- **The data-quality flag decoder** (`WFC3IR_DQFlags`, module `DataQuality`).
  - One integer DQ flag becomes a zero-padded 15-character binary string. Position 0 is the 16384 bit and position 14 is the 1 bit.
  - There is one predicate per named bit of the WFC3 Data Handbook taxonomy, plus the combined `cosmic` flag.
  - `problems()` lists the short names of the raised flags.
  - `_isFlag(name)` looks a flag up by name and raises `ValueError` for unknown names.
- **The detector** (`WFC3_IR`, module `Detector`).
  - Exposure times and read times are looked up in the table of readout modes. The table is passed to the constructor instead of being read from CSV.
  - It builds all-zero pixel grids and embeds the 1014×1014 light-sensitive region in a 1024×1024 frame with a 5-pixel bias border.
  - It computes how many exposures fit in the on-board buffer.
- **Two index utilities** (module `Tools`).
  - `detect_orbits` splits a run of exposures into orbits, using the gaps between their start times.
  - `crop_central_box` crops the middle of a square grid.

Python 2 semantics used by the code are modelled in module `PySemantics`:

- `/` on ints is floor division.
- Slices take negative and out-of-range bounds.

Exceptions become the `Failure` case of `Wrappers.Result`:

| Python exception | Dafny error |
|---|---|
| `IndexError` from `np.array(exp_start_times)[0]` on an empty array | `OrbitError.NoExposures` |
| `ValueError` for an unknown flag name | `FlagError.UnknownFlag` |
| `WFC3SimSampleModeError` | `SampleModeError` |
| numpy's broadcast `ValueError` | `ShapeError.CannotBroadcast` |
| `ZeroDivisionError` | `ArithmeticError.ZeroDivision` |

Method and function kinds follow the source:

- The flag object is a class with fields set once by its constructor.
- `problems`, `_isFlag` and `detect_orbits` are loops, so they are methods with invariants.
- `add_bias_pixels` fills a fresh 1024×1024 array in place, so it is a method over `array2`.
- The lookups and the arithmetic are functions.

## Model

| member | source | states |
|---|---|---|
| PySemantics.FloorDiv | tools.py:245 | Python 2 `/` on ints: the quotient q satisfies q*b <= a < q*b + b for b > 0, and the mirrored bounds for b < 0 |
| PySemantics.SliceBound | tools.py:247 | definition: a slice bound is normalised as Python does: a negative bound counts from the end, and the result is clamped to 0..len |
| PySemantics.Slice | tools.py:247 | `s[start:stop]` has length max(0, stop' - start') and element k is s[start' + k], where start' and stop' are the normalised bounds |
| DataQuality.Binary | tools.py:267 | `'{0:015b}'.format(n)`: at least 15 characters, all of them '0' or '1'; its length, digits and value are stated by the four lemmas below |
| DataQuality.BinaryLength | tools.py:267 | `'{0:015b}'.format(n)` has exactly 15 characters iff n < 32768, and more than 15 otherwise |
| DataQuality.BinaryAt | tools.py:267 | for n < 32768, character k of the formatted flag is '0' or '1', and it is '1' iff bit 14 - k of n is set |
| DataQuality.BinaryRoundTrip | tools.py:267 | the formatted flag is a binary string, and reading it back in base 2 gives n, for every n >= 0 |
| DataQuality.FormatOfValue | tools.py:267 | the converse round trip: any 15 binary digits have a value below 32768, and formatting that value gives back the same digits |
| DataQuality.TopBitIsHalfRange | tools.py:375-379 | for a flag below 32768, bit 14 is set iff the flag is at least 16384 |
| DataQuality.TaxonomyWellFormed | tools.py:428-447 | the base table has 15 rows, row p describes string position p, and no short name occurs twice among base and combined flags |
| DataQuality.FoundAt | tools.py:396-405 | a name found at row i of the combined table is base position i, or it is "cosmic" at row 15 with positions [1, 2]; no other base row has that name |
| DataQuality.SetPositions | tools.py:387-390 | the positions p below n whose bit 14 - p of the flag is set: strictly increasing, each one set, and every such position included (ProblemsStep ties them to the '1' characters for flags below 32768) |
| DataQuality.ProblemsStep | tools.py:387-390 | for a flag below 32768, character i of the formatted flag is '1' exactly when position i joins the set positions, and otherwise they are unchanged |
| DataQuality.SetPositionsCount | tools.py:387-390 | there are as many set positions among the first n characters as there are set bits among the n low bits of flag / 2^(15-n) |
| DataQuality.PopCountZero | tools.py:277-280 | a number below 2^w has no set bit among its w lowest bits iff it is 0 |
| DataQuality.NamesAt | tools.py:390 | definition: the names of the given positions, in the given order: element j is the short name of position j's table row |
| DataQuality.NamesDistinct | tools.py:428-444 | the names of strictly increasing positions are pairwise distinct |
| DataQuality.ProblemCount | tools.py:381-392 | the number of problem positions equals the number of set bits of the flag |
| DataQuality.NoProblemsIffZero | tools.py:381-392 | a flag below 32768 has no problem positions iff it is 0 |
| DataQuality.ProblemNames | tools.py:381-392 | the problem names are one per set bit, pairwise distinct, and there are none exactly when the flag is 0 |
| DataQuality.WFC3IRDQFlags.constructor | tools.py:260-269 | stores the flag, its 15-character binary form, and the base and combined flag tables |
| DataQuality.WFC3IRDQFlags.IsBad | tools.py:271-280 | true iff some character is '1', which holds iff flag != 0 |
| DataQuality.WFC3IRDQFlags.IsRSError | tools.py:282-286 | tests bit 0, so it is true iff the flag is odd |
| DataQuality.WFC3IRDQFlags.IsFilled | tools.py:288-292 | true iff bit 1 is set |
| DataQuality.WFC3IRDQFlags.IsBadPix | tools.py:294-298 | true iff bit 2 is set |
| DataQuality.WFC3IRDQFlags.IsDeviantZero | tools.py:300-304 | true iff bit 3 is set |
| DataQuality.WFC3IRDQFlags.IsHot | tools.py:306-310 | true iff bit 4 is set |
| DataQuality.WFC3IRDQFlags.IsUnstable | tools.py:312-316 | true iff bit 5 is set |
| DataQuality.WFC3IRDQFlags.IsWarm | tools.py:318-322 | true iff bit 6 is set |
| DataQuality.WFC3IRDQFlags.IsBadRef | tools.py:324-328 | true iff bit 7 is set |
| DataQuality.WFC3IRDQFlags.IsSaturated | tools.py:330-334 | true iff bit 8 is set |
| DataQuality.WFC3IRDQFlags.IsBadFlat | tools.py:336-340 | true iff bit 9 is set |
| DataQuality.WFC3IRDQFlags.IsReserved | tools.py:342-346 | true iff bit 10 is set |
| DataQuality.WFC3IRDQFlags.IsZeroSignal | tools.py:348-352 | true iff bit 11 is set |
| DataQuality.WFC3IRDQFlags.IsCosmic | tools.py:354-361 | true iff bit 12 or bit 13 is set, and it equals IsCosmicCalwf3() or IsCosmicDrizzle() |
| DataQuality.WFC3IRDQFlags.IsCosmicDrizzle | tools.py:363-367 | true iff bit 12 is set |
| DataQuality.WFC3IRDQFlags.IsCosmicCalwf3 | tools.py:369-373 | true iff bit 13 is set |
| DataQuality.WFC3IRDQFlags.IsGhost | tools.py:375-379 | true iff bit 14 is set, that is iff the flag is at least 16384 |
| DataQuality.WFC3IRDQFlags.Problems | tools.py:381-392 | returns the short names of exactly the set positions, in position order; the count equals the number of set bits; the list is empty iff !IsBad() |
| DataQuality.WFC3IRDQFlags.IsFlag | tools.py:394-421 | fails with the name iff the name is in neither table; a base name gives the test of its own bit; "cosmic" gives IsCosmic() |
| Tools.OrbitStarts | tools.py:217-222 | the exposures below n whose start is at least `separation` after the previous start: strictly increasing, and holding every such exposure |
| Tools.DetectOrbits | tools.py:198-224 | fails exactly on an empty input (IndexError at `exp_start_times[0]`); otherwise returns 0 followed by every exposure that starts an orbit, in order |
| Tools.DetectOrbitsDefault | tools.py:198 | `detect_orbits` with its default separation 0.028: fails exactly on an empty input, otherwise 0 followed by the orbit starts at that separation |
| Tools.OrbitIndexShape | tools.py:215-224 | the result starts with 0, holds only valid indices, and holds i > 0 iff times[i] - times[i-1] >= separation |
| Tools.OrbitIndexIncreasing | tools.py:212-224 | with a positive separation the result is strictly increasing |
| Tools.NonPositiveSeparationRepeatsZero | tools.py:215-222 | with separation <= 0, exposure 0 is compared with itself, so 0 appears twice; with ordered start times every exposure is listed |
| Tools.CountAllStarts | tools.py:217-222 | when every exposure starts an orbit, all n exposures below n are listed |
| Tools.CropCentralBox | tools.py:240-247 | `array[index:-index, index:-index]` with `index = (n - size) // 2`: empty when the trim is 0, and n - 2*index rows when the trim is positive; entries are stated by CropCentralBoxInterior and the empty case by CropOfFullSizeIsEmpty |
| Tools.SliceInterior | tools.py:247 | with a positive trim of at most half the length, `s[index:-index]` has length len - 2*index and element k is s[k + index] |
| Tools.CropCentralBoxInterior | tools.py:240-247 | on an n×n grid with a positive trim `index = (n - size) // 2`, the result is square with side n - 2*index, and entry (r, c) is input entry (r + index, c + index) |
| Tools.CropOfFullSizeIsEmpty | tools.py:245-247 | when the trim is 0, the stop bound `-0` is 0 and the result is empty |
| Tools.CropFullSizeCounterexample | tools.py:245-247 | cropping a 2×2 grid to size 2 gives an empty grid |
| Tools.CropCentralBoxCorrected | tools.py:240-247 | the central size×size box: square of side size, with entry (r, c) equal to input (r + index, c + index) |
| Tools.CorrectedAgreesWhereCodeWorks | tools.py:240-247 | the corrected crop returns the whole grid for size == n, and equals the code as written whenever the trim is positive and n - size is even |
| Detector.Matches | detector.py:52 | the indices of the rows a mask accepts, in increasing order, all of them and only them |
| Detector.SelectionSnoc | detector.py:52 | extending the table by one row extends its selection by that row's index exactly when the mask accepts the row |
| Detector.SelectionEmpty | detector.py:52-54 | a selection is empty iff the mask accepts no row of the table, which is when `exptime_table.empty` holds |
| Detector.SelectionFirst | detector.py:58 | a non-empty selection starts at an accepted row, and no accepted row comes before it |
| Detector.SelectionTimesUnique | detector.py:116-122 | every selection of the same mask gives the same TIME column |
| Detector.SelectionUnique | detector.py:116 | only one index sequence selects the rows a mask accepts, so "the matching rows in table order" is exact |
| Detector.SelectionHeads | detector.py:116 | two selections are empty together, and otherwise start at the same row |
| Detector.SelectionTail | detector.py:116 | dropping a selection's first index leaves the selection of the rows after it |
| Detector.TimesAt | detector.py:122 | definition: the TIME column of the given rows, in the order given |
| Detector.RampEndsAtMode | detector.py:96-122 | when a mode's ramp rows increase in NSAMP, its last read is the row of the mode itself |
| Detector.FirstModeRow | detector.py:52-59 | in such a table no row before the mode's row is that mode |
| Detector.AllowedReads | detector.py:151-159 | definition: the frame budget is min(304, 2*16*(1024 // SUBARRAY)) |
| Detector.MaxExposuresBeforeDump | detector.py:151-163 | for NSAMP >= 0, the largest n with n*(NSAMP+1) frames within the budget, and non-negative for positive SUBARRAY; for NSAMP < -1, the mirrored floor bounds (n+1)*(NSAMP+1) < budget <= n*(NSAMP+1) |
| Detector.BufferWithinLimits | detector.py:138-140 | the exposures that fit never use more than 304 frames, nor more than two full-frame 16-sample exposures |
| Detector.BufferExamples | detector.py:151-163 | (NSAMP, SUBARRAY) = (15, 1024) gives 2, (1, 256) gives 64, and (15, 64) gives 19 |
| Detector.MoreSamplesFewerExposures | detector.py:153-163 | for a fixed positive SUBARRAY, more samples never let more exposures fit |
| Detector.WFC3IR.constructor | detector.py:17-33 | keeps the modes table it is given |
| Detector.WFC3IR.Exptime | detector.py:35-59 | fails with the mode iff no row matches all three keys; otherwise returns the TIME of the first matching row |
| Detector.WFC3IR.GetReadTimes | detector.py:96-122 | refuses NSAMP outside 1..15 before the table is consulted; fails iff no row has the same SAMPSEQ and SUBARRAY with NSAMP at most the argument; otherwise returns those rows' TIMEs in table order |
| Detector.WFC3IR.ReadTimesEndAtExptime | detector.py:35-122 | when the ramp rows are in increasing NSAMP order and the mode is in the table, the last read time equals the exposure time |
| Detector.WFC3IR.GenPixelArray | detector.py:61-76 | a fresh all-zero grid: 1014×1014 when light-sensitive, which is the default, otherwise 1024×1024 |
| Detector.WFC3IR.AddBiasPixels | detector.py:78-94 | refuses inputs numpy cannot broadcast to 1014×1014; otherwise returns a fresh 1024×1024 grid with entry (r+5, c+5) equal to the broadcast input entry (r, c) and zeros on the 5-pixel border |
| Detector.WFC3IR.NumExpPerBuffer | detector.py:137-163 | raises ZeroDivisionError iff SUBARRAY == 0 or NSAMP + 1 == 0; otherwise, for NSAMP >= 0, the result n satisfies n*(NSAMP+1) <= budget < (n+1)*(NSAMP+1) and the frames used stay within 304 for positive SUBARRAY; for NSAMP < -1 it satisfies the mirrored bounds (n+1)*(NSAMP+1) < budget <= n*(NSAMP+1) |

## Left out

- `make_nonlinear`: floating-point root finding with `np.roots`, plus reading a FITS file.
- `rebin_spec` and `get_limb_darkening_coeffs`: thin wrappers over pysynphot and pylightcurve. Those libraries are not part of this model.
- `load_pheonix_stellar_grid_fits` and `WFC3_IR._get_modes`: file and CSV loading. The modes table is a constructor argument instead.
- `crop_spectrum`, `bin_centers_to_edges`, `bin_centers_to_widths`, `wl_at_resolution` and `order_flux_grid`: float array arithmetic. Exact reals would not reproduce their floating-point behaviour.
- `WFC3_IR._pixel_array`: a 1024×1024 zero array that no modelled method reads.
- `WFC3_IR.pixel_unit` and `telescope_area`: astropy units and a float π.
- The `* u.s` unit attached to exposure and read times: times are bare reals.
- The `print` in `isBad`: console output with no effect on the result.
- Start times, separations and TIME values are exact reals, not IEEE doubles.
- DataQuality.WFC3IRDQFlags.constructor: requires 0 <= flag < 32768.
  - The WFC3 IR taxonomy has 15 bits.
  - For larger flags the formatted string is longer than 15 characters, so every position shifts; negative flags format with a sign.
- Tools.CropCentralBox: `seq<seq<T>>` stands for a 2-D numpy array. A list of lists, where the tuple index `array[a:b, c:d]` raises TypeError, is not modelled.
- Detector.WFC3IR.AddBiasPixels: only 2-D inputs are modelled.
  - numpy would also broadcast a 1-D row or a scalar into the region.
  - The result is identical to that of the matching 1×1014 or 1×1 input.
- `is '1'` comparisons are modelled as character equality. That is how they behave under CPython's interning of one-character strings.
- Four behaviours of the code that a reader might expect to differ; the model follows the code.
  - `detect_orbits` returns a list without the trailing `None` its docstring promises (tools.py:206-208).
  - `get_read_times` returns rows in table order without sorting them.
  - `num_exp_per_buffer` checks nothing beyond the ZeroDivisionError that its divisions raise.
  - `_isFlag` takes one name, although its docstring promises a tuple or list of names (tools.py:395-396). The code compares the whole argument with each short name, so a list matches nothing and raises ValueError; the model's `IsFlag` takes a single name.

## Findings

| source | as written | input that shows it | evidently intended | confidence | as-written member | corrected member |
|---|---|---|---|---|---|---|
| tools.py:245-247 | `array[index:-index, index:-index]` with `index = (len(array) - size) / 2` | `crop_central_box(np.array([[1, 2], [3, 4]]), 2)`: index is 0 and `array[0:-0, 0:-0]` is empty, so the result is an empty 0×0 array instead of the whole array | the central size×size box, `array[index:index+size, index:index+size]` | not executed | Tools.CropFullSizeCounterexample | Tools.CropCentralBoxCorrected |
